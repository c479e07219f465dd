/** Row layouts: the recursive specification, what it means for the scalars at every depth, and how it is computed. */
module Layouts {
  import opened Collections
  import opened Graphs
  import opened SchemaLibrary
  import opened Wrappers
  import opened Validator

  const U32: nat := 0x1_0000_0000

  function Max(a: nat, b: nat): nat {
    if a < b then b else a
  }

  /** The next multiple of the alignment. */
  function AlignUp(value: nat, alignment: nat): (r: nat)
    ensures r >= value
    ensures alignment in {1, 8} ==> r < value + alignment && r % alignment == 0
  {
    if alignment <= 1 then value
    else
      RoundsUp(value, alignment);
      (value + alignment - 1) / alignment * alignment
  }

  lemma RoundsUp(value: nat, alignment: nat)
    requires alignment > 1
    ensures (value + alignment - 1) / alignment * alignment >= value
  {
    var n := value + alignment - 1;
    assert n == alignment * (n / alignment) + n % alignment;
  }

  /** The same on 32-bit words. */
  function AlignUp32(value: nat, alignment: nat): nat {
    if alignment <= 1 then value
    else (value + alignment - 1) % U32 / alignment * alignment % U32
  }

  function Add32(a: nat, b: nat): nat {
    (a + b) % U32
  }

  /** Exact as long as the multiple itself is a word. */
  lemma {:induction false} AlignUp32Is(value: nat, alignment: nat)
    requires alignment in {1, 8} && AlignUp(value, alignment) < U32
    ensures AlignUp32(value, alignment) == AlignUp(value, alignment)
  {}

  /** Size and alignment of the scalar types. */
  function ScalarLayout(typ: string): (r: Option<(nat, nat)>)
    ensures r.Some? <==> IsScalarType(typ)
    ensures r.Some? ==> r.value in {(1, 1), (8, 8), (16, 8)}
  {
    if typ == "int" || typ == "float" || typ == "ref" then Some((8, 8))
    else if typ == "bool" then Some((1, 1))
    else if typ == "string" then Some((16, 8))
    else None
  }

  // ---------- the layout of a row type, as a recursive specification ----------

  /** A column type with everything spelled out: a scalar or enum, or a struct with its columns. */
  datatype Tree = Leaf(size: nat, align: nat) | Row(columns: Columns)

  datatype Columns = Empty | Snoc(init: Columns, name: string, column: Tree)

  /** Only the sizes and alignments that occur. */
  predicate Sound(t: Tree) {
    match t
    case Leaf(size, align) => (size, align) in {(1, 1), (8, 8), (16, 8)}
    case Row(columns) => SoundColumns(columns)
  }

  predicate SoundColumns(cs: Columns) {
    cs.Snoc? ==> SoundColumns(cs.init) && Sound(cs.column)
  }

  function Size(t: Tree): nat {
    match t
    case Leaf(size, align) => size
    case Row(columns) => Max(AlignUp(End(columns), MaxAlign(columns)), 1)
  }

  function Align(t: Tree): nat {
    match t
    case Leaf(size, align) => align
    case Row(columns) => MaxAlign(columns)
  }

  /** Where the columns end. */
  function End(cs: Columns): nat {
    match cs
    case Empty => 0
    case Snoc(init, name, column) => AlignUp(End(init), Align(column)) + Size(column)
  }

  function MaxAlign(cs: Columns): nat {
    match cs
    case Empty => 1
    case Snoc(init, name, column) => Max(MaxAlign(init), Align(column))
  }

  /** Sizes are positive multiples of alignments. */
  lemma {:induction false} SizesFit(t: Tree)
    requires Sound(t)
    ensures Align(t) in {1, 8} && Size(t) > 0 && Size(t) % Align(t) == 0
    ensures t.Row? ==> Size(t) >= End(t.columns)
  {
    if t.Row? { ColumnsFit(t.columns); }
  }

  lemma {:induction false} ColumnsFit(cs: Columns)
    requires SoundColumns(cs)
    ensures MaxAlign(cs) in {1, 8}
    ensures cs.Snoc? ==> End(cs) > 0
    ensures cs.Empty? ==> MaxAlign(cs) == 1
  {
    if cs.Snoc? {
      ColumnsFit(cs.init);
      SizesFit(cs.column);
    }
  }

  // ---------- the same on 32-bit words, as it is computed ----------

  function Size32(t: Tree): nat {
    match t
    case Leaf(size, align) => size
    case Row(columns) => Max(AlignUp32(End32(columns), MaxAlign(columns)), 1)
  }

  function End32(cs: Columns): nat {
    match cs
    case Empty => 0
    case Snoc(init, name, column) => Add32(AlignUp32(End32(init), Align(column)), Size32(column))
  }

  lemma {:induction false} EndExact(cs: Columns)
    requires SoundColumns(cs) && End(cs) < U32
    ensures End32(cs) == End(cs)
    ensures cs.Snoc? ==> AlignUp32(End32(cs.init), Align(cs.column)) == AlignUp(End(cs.init), Align(cs.column))
  {
    hide AlignUp32, Align, Size, Size32, AlignUp;
    if cs.Snoc? {
      AtLeast(End(cs.init), Align(cs.column));
      EndExact(cs.init);
      SizeExact(cs.column);
      SizesFit(cs.column);
      AlignUp32Is(End(cs.init), Align(cs.column));
    }
  }

  lemma AtLeast(value: nat, alignment: nat)
    ensures AlignUp(value, alignment) >= value
  {}

  lemma {:induction false} SizeExact(t: Tree)
    requires Sound(t) && Size(t) < U32
    ensures Size32(t) == Size(t)
  {
    hide AlignUp32, AlignUp, End, End32, MaxAlign;
    if t.Row? {
      AtLeast(End(t.columns), MaxAlign(t.columns));
      EndExact(t.columns);
      ColumnsFit(t.columns);
      AlignUp32Is(End(t.columns), MaxAlign(t.columns));
    }
  }

  lemma {:induction false} WordSize(t: Tree)
    requires Sound(t)
    ensures Size32(t) < U32
  {}

  /** Sizes are computed exactly when they are 32-bit words; nothing inside can spoil that. */
  lemma {:induction false} SizeExactIff(t: Tree)
    requires Sound(t)
    ensures Size32(t) == Size(t) <==> Size(t) < U32
  {
    hide Size, Size32;
    WordSize(t);
    if Size(t) < U32 { SizeExact(t); }
  }

  // ---------- the scalars at every depth ----------

  /** A scalar or enum column inside a row, at any nesting depth. */
  datatype Place = Place(path: seq<string>, offset: nat, size: nat, align: nat)

  function Places(t: Tree, at: nat, path: seq<string>): seq<Place> {
    match t
    case Leaf(size, align) => [Place(path, at, size, align)]
    case Row(columns) => ColumnPlaces(columns, at, path)
  }

  function ColumnPlaces(cs: Columns, base: nat, path: seq<string>): seq<Place> {
    match cs
    case Empty => []
    case Snoc(init, name, column) =>
      ColumnPlaces(init, base, path) + Places(column, base + AlignUp(End(init), Align(column)), path + [name])
  }

  /** Aligned, inside the given bytes, and one after the other without overlap. */
  ghost predicate Tidy(places: seq<Place>, from: nat, to: nat) {
    && (forall i :: 0 <= i < |places| ==> Aligned(places[i])
                                          && from <= places[i].offset && places[i].offset + places[i].size <= to)
    && forall i, j :: 0 <= i < j < |places| ==> places[i].offset + places[i].size <= places[j].offset
  }

  predicate Aligned(p: Place) {
    p.align > 0 && p.offset % p.align == 0
  }

  lemma TidyConcat(a: seq<Place>, b: seq<Place>, from: nat, mid: nat, mid': nat, to: nat)
    requires Tidy(a, from, mid) && Tidy(b, mid', to) && from <= mid <= mid' <= to
    ensures Tidy(a + b, from, to)
  {}

  lemma AlignedSum(base: nat, whole: nat, init: nat, end: nat, align: nat)
    requires whole in {1, 8} && init in {1, 8} && align in {1, 8} && whole == Max(init, align) && base % whole == 0
    ensures base % init == 0 && (base + AlignUp(end, align)) % align == 0 && AlignUp(end, align) >= end
  {}

  /** Every scalar of a row lies at a multiple of its alignment, in bytes of its own, inside the row. */
  lemma {:induction false} PlacesTidy(t: Tree, at: nat, path: seq<string>)
    requires Sound(t) && Align(t) > 0 && at % Align(t) == 0
    ensures Tidy(Places(t, at, path), at, at + Size(t))
  {
    SizesFit(t);
    if t.Row? { ColumnPlacesTidy(t.columns, at, path); }
  }

  lemma {:induction false} ColumnPlacesTidy(cs: Columns, base: nat, path: seq<string>)
    requires SoundColumns(cs) && MaxAlign(cs) > 0 && base % MaxAlign(cs) == 0
    ensures Tidy(ColumnPlaces(cs, base, path), base, base + End(cs))
  {
    hide Size, Align, AlignUp, MaxAlign, End, Tidy, Sound;
    if cs.Snoc? {
      var at := AlignUp(End(cs.init), Align(cs.column));
      SnocPlaced(cs, base);
      ColumnPlacesTidy(cs.init, base, path);
      PlacesTidy(cs.column, base + at, path + [cs.name]);
      TidyConcat(ColumnPlaces(cs.init, base, path), Places(cs.column, base + at, path + [cs.name]),
                 base, base + End(cs.init), base + at, base + End(cs));
    } else {
      NothingTidy(base, base + End(cs));
    }
  }

  lemma NothingTidy(from: nat, to: nat)
    ensures Tidy([], from, to)
  {}

  lemma {:induction false} SnocPlaced(cs: Columns, base: nat)
    requires SoundColumns(cs) && cs.Snoc? && MaxAlign(cs) > 0 && base % MaxAlign(cs) == 0
    ensures MaxAlign(cs.init) > 0 && base % MaxAlign(cs.init) == 0
    ensures var at := AlignUp(End(cs.init), Align(cs.column));
            && Align(cs.column) > 0 && (base + at) % Align(cs.column) == 0
            && End(cs.init) <= at && End(cs) == at + Size(cs.column)
  {
    hide AlignUp, Size, Align;
    ColumnsFit(cs);
    ColumnsFit(cs.init);
    SizesFit(cs.column);
    AlignedSum(base, MaxAlign(cs), MaxAlign(cs.init), End(cs.init), Align(cs.column));
  }

  // ---------- the row types of a library ----------

  function Fields(lib: Library, x: string): seq<Field> {
    var s := Find(lib, x);
    if s.Some? then s.value.fields else []
  }

  /** How much a row can reach; less for each row inside it. */
  ghost function Depth(lib: Library, x: string): nat {
    |ReachSet(GraphOf(lib, RowTypes), x)|
  }

  ghost predicate IsStruct(lib: Library, typ: string) {
    !IsScalarType(typ) && Find(lib, typ).Some? && Find(lib, typ).value.kind == Struct
  }

  ghost predicate IsEnum(lib: Library, typ: string) {
    !IsScalarType(typ) && Find(lib, typ).Some? && Find(lib, typ).value.kind == Enum
  }

  /** A column that holds a row. */
  ghost predicate IsRow(lib: Library, typ: string) {
    !IsScalarType(typ) && Find(lib, typ).Some? && Find(lib, typ).value.kind != Enum
  }

  // ---------- which rows can be laid out ----------

  predicate Known(lib: Library, typ: string) {
    IsScalarType(typ) || Find(lib, typ).Some?
  }

  ghost predicate LayableHere(lib: Library, y: string) {
    && !Reaches(GraphOf(lib, RowTypes), y, y)
    && forall k :: 0 <= k < |Fields(lib, y)| ==> Known(lib, Fields(lib, y)[k].typ)
  }

  /** Every type at any depth is known, and no row at any depth contains itself. */
  ghost predicate Layable(lib: Library, x: string) {
    forall y :: ReachesOrIs(GraphOf(lib, RowTypes), x, y) ==> LayableHere(lib, y)
  }

  ghost predicate TypeLayable(lib: Library, typ: string) {
    Known(lib, typ) && (IsRow(lib, typ) ==> Layable(lib, typ))
  }

  ghost predicate LayableTo(lib: Library, x: string, k: nat) {
    && x in Rows(lib) && k <= |Fields(lib, x)|
    && forall i :: 0 <= i < k ==> TypeLayable(lib, Fields(lib, x)[i].typ)
  }

  ghost predicate RowLayable(lib: Library, x: string) {
    LayableTo(lib, x, |Fields(lib, x)|)
  }

  /** What a row's columns hold is what it reaches first. */
  lemma {:induction false} RowColumns(lib: Library, x: string, y: string)
    requires x in Rows(lib)
    ensures y in Succ(lib, RowTypes, x) <==>
            exists k :: 0 <= k < |Fields(lib, x)| && Fields(lib, x)[k].typ == y && IsRow(lib, Fields(lib, x)[k].typ)
  {
    hide Rows;
    assert Find(lib, x).Some? by { NamedInRows(lib, x); }
    NestedNamesAre(lib, Fields(lib, x), RowTypes, y);
    forall k | 0 <= k < |Fields(lib, x)|
      ensures Nested(lib, Fields(lib, x)[k], RowTypes).Some? <==> IsRow(lib, Fields(lib, x)[k].typ)
    {}
  }

  lemma NamedInRows(lib: Library, x: string)
    requires x in Rows(lib)
    ensures Find(lib, x).Some?
  {}

  lemma RowInRows(lib: Library, typ: string)
    requires IsRow(lib, typ)
    ensures typ in Rows(lib)
  {
    FoundIn(lib, typ);
  }

  lemma {:induction false} ColumnDown(lib: Library, x: string, k: nat)
    requires x in Rows(lib) && k < |Fields(lib, x)| && IsRow(lib, Fields(lib, x)[k].typ)
    ensures Fields(lib, x)[k].typ in Rows(lib) && Fields(lib, x)[k].typ in Succ(lib, RowTypes, x)
    ensures Layable(lib, Fields(lib, x)[k].typ) ==> Depth(lib, Fields(lib, x)[k].typ) < Depth(lib, x)
  {
    hide Rows, Succ, Reaches;
    var g, y := GraphOf(lib, RowTypes), Fields(lib, x)[k].typ;
    RowColumns(lib, x, y);
    RowInRows(lib, y);
    InGraph(lib, x);
    if Layable(lib, y) {
      assert ReachesOrIs(g, y, y) && LayableHere(lib, y);
      StepDown(g, x, y);
    }
  }

  lemma InGraph(lib: Library, x: string)
    requires x in Rows(lib)
    ensures x in GraphOf(lib, RowTypes).nodes && GraphOf(lib, RowTypes).succ(x) == Succ(lib, RowTypes, x)
  {}

  /** It can be decided column by column. */
  lemma {:induction false} LayableByColumns(lib: Library, x: string)
    requires x in Rows(lib)
    ensures Layable(lib, x) <==> RowLayable(lib, x)
  {
    hide Rows, Succ, Reaches, Fields;
    var g := GraphOf(lib, RowTypes);
    InGraph(lib, x);
    if Layable(lib, x) {
      assert ReachesOrIs(g, x, x) && LayableHere(lib, x);
      forall i | 0 <= i < |Fields(lib, x)| ensures TypeLayable(lib, Fields(lib, x)[i].typ) {
        if IsRow(lib, Fields(lib, x)[i].typ) {
          ColumnDown(lib, x, i);
          LayableBelow(lib, x, Fields(lib, x)[i].typ);
        }
      }
    }
    if RowLayable(lib, x) {
      forall y | ReachesOrIs(g, x, y) ensures LayableHere(lib, y) {
        if Reaches(g, x, y) {
          LayableReached(lib, x, y);
        } else if Reaches(g, x, x) {
          LayableReached(lib, x, x);
        }
      }
    }
  }

  lemma {:induction false} LayableBelow(lib: Library, x: string, y: string)
    requires x in Rows(lib) && Layable(lib, x) && y in Succ(lib, RowTypes, x)
    ensures Layable(lib, y)
  {
    hide Rows, Succ, Reaches, LayableHere;
    var g := GraphOf(lib, RowTypes);
    InGraph(lib, x);
    StepReaches(g, x, y);
    forall z | ReachesOrIs(g, y, z) ensures LayableHere(lib, z) {
      if y != z { ReachesTrans(g, x, y, z); }
      assert ReachesOrIs(g, x, z);
    }
  }

  lemma {:induction false} LayableReached(lib: Library, x: string, y: string)
    requires RowLayable(lib, x) && Reaches(GraphOf(lib, RowTypes), x, y)
    ensures LayableHere(lib, y)
  {
    hide Rows, Succ, Reaches, LayableHere;
    InGraph(lib, x);
    var z := ReachesFirst(GraphOf(lib, RowTypes), x, y);
    RowColumns(lib, x, z);
    var k :| 0 <= k < |Fields(lib, x)| && Fields(lib, x)[k].typ == z && IsRow(lib, Fields(lib, x)[k].typ);
    assert TypeLayable(lib, Fields(lib, x)[k].typ);
  }

  /** A validated field's type is a scalar, an enum, or a struct from which less can be reached. */
  lemma {:induction false} FieldTypes(lib: Library, x: string, k: nat)
    requires Validated(lib) && x in Rows(lib) && k < |Fields(lib, x)|
    ensures var typ := Fields(lib, x)[k].typ;
            && (IsScalarType(typ) || IsEnum(lib, typ) || IsStruct(lib, typ))
            && (IsStruct(lib, typ) ==> typ in Rows(lib) && typ in Succ(lib, Structs, x) && Depth(lib, typ) < Depth(lib, x))
  {
    hide Reaches, Depth;
    ValidatedKinds(lib, x, k);
    if IsStruct(lib, Fields(lib, x)[k].typ) {
      ColumnDown(lib, x, k);
      ValidatedEdges(lib, x, Fields(lib, x)[k].typ);
      ValidatedLayable(lib, Fields(lib, x)[k].typ);
      LayableByColumns(lib, Fields(lib, x)[k].typ);
    }
  }

  lemma {:induction false} ValidatedKinds(lib: Library, x: string, k: nat)
    requires Validated(lib) && x in Rows(lib) && k < |Fields(lib, x)|
    ensures var typ := Fields(lib, x)[k].typ; IsScalarType(typ) || IsEnum(lib, typ) || IsStruct(lib, typ)
  {
    var s := Find(lib, x).value;
    var r :| r in lib && r.kind != Enum && r.name == x;
    FindUnique(lib, r);
    assert SchemaOk(lib, s) && FieldOk(lib, s.fields[k]);
  }

  lemma {:induction false} ValidatedEdges(lib: Library, x: string, y: string)
    requires Validated(lib) && x in Rows(lib) && y in Succ(lib, RowTypes, x)
    ensures y in Succ(lib, Structs, x)
  {
    hide Validated, Rows, NestedNames;
    RowColumns(lib, x, y);
    var k :| 0 <= k < |Fields(lib, x)| && Fields(lib, x)[k].typ == y && IsRow(lib, Fields(lib, x)[k].typ);
    ValidatedKinds(lib, x, k);
    NamedInRows(lib, x);
    NestedNamesAre(lib, Fields(lib, x), Structs, y);
    assert Nested(lib, Fields(lib, x)[k], Structs).Some?;
  }

  /** Validation suffices for every row to be laid out. */
  lemma {:induction false} ValidatedLayable(lib: Library, x: string)
    requires Validated(lib) && x in Rows(lib)
    ensures RowLayable(lib, x)
  {
    hide Rows, Succ, Reaches, Validated, Acyclic;
    var g := GraphOf(lib, RowTypes);
    forall y | ReachesOrIs(g, x, y) ensures LayableHere(lib, y) {
      ReachedInRows(lib, x, y);
      forall k | 0 <= k < |Fields(lib, y)| ensures Known(lib, Fields(lib, y)[k].typ) { ValidatedKinds(lib, y, k); }
      if Reaches(g, y, y) { NotOnCycle(lib, y); }
    }
    LayableByColumns(lib, x);
  }

  lemma {:induction false} ReachedInRows(lib: Library, x: string, y: string)
    requires x in Rows(lib) && ReachesOrIs(GraphOf(lib, RowTypes), x, y)
    ensures y in Rows(lib)
  {
    if x != y {
      var p :| PathFromTo(GraphOf(lib, RowTypes), p, x, y);
      PathStays(GraphOf(lib, RowTypes), p, |p| - 1);
    }
  }

  lemma {:induction false} NotOnCycle(lib: Library, y: string)
    requires Validated(lib) && y in Rows(lib)
    ensures !Reaches(GraphOf(lib, RowTypes), y, y)
  {
    hide Rows, Succ, Reaches;
    var g, g' := GraphOf(lib, RowTypes), GraphOf(lib, Structs);
    if Reaches(g, y, y) {
      forall u, v | u in g.nodes && v in g.succ(u) ensures v in g'.succ(u) { ValidatedEdges(lib, u, v); }
      ReachesMore(g, g', y, y);
    }
  }

  // ---------- their trees ----------

  ghost function FieldTree(lib: Library, x: string, k: nat): (t: Tree)
    requires x in Rows(lib) && k < |Fields(lib, x)| && TypeLayable(lib, Fields(lib, x)[k].typ)
    ensures Sound(t)
    decreases Depth(lib, x), 0
  {
    hide Rows, Succ, Depth, Layable, RowLayable;
    var typ := Fields(lib, x)[k].typ;
    if ScalarLayout(typ).Some? then Leaf(ScalarLayout(typ).value.0, ScalarLayout(typ).value.1)
    else if Find(lib, typ).value.kind == Enum then Leaf(16, 8)
    else
      ColumnDown(lib, x, k);
      LayableByColumns(lib, typ);
      RowTree(lib, typ)
  }

  ghost function ColumnsOf(lib: Library, x: string, k: nat): (cs: Columns)
    requires LayableTo(lib, x, k)
    ensures SoundColumns(cs)
    decreases Depth(lib, x), 1 + k
  {
    hide Rows, Depth, TypeLayable;
    if k == 0 then Empty
    else Snoc(ColumnsOf(lib, x, k - 1), Fields(lib, x)[k - 1].name, FieldTree(lib, x, k - 1))
  }

  ghost function RowTree(lib: Library, x: string): (t: Tree)
    requires RowLayable(lib, x)
    ensures Sound(t)
    decreases Depth(lib, x), 2 + |Fields(lib, x)|
  {
    hide Rows, Depth, LayableTo;
    Row(ColumnsOf(lib, x, |Fields(lib, x)|))
  }

  /** So every row has its scalars aligned and apart, at whatever multiple of its alignment it lies. */
  lemma {:induction false} RowTidy(lib: Library, x: string, at: nat)
    requires RowLayable(lib, x)
    ensures Align(RowTree(lib, x)) in {1, 8} && Size(RowTree(lib, x)) % Align(RowTree(lib, x)) == 0
    ensures at % Align(RowTree(lib, x)) == 0 ==> Tidy(Places(RowTree(lib, x), at, []), at, at + Size(RowTree(lib, x)))
  {
    hide Rows, RowTree, RowLayable;
    SizesFit(RowTree(lib, x));
    if at % Align(RowTree(lib, x)) == 0 { PlacesTidy(RowTree(lib, x), at, []); }
  }

  /** The offset of the k-th column. */
  ghost function Offset(lib: Library, x: string, k: nat): nat
    requires LayableTo(lib, x, k + 1)
  {
    AlignUp(End(ColumnsOf(lib, x, k)), Align(FieldTree(lib, x, k)))
  }

  /** As it is computed. */
  ghost function Offset32(lib: Library, x: string, k: nat): nat
    requires LayableTo(lib, x, k + 1)
  {
    AlignUp32(End32(ColumnsOf(lib, x, k)), Align(FieldTree(lib, x, k)))
  }

  lemma {:induction false} EndMonotone(lib: Library, x: string, k: nat, n: nat)
    requires LayableTo(lib, x, n) && k <= n
    ensures LayableTo(lib, x, k) && End(ColumnsOf(lib, x, k)) <= End(ColumnsOf(lib, x, n))
    decreases n - k
  {
    hide Rows, FieldTree, Fields, End, ColumnsOf, TypeLayable;
    if k < n {
      EndMonotone(lib, x, k, n - 1);
      EndStep(lib, x, n - 1);
    }
  }

  lemma EndStep(lib: Library, x: string, k: nat)
    requires LayableTo(lib, x, k + 1)
    ensures LayableTo(lib, x, k)
    ensures ColumnsOf(lib, x, k + 1) == Snoc(ColumnsOf(lib, x, k), Fields(lib, x)[k].name, FieldTree(lib, x, k))
    ensures End(ColumnsOf(lib, x, k + 1)) >= End(ColumnsOf(lib, x, k))
  {
    hide Rows, FieldTree, Size, Align, TypeLayable;
  }

  /** A row below 2^32 bytes gets its size and every offset exactly, and a larger one does not get its size. */
  lemma {:induction false} RowExactIff(lib: Library, x: string)
    requires RowLayable(lib, x)
    ensures Size32(RowTree(lib, x)) == Size(RowTree(lib, x)) <==> Size(RowTree(lib, x)) < U32
    ensures Size(RowTree(lib, x)) < U32 ==>
              forall k :: 0 <= k < |Fields(lib, x)| ==> Offset32(lib, x, k) == Offset(lib, x, k)
  {
    hide Rows, Size, Size32, Offset, Offset32, Fields, TypeLayable, RowTree;
    SizeExactIff(RowTree(lib, x));
    if Size(RowTree(lib, x)) < U32 {
      forall k: nat | k < |Fields(lib, x)| ensures Offset32(lib, x, k) == Offset(lib, x, k) {
        OffsetExact(lib, x, k);
      }
    }
  }

  lemma {:induction false} OffsetExact(lib: Library, x: string, k: nat)
    requires RowLayable(lib, x) && k < |Fields(lib, x)| && Size(RowTree(lib, x)) < U32
    ensures LayableTo(lib, x, k + 1) && Offset32(lib, x, k) == Offset(lib, x, k)
  {
    hide Rows, Size, End, End32, AlignUp, AlignUp32, ColumnsOf, FieldTree, TypeLayable;
    EndMonotone(lib, x, k + 1, |Fields(lib, x)|);
    SizesFit(RowTree(lib, x));
    EndStep(lib, x, k);
    EndExact(ColumnsOf(lib, x, k + 1));
  }

  // ---------- in bytes ----------

  /** The first multiple of an alignment that is not before a position. */
  ghost predicate FirstMultiple(r: nat, alignment: nat, position: nat) {
    && alignment > 0 && r >= position && r % alignment == 0
    && forall m: nat :: m >= position && m % alignment == 0 ==> r <= m
  }

  lemma {:induction false} AlignUpFirst(value: nat, alignment: nat)
    requires alignment in {1, 8}
    ensures FirstMultiple(AlignUp(value, alignment), alignment, value)
  {}

  /** What a column takes: 8 bytes for int, float and ref, 1 for bool, 16 for string and enums, a row its own size. */
  lemma {:induction false} ColumnBytes(lib: Library, x: string, k: nat)
    requires LayableTo(lib, x, k + 1)
    ensures var typ, t := Fields(lib, x)[k].typ, FieldTree(lib, x, k);
            && (typ == "int" || typ == "float" || typ == "ref" ==> Size(t) == 8 && Align(t) == 8)
            && (typ == "bool" ==> Size(t) == 1 && Align(t) == 1)
            && (typ == "string" ==> Size(t) == 16 && Align(t) == 8)
            && (IsEnum(lib, typ) ==> Size(t) == 16 && Align(t) == 8)
            && (IsRow(lib, typ) ==> RowLayable(lib, typ) && t == RowTree(lib, typ))
  {
    hide Rows, Succ, Depth, Layable, RowLayable, RowTree;
    var typ := Fields(lib, x)[k].typ;
    assert TypeLayable(lib, typ);
    if IsRow(lib, typ) {
      ColumnDown(lib, x, k);
      LayableByColumns(lib, typ);
    }
  }

  /** Where the bytes of the columns before the k-th end. */
  ghost function Behind(lib: Library, x: string, k: nat): nat
    requires LayableTo(lib, x, k)
  {
    if k == 0 then 0 else Offset(lib, x, k - 1) + Size(FieldTree(lib, x, k - 1))
  }

  /** Each column begins at the first multiple of its own alignment behind the bytes of the one before, the first at 0;
      the row's alignment is the largest of its columns', and its size the first multiple behind the last. */
  lemma {:induction false} RowPacked(lib: Library, x: string)
    requires RowLayable(lib, x)
    ensures var n, t := |Fields(lib, x)|, RowTree(lib, x);
            && (forall k :: 0 <= k < n ==>
                  FirstMultiple(Offset(lib, x, k), Align(FieldTree(lib, x, k)), Behind(lib, x, k)))
            && (n > 0 ==> FirstMultiple(Size(t), Align(t), Behind(lib, x, n)) && Offset(lib, x, 0) == 0)
            && (forall k :: 0 <= k < n ==> Align(FieldTree(lib, x, k)) <= Align(t))
            && (Align(t) == 1 || exists k :: 0 <= k < n && Align(t) == Align(FieldTree(lib, x, k)))
  {
    hide Rows, FieldTree, TypeLayable, RowTree, AlignUp, Size, Align, Fields, Offset;
    var n := |Fields(lib, x)|;
    forall k | 0 <= k < n
      ensures FirstMultiple(Offset(lib, x, k), Align(FieldTree(lib, x, k)), Behind(lib, x, k))
    {
      ColumnPacked(lib, x, k);
    }
    RowEnd(lib, x);
    LargestAlign(lib, x, n);
    AlignOfRow(lib, x);
  }

  /** So a string and then an int take 24 bytes, the int at 16. */
  lemma {:induction false} StringAndInt(lib: Library, x: string)
    requires RowLayable(lib, x) && |Fields(lib, x)| == 2
    requires Fields(lib, x)[0].typ == "string" && Fields(lib, x)[1].typ == "int"
    ensures Size(RowTree(lib, x)) == 24 && Offset(lib, x, 0) == 0 && Offset(lib, x, 1) == 16
  {
    hide Rows, FieldTree, TypeLayable, RowTree, Size, Align, Offset;
    ColumnBytes(lib, x, 0);
    ColumnBytes(lib, x, 1);
    RowPacked(lib, x);
    assert LayableTo(lib, x, 1);
    assert 16 % 8 == 0 && 24 % 8 == 0;
  }

  lemma {:induction false} ColumnPacked(lib: Library, x: string, k: nat)
    requires LayableTo(lib, x, k + 1)
    ensures LayableTo(lib, x, k) && Behind(lib, x, k) == End(ColumnsOf(lib, x, k))
    ensures FirstMultiple(Offset(lib, x, k), Align(FieldTree(lib, x, k)), Behind(lib, x, k))
    ensures k == 0 ==> Offset(lib, x, k) == 0
  {
    hide Rows, FieldTree, TypeLayable, AlignUp, Size, Align;
    SizesFit(FieldTree(lib, x, k));
    EndStep(lib, x, k);
    BehindIs(lib, x, k);
    AlignUpFirst(End(ColumnsOf(lib, x, k)), Align(FieldTree(lib, x, k)));
    NothingUp(Align(FieldTree(lib, x, k)));
  }

  lemma NothingUp(alignment: nat)
    ensures alignment in {1, 8} ==> AlignUp(0, alignment) == 0
  {}

  lemma {:induction false} BehindIs(lib: Library, x: string, k: nat)
    requires LayableTo(lib, x, k)
    ensures Behind(lib, x, k) == End(ColumnsOf(lib, x, k))
  {
    hide Rows, FieldTree, TypeLayable, AlignUp, Size, Align;
    if k > 0 { EndStep(lib, x, k - 1); }
  }

  lemma AlignOfRow(lib: Library, x: string)
    requires RowLayable(lib, x)
    ensures Align(RowTree(lib, x)) == MaxAlign(ColumnsOf(lib, x, |Fields(lib, x)|))
  {
    hide Rows, TypeLayable, ColumnsOf;
  }

  lemma {:induction false} RowEnd(lib: Library, x: string)
    requires RowLayable(lib, x)
    ensures var n, t := |Fields(lib, x)|, RowTree(lib, x);
            n > 0 ==> FirstMultiple(Size(t), Align(t), Behind(lib, x, n)) && Offset(lib, x, 0) == 0
  {
    hide Rows, TypeLayable, ColumnsOf, FieldTree, AlignUp, End, MaxAlign, Behind;
    var n := |Fields(lib, x)|;
    var cs := ColumnsOf(lib, x, n);
    BehindIs(lib, x, n);
    ColumnsFit(cs);
    AlignUpFirst(End(cs), MaxAlign(cs));
    AtLeast(End(cs), MaxAlign(cs));
    if n > 0 {
      EndStep(lib, x, n - 1);
      ColumnPacked(lib, x, 0);
    }
  }

  lemma {:induction false} LargestAlign(lib: Library, x: string, n: nat)
    requires LayableTo(lib, x, n)
    ensures var a := MaxAlign(ColumnsOf(lib, x, n));
            && (forall k :: 0 <= k < n ==> Align(FieldTree(lib, x, k)) <= a)
            && (a == 1 || exists k :: 0 <= k < n && a == Align(FieldTree(lib, x, k)))
  {
    hide Rows, TypeLayable, FieldTree, Align, Size, AlignUp, End;
    if n > 0 {
      EndStep(lib, x, n - 1);
      LargestAlign(lib, x, n - 1);
    }
  }

  // ---------- the memoised computation ----------

  datatype StructLayout = StructLayout(size: nat, align: nat, offsets: map<string, nat>)

  ghost function OffsetMap(lib: Library, x: string, k: nat): map<string, nat>
    requires LayableTo(lib, x, k)
  {
    if k == 0 then map[] else OffsetMap(lib, x, k - 1)[Fields(lib, x)[k - 1].name := Offset32(lib, x, k - 1)]
  }

  lemma OffsetMapStep(lib: Library, x: string, k: nat)
    requires LayableTo(lib, x, k) && k > 0
    ensures LayableTo(lib, x, k - 1) && k - 1 < |Fields(lib, x)|
    ensures OffsetMap(lib, x, k) == OffsetMap(lib, x, k - 1)[Fields(lib, x)[k - 1].name := Offset32(lib, x, k - 1)]
  {
    hide Rows, Offset32, TypeLayable, Fields;
  }

  /** No column's offset is overwritten by another of the same name. */
  lemma {:induction false} OffsetMapAt(lib: Library, x: string, k: nat, i: nat)
    requires Loaded(lib) && LayableTo(lib, x, k) && i < k
    ensures Fields(lib, x)[i].name in OffsetMap(lib, x, k)
    ensures LayableTo(lib, x, i + 1) && OffsetMap(lib, x, k)[Fields(lib, x)[i].name] == Offset32(lib, x, i)
  {
    hide Loaded, Rows, Offset32, LayableTo, Fields, OffsetMap;
    Begun(lib, x, k);
    DistinctFields(lib, x);
    OffsetMapStep(lib, x, k);
    if i < k - 1 { OffsetMapAt(lib, x, k - 1, i); }
  }

  lemma Begun(lib: Library, x: string, k: nat)
    requires LayableTo(lib, x, k)
    ensures x in Rows(lib) && k <= |Fields(lib, x)|
  {}

  lemma DistinctFields(lib: Library, x: string)
    requires Loaded(lib) && x in Rows(lib)
    ensures forall i, j :: 0 <= i < j < |Fields(lib, x)| ==> Fields(lib, x)[i].name != Fields(lib, x)[j].name
  {
    assert WellParsed(Find(lib, x).value);
  }

  ghost function LayoutOf(lib: Library, x: string): StructLayout
    requires RowLayable(lib, x)
  {
    StructLayout(Size32(RowTree(lib, x)), Align(RowTree(lib, x)), OffsetMap(lib, x, |Fields(lib, x)|))
  }

  /** One column more: what the loops on 32-bit words do. */
  lemma {:induction false} ColumnStep(lib: Library, x: string, k: nat)
    requires LayableTo(lib, x, k) && k < |Fields(lib, x)| && TypeLayable(lib, Fields(lib, x)[k].typ)
    ensures LayableTo(lib, x, k + 1)
    ensures AlignUp32(End32(ColumnsOf(lib, x, k)), Align(FieldTree(lib, x, k))) == Offset32(lib, x, k)
    ensures Add32(Offset32(lib, x, k), Size32(FieldTree(lib, x, k))) == End32(ColumnsOf(lib, x, k + 1))
    ensures Max(MaxAlign(ColumnsOf(lib, x, k)), Align(FieldTree(lib, x, k))) == MaxAlign(ColumnsOf(lib, x, k + 1))
    ensures OffsetMap(lib, x, k + 1) == OffsetMap(lib, x, k)[Fields(lib, x)[k].name := Offset32(lib, x, k)]
  {
    hide Rows, FieldTree, AlignUp32, Add32, Size32, Align, AlignUp, TypeLayable;
    EndStep(lib, x, k);
  }

  lemma RowStart(lib: Library, x: string)
    requires x in Rows(lib)
    ensures LayableTo(lib, x, 0)
    ensures End32(ColumnsOf(lib, x, 0)) == 0 && MaxAlign(ColumnsOf(lib, x, 0)) == 1 && OffsetMap(lib, x, 0) == map[]
  {
    hide Rows;
  }

  /** The first column that cannot be laid out stops the row. */
  lemma RowStops(lib: Library, x: string, k: nat)
    requires x in Rows(lib) && k < |Fields(lib, x)| && !TypeLayable(lib, Fields(lib, x)[k].typ)
    ensures !RowLayable(lib, x)
  {
    hide Rows, TypeLayable;
  }

  /** The schema of a row, found by its name. */
  lemma RowSchema(lib: Library, s: Schema)
    requires UniqueNames(lib) && s in lib && s.kind != Enum
    ensures s.name in Rows(lib) && Find(lib, s.name) == Some(s) && Fields(lib, s.name) == s.fields
    ensures Loaded(lib) && s.kind == Table ==> 0 <= s.keyIndex < |s.fields|
    ensures Loaded(lib) && s.kind == Table ==> forall i :: 0 <= i < |s.fields| ==> (s.fields[i].isKey <==> i == s.keyIndex)
  {
    FindUnique(lib, s);
    if Loaded(lib) { assert WellParsed(s); }
  }

  lemma NamesDiffer(lib: Library)
    ensures Validated(lib) ==> Loaded(lib)
    ensures Loaded(lib) ==> UniqueNames(lib)
  {}

  lemma {:induction false} RowStep(lib: Library, x: string)
    requires RowLayable(lib, x)
    ensures var cs := ColumnsOf(lib, x, |Fields(lib, x)|);
            && Max(AlignUp32(End32(cs), MaxAlign(cs)), 1) == Size32(RowTree(lib, x))
            && MaxAlign(cs) == Align(RowTree(lib, x))
            && LayoutOf(lib, x) ==
               StructLayout(Size32(RowTree(lib, x)), Align(RowTree(lib, x)), OffsetMap(lib, x, |Fields(lib, x)|))
  {
    hide Rows, ColumnsOf, LayableTo;
  }

  /** Only names above `x` are on the stack. */
  ghost predicate Above(lib: Library, stack: seq<string>, x: string) {
    forall y :: y in stack ==> Reaches(GraphOf(lib, RowTypes), y, x)
  }

  ghost predicate AtOrAbove(lib: Library, stack: seq<string>, x: string) {
    forall y :: y in stack ==> ReachesOrIs(GraphOf(lib, RowTypes), y, x)
  }

  lemma {:induction false} AboveNested(lib: Library, stack: seq<string>, x: string, y: string)
    requires AtOrAbove(lib, stack, x) && x in Rows(lib) && y in Succ(lib, RowTypes, x)
    ensures Above(lib, stack, y)
  {
    hide Rows, Succ, Reaches;
    var g := GraphOf(lib, RowTypes);
    InGraph(lib, x);
    StepReaches(g, x, y);
    forall z | z in stack ensures Reaches(g, z, y) {
      if z != x { ReachesTrans(g, z, x, y); }
    }
  }

  lemma NothingAbove(lib: Library, x: string)
    ensures Above(lib, [], x) && AtOrAbove(lib, [], x)
  {}

  /** A name met again is on a cycle, and cannot be laid out. */
  lemma {:induction false} AboveItself(lib: Library, stack: seq<string>, x: string)
    requires x in Rows(lib) && Above(lib, stack, x)
    ensures x in stack ==> !RowLayable(lib, x)
    ensures AtOrAbove(lib, stack + [x], x)
  {
    hide Rows, Reaches, RowLayable;
    LayableByColumns(lib, x);
    assert ReachesOrIs(GraphOf(lib, RowTypes), x, x);
    if x in stack { assert !LayableHere(lib, x); }
  }

  class LayoutSet {
    var structs: map<string, StructLayout>
    var tableRows: map<string, nat>
    var tableAligns: map<string, nat>
    var tableKeys: map<string, nat>

    constructor ()
      ensures structs == map[] && tableRows == map[] && tableAligns == map[] && tableKeys == map[]
    {
      structs, tableRows, tableAligns, tableKeys := map[], map[], map[], map[];
    }

    /** Every entry of the memo is the layout the specification gives. */
    ghost predicate Correct(lib: Library)
      reads this`structs
    {
      forall n :: n in structs ==> RowLayable(lib, n) && structs[n] == LayoutOf(lib, n)
    }

    /** Size and alignment of a column, exactly when its type can be laid out; `k` is its index in the row `x`. */
    method StructFieldLayout(lib: Library, ghost x: string, ghost k: nat, field: Field, stack0: seq<string>)
      returns (ok: bool, size: nat, align: nat, stack: seq<string>)
      requires UniqueNames(lib) && x in Rows(lib) && k < |Fields(lib, x)| && field == Fields(lib, x)[k]
      requires Correct(lib) && AtOrAbove(lib, stack0, x)
      modifies this`structs
      ensures stack == stack0 && (ok <==> TypeLayable(lib, field.typ))
      ensures ok ==> size == Size32(FieldTree(lib, x, k)) && align == Align(FieldTree(lib, x, k))
      ensures Correct(lib) && forall n :: n in old(structs) ==> n in structs
      decreases GraphOf(lib, RowTypes).nodes - Elements(stack0), 1
    {
      hide Above, AtOrAbove, Rows, Succ, Layable, LayableTo, Depth;
      ok, size, align, stack := true, 0, 1, stack0;
      var scalar := ScalarLayout(field.typ);
      if scalar.Some? {
        size, align := scalar.value.0, scalar.value.1;
        return;
      }
      var nested := Find(lib, field.typ);
      if nested.None? {
        return false, size, align, stack;
      }
      if nested.value.kind == Enum {
        size, align := 16, 8;
        return;
      }
      FoundIn(lib, field.typ);
      ColumnDown(lib, x, k);
      AboveNested(lib, stack0, x, field.typ);
      LayableByColumns(lib, field.typ);
      ok, stack := ComputeStructLayout(lib, nested.value, stack);
      if !ok {
        return;
      }
      var layout := structs[nested.value.name];
      size, align := layout.size, layout.align;
    }

    method Store(lib: Library, x: string, layout: StructLayout)
      requires Correct(lib) && RowLayable(lib, x) && layout == LayoutOf(lib, x)
      modifies this`structs
      ensures Correct(lib) && structs == old(structs)[x := layout]
    {
      hide RowLayable, LayoutOf;
      structs := structs[x := layout];
    }

    /** Succeeds exactly on rows that can be laid out, whatever has been laid out before. */
    method ComputeStructLayout(lib: Library, schema: Schema, stack0: seq<string>) returns (ok: bool, stack: seq<string>)
      requires UniqueNames(lib) && schema in lib && schema.kind != Enum
      requires Correct(lib) && Above(lib, stack0, schema.name)
      modifies this`structs
      ensures stack == stack0 && (ok <==> RowLayable(lib, schema.name)) && (ok ==> schema.name in structs)
      ensures Correct(lib) && forall n :: n in old(structs) ==> n in structs
      decreases GraphOf(lib, RowTypes).nodes - Elements(stack0), 0
    {
      hide *;
      ok, stack := true, stack0;
      if schema.name in structs {
        Remembered(lib, schema.name);
        return;
      }
      RowSchema(lib, schema);
      InGraph(lib, schema.name);
      AboveItself(lib, stack0, schema.name);
      if schema.name in stack {
        return false, stack;
      }
      stack := stack + [schema.name];
      Pushes(lib, stack0, schema.name);
      var cursor, maxAlign, offsets;
      ok, cursor, maxAlign, offsets, stack := LayoutColumns(lib, schema, stack);
      stack := stack[..|stack| - 1];
      if !ok {
        return;
      }
      RowStep(lib, schema.name);
      Store(lib, schema.name, StructLayout(Max(AlignUp32(cursor, maxAlign), 1), maxAlign, offsets));
    }

    lemma Remembered(lib: Library, x: string)
      requires Correct(lib) && x in structs
      ensures RowLayable(lib, x)
    {}

    /** Place the columns one after the other. */
    method LayoutColumns(lib: Library, schema: Schema, stack0: seq<string>)
      returns (ok: bool, cursor: nat, maxAlign: nat, offsets: map<string, nat>, stack: seq<string>)
      requires UniqueNames(lib) && schema in lib && schema.kind != Enum
      requires schema.name in Rows(lib) && Fields(lib, schema.name) == schema.fields
      requires Correct(lib) && AtOrAbove(lib, stack0, schema.name)
      modifies this`structs
      ensures stack == stack0 && (ok <==> RowLayable(lib, schema.name))
      ensures ok ==> LayableTo(lib, schema.name, |schema.fields|)
      ensures ok ==> var n, cs := |schema.fields|, ColumnsOf(lib, schema.name, |schema.fields|);
                     cursor == End32(cs) && maxAlign == MaxAlign(cs) && offsets == OffsetMap(lib, schema.name, n)
      ensures Correct(lib) && forall n :: n in old(structs) ==> n in structs
      decreases GraphOf(lib, RowTypes).nodes - Elements(stack0), 2
    {
      hide *;
      ghost var x := schema.name;
      RowStart(lib, x);
      ok, cursor, maxAlign, offsets, stack := true, 0, 1, map[], stack0;
      for i := 0 to |schema.fields|
        invariant stack == stack0 && Correct(lib) && forall n :: n in old(structs) ==> n in structs
        invariant ok && LayableTo(lib, x, i)
        invariant cursor == End32(ColumnsOf(lib, x, i)) && maxAlign == MaxAlign(ColumnsOf(lib, x, i))
        invariant offsets == OffsetMap(lib, x, i)
      {
        var size, align;
        ok, size, align, stack := StructFieldLayout(lib, x, i, schema.fields[i], stack);
        if !ok {
          RowStops(lib, x, i);
          return;
        }
        maxAlign := Max(maxAlign, align);
        ColumnStep(lib, x, i);
        cursor := AlignUp32(cursor, align);
        offsets := offsets[schema.fields[i].name := cursor];
        cursor := Add32(cursor, size);
      }
      AllColumns(lib, x);
    }

    /** What the generator is given for a table. */
    ghost predicate TableDone(lib: Library, s: Schema)
      reads this
    {
      && RowLayable(lib, s.name) && 0 <= s.keyIndex < |Fields(lib, s.name)|
      && s.name in tableRows && tableRows[s.name] == Size32(RowTree(lib, s.name))
      && s.name in tableAligns && tableAligns[s.name] == Align(RowTree(lib, s.name))
      && s.name in tableKeys && tableKeys[s.name] == Offset32(lib, s.name, s.keyIndex)
    }

    /** Row size and key offset in bytes: the first multiples behind the last column and behind the columns before the key. */
    ghost predicate TablePacked(lib: Library, s: Schema)
      reads this
    {
      && TableDone(lib, s) && LayableTo(lib, s.name, s.keyIndex + 1)
      && FirstMultiple(tableRows[s.name], tableAligns[s.name], Behind(lib, s.name, |Fields(lib, s.name)|))
      && FirstMultiple(tableKeys[s.name], Align(FieldTree(lib, s.name, s.keyIndex)), Behind(lib, s.name, s.keyIndex))
    }

    lemma {:induction false} DoneIsPacked(lib: Library, s: Schema)
      requires TableDone(lib, s) && Size(RowTree(lib, s.name)) < U32
      ensures TablePacked(lib, s)
    {
      hide Rows, Size, Size32, Offset, Offset32, TypeLayable, RowTree, Fields, FieldTree, Align, FirstMultiple, Behind;
      RowExactIff(lib, s.name);
      RowPacked(lib, s.name);
    }

    method ComputeTableLayout(lib: Library, schema: Schema) returns (ok: bool)
      requires Loaded(lib) && Correct(lib) && schema in lib && schema.kind == Table
      modifies this
      ensures Correct(lib) && (ok <==> RowLayable(lib, schema.name)) && (ok ==> TableDone(lib, schema))
      ensures ok && Size(RowTree(lib, schema.name)) < U32 ==> TablePacked(lib, schema)
      ensures forall n :: n in old(structs) ==> n in structs
      ensures tableRows == if ok then old(tableRows)[schema.name := Size32(RowTree(lib, schema.name))] else old(tableRows)
      ensures tableAligns ==
              if ok then old(tableAligns)[schema.name := Align(RowTree(lib, schema.name))] else old(tableAligns)
      ensures ok ==> schema.name in tableKeys
      ensures tableKeys == if ok then old(tableKeys)[schema.name := tableKeys[schema.name]] else old(tableKeys)
    {
      hide Loaded, Rows, ColumnsOf, FieldTree, RowTree, OffsetMap, Fields, Above, AtOrAbove, LayoutOf,
           Size32, Align, End32, MaxAlign, TypeLayable, LayableTo, Offset32, AlignUp32, Add32, Correct, Size, TablePacked;
      NamesDiffer(lib);
      RowSchema(lib, schema);
      var x := schema.name;
      RowStart(lib, x);
      var cursor, maxAlign, keyOffset := 0, 1, 0;
      for i := 0 to |schema.fields|
        invariant Correct(lib) && forall n :: n in old(structs) ==> n in structs
        invariant tableRows == old(tableRows) && tableAligns == old(tableAligns) && tableKeys == old(tableKeys)
        invariant LayableTo(lib, x, i)
        invariant cursor == End32(ColumnsOf(lib, x, i)) && maxAlign == MaxAlign(ColumnsOf(lib, x, i))
        invariant schema.keyIndex < i ==> LayableTo(lib, x, schema.keyIndex + 1)
                                          && keyOffset == Offset32(lib, x, schema.keyIndex)
      {
        NothingAbove(lib, x);
        var size, align, stack;
        ok, size, align, stack := StructFieldLayout(lib, x, i, schema.fields[i], []);
        if !ok {
          RowStops(lib, x, i);
          return;
        }
        maxAlign := Max(maxAlign, align);
        ColumnStep(lib, x, i);
        cursor := AlignUp32(cursor, align);
        if schema.fields[i].isKey {
          keyOffset := cursor;
        }
        cursor := Add32(cursor, size);
      }
      AllColumns(lib, x);
      RowStep(lib, x);
      tableRows := tableRows[x := Max(AlignUp32(cursor, maxAlign), 1)];
      tableAligns := tableAligns[x := maxAlign];
      tableKeys := tableKeys[x := keyOffset];
      ok := true;
      if Size(RowTree(lib, x)) < U32 { DoneIsPacked(lib, schema); }
    }

    ghost predicate Done(lib: Library, s: Schema)
      reads this
    {
      (s.kind == Struct ==> s.name in structs) && (s.kind == Table ==> TableDone(lib, s))
    }

    /** One row more; what is done stays done. */
    method LayoutSchema(lib: Library, schema: Schema) returns (ok: bool)
      requires Loaded(lib) && Correct(lib) && schema in lib && schema.kind != Enum
      modifies this
      ensures Correct(lib) && (ok <==> RowLayable(lib, schema.name)) && (ok ==> Done(lib, schema))
      ensures forall s :: s in lib && old(Done(lib, s)) && ok ==> Done(lib, s)
    {
      hide Loaded, Rows, RowLayable, RowTree, Fields, Above, AtOrAbove, Correct, Offset32, Size32, Align;
      NamesDiffer(lib);
      if schema.kind == Struct {
        NothingAbove(lib, schema.name);
        var stack;
        ok, stack := ComputeStructLayout(lib, schema, []);
      } else {
        ok := ComputeTableLayout(lib, schema);
        forall s | s in lib && s.name == schema.name ensures s == schema { SameName(lib, s, schema); }
      }
    }

    /** A library is laid out completely, exactly when all its rows can be. */
    method ComputeLayouts(lib: Library) returns (ok: bool)
      requires Loaded(lib) && Correct(lib)
      modifies this
      ensures Correct(lib)
      ensures ok <==> forall s :: s in lib && s.kind != Enum ==> RowLayable(lib, s.name)
      ensures ok ==> forall s :: s in lib ==> Done(lib, s)
    {
      hide Loaded, RowLayable, TableDone, Correct;
      for i := 0 to |lib|
        invariant Correct(lib)
        invariant forall k :: 0 <= k < i && lib[k].kind != Enum ==> RowLayable(lib, lib[k].name)
        invariant forall k :: 0 <= k < i ==> Done(lib, lib[k])
      {
        if lib[i].kind == Enum {
          continue;
        }
        ok := LayoutSchema(lib, lib[i]);
        if !ok {
          return;
        }
      }
      return true;
    }
  }

  lemma SameName(lib: Library, s: Schema, s': Schema)
    requires UniqueNames(lib) && s in lib && s' in lib && s.name == s'.name
    ensures s == s'
  {
    FindUnique(lib, s);
    FindUnique(lib, s');
  }

  lemma AllColumns(lib: Library, x: string)
    requires LayableTo(lib, x, |Fields(lib, x)|)
    ensures RowLayable(lib, x)
  {}

  lemma {:induction false} Pushes(lib: Library, stack: seq<string>, x: string)
    requires x in GraphOf(lib, RowTypes).nodes && x !in stack
    ensures GraphOf(lib, RowTypes).nodes - Elements(stack + [x]) < GraphOf(lib, RowTypes).nodes - Elements(stack)
  {
    Pushed(stack, x);
    assert x in GraphOf(lib, RowTypes).nodes - Elements(stack);
  }

  /** In particular every validated library is laid out. */
  lemma {:induction false} ValidatedRows(lib: Library)
    requires Validated(lib)
    ensures forall s :: s in lib && s.kind != Enum ==> RowLayable(lib, s.name)
  {
    hide Validated, RowLayable;
    NamesDiffer(lib);
    forall s | s in lib && s.kind != Enum ensures RowLayable(lib, s.name) {
      RowSchema(lib, s);
      ValidatedLayable(lib, s.name);
    }
  }
}
