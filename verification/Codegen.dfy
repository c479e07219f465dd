/** What the generator emits in which order: the plan of a table, and the orders of declarations. */
module Codegen {
  import opened Collections
  import opened Graphs
  import opened SchemaLibrary
  import opened Wrappers
  import opened Validator
  import opened Layouts

  // ---------- declarations in dependency order ----------

  /** Postorder over struct fields; here every type name is looked up, scalar or not. */
  method CollectOrder(lib: Library, schema: Schema, out0: seq<string>, done0: set<string>)
    returns (out: seq<string>, done: set<string>)
    requires UniqueNames(lib) && schema in lib && schema.kind != Enum
    ensures schema.name in GraphOf(lib, AnyName).nodes
    ensures Walk(done, out) == Order(GraphOf(lib, AnyName), schema.name, Walk(done0, out0))
    decreases GraphOf(lib, AnyName).nodes - done0
  {
    hide Order, OrderAll, NestedNames, Find;
    ghost var g, x := GraphOf(lib, AnyName), schema.name;
    assert x in g.nodes;
    FindUnique(lib, schema);
    OrderStep(g, x, Walk(done0, out0));
    out, done := out0, done0;
    if schema.name in done {
      return;
    }
    done := done + {schema.name};
    ghost var w, seen: seq<string> := Walk(done, out), [];
    OrderAllStep(g, [], x, w);
    NoNames(lib, AnyName);
    assert schema.fields[..0] == [];
    for i := 0 to |schema.fields|
      invariant seen == NestedNames(lib, schema.fields[..i], AnyName) && forall y :: y in seen ==> y in g.nodes
      invariant Walk(done, out) == OrderAll(g, seen, w) && done0 + {x} <= done
    {
      var field := schema.fields[i];
      NestedNamesStep(lib, schema.fields, AnyName, i);
      var nested := Find(lib, field.typ);
      if nested.Some? && nested.value.kind == Struct {
        FoundIn(lib, field.typ);
        OrderAllStep(g, seen, field.typ, w);
        DoneGrows(g, field.typ, Walk(done, out));
        out, done := CollectOrder(lib, nested.value, out, done);
        seen := seen + [field.typ];
      }
    }
    assert schema.fields[..|schema.fields|] == schema.fields;
    out := out + [schema.name];
  }

  lemma DoneGrows(g: Graph, x: string, w: Walk)
    requires g.Closed() && x in g.nodes
    ensures w.done <= Order(g, x, w).done
  {}

  ghost function OrderedNames(lib: Library): seq<string> {
    OrderAll(GraphOf(lib, AnyName), Rows(lib), Walk({}, [])).out
  }

  method OrderedSchemas(lib: Library) returns (ordered: seq<string>)
    requires UniqueNames(lib)
    ensures ordered == OrderedNames(lib)
  {
    hide Order, OrderAll, Find;
    ghost var g := GraphOf(lib, AnyName);
    var done: set<string> := {};
    ordered := [];
    ghost var w := Walk({}, []);
    assert lib[..0] == [];
    AllNothing(g, w);
    for i := 0 to |lib|
      invariant Walk(done, ordered) == OrderAll(g, Rows(lib[..i]), w)
      invariant forall x :: x in Rows(lib[..i]) ==> x in g.nodes
    {
      assert lib[..i + 1][..i] == lib[..i];
      if lib[i].kind != Enum {
        assert lib[i].name in g.nodes;
        OrderAllStep(g, Rows(lib[..i]), lib[i].name, w);
        ordered, done := CollectOrder(lib, lib[i], ordered, done);
      }
    }
    assert lib[..|lib|] == lib;
  }

  lemma AllNothing(g: Graph, w: Walk)
    requires g.Closed()
    ensures OrderAll(g, [], w) == w && PreAll(g, [], w) == w
  {}

  /** Every table and struct is listed exactly once. */
  lemma {:induction false} OrderedOnce(lib: Library)
    requires UniqueNames(lib)
    ensures Distinct(OrderedNames(lib))
    ensures forall x :: x in OrderedNames(lib) <==> x in Rows(lib)
  {
    var g := GraphOf(lib, AnyName);
    OrderRoots(g, Rows(lib));
    var w := OrderAll(g, Rows(lib), Walk({}, []));
    forall x | x in w.out ensures x in Rows(lib) { assert x in Elements(w.out); }
  }

  /** Each struct comes before whatever embeds it by value. */
  ghost predicate Topological(lib: Library) {
    forall u, v :: u in Rows(lib) && v in Succ(lib, Structs, u) ==> Before(OrderedNames(lib), v, u)
  }

  /** Nothing embedded leads back to what embeds it, looking up type names as the traversal does. */
  ghost predicate NoWayBack(lib: Library) {
    forall u, v :: u in Rows(lib) && v in Succ(lib, Structs, u) ==> !Reaches(GraphOf(lib, AnyName), v, u)
  }

  /** The same schemas in another order. */
  ghost predicate SameSchemas(lib: Library, lib': Library) {
    UniqueNames(lib') && forall s :: s in lib <==> s in lib'
  }

  lemma {:induction false} SameFind(lib: Library, lib': Library, name: string)
    requires UniqueNames(lib) && SameSchemas(lib, lib')
    ensures Find(lib, name) == Find(lib', name)
  {
    var r, r' := Find(lib, name), Find(lib', name);
    if r.Some? { FindUnique(lib', r.value); }
  }

  lemma {:induction false} SameNested(lib: Library, lib': Library, fields: seq<Field>, how: Lookup)
    requires UniqueNames(lib) && SameSchemas(lib, lib')
    ensures NestedNames(lib, fields, how) == NestedNames(lib', fields, how)
  {
    if |fields| > 0 {
      SameNested(lib, lib', fields[..|fields| - 1], how);
      SameFind(lib, lib', fields[|fields| - 1].typ);
    }
  }

  lemma {:induction false} SameSucc(lib: Library, lib': Library, how: Lookup, x: string)
    requires UniqueNames(lib) && SameSchemas(lib, lib')
    ensures Succ(lib, how, x) == Succ(lib', how, x)
  {
    SameFind(lib, lib', x);
    var s := Find(lib, x);
    if s.Some? { SameNested(lib, lib', s.value.fields, how); }
  }

  lemma {:induction false} SameRows(lib: Library, lib': Library, x: string)
    requires SameSchemas(lib, lib')
    ensures x in Rows(lib) <==> x in Rows(lib')
  {
    if x in Rows(lib) { var s :| s in lib && s.kind != Enum && s.name == x; assert s in lib'; }
    if x in Rows(lib') { var s :| s in lib' && s.kind != Enum && s.name == x; assert s in lib; }
  }

  lemma {:induction false} SameReaches(lib: Library, lib': Library, x: string, y: string)
    requires UniqueNames(lib) && SameSchemas(lib, lib') && Reaches(GraphOf(lib, AnyName), x, y)
    ensures Reaches(GraphOf(lib', AnyName), x, y)
  {
    var g, g' := GraphOf(lib, AnyName), GraphOf(lib', AnyName);
    forall u | u in g.nodes ensures u in g'.nodes { SameRows(lib, lib', u); }
    forall u, v | u in g.nodes && v in g.succ(u) ensures v in g'.succ(u) { SameSucc(lib, lib', AnyName, u); }
    ReachesMore(g, g', x, y);
  }

  /** Without a way back the order is topological. */
  lemma {:induction false} NoWayBackSorts(lib: Library)
    requires UniqueNames(lib) && NoWayBack(lib)
    ensures Topological(lib)
  {
    var g := GraphOf(lib, AnyName);
    OrderRoots(g, Rows(lib));
    forall u, v | u in Rows(lib) && v in Succ(lib, Structs, u) ensures Before(OrderedNames(lib), v, u) {
      CheckedIsLookup(lib, u, v);
      assert v in g.succ(u);
    }
  }

  /** With a way back, listing the embedded struct first puts it after what embeds it. */
  lemma {:induction false} WayBackUnsorts(lib: Library, u: string, v: string) returns (lib': Library)
    requires UniqueNames(lib) && u in Rows(lib) && v in Succ(lib, Structs, u) && Reaches(GraphOf(lib, AnyName), v, u)
    ensures SameSchemas(lib, lib') && !Topological(lib')
  {
    CheckedIsLookup(lib, u, v);
    assert v in GraphOf(lib, AnyName).nodes;
    var s :| s in lib && s.kind != Enum && s.name == v;
    var i :| 0 <= i < |lib| && lib[i] == s;
    lib' := [s] + lib[..i] + lib[i + 1..];
    MovedFirst(lib, i, lib');
    var g' := GraphOf(lib', AnyName);
    SameReaches(lib, lib', v, u);
    SameRows(lib, lib', u);
    SameRows(lib, lib', v);
    SameSucc(lib, lib', Structs, u);
    FirstRow(lib');
    OrderOne(g', v);
    OrderFirst(g', Rows(lib'), Walk({}, []));
    OrderedOnce(lib');
    var first, all := Order(g', v, Walk({}, [])).out, OrderedNames(lib');
    assert u in first;
    NotBefore(first, all, u, v);
  }

  lemma {:induction false} MovedFirst(lib: Library, i: nat, lib': Library)
    requires UniqueNames(lib) && i < |lib| && lib' == [lib[i]] + lib[..i] + lib[i + 1..]
    ensures SameSchemas(lib, lib')
  {
    forall a | 0 <= a < |lib'| ensures lib'[a] == lib[if a == 0 then i else if a <= i then a - 1 else a] {}
    forall s | s in lib ensures s in lib' {
      var a :| 0 <= a < |lib| && lib[a] == s;
      assert lib'[if a < i then a + 1 else if a == i then 0 else a] == s;
    }
  }

  lemma {:induction false} FirstRow(lib: Library)
    requires |lib| > 0 && lib[0].kind != Enum
    ensures |Rows(lib)| > 0 && Rows(lib)[0] == lib[0].name
  {
    if |lib| > 1 { FirstRow(lib[..|lib| - 1]); }
  }

  /** What is last in a prefix is not before what is in the prefix. */
  lemma {:induction false} NotBefore(first: seq<string>, all: seq<string>, u: string, v: string)
    requires first <= all && Distinct(all) && u in first && |first| > 0 && first[|first| - 1] == v
    ensures !Before(all, v, u)
  {
    var n := |first| - 1;
    var k :| 0 <= k < |first| && first[k] == u;
    assert all[k] == u && all[n] == v;
    forall i, j | 0 <= i < j < |all| ensures all[i] != v || all[j] != u {
      if i < n { assert all[i] != all[n]; } else { assert all[k] != all[j]; }
    }
  }

  /** The declarations come out in dependency order, in whatever order the schemas are given,
      exactly when no embedding has a way back. */
  lemma {:induction false} TopologicalIff(lib: Library)
    requires UniqueNames(lib)
    ensures NoWayBack(lib) <==> forall lib' :: SameSchemas(lib, lib') ==> Topological(lib')
  {
    if NoWayBack(lib) {
      forall lib' | SameSchemas(lib, lib') ensures Topological(lib') {
        forall u, v | u in Rows(lib') && v in Succ(lib', Structs, u) ensures !Reaches(GraphOf(lib', AnyName), v, u) {
          SameRows(lib, lib', u);
          SameSucc(lib, lib', Structs, u);
          if Reaches(GraphOf(lib', AnyName), v, u) {
            SameReaches(lib', lib, v, u);
          }
        }
        NoWayBackSorts(lib');
      }
    } else {
      var u, v :| u in Rows(lib) && v in Succ(lib, Structs, u) && Reaches(GraphOf(lib, AnyName), v, u);
      var lib' := WayBackUnsorts(lib, u, v);
    }
  }

  /** Validation and the absence of structs named like scalar types suffice. */
  lemma {:induction false} NoScalarSuffices(lib: Library)
    requires Validated(lib) && NoScalarStruct(lib)
    ensures NoWayBack(lib)
  {
    var g, g' := GraphOf(lib, Structs), GraphOf(lib, AnyName);
    forall u, v | u in Rows(lib) && v in Succ(lib, Structs, u) ensures !Reaches(g', v, u) {
      if Reaches(g', v, u) {
        LookupReaches(lib, v, u);
        StepReaches(g, u, v);
        ReachesTrans(g, u, v, u);
      }
    }
  }

  lemma {:induction false} LookupReaches(lib: Library, x: string, y: string)
    requires NoScalarStruct(lib) && Reaches(GraphOf(lib, AnyName), x, y)
    ensures Reaches(GraphOf(lib, Structs), x, y)
  {
    var g, g' := GraphOf(lib, Structs), GraphOf(lib, AnyName);
    forall a, b | a in g'.nodes && b in g'.succ(a) ensures b in g.succ(a) {
      LookupIsChecked(lib, Find(lib, a).value.fields);
    }
    ReachesMore(g', g, x, y);
  }

  function Column(name: string, typ: string): Field {
    Field(name, typ, "", [], false, false, false, false, "", "")
  }

  /** A struct named `int`, embedding a struct with an int column. */
  function SmallLibrary(): Library {
    [Schema("a", Struct, [Column("f", "int")], [], -1), Schema("int", Struct, [Column("g", "a")], [], -1)]
  }

  ghost predicate Small(lib: Library) {
    && Rows(lib) == ["a", "int"]
    && Succ(lib, Structs, "a") == [] && Succ(lib, Structs, "int") == ["a"]
    && Succ(lib, AnyName, "a") == ["int"] && Succ(lib, AnyName, "int") == ["a"]
  }

  lemma {:induction false} SmallFinds(lib: Library)
    requires lib == SmallLibrary()
    ensures Find(lib, "a") == Some(lib[0]) && Find(lib, "int") == Some(lib[1])
  {
    FindUnique(lib, lib[0]);
    FindUnique(lib, lib[1]);
  }

  lemma {:induction false} SmallSucc(lib: Library, s: Schema, how: Lookup, field: Field)
    requires Find(lib, s.name) == Some(s) && s.fields == [field]
    ensures Succ(lib, how, s.name) == if Nested(lib, field, how).Some? then [field.typ] else []
  {
    hide Find, Nested;
    NestedNamesStep(lib, s.fields, how, 0);
    NoNames(lib, how);
    assert s.fields[..0] == [] && s.fields[..1] == s.fields;
  }

  lemma {:induction false} SmallIs(lib: Library)
    requires lib == SmallLibrary()
    ensures Small(lib)
  {
    hide Find, Succ;
    SmallFinds(lib);
    SmallSucc(lib, lib[0], Structs, lib[0].fields[0]);
    SmallSucc(lib, lib[0], AnyName, lib[0].fields[0]);
    SmallSucc(lib, lib[1], Structs, lib[1].fields[0]);
    SmallSucc(lib, lib[1], AnyName, lib[1].fields[0]);
    SmallRows(lib);
  }

  lemma {:induction false} SmallRows(lib: Library)
    requires lib == SmallLibrary()
    ensures Rows(lib) == ["a", "int"]
  {
    assert lib[..1] == [lib[0]] && lib[..1][..0] == [];
    assert Rows([]) == [] && Rows(lib[..1]) == ["a"];
  }

  lemma {:induction false} SmallChecks(lib: Library)
    requires lib == SmallLibrary()
    ensures Loaded(lib) && forall s :: s in lib ==> SchemaOk(lib, s)
  {
    hide Find;
    SmallFinds(lib);
    assert FieldOk(lib, lib[0].fields[0]) && FieldOk(lib, lib[1].fields[0]);
  }

  /** It is valid, and the struct `int` comes out too early. */
  lemma {:induction false} StructNamedInt()
    ensures var lib := SmallLibrary();
            Validated(lib) && OrderedNames(lib) == ["int", "a"] && "a" in Succ(lib, Structs, "int") && !Topological(lib)
  {
    hide SmallLibrary, Succ, Rows, Acyclic, Loaded, SchemaOk, OrderedNames, Topological;
    var lib := SmallLibrary();
    SmallIs(lib);
    SmallAcyclic(lib);
    SmallOrder(lib);
    SmallChecks(lib);
  }

  lemma {:induction false} SmallAcyclic(lib: Library)
    requires Small(lib)
    ensures Acyclic(GraphOf(lib, Structs))
  {
    var g := GraphOf(lib, Structs);
    forall x | x in g.nodes ensures !Reaches(g, x, x) {
      if Reaches(g, x, x) {
        var y := ReachesFirst(g, x, x);
        assert x == "int" && y == "a";
        var z := ReachesFirst(g, y, x);
        assert false;
      }
    }
  }

  lemma GraphIs(lib: Library, how: Lookup, x: string)
    ensures GraphOf(lib, how).succ(x) == Succ(lib, how, x)
    ensures GraphOf(lib, how).nodes == Elements(Rows(lib))
    ensures GraphOf(lib, how).Closed()
  {}

  /** From `a` down to `int`, back to `a`, which is on the way already. */
  lemma {:induction false} SmallWalk(g: Graph)
    requires g.Closed() && g.nodes == {"a", "int"} && g.succ("a") == ["int"] && g.succ("int") == ["a"]
    ensures OrderAll(g, ["a", "int"], Walk({}, [])).out == ["int", "a"]
  {
    var wa, wi := Walk({"a"}, []), Walk({"a", "int"}, []);
    var r := Walk({"a", "int"}, ["int", "a"]);
    assert OrderAll(g, ["a"], wi) == wi by {
      OrderStep(g, "a", wi);
      OrderAllStep(g, [], "a", wi);
      hide Order, OrderAll;
      assert [] + ["a"] == ["a"];
    }
    assert OrderAll(g, ["int"], wa) == Walk(wi.done, ["int"]) by {
      hide Order, OrderAll;
      OrderStep(g, "int", wa);
      assert wa.done + {"int"} == wi.done && wa.out == wi.out && [] + ["int"] == ["int"];
      OrderAllStep(g, [], "int", wa);
    }
    hide Order, OrderAll;
    OrderStep(g, "a", Walk({}, []));
    assert {} + {"a"} == wa.done && ["int"] + ["a"] == r.out && [] + ["a"] == ["a"];
    assert Order(g, "a", Walk({}, [])) == r;
    OrderAllStep(g, [], "a", Walk({}, []));
    OrderStep(g, "int", r);
    OrderAllStep(g, ["a"], "int", Walk({}, []));
    assert ["a"] + ["int"] == ["a", "int"];
  }

  lemma {:induction false} SmallOrder(lib: Library)
    requires Small(lib)
    ensures OrderedNames(lib) == ["int", "a"] && !Topological(lib)
  {
    hide Order, OrderAll, Succ, Rows, Before;
    var g := GraphOf(lib, AnyName);
    GraphIs(lib, AnyName, "a");
    GraphIs(lib, AnyName, "int");
    assert Elements(["a", "int"]) == {"a", "int"};
    SmallWalk(g);
    assert "a" in Succ(lib, Structs, "int") && "int" in Rows(lib);
    NotBefore(["int", "a"], ["int", "a"], "int", "a");
  }

  // ---------- the plan of a table ----------

  datatype Scope = Scope(schema: string, id: nat, align: nat, size: nat, offsets: seq<nat>)

  /** A scope is its row's layout. */
  ghost predicate ScopeOk(lib: Library, s: Scope) {
    && RowLayable(lib, s.schema)
    && s.size == Size32(RowTree(lib, s.schema)) && s.align == Align(RowTree(lib, s.schema))
    && |s.offsets| == |Fields(lib, s.schema)|
    && forall k :: 0 <= k < |s.offsets| ==> s.offsets[k] == Offset32(lib, s.schema, k)
  }

  /** Everything the validator computed for the generator. */
  ghost predicate Complete(lib: Library, layouts: LayoutSet)
    reads layouts
  {
    layouts.Correct(lib) && forall s :: s in lib ==> layouts.Done(lib, s)
  }

  /** The layouts are complete after they have been computed for a library that passed validation. */
  method ValidLayouts(lib: Library) returns (layouts: LayoutSet)
    requires Validated(lib)
    ensures fresh(layouts) && Complete(lib, layouts)
  {
    hide Validated, RowLayable;
    NamesDiffer(lib);
    ValidatedRows(lib);
    layouts := new LayoutSet();
    var ok := layouts.ComputeLayouts(lib);
  }

  /** Size and alignment of a column, from the layouts. */
  method FieldSizeAlign(lib: Library, layouts: LayoutSet, ghost x: string, ghost k: nat, field: Field)
    returns (ok: bool, size: nat, align: nat)
    requires Validated(lib) && Complete(lib, layouts)
    requires x in Rows(lib) && k < |Fields(lib, x)| && field == Fields(lib, x)[k]
    ensures ok && TypeLayable(lib, field.typ)
    ensures size == Size32(FieldTree(lib, x, k)) && align == Align(FieldTree(lib, x, k))
    ensures field.typ == "int" || field.typ == "float" || field.typ == "ref" ==> size == 8 && align == 8
    ensures field.typ == "bool" ==> size == 1 && align == 1
    ensures field.typ == "string" || IsEnum(lib, field.typ) ==> size == 16 && align == 8
  {
    hide Validated, Rows, Succ, Layable, Depth;
    FieldTypes(lib, x, k);
    ValidatedLayable(lib, x);
    FoundIn(lib, field.typ);
    if IsStruct(lib, field.typ) { assert layouts.Done(lib, Find(lib, field.typ).value); }
    if field.typ == "int" || field.typ == "float" || field.typ == "ref" {
      return true, 8, 8;
    }
    if field.typ == "bool" {
      return true, 1, 1;
    }
    if field.typ == "string" {
      return true, 16, 8;
    }
    var nested := Find(lib, field.typ);
    if nested.value.kind == Enum {
      return true, 16, 8;
    }
    var layout := layouts.structs[nested.value.name];
    return true, layout.size, layout.align;
  }

  class TablePlan {
    var scopes: seq<Scope>
    var scopeOf: map<string, nat>
    var structOrder: seq<string>

    constructor ()
      ensures scopes == [] && scopeOf == map[] && structOrder == []
    {
      scopes, scopeOf, structOrder := [], map[], [];
    }

    /** Scope numbers are their positions, scopeOf is the inverse, and the structs are all scopes but the first. */
    ghost predicate Consistent(lib: Library)
      reads this
    {
      && |scopes| == |structOrder| + 1
      && (forall i :: 0 <= i < |structOrder| ==> scopes[i + 1].schema == structOrder[i])
      && (forall i :: 0 <= i < |scopes| ==> scopes[i].id == i && ScopeOk(lib, scopes[i])
                                            && scopes[i].schema in scopeOf && scopeOf[scopes[i].schema] == i)
      && (forall n :: n in scopeOf ==> scopeOf[n] < |scopes| && scopes[scopeOf[n]].schema == n)
    }

    /** The key column's offset in the root is the one the validator recorded. */
    ghost predicate KeyAgrees(layouts: LayoutSet, schema: Schema)
      reads this, layouts
    {
      && |scopes| > 0 && 0 <= schema.keyIndex < |scopes[0].offsets|
      && schema.name in layouts.tableKeys && scopes[0].offsets[schema.keyIndex] == layouts.tableKeys[schema.name]
    }

    ghost function Seen(): Walk
      reads this
    {
      Walk(scopeOf.Keys, structOrder)
    }

    /** The offsets, looked up by column name. */
    static method ColumnOffsets(lib: Library, schema: Schema, layout: StructLayout) returns (offsets: seq<nat>)
      requires Loaded(lib) && RowLayable(lib, schema.name) && Fields(lib, schema.name) == schema.fields
      requires layout == LayoutOf(lib, schema.name)
      ensures |offsets| == |schema.fields|
      ensures forall k :: 0 <= k < |offsets| ==> offsets[k] == Offset32(lib, schema.name, k)
    {
      hide Rows, RowTree, Size32, Align, OffsetMap, Offset32, TypeLayable, Loaded, Fields;
      ghost var x := schema.name;
      offsets := [];
      for i := 0 to |schema.fields|
        invariant |offsets| == i && forall k :: 0 <= k < i ==> offsets[k] == Offset32(lib, x, k)
      {
        OffsetMapAt(lib, x, |Fields(lib, x)|, i);
        offsets := offsets + [layout.offsets[schema.fields[i].name]];
      }
    }

    /** The scope of a struct: what the layouts say, column by column. */
    method StructScope(lib: Library, layouts: LayoutSet, schema: Schema, id: nat) returns (scope: Scope)
      requires Validated(lib) && Complete(lib, layouts) && schema in lib && schema.kind == Struct
      ensures ScopeOk(lib, scope) && scope.schema == schema.name && scope.id == id
    {
      hide Validated, Rows, RowTree, Size32, Align, OffsetMap, Offset32, TypeLayable, Loaded;
      NamesDiffer(lib);
      RowSchema(lib, schema);
      assert layouts.Done(lib, schema);
      var layout := layouts.structs[schema.name];
      var offsets := ColumnOffsets(lib, schema, layout);
      return Scope(schema.name, id, layout.align, layout.size, offsets);
    }

    method AddScope(lib: Library, scope: Scope)
      requires Validated(lib) && Consistent(lib) && ScopeOk(lib, scope)
      requires scope.id == |scopes| && scope.schema !in scopeOf
      modifies this
      ensures Consistent(lib) && scopes == old(scopes) + [scope]
      ensures Seen() == Walk(old(Seen()).done + {scope.schema}, old(Seen()).out + [scope.schema])
    {
      hide Validated, ScopeOk;
      scopeOf := scopeOf[scope.schema := scope.id];
      structOrder := structOrder + [scope.schema];
      scopes := scopes + [scope];
    }

    /** Preorder over struct columns, each struct once. */
    method CollectScopes(lib: Library, layouts: LayoutSet, field: Field)
      requires Validated(lib) && Complete(lib, layouts) && Consistent(lib)
      modifies this
      ensures Consistent(lib) && scopes[0] == old(scopes[0]) && old(Seen()).done <= Seen().done
      ensures Nested(lib, field, Structs).None? ==> Seen() == old(Seen())
      ensures Nested(lib, field, Structs).Some? ==>
                field.typ in GraphOf(lib, Structs).nodes && Seen() == Pre(GraphOf(lib, Structs), field.typ, old(Seen()))
      decreases GraphOf(lib, Structs).nodes - Seen().done, 0
    {
      hide *;
      NestedIs(lib, field);
      if IsScalarType(field.typ) {
        return;
      }
      var nested := Find(lib, field.typ);
      if nested.None? || nested.value.kind != Struct {
        return;
      }
      ghost var g, x := GraphOf(lib, Structs), field.typ;
      GraphIs(lib, Structs, x);
      PreStep(g, x, Seen());
      InScopes(lib, x);
      if nested.value.name in scopeOf {
        return;
      }
      NamesDiffer(lib);
      RowSchema(lib, nested.value);
      RootStays(lib);
      var scope := StructScope(lib, layouts, nested.value, |scopes|);
      AddScope(lib, scope);
      SuccIs(lib, nested.value, Structs);
      CollectFields(lib, layouts, nested.value.fields);
    }

    lemma InScopes(lib: Library, x: string)
      requires Validated(lib) && Consistent(lib)
      ensures x in scopeOf <==> x in Seen().done
      ensures |scopes| > 0
    {}

    lemma RootStays(lib: Library)
      requires Validated(lib) && Consistent(lib)
      ensures |scopes| > 0
    {}

    method CollectFields(lib: Library, layouts: LayoutSet, fields: seq<Field>)
      requires Validated(lib) && Complete(lib, layouts) && Consistent(lib)
      modifies this
      ensures Consistent(lib) && scopes[0] == old(scopes[0]) && old(Seen()).done <= Seen().done
      ensures forall y :: y in NestedNames(lib, fields, Structs) ==> y in GraphOf(lib, Structs).nodes
      ensures Seen() == PreAll(GraphOf(lib, Structs), NestedNames(lib, fields, Structs), old(Seen()))
      decreases GraphOf(lib, Structs).nodes - Seen().done, 1
    {
      hide *;
      ghost var g, w := GraphOf(lib, Structs), Seen();
      ghost var seen: seq<string> := [];
      GraphIs(lib, Structs, "");
      AllNothing(g, w);
      NoNames(lib, Structs);
      RootStays(lib);
      assert fields[..0] == [];
      for i := 0 to |fields|
        invariant Consistent(lib) && |scopes| > 0 && scopes[0] == old(scopes[0]) && w.done <= Seen().done
        invariant seen == NestedNames(lib, fields[..i], Structs) && forall y :: y in seen ==> y in g.nodes
        invariant Seen() == PreAll(g, seen, w)
      {
        NestedNamesStep(lib, fields, Structs, i);
        CollectScopes(lib, layouts, fields[i]);
        RootStays(lib);
        if Nested(lib, fields[i], Structs).Some? {
          PreAllStep(g, seen, fields[i].typ, w);
          seen := seen + [fields[i].typ];
        }
      }
      assert fields[..|fields|] == fields;
    }

    /** The root's offsets are computed once more; they are those of the validator, its key's among them. */
    method RootOffsets(lib: Library, layouts: LayoutSet, schema: Schema) returns (ok: bool, offsets: seq<nat>)
      requires Validated(lib) && Complete(lib, layouts) && schema in lib && schema.kind == Table
      ensures ok && RowLayable(lib, schema.name) && |offsets| == |Fields(lib, schema.name)|
      ensures forall k :: 0 <= k < |offsets| ==> offsets[k] == Offset32(lib, schema.name, k)
      ensures Size(RowTree(lib, schema.name)) < U32 ==>
                forall k :: 0 <= k < |offsets| ==>
                  FirstMultiple(offsets[k], Align(FieldTree(lib, schema.name, k)), Behind(lib, schema.name, k))
    {
      hide Validated, Rows, ColumnsOf, FieldTree, RowTree, OffsetMap, Size32, Align, End32, MaxAlign,
           Complete, AlignUp32, Add32, Offset32, TypeLayable;
      NamesDiffer(lib);
      RowSchema(lib, schema);
      ghost var x := schema.name;
      ValidatedLayable(lib, x);
      RowStart(lib, x);
      ok, offsets := true, [];
      var cursor := 0;
      for i := 0 to |schema.fields|
        invariant ok && |offsets| == i && LayableTo(lib, x, i) && cursor == End32(ColumnsOf(lib, x, i))
        invariant forall k :: 0 <= k < i ==> offsets[k] == Offset32(lib, x, k)
      {
        var size, align;
        ok, size, align := FieldSizeAlign(lib, layouts, x, i, schema.fields[i]);
        ColumnStep(lib, x, i);
        cursor := AlignUp32(cursor, align);
        offsets := offsets + [cursor];
        cursor := Add32(cursor, size);
      }
      OffsetsPacked(lib, x, offsets);
    }

    method BuildPlan(lib: Library, layouts: LayoutSet, schema: Schema) returns (ok: bool)
      requires Validated(lib) && Complete(lib, layouts) && schema in lib && schema.kind == Table
      requires scopes == [] && scopeOf == map[] && structOrder == []
      modifies this
      ensures ok && Consistent(lib) && |scopes| > 0 && scopes[0].schema == schema.name
      ensures KeyAgrees(layouts, schema)
      ensures schema.name in Rows(lib) && Seen() == ScopeWalk(lib, schema.name)
    {
      hide *;
      NamesDiffer(lib);
      RowSchema(lib, schema);
      var offsets;
      ok, offsets := RootOffsets(lib, layouts, schema);
      TableRecorded(lib, layouts, schema, offsets);
      var align, size := layouts.tableAligns[schema.name], layouts.tableRows[schema.name];
      PlaceRoot(lib, schema, Scope(schema.name, 0, align, size, offsets));
      SuccIs(lib, schema, Structs);
      CollectFields(lib, layouts, schema.fields);
      RootStays(lib);
      RootKey(lib, layouts, schema);
      ScopeWalkIs(lib, schema.name);
    }

    method PlaceRoot(lib: Library, schema: Schema, root: Scope)
      requires Validated(lib) && ScopeOk(lib, root) && root.schema == schema.name && root.id == 0
      requires scopes == [] && scopeOf == map[] && structOrder == []
      modifies this
      ensures Consistent(lib) && scopes == [root] && Seen() == Walk({schema.name}, [])
    {
      hide Validated, ScopeOk;
      scopes := [root];
      scopeOf := map[schema.name := 0];
    }

    lemma RootKey(lib: Library, layouts: LayoutSet, schema: Schema)
      requires Validated(lib) && Complete(lib, layouts) && schema in lib && schema.kind == Table
      requires Consistent(lib) && |scopes| > 0 && scopes[0].schema == schema.name
      ensures KeyAgrees(layouts, schema)
    {
      hide Validated, Rows, Offset32, RowTree, Size32, Align, LayableTo;
      NamesDiffer(lib);
      RowSchema(lib, schema);
      assert layouts.Done(lib, schema) && layouts.TableDone(lib, schema);
      assert ScopeOk(lib, scopes[0]);
    }
  }

  lemma {:induction false} OffsetsPacked(lib: Library, x: string, offsets: seq<nat>)
    requires RowLayable(lib, x) && |offsets| == |Fields(lib, x)|
    requires forall k :: 0 <= k < |offsets| ==> offsets[k] == Offset32(lib, x, k)
    ensures Size(RowTree(lib, x)) < U32 ==>
              forall k :: 0 <= k < |offsets| ==>
                FirstMultiple(offsets[k], Align(FieldTree(lib, x, k)), Behind(lib, x, k))
  {
    hide Rows, Size, Size32, Offset, Offset32, TypeLayable, RowTree, Fields, FieldTree, Align, FirstMultiple, Behind;
    RowExactIff(lib, x);
    RowPacked(lib, x);
  }

  lemma TableRecorded(lib: Library, layouts: LayoutSet, schema: Schema, offsets: seq<nat>)
    requires Validated(lib) && Complete(lib, layouts) && schema in lib && schema.kind == Table
    requires RowLayable(lib, schema.name) && |offsets| == |Fields(lib, schema.name)|
    requires forall k :: 0 <= k < |offsets| ==> offsets[k] == Offset32(lib, schema.name, k)
    ensures schema.name in layouts.tableAligns && schema.name in layouts.tableRows
    ensures var align, size := layouts.tableAligns[schema.name], layouts.tableRows[schema.name];
            ScopeOk(lib, Scope(schema.name, 0, align, size, offsets))
  {
    hide Validated, Rows, Offset32, RowTree, Size32, Align, LayableTo;
    assert layouts.Done(lib, schema) && layouts.TableDone(lib, schema);
  }

  lemma NestedIs(lib: Library, f: Field)
    ensures IsScalarType(f.typ) ==> Nested(lib, f, Structs).None?
    ensures var r := Find(lib, f.typ);
            !IsScalarType(f.typ) ==> Nested(lib, f, Structs) == if r.Some? && r.value.kind == Struct then r else None
    ensures Find(lib, f.typ).Some? ==> Find(lib, f.typ).value in lib && Find(lib, f.typ).value.name == f.typ
    ensures Find(lib, f.typ).Some? && Find(lib, f.typ).value.kind == Struct ==> f.typ in GraphOf(lib, Structs).nodes
  {}

  lemma SuccIs(lib: Library, s: Schema, how: Lookup)
    requires Find(lib, s.name) == Some(s)
    ensures GraphOf(lib, how).succ(s.name) == NestedNames(lib, s.fields, how) == Succ(lib, how, s.name)
  {}

  /** The structs a table's plan collects. */
  ghost function ScopeWalk(lib: Library, x: string): Walk
    requires x in Rows(lib)
  {
    var g := GraphOf(lib, Structs);
    PreAll(g, g.succ(x), Walk({x}, []))
  }

  lemma ScopeWalkIs(lib: Library, x: string)
    requires x in Rows(lib)
    ensures var g := GraphOf(lib, Structs); x in g.nodes && ScopeWalk(lib, x) == PreAll(g, g.succ(x), Walk({x}, []))
  {}

  // ---------- declarations for a table's structs ----------

  /** Postorder over struct fields, the table itself left out. */
  method CollectDasStructOrder(lib: Library, schema: Schema, out0: seq<string>, done0: set<string>)
    returns (out: seq<string>, done: set<string>)
    requires UniqueNames(lib) && schema in lib && schema.kind != Enum
    ensures schema.name in GraphOf(lib, AnyName).nodes
    ensures var g := GraphOf(lib, AnyName);
            Walk(done, out) == OrderAll(g, g.succ(schema.name), Walk(done0, out0))
    decreases GraphOf(lib, AnyName).nodes - done0
  {
    hide Order, OrderAll, NestedNames, Find;
    ghost var g, x := GraphOf(lib, AnyName), schema.name;
    assert x in g.nodes;
    FindUnique(lib, schema);
    out, done := out0, done0;
    ghost var w, seen: seq<string> := Walk(done, out), [];
    AllNothing(g, w);
    NoNames(lib, AnyName);
    assert schema.fields[..0] == [];
    for i := 0 to |schema.fields|
      invariant seen == NestedNames(lib, schema.fields[..i], AnyName) && forall y :: y in seen ==> y in g.nodes
      invariant Walk(done, out) == OrderAll(g, seen, w) && done0 <= done
    {
      var field := schema.fields[i];
      NestedNamesStep(lib, schema.fields, AnyName, i);
      var nested := Find(lib, field.typ);
      if nested.None? || nested.value.kind != Struct {
        continue;
      }
      FoundIn(lib, field.typ);
      OrderAllStep(g, seen, field.typ, w);
      DoneGrows(g, field.typ, Walk(done, out));
      OrderStep(g, field.typ, Walk(done, out));
      seen := seen + [field.typ];
      if nested.value.name in done {
        continue;
      }
      done := done + {nested.value.name};
      out, done := CollectDasStructOrder(lib, nested.value, out, done);
      out := out + [nested.value.name];
    }
    assert schema.fields[..|schema.fields|] == schema.fields;
  }

  ghost function DasOrder(lib: Library, x: string): seq<string>
    requires x in Rows(lib)
  {
    var g := GraphOf(lib, AnyName);
    OrderAll(g, g.succ(x), Walk({}, [])).out
  }

  method DasStructOrder(lib: Library, schema: Schema) returns (ordered: seq<string>)
    requires UniqueNames(lib) && schema in lib && schema.kind == Table
    ensures schema.name in Rows(lib) && ordered == DasOrder(lib, schema.name)
  {
    hide OrderAll;
    var done: set<string>;
    ordered, done := CollectDasStructOrder(lib, schema, [], {});
  }

  /** The scopes are what the table embeds at any depth, each once. */
  lemma {:induction false} ScopesAre(lib: Library, x: string)
    requires Validated(lib) && x in Rows(lib)
    ensures Distinct(ScopeWalk(lib, x).out) && ScopeWalk(lib, x).done == Elements(ScopeWalk(lib, x).out) + {x}
    ensures forall y :: y in ScopeWalk(lib, x).out <==> Reaches(GraphOf(lib, Structs), x, y)
    ensures ParentsFirst(GraphOf(lib, Structs), x, ScopeWalk(lib, x).out)
  {
    hide PreAll, ParentsFirst;
    PreOrdered(GraphOf(lib, Structs), x);
    var g := GraphOf(lib, Structs);
    GraphIs(lib, Structs, x);
    PreRoot(g, x);
    var out := ScopeWalk(lib, x).out;
    forall y ensures y in out <==> Reaches(g, x, y) {
      assert y in out <==> y in ReachSet(g, x) by { assert y in out <==> y in Elements(out); }
      if Reaches(g, x, y) { ReachesInside(g, x, y); }
    }
  }

  lemma ReachesInside(g: Graph, x: string, y: string)
    requires g.Closed() && Reaches(g, x, y)
    ensures y in g.nodes
  {
    var p :| PathFromTo(g, p, x, y);
    PathStays(g, p, |p| - 1);
  }

  /** The declarations are what the table leads to when every type name is looked up, each once. */
  lemma {:induction false} DeclaredAre(lib: Library, x: string)
    requires x in Rows(lib)
    ensures Distinct(DasOrder(lib, x))
    ensures forall y :: y in DasOrder(lib, x) <==> Reaches(GraphOf(lib, AnyName), x, y)
  {
    hide *;
    GraphIs(lib, AnyName, x);
    InElements(lib, x);
    DasOrderIs(lib, x);
    OrderBelow(GraphOf(lib, AnyName), x);
  }

  lemma InElements(lib: Library, x: string)
    requires x in Rows(lib)
    ensures x in Elements(Rows(lib))
  {}

  lemma DasOrderIs(lib: Library, x: string)
    requires x in Rows(lib)
    ensures var g := GraphOf(lib, AnyName);
            x in g.nodes && DasOrder(lib, x) == OrderAll(g, g.succ(x), Walk({}, [])).out
  {}

  /** Each struct is declared after those it embeds, unless these lead back to it. */
  lemma {:induction false} DeclaredSorted(lib: Library, x: string)
    requires x in Rows(lib)
    ensures forall u, v :: u in DasOrder(lib, x) && v in Succ(lib, Structs, u) ==>
              Before(DasOrder(lib, x), v, u) || Reaches(GraphOf(lib, AnyName), v, u)
  {
    hide OrderAll, Reaches, Before, Succ;
    var g, das := GraphOf(lib, AnyName), DasOrder(lib, x);
    GraphIs(lib, AnyName, x);
    OrderRoots(g, g.succ(x));
    forall u, v | u in das && v in Succ(lib, Structs, u) ensures Before(das, v, u) || Reaches(g, v, u) {
      CheckedIsLookup(lib, u, v);
      GraphIs(lib, AnyName, u);
    }
  }

  /** Every struct descriptor the registration pushes has been declared; and nothing else is declared,
      unless some struct is named like a scalar type. */
  lemma {:induction false} ScopesDeclared(lib: Library, x: string)
    requires Validated(lib) && x in Rows(lib)
    ensures forall y :: y in ScopeWalk(lib, x).out ==> y in DasOrder(lib, x)
    ensures NoScalarStruct(lib) ==> forall y :: y in ScopeWalk(lib, x).out <==> y in DasOrder(lib, x)
  {
    hide PreAll, OrderAll, Reaches, Validated;
    ScopesAre(lib, x);
    DeclaredAre(lib, x);
    forall y | y in ScopeWalk(lib, x).out ensures y in DasOrder(lib, x) {
      CheckedReaches(lib, x, y);
    }
    if NoScalarStruct(lib) {
      forall y | y in DasOrder(lib, x) ensures y in ScopeWalk(lib, x).out {
        LookupReaches(lib, x, y);
      }
    }
  }

  lemma {:induction false} CheckedReaches(lib: Library, x: string, y: string)
    requires Reaches(GraphOf(lib, Structs), x, y)
    ensures Reaches(GraphOf(lib, AnyName), x, y)
  {
    var g, g' := GraphOf(lib, Structs), GraphOf(lib, AnyName);
    forall a, b | a in g.nodes && b in g.succ(a) ensures b in g'.succ(a) { CheckedIsLookup(lib, a, b); }
    ReachesMore(g, g', x, y);
  }
}
