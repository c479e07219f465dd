/** Schemas and the graphs they form. */
module SchemaLibrary {
  import opened Collections
  import opened Graphs
  import opened Wrappers

  datatype Kind = Table | Struct | Enum

  datatype Field = Field(
    name: string, typ: string, ref: string, values: seq<string>, isKey: bool, hasMin: bool, hasMax: bool,
    hasDefault: bool, defaultString: string, defaultText: string)

  datatype Schema = Schema(name: string, kind: Kind, fields: seq<Field>, values: seq<string>, keyIndex: int)

  type Library = seq<Schema>

  predicate IsScalarType(t: string) {
    t == "int" || t == "float" || t == "bool" || t == "string" || t == "ref"
  }

  /** The first schema of that name. */
  function Find(lib: Library, name: string): (r: Option<Schema>)
    ensures r.Some? ==> r.value in lib && r.value.name == name
    ensures r.None? ==> forall s :: s in lib ==> s.name != name
  {
    if |lib| == 0 then None
    else if lib[0].name == name then Some(lib[0])
    else Find(lib[1..], name)
  }

  lemma FoundIn(lib: Library, name: string)
    ensures Find(lib, name).Some? ==> Find(lib, name).value in lib && Find(lib, name).value.name == name
    ensures Find(lib, name).None? ==> forall s :: s in lib ==> s.name != name
  {}

  // ---------- what the loader guarantees ----------

  ghost predicate UniqueNames(lib: Library) {
    forall i, j :: 0 <= i < j < |lib| ==> lib[i].name != lib[j].name
  }

  lemma {:induction false} FindUnique(lib: Library, s: Schema)
    requires UniqueNames(lib) && s in lib
    ensures Find(lib, s.name) == Some(s)
  {
    var r := Find(lib, s.name);
    var i :| 0 <= i < |lib| && lib[i] == s;
    var j :| 0 <= j < |lib| && lib[j] == r.value;
    assert !(i < j) && !(j < i);
  }

  /** A table has one key field, a struct none, an enum no fields. */
  ghost predicate Classified(s: Schema) {
    && (s.kind == Enum ==> s.fields == [])
    && (s.kind == Table ==> 0 <= s.keyIndex < |s.fields|
                            && forall i :: 0 <= i < |s.fields| ==> (s.fields[i].isKey <==> i == s.keyIndex))
    && (s.kind == Struct ==> s.fields != [] && forall i :: 0 <= i < |s.fields| ==> !s.fields[i].isKey)
  }

  /** Field names are the keys of one object, which the file parser keeps distinct. */
  ghost predicate WellParsed(s: Schema) {
    Classified(s) && forall i, j :: 0 <= i < j < |s.fields| ==> s.fields[i].name != s.fields[j].name
  }

  ghost predicate Loaded(lib: Library) {
    UniqueNames(lib) && forall s :: s in lib ==> WellParsed(s)
  }

  predicate TwoKeys(fields: seq<Field>) {
    exists i, j :: 0 <= i < j < |fields| && fields[i].isKey && fields[j].isKey
  }

  /** The kind follows from what a schema file declares: a list of values, or fields with at most one key. */
  method ClassifySchema(name: string, fields: seq<Field>, hasValues: bool, values: seq<string>)
    returns (r: Option<Schema>)
    ensures r.Some? ==> Classified(r.value) && r.value.name == name
    ensures r.Some? ==> r.value.fields == fields && r.value.values == values
    ensures r.Some? ==> (r.value.kind == Enum <==> hasValues)
    ensures r.None? <==> if hasValues then fields != [] else fields == [] || TwoKeys(fields)
  {
    if hasValues && fields != [] {
      return None;
    }
    if hasValues {
      return Some(Schema(name, Enum, fields, values, -1));
    }
    if fields == [] {
      return None;
    }
    var keyCount, keyIndex := 0, -1;
    for i := 0 to |fields|
      invariant keyCount == 0 ==> keyIndex == -1 && forall k :: 0 <= k < i ==> !fields[k].isKey
      invariant keyCount >= 1 ==> 0 <= keyIndex < i && fields[keyIndex].isKey
      invariant keyCount == 1 ==> forall k :: 0 <= k < i && fields[k].isKey ==> k == keyIndex
      invariant keyCount >= 0
      invariant keyCount > 1 ==> exists a, b :: 0 <= a < b < i && fields[a].isKey && fields[b].isKey
    {
      if fields[i].isKey {
        keyIndex := i;
        keyCount := keyCount + 1;
      }
    }
    if keyCount > 1 {
      return None;
    }
    r := Some(Schema(name, if keyCount == 1 then Table else Struct, fields, values, keyIndex));
  }

  ghost predicate Taken(lib: Library, name: string) {
    exists s :: s in lib && s.name == name
  }

  lemma NowTaken(lib: Library, s: Schema)
    requires s in lib
    ensures Taken(lib, s.name)
  {}

  lemma TakenLater(lib: Library, s: Schema)
    ensures forall name :: Taken(lib, name) ==> Taken(lib + [s], name)
    ensures Taken(lib + [s], s.name)
  {
    assert s in lib + [s];
    forall name | Taken(lib, name) ensures Taken(lib + [s], name) {
      var t :| t in lib && t.name == name;
      assert t in lib + [s];
    }
  }

  /** Schemas of a name already taken are left out and reported. */
  method LoadLibrary(parsed: seq<Option<Schema>>) returns (lib: Library, ok: bool)
    requires forall s :: Some(s) in parsed ==> WellParsed(s)
    ensures Loaded(lib)
    ensures forall s :: s in lib ==> Some(s) in parsed
    ensures forall k :: 0 <= k < |parsed| && parsed[k].Some? ==> Taken(lib, parsed[k].value.name)
    ensures ok ==> |lib| == |parsed| && forall i :: 0 <= i < |lib| ==> parsed[i] == Some(lib[i])
    ensures ok <==> None !in parsed
                    && forall i, j :: 0 <= i < j < |parsed| ==> parsed[i].value.name != parsed[j].value.name
  {
    hide WellParsed, Taken, Find;
    lib, ok := [], true;
    for i := 0 to |parsed|
      invariant Loaded(lib)
      invariant ok ==> |lib| == i && forall k :: 0 <= k < i ==> parsed[k] == Some(lib[k])
      invariant !ok ==> None in parsed
                        || exists a, b :: 0 <= a < b < |parsed| && parsed[a].Some? && parsed[b].Some?
                                          && parsed[a].value.name == parsed[b].value.name
      invariant forall s :: s in lib ==> exists k :: 0 <= k < i && parsed[k] == Some(s)
      invariant forall k :: 0 <= k < i && parsed[k].Some? ==> Taken(lib, parsed[k].value.name)
    {
      if parsed[i].None? {
        ok := false;
        continue;
      }
      var schema := parsed[i].value;
      FoundIn(lib, schema.name);
      var clash := Find(lib, schema.name);
      if clash.Some? {
        NowTaken(lib, clash.value);
        ok := false;
        continue;
      }
      assert Some(schema) in parsed;
      TakenLater(lib, schema);
      lib := lib + [schema];
    }
  }

  // ---------- the graphs of structs inside schemas ----------

  /** How a traversal looks for what a field embeds. Most look only at types that are not scalars and want a struct;
      two look up every type name; the layout takes tables too. */
  datatype Lookup = Structs | AnyName | RowTypes

  function Nested(lib: Library, f: Field, how: Lookup): Option<Schema> {
    if how != AnyName && IsScalarType(f.typ) then None
    else
      var r := Find(lib, f.typ);
      if r.Some? && (r.value.kind == Struct || (how == RowTypes && r.value.kind == Table)) then r else None
  }

  function NestedNames(lib: Library, fields: seq<Field>, how: Lookup): seq<string> {
    if |fields| == 0 then []
    else
      var rest := NestedNames(lib, fields[..|fields| - 1], how);
      var n := Nested(lib, fields[|fields| - 1], how);
      if n.Some? then rest + [n.value.name] else rest
  }

  lemma NoNames(lib: Library, how: Lookup)
    ensures NestedNames(lib, [], how) == []
  {}

  lemma NestedNamesStep(lib: Library, fields: seq<Field>, how: Lookup, i: nat)
    requires i < |fields|
    ensures NestedNames(lib, fields[..i + 1], how) ==
            NestedNames(lib, fields[..i], how) + if Nested(lib, fields[i], how).Some? then [fields[i].typ] else []
  {
    assert fields[..i + 1][..i] == fields[..i];
  }

  lemma {:induction false} NestedNamesAre(lib: Library, fields: seq<Field>, how: Lookup, y: string)
    ensures y in NestedNames(lib, fields, how) <==>
            exists i :: 0 <= i < |fields| && Nested(lib, fields[i], how).Some? && fields[i].typ == y
  {
    if |fields| > 0 {
      var rest, last := fields[..|fields| - 1], fields[|fields| - 1];
      NestedNamesAre(lib, rest, how, y);
      if i :| 0 <= i < |fields| && Nested(lib, fields[i], how).Some? && fields[i].typ == y {
        if i < |rest| { assert rest[i] == fields[i]; }
      }
    }
  }

  function Succ(lib: Library, how: Lookup, name: string): seq<string> {
    var s := Find(lib, name);
    if s.Some? then NestedNames(lib, s.value.fields, how) else []
  }

  /** The names of tables and structs, in library order. */
  function Rows(lib: Library): (r: seq<string>)
    ensures forall x :: x in r <==> exists s :: s in lib && s.kind != Enum && s.name == x
  {
    if |lib| == 0 then []
    else
      assert lib == lib[..|lib| - 1] + [lib[|lib| - 1]];
      if lib[|lib| - 1].kind != Enum then Rows(lib[..|lib| - 1]) + [lib[|lib| - 1].name]
      else Rows(lib[..|lib| - 1])
  }

  ghost function GraphOf(lib: Library, how: Lookup): (g: Graph)
    ensures g.Closed()
  {
    var g := Graph(Elements(Rows(lib)), x => Succ(lib, how, x));
    GraphClosed(lib, how, g);
    g
  }

  lemma {:induction false} GraphClosed(lib: Library, how: Lookup, g: Graph)
    requires g.nodes == Elements(Rows(lib)) && forall x :: g.succ(x) == Succ(lib, how, x)
    ensures g.Closed()
  {
    forall x, y | x in g.nodes && y in g.succ(x) ensures y in g.nodes {
      NestedNamesAre(lib, Find(lib, x).value.fields, how, y);
    }
  }

  /** Struct columns embed only by value, never by scalar name. */
  lemma {:induction false} CheckedIsLookup(lib: Library, x: string, y: string)
    requires y in Succ(lib, Structs, x)
    ensures y in Succ(lib, AnyName, x)
  {
    var s := Find(lib, x);
    NestedNamesAre(lib, s.value.fields, Structs, y);
    NestedNamesAre(lib, s.value.fields, AnyName, y);
    var i :| 0 <= i < |s.value.fields| && Nested(lib, s.value.fields[i], Structs).Some? && s.value.fields[i].typ == y;
    assert Nested(lib, s.value.fields[i], AnyName).Some?;
  }

  ghost predicate NoScalarStruct(lib: Library) {
    forall s :: s in lib && s.kind == Struct ==> !IsScalarType(s.name)
  }

  /** When no struct is named like a scalar type the two graphs are one. */
  lemma {:induction false} LookupIsChecked(lib: Library, fields: seq<Field>)
    requires NoScalarStruct(lib)
    ensures NestedNames(lib, fields, AnyName) == NestedNames(lib, fields, Structs)
  {
    if |fields| > 0 {
      LookupIsChecked(lib, fields[..|fields| - 1]);
    }
  }
}
