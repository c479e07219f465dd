/** Validation of a schema library: the structural checks, and no struct inside itself. */
module Validator {
  import opened Collections
  import opened Graphs
  import opened SchemaLibrary
  import opened Wrappers

  /** A visit walks down the struct fields with the names above it on the stack; it reports every name it meets again. */
  method VisitStruct(lib: Library, schema: Schema, stack0: seq<string>, errors0: seq<string>)
    returns (ok: bool, stack: seq<string>, errors: seq<string>)
    requires UniqueNames(lib) && schema in lib
    ensures stack == stack0
    ensures schema.kind == Enum ==> ok && errors == errors0
    ensures schema.kind != Enum ==>
              schema.name in GraphOf(lib, Structs).nodes
              && errors == errors0 + Visit(GraphOf(lib, Structs), schema.name, stack0)
              && (ok <==> Visit(GraphOf(lib, Structs), schema.name, stack0) == [])
    decreases GraphOf(lib, Structs).nodes - Elements(stack0)
  {
    hide Visit, VisitAll, NestedNames, Find;
    stack, errors := stack0, errors0;
    if schema.kind == Enum {
      return true, stack, errors;
    }
    ghost var g := GraphOf(lib, Structs);
    assert schema.name in g.nodes;
    FindUnique(lib, schema);
    VisitStep(g, schema.name, stack0);
    if schema.name in stack {
      errors := errors + [schema.name];
      return false, stack, errors;
    }
    Pushed(stack0, schema.name);
    stack := stack + [schema.name];
    ok := true;
    ghost var seen: seq<string> := [];
    VisitAllStep(g, [], schema.name, stack);
    NoNames(lib, Structs);
    assert schema.fields[..0] == [];
    for i := 0 to |schema.fields|
      invariant stack == stack0 + [schema.name]
      invariant seen == NestedNames(lib, schema.fields[..i], Structs) && forall y :: y in seen ==> y in g.nodes
      invariant errors == errors0 + VisitAll(g, seen, stack)
      invariant ok <==> VisitAll(g, seen, stack) == []
    {
      var field := schema.fields[i];
      NestedNamesStep(lib, schema.fields, Structs, i);
      if IsScalarType(field.typ) {
        continue;
      }
      var nested := Find(lib, field.typ);
      if nested.None? || nested.value.kind != Struct {
        continue;
      }
      FoundIn(lib, field.typ);
      VisitAllStep(g, seen, field.typ, stack);
      seen := seen + [field.typ];
      var good;
      good, stack, errors := VisitStruct(lib, nested.value, stack, errors);
      if !good {
        ok := false;
      }
    }
    assert schema.fields[..|schema.fields|] == schema.fields;
    stack := stack[..|stack| - 1];
  }

  predicate IsNumberType(t: string) {
    t == "int" || t == "float"
  }

  predicate IsKeyType(t: string) {
    t == "string" || t == "int"
  }

  /** A column of a struct or an enum has no attributes but, for an enum, one of its values as the default. */
  predicate NestedFieldOk(lib: Library, f: Field) {
    var nested := Find(lib, f.typ);
    && nested.Some? && nested.value.kind != Table
    && (f.hasDefault ==> nested.value.kind == Enum && f.defaultString in nested.value.values)
    && !f.hasMin && !f.hasMax && f.values == [] && f.ref == "" && !f.isKey
  }

  /** References name tables, limits stand on numbers, value lists on strings that are no key,
      keys are strings or ints without a default, and defaults look like the type. */
  predicate ScalarFieldOk(lib: Library, f: Field) {
    && (f.ref != "" <==> f.typ == "ref")
    && (f.typ == "ref" ==> Find(lib, f.ref).Some? && Find(lib, f.ref).value.kind == Table)
    && (f.hasMin || f.hasMax ==> IsNumberType(f.typ))
    && (f.values != [] ==> f.typ == "string" && !f.isKey)
    && (f.isKey ==> IsKeyType(f.typ) && !f.hasDefault)
    && (f.hasDefault && f.typ == "int" ==> '.' !in f.defaultText)
    && (f.hasDefault && f.typ == "bool" ==> f.defaultText == "true" || f.defaultText == "false")
  }

  predicate FieldOk(lib: Library, f: Field) {
    if IsScalarType(f.typ) then ScalarFieldOk(lib, f) else NestedFieldOk(lib, f)
  }

  ghost predicate SchemaOk(lib: Library, s: Schema) {
    if s.kind == Enum then s.values != [] && "" !in s.values && Distinct(s.values)
    else forall k :: 0 <= k < |s.fields| ==> FieldOk(lib, s.fields[k])
  }

  /** What a library that passes is. */
  ghost predicate Validated(lib: Library) {
    Loaded(lib) && (forall s :: s in lib ==> SchemaOk(lib, s)) && Acyclic(GraphOf(lib, Structs))
  }

  /** Each branch reports what it finds. */
  method CheckNestedField(lib: Library, field: Field) returns (errors: nat)
    ensures errors == 0 <==> NestedFieldOk(lib, field)
  {
    hide Find;
    errors := 0;
    var nested := Find(lib, field.typ);
    if nested.None? {
      errors := errors + 1;
    } else if nested.value.kind == Table {
      errors := errors + 1;
    } else if nested.value.kind == Enum {
      if field.hasDefault && field.defaultString !in nested.value.values {
        errors := errors + 1;
      }
    } else if field.hasDefault {
      errors := errors + 1;
    }
    if field.hasMin || field.hasMax {
      errors := errors + 1;
    }
    if field.values != [] {
      errors := errors + 1;
    }
    if field.ref != "" {
      errors := errors + 1;
    }
    if field.isKey {
      errors := errors + 1;
    }
  }

  method CheckReference(lib: Library, field: Field) returns (errors: nat)
    ensures errors == 0 <==> (field.ref != "" <==> field.typ == "ref")
                             && (field.typ == "ref" ==> Find(lib, field.ref).Some?
                                                        && Find(lib, field.ref).value.kind == Table)
  {
    hide Find;
    errors := 0;
    if field.typ == "ref" {
      if field.ref == "" {
        return 1;
      }
      var target := Find(lib, field.ref);
      if target.None? {
        errors := errors + 1;
      } else if target.value.kind != Table {
        errors := errors + 1;
      }
    } else if field.ref != "" {
      errors := errors + 1;
    }
  }

  method CheckScalarField(lib: Library, field: Field) returns (errors: nat)
    ensures errors == 0 <==> ScalarFieldOk(lib, field)
  {
    hide Find;
    errors := CheckReference(lib, field);
    if field.typ == "ref" && field.ref == "" {
      return;
    }
    if field.values != [] && field.typ != "string" {
      errors := errors + 1;
    }
    if (field.hasMin || field.hasMax) && field.typ != "int" && field.typ != "float" {
      errors := errors + 1;
    }
    if field.isKey {
      if field.typ != "string" && field.typ != "int" {
        errors := errors + 1;
      }
      if field.hasDefault {
        errors := errors + 1;
      }
      if field.values != [] {
        errors := errors + 1;
      }
    }
    if field.hasDefault {
      if field.typ == "int" && '.' in field.defaultText {
        errors := errors + 1;
      }
      if field.typ == "bool" && field.defaultText != "true" && field.defaultText != "false" {
        errors := errors + 1;
      }
    }
  }

  /** An enum has values, none empty and none twice. */
  method CheckEnum(values: seq<string>) returns (errors: nat)
    ensures errors == 0 <==> values != [] && "" !in values && Distinct(values)
  {
    errors := if values == [] then 1 else 0;
    for i := 0 to |values|
      invariant errors == 0 ==> values != [] && "" !in values[..i] && Distinct(values[..i])
      invariant errors > 0 ==> values == [] || "" in values || !Distinct(values)
    {
      assert values[..i + 1] == values[..i] + [values[i]];
      if values[i] == "" {
        errors := errors + 1;
        continue;
      }
      for j := 0 to i
        invariant values[i] !in values[..j]
      {
        if values[j] == values[i] {
          errors := errors + 1;
          break;
        }
      }
    }
  }

  method CheckSchema(lib: Library, schema: Schema) returns (errors: nat)
    requires WellParsed(schema)
    ensures errors == 0 <==> SchemaOk(lib, schema)
  {
    hide Find, NestedFieldOk;
    errors := 0;
    if schema.kind == Enum {
      errors := CheckEnum(schema.values);
      return;
    }
    if schema.kind == Table {
      var key := schema.fields[schema.keyIndex];
      if key.typ != "string" && key.typ != "int" {
        KeyTypes(lib, key);
        errors := errors + 1;
      }
    }
    for j := 0 to |schema.fields|
      invariant errors == 0 ==> forall k :: 0 <= k < j ==> FieldOk(lib, schema.fields[k])
      invariant errors > 0 ==> !SchemaOk(lib, schema)
    {
      var field, more := schema.fields[j], 0;
      if !IsScalarType(field.typ) {
        more := CheckNestedField(lib, field);
      } else {
        more := CheckScalarField(lib, field);
      }
      errors := errors + more;
    }
  }

  /** The separate check on the key's type repeats what its field reports. */
  lemma KeyTypes(lib: Library, f: Field)
    requires f.isKey && !IsKeyType(f.typ)
    ensures !FieldOk(lib, f)
  {}

  /** Visit every table and struct; what is found are cycles, and every cycle is found. */
  method FindCycles(lib: Library) returns (errors: seq<string>)
    requires UniqueNames(lib)
    ensures errors == [] <==> Acyclic(GraphOf(lib, Structs))
    ensures forall n :: n in errors <==> n in Rows(lib) && Reaches(GraphOf(lib, Structs), n, n)
  {
    hide Visit, Reaches, Rows;
    ghost var g := GraphOf(lib, Structs);
    errors := [];
    for i := 0 to |lib|
      invariant forall n :: n in errors ==> Reaches(g, n, n)
      invariant forall k :: 0 <= k < i && lib[k].kind != Enum && Reaches(g, lib[k].name, lib[k].name) ==>
                  lib[k].name in errors
      invariant errors == [] <==> forall k :: 0 <= k < i ==> VisitClean(g, lib[k])
    {
      var schema := lib[i];
      if schema.kind != Enum {
        var good, stack, more := VisitStruct(lib, schema, [], errors);
        assert VisitClean(g, schema) <==> Visit(g, schema.name, []) == [];
        VisitReports(g, schema.name);
        errors := more;
      }
    }
    ReportedRows(lib, errors);
    VisitIff(g);
    assert errors == [] <==> forall x :: x in g.nodes ==> Visit(g, x, []) == [] by {
      if errors == [] {
        forall x | x in g.nodes ensures Visit(g, x, []) == [] {
          var s :| s in lib && s.kind != Enum && s.name == x;
          var k :| 0 <= k < |lib| && lib[k] == s;
          assert VisitClean(g, lib[k]);
        }
      } else {
        var k :| 0 <= k < |lib| && !VisitClean(g, lib[k]);
        assert lib[k].name in g.nodes;
      }
    }
  }

  lemma {:induction false} ReportedRows(lib: Library, errors: seq<string>)
    requires forall n :: n in errors ==> Reaches(GraphOf(lib, Structs), n, n)
    requires forall k :: 0 <= k < |lib| && lib[k].kind != Enum ==>
               Reaches(GraphOf(lib, Structs), lib[k].name, lib[k].name) ==> lib[k].name in errors
    ensures forall n :: n in errors <==> n in Rows(lib) && Reaches(GraphOf(lib, Structs), n, n)
  {
    var g := GraphOf(lib, Structs);
    forall n ensures n in errors <==> n in Rows(lib) && Reaches(g, n, n) {
      if n in errors { var p :| PathFromTo(g, p, n, n); }
      if n in Rows(lib) && Reaches(g, n, n) {
        var s :| s in lib && s.kind != Enum && s.name == n;
        var k :| 0 <= k < |lib| && lib[k] == s;
      }
    }
  }

  ghost predicate VisitClean(g: Graph, s: Schema)
    requires g.Closed()
  {
    s.kind == Enum || s.name !in g.nodes || Visit(g, s.name, []) == []
  }

  // ---------- the rules, one by one ----------

  ghost predicate Named(lib: Library, name: string, kind: Kind) {
    exists s :: s in lib && s.name == name && s.kind == kind
  }

  predicate BuiltIn(typ: string) {
    typ == "int" || typ == "float" || typ == "bool" || typ == "string" || typ == "ref"
  }

  /** What a column of a struct or a table may declare, condition by condition. */
  ghost predicate ColumnRules(lib: Library, f: Field) {
    && (BuiltIn(f.typ) || Named(lib, f.typ, Struct) || Named(lib, f.typ, Enum))
    && (f.isKey ==> f.typ == "string" || f.typ == "int")
    && (f.isKey ==> !f.hasDefault)
    && (f.isKey ==> f.values == [])
    && (f.hasMin ==> f.typ == "int" || f.typ == "float")
    && (f.hasMax ==> f.typ == "int" || f.typ == "float")
    && (f.values != [] ==> f.typ == "string")
    && (f.typ == "ref" ==> f.ref != "" && Named(lib, f.ref, Table))
    && (f.typ != "ref" ==> f.ref == "")
    && (f.hasDefault && f.typ == "int" ==> '.' !in f.defaultText)
    && (f.hasDefault && f.typ == "bool" ==> f.defaultText == "true" || f.defaultText == "false")
    && (f.hasDefault && !BuiltIn(f.typ) ==>
          exists s :: s in lib && s.name == f.typ && s.kind == Enum && f.defaultString in s.values)
  }

  ghost predicate EnumRules(values: seq<string>) {
    && |values| > 0 && (forall i :: 0 <= i < |values| ==> |values[i]| > 0)
    && forall i, j :: 0 <= i < j < |values| ==> values[i] != values[j]
  }

  lemma {:induction false} NamedIs(lib: Library, name: string, kind: Kind)
    requires UniqueNames(lib)
    ensures Named(lib, name, kind) <==> Find(lib, name).Some? && Find(lib, name).value.kind == kind
  {
    hide Find;
    if s :| s in lib && s.name == name && s.kind == kind { FindUnique(lib, s); }
    FoundIn(lib, name);
  }

  /** The branches of the validator add up to these rules. */
  lemma {:induction false} RulesIff(lib: Library, f: Field)
    requires UniqueNames(lib)
    ensures FieldOk(lib, f) <==> ColumnRules(lib, f)
  {
    hide Find, Named, UniqueNames;
    NamedIs(lib, f.typ, Struct);
    NamedIs(lib, f.typ, Enum);
    NamedIs(lib, f.ref, Table);
    FoundIn(lib, f.typ);
    forall s | s in lib ensures Find(lib, s.name) == Some(s) { FindUnique(lib, s); }
  }

  /** A schema of that name has a column of that struct type. */
  ghost predicate Embeds(lib: Library, x: string, y: string) {
    !BuiltIn(y) && Named(lib, y, Struct)
    && exists s, f :: s in lib && s.name == x && s.kind != Enum && f in s.fields && f.typ == y
  }

  /** A chain of embeddings that comes back to where it began. */
  ghost predicate Circle(lib: Library, p: seq<string>) {
    |p| > 1 && p[0] == p[|p| - 1] && forall i :: 0 <= i < |p| - 1 ==> Embeds(lib, p[i], p[i + 1])
  }

  lemma {:induction false} EmbedsIff(lib: Library, x: string, y: string)
    requires UniqueNames(lib)
    ensures Embeds(lib, x, y) <==> x in Rows(lib) && y in Succ(lib, Structs, x)
  {
    hide Find, Named, UniqueNames, NestedNames;
    NamedIs(lib, y, Struct);
    if Find(lib, x).Some? {
      var fields := Find(lib, x).value.fields;
      NestedNamesAre(lib, fields, Structs, y);
      if f :| f in fields && f.typ == y {
        var i :| 0 <= i < |fields| && fields[i] == f;
        assert Nested(lib, fields[i], Structs).Some? <==> !BuiltIn(y) && Named(lib, y, Struct);
      }
    }
    forall s | s in lib ensures Find(lib, s.name) == Some(s) { FindUnique(lib, s); }
    FoundIn(lib, x);
  }

  lemma {:induction false} CircleIff(lib: Library)
    requires UniqueNames(lib)
    ensures Acyclic(GraphOf(lib, Structs)) <==> forall p :: !Circle(lib, p)
  {
    hide UniqueNames, Embeds, Succ, Rows;
    var g := GraphOf(lib, Structs);
    forall p | Circle(lib, p) ensures !Acyclic(g) {
      forall i | 0 <= i < |p| - 1 ensures p[i] in g.nodes && p[i + 1] in g.succ(p[i]) { EmbedsIff(lib, p[i], p[i + 1]); }
      assert PathFromTo(g, p, p[0], p[0]);
    }
    if x :| x in g.nodes && Reaches(g, x, x) {
      var p :| PathFromTo(g, p, x, x);
      forall i | 0 <= i < |p| - 1 ensures Embeds(lib, p[i], p[i + 1]) {
        PathStays(g, p, i);
        EmbedsIff(lib, p[i], p[i + 1]);
      }
      assert Circle(lib, p);
    }
  }

  /** A library passes exactly when every column and every enum keeps the rules, and no struct contains itself. */
  ghost predicate KeepsRules(lib: Library) {
    && (forall s, f :: s in lib && s.kind != Enum && f in s.fields ==> ColumnRules(lib, f))
    && (forall s :: s in lib && s.kind == Enum ==> EnumRules(s.values))
    && forall p :: !Circle(lib, p)
  }

  lemma {:induction false} ValidatedIff(lib: Library)
    requires Loaded(lib)
    ensures Validated(lib) <==> KeepsRules(lib)
  {
    hide FieldOk, ColumnRules, Acyclic, GraphOf, Circle;
    CircleIff(lib);
    forall s | s in lib && s.kind == Enum ensures SchemaOk(lib, s) <==> EnumRules(s.values) { EnumIff(lib, s); }
    forall s | s in lib && s.kind != Enum
      ensures SchemaOk(lib, s) <==> forall f :: f in s.fields ==> ColumnRules(lib, f)
    {
      ColumnsIff(lib, s);
    }
  }

  lemma {:induction false} EnumIff(lib: Library, s: Schema)
    requires s.kind == Enum
    ensures SchemaOk(lib, s) <==> EnumRules(s.values)
  {
    if "" !in s.values {
      forall i | 0 <= i < |s.values| ensures |s.values[i]| > 0 { assert s.values[i] in s.values; }
    }
  }

  lemma {:induction false} ColumnsIff(lib: Library, s: Schema)
    requires s.kind != Enum && UniqueNames(lib)
    ensures SchemaOk(lib, s) <==> forall f :: f in s.fields ==> ColumnRules(lib, f)
  {
    hide FieldOk, ColumnRules;
    forall f | f in s.fields ensures FieldOk(lib, f) <==> ColumnRules(lib, f) { RulesIff(lib, f); }
    forall k | 0 <= k < |s.fields| ensures s.fields[k] in s.fields {}
  }

  method ValidateLibrary(lib: Library) returns (ok: bool)
    requires Loaded(lib)
    ensures ok <==> Validated(lib)
    ensures ok <==> KeepsRules(lib)
  {
    ValidatedIff(lib);
    hide KeepsRules;
    var errors: nat := 0;
    for i := 0 to |lib|
      invariant errors == 0 <==> forall k :: 0 <= k < i ==> SchemaOk(lib, lib[k])
    {
      assert lib[i] in lib;
      var more := CheckSchema(lib, lib[i]);
      errors := errors + more;
    }
    assert errors == 0 <==> forall s :: s in lib ==> SchemaOk(lib, s) by {
      forall k | 0 <= k < |lib| ensures lib[k] in lib {}
    }
    var found := FindCycles(lib);
    ok := errors == 0 && found == [];
  }
}
