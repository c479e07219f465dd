/** Which struct columns may be left out of the data: those whose scalars all have defaults. */
module Defaults {
  import opened Collections
  import opened Graphs
  import opened SchemaLibrary
  import opened Wrappers
  import opened Validator
  import opened Layouts

  /** A column that is no struct, without a default. */
  ghost predicate Bare(lib: Library, x: string, k: nat)
    requires k < |Fields(lib, x)|
  {
    !IsStruct(lib, Fields(lib, x)[k].typ) && !Fields(lib, x)[k].hasDefault
  }

  ghost predicate Complete(lib: Library, x: string) {
    forall k: nat :: k < |Fields(lib, x)| ==> !Bare(lib, x, k)
  }

  /** The meaning: neither the row nor any struct inside it, however deep, has a bare column. */
  ghost predicate AllDefault(lib: Library, x: string) {
    forall y :: ReachesOrIs(GraphOf(lib, Structs), x, y) ==> Complete(lib, y)
  }

  /** In the library's own terms: whatever schemas a chain of embeddings from it leads to, each of their columns
      that is no struct has a default. */
  ghost predicate DefaultsThroughout(lib: Library, x: string) {
    forall p: seq<string>, s, f ::
      |p| > 0 && p[0] == x && (forall i :: 0 <= i < |p| - 1 ==> Embeds(lib, p[i], p[i + 1]))
      && s in lib && s.name == p[|p| - 1] && f in s.fields && (BuiltIn(f.typ) || !Named(lib, f.typ, Struct))
      ==> f.hasDefault
  }

  lemma {:induction false} ChainReaches(lib: Library, x: string, p: seq<string>)
    requires UniqueNames(lib) && x in Rows(lib)
    requires |p| > 0 && p[0] == x && forall i :: 0 <= i < |p| - 1 ==> Embeds(lib, p[i], p[i + 1])
    ensures ReachesOrIs(GraphOf(lib, Structs), x, p[|p| - 1])
  {
    hide UniqueNames, Embeds, Succ, Rows;
    if |p| > 1 {
      var g := GraphOf(lib, Structs);
      forall i | 0 <= i < |p| - 1 ensures p[i + 1] in g.succ(p[i]) { EmbedsIff(lib, p[i], p[i + 1]); }
      assert PathFromTo(g, p, x, p[|p| - 1]);
    }
  }

  lemma {:induction false} ReachesChain(lib: Library, x: string, y: string) returns (p: seq<string>)
    requires UniqueNames(lib) && x in Rows(lib) && ReachesOrIs(GraphOf(lib, Structs), x, y)
    ensures y in Rows(lib)
    ensures |p| > 0 && p[0] == x && p[|p| - 1] == y && forall i :: 0 <= i < |p| - 1 ==> Embeds(lib, p[i], p[i + 1])
  {
    hide UniqueNames, Embeds, Succ, Rows;
    var g := GraphOf(lib, Structs);
    if x == y {
      p := [x];
    } else {
      p :| PathFromTo(g, p, x, y);
      forall i | 0 <= i < |p| - 1 ensures Embeds(lib, p[i], p[i + 1]) {
        PathStays(g, p, i);
        EmbedsIff(lib, p[i], p[i + 1]);
      }
      PathStays(g, p, |p| - 1);
    }
  }

  /** No column of the schema is bare. */
  lemma {:induction false} CompleteIff(lib: Library, s: Schema)
    requires UniqueNames(lib) && s in lib
    ensures Complete(lib, s.name) <==>
            forall f :: f in s.fields && (BuiltIn(f.typ) || !Named(lib, f.typ, Struct)) ==> f.hasDefault
  {
    hide Find, Named;
    FindUnique(lib, s);
    forall f | f in s.fields ensures IsStruct(lib, f.typ) <==> !BuiltIn(f.typ) && Named(lib, f.typ, Struct) {
      NamedIs(lib, f.typ, Struct);
    }
    if Complete(lib, s.name) {
      forall f | f in s.fields && (BuiltIn(f.typ) || !Named(lib, f.typ, Struct)) ensures f.hasDefault {
        var k :| 0 <= k < |s.fields| && s.fields[k] == f;
        assert !Bare(lib, s.name, k);
      }
    }
  }

  lemma {:induction false} ThroughoutIff(lib: Library, x: string)
    requires UniqueNames(lib) && x in Rows(lib)
    ensures AllDefault(lib, x) <==> DefaultsThroughout(lib, x)
  {
    hide UniqueNames, Embeds, Rows, Complete, Named, Reaches;
    if AllDefault(lib, x) {
      forall p: seq<string>, s, f |
        |p| > 0 && p[0] == x && (forall i :: 0 <= i < |p| - 1 ==> Embeds(lib, p[i], p[i + 1]))
        && s in lib && s.name == p[|p| - 1] && f in s.fields && (BuiltIn(f.typ) || !Named(lib, f.typ, Struct))
        ensures f.hasDefault
      {
        ChainReaches(lib, x, p);
        CompleteIff(lib, s);
      }
    }
    if DefaultsThroughout(lib, x) {
      forall y | ReachesOrIs(GraphOf(lib, Structs), x, y) ensures Complete(lib, y) {
        var p := ReachesChain(lib, x, y);
        var s := RowOf(lib, y);
        CompleteIff(lib, s);
      }
    }
  }

  lemma {:induction false} RowOf(lib: Library, y: string) returns (s: Schema)
    requires y in Rows(lib)
    ensures s in lib && s.name == y
  {
    s :| s in lib && s.kind != Enum && s.name == y;
  }

  ghost predicate FieldDefault(lib: Library, x: string, k: nat)
    requires k < |Fields(lib, x)|
  {
    var f := Fields(lib, x)[k];
    if IsStruct(lib, f.typ) then AllDefault(lib, f.typ) else f.hasDefault
  }

  lemma {:induction false} FieldReached(lib: Library, x: string, k: nat)
    requires Validated(lib) && x in Rows(lib) && k < |Fields(lib, x)| && IsStruct(lib, Fields(lib, x)[k].typ)
    ensures Reaches(GraphOf(lib, Structs), x, Fields(lib, x)[k].typ)
  {
    FieldTypes(lib, x, k);
    StepReaches(GraphOf(lib, Structs), x, Fields(lib, x)[k].typ);
  }

  lemma {:induction false} ReachedByField(lib: Library, x: string, y: string) returns (k: nat)
    requires x in Rows(lib) && Reaches(GraphOf(lib, Structs), x, y)
    ensures k < |Fields(lib, x)| && IsStruct(lib, Fields(lib, x)[k].typ)
    ensures ReachesOrIs(GraphOf(lib, Structs), Fields(lib, x)[k].typ, y)
  {
    var z := ReachesFirst(GraphOf(lib, Structs), x, y);
    NestedNamesAre(lib, Fields(lib, x), Structs, z);
    k :| 0 <= k < |Fields(lib, x)| && Nested(lib, Fields(lib, x)[k], Structs).Some? && Fields(lib, x)[k].typ == z;
  }

  /** It can be decided column by column. */
  lemma {:induction false} ByColumns(lib: Library, x: string)
    requires Validated(lib) && x in Rows(lib)
    ensures AllDefault(lib, x) <==> forall k: nat :: k < |Fields(lib, x)| ==> FieldDefault(lib, x, k)
  {
    hide Validated, Rows, Fields, Reaches;
    var g := GraphOf(lib, Structs);
    if AllDefault(lib, x) {
      forall k: nat | k < |Fields(lib, x)| ensures FieldDefault(lib, x, k) {
        assert ReachesOrIs(g, x, x) && !Bare(lib, x, k);
        if IsStruct(lib, Fields(lib, x)[k].typ) {
          FieldReached(lib, x, k);
          forall y | ReachesOrIs(g, Fields(lib, x)[k].typ, y) ensures Complete(lib, y) {
            if y != Fields(lib, x)[k].typ { ReachesTrans(g, x, Fields(lib, x)[k].typ, y); }
            assert ReachesOrIs(g, x, y);
          }
        }
      }
    }
    if forall k: nat :: k < |Fields(lib, x)| ==> FieldDefault(lib, x, k) {
      forall y | ReachesOrIs(g, x, y) ensures Complete(lib, y) {
        if x == y {
          forall k: nat | k < |Fields(lib, x)| ensures !Bare(lib, x, k) { assert FieldDefault(lib, x, k); }
        } else {
          var k := ReachedByField(lib, x, y);
          assert FieldDefault(lib, x, k);
        }
      }
    }
  }

  /** The recursion, guarded by the set of structs being visited. */
  method StructIsDefaultable(lib: Library, schema: Schema, visiting0: set<string>)
    returns (result: bool, visiting: set<string>)
    requires Validated(lib) && schema in lib && schema.kind != Enum
    requires forall y :: y in visiting0 ==> Reaches(GraphOf(lib, Structs), y, schema.name)
    ensures visiting == visiting0 && (result <==> AllDefault(lib, schema.name))
    ensures result <==> DefaultsThroughout(lib, schema.name)
    decreases Depth(lib, schema.name)
  {
    hide Validated, Rows, Reaches, AllDefault, Depth, Fields, DefaultsThroughout;
    ghost var x, g := schema.name, GraphOf(lib, Structs);
    NamesDiffer(lib);
    RowSchema(lib, schema);
    NoCycle(lib, x);
    visiting := visiting0;
    if schema.name in visiting {
      assert false;  // only reached with a cycle
    }
    visiting := visiting + {schema.name};
    result := true;
    for i := 0 to |schema.fields|
      invariant visiting == visiting0 + {x}
      invariant result <==> forall k: nat :: k < i ==> FieldDefault(lib, x, k)
    {
      var field := schema.fields[i];
      FieldKinds(lib, x, i);
      assert FieldDefault(lib, x, i) <==>
             if IsStruct(lib, field.typ) then AllDefault(lib, field.typ) else field.hasDefault;
      if IsScalarType(field.typ) {
        result := result && field.hasDefault;
        continue;
      }
      var nested := Find(lib, field.typ);
      if nested.value.kind == Enum {
        result := result && field.hasDefault;
        continue;
      }
      if result {
        FieldReached(lib, x, i);
        forall y | y in visiting ensures Reaches(g, y, field.typ) {
          if y != x { ReachesTrans(g, y, x, field.typ); }
        }
        result, visiting := StructIsDefaultable(lib, nested.value, visiting);
      }
    }
    ByColumns(lib, x);
    ThroughoutIff(lib, x);
    visiting := visiting - {schema.name};
  }

  lemma NoCycle(lib: Library, x: string)
    requires Validated(lib) && x in Rows(lib)
    ensures !Reaches(GraphOf(lib, Structs), x, x)
  {}

  lemma {:induction false} FieldKinds(lib: Library, x: string, k: nat)
    requires Validated(lib) && x in Rows(lib) && k < |Fields(lib, x)|
    ensures var typ := Fields(lib, x)[k].typ;
            && (IsScalarType(typ) ==> !IsStruct(lib, typ))
            && (!IsScalarType(typ) ==>
                  && Find(lib, typ).Some? && Find(lib, typ).value in lib && Find(lib, typ).value.name == typ
                  && (IsStruct(lib, typ) <==> Find(lib, typ).value.kind != Enum))
            && (IsStruct(lib, typ) ==> Depth(lib, typ) < Depth(lib, x))
  {
    FieldTypes(lib, x, k);
  }

  /** The answers are remembered by struct name. */
  class DefaultableCache {
    var cache: map<string, bool>

    constructor ()
      ensures cache == map[]
    {
      cache := map[];
    }

    ghost predicate Correct(lib: Library)
      reads this
    {
      forall n :: n in cache ==> (cache[n] <==> AllDefault(lib, n))
    }

    method ColumnIsDefaultable(lib: Library, ghost x: string, ghost k: nat, field: Field) returns (result: bool)
      requires Validated(lib) && x in Rows(lib) && k < |Fields(lib, x)| && field == Fields(lib, x)[k]
      requires Correct(lib)
      modifies this
      ensures Correct(lib) && (result <==> FieldDefault(lib, x, k))
    {
      hide Validated, Rows, Reaches, AllDefault, Fields, Depth;
      FieldKinds(lib, x, k);
      if IsScalarType(field.typ) {
        return field.hasDefault;
      }
      var nested := Find(lib, field.typ);
      if nested.value.kind == Enum {
        return field.hasDefault;
      }
      if nested.value.name in cache {
        return cache[nested.value.name];
      }
      var visiting;
      result, visiting := StructIsDefaultable(lib, nested.value, {});
      cache := cache[nested.value.name := result];
    }
  }
}
