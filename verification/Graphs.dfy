/** Depth-first traversals of a finite graph of names, as the schema compiler walks its schemas. */
module Graphs {
  import opened Collections

  datatype Graph = Graph(nodes: set<string>, succ: string -> seq<string>) {
    ghost predicate Closed() {
      forall x, y :: x in nodes && y in succ(x) ==> y in nodes
    }
  }

  // ---------- paths ----------

  ghost predicate Path(g: Graph, p: seq<string>) {
    && |p| > 0 && p[0] in g.nodes
    && forall i :: 0 <= i < |p| - 1 ==> p[i + 1] in g.succ(p[i])
  }

  ghost predicate PathFromTo(g: Graph, p: seq<string>, x: string, y: string) {
    Path(g, p) && |p| >= 2 && p[0] == x && p[|p| - 1] == y
  }

  /** By one step or more. */
  ghost predicate Reaches(g: Graph, x: string, y: string) {
    exists p :: PathFromTo(g, p, x, y)
  }

  ghost predicate ReachesOrIs(g: Graph, x: string, y: string) {
    x == y || Reaches(g, x, y)
  }

  ghost function ReachSet(g: Graph, x: string): set<string> {
    set y | y in g.nodes && Reaches(g, x, y)
  }

  ghost predicate Acyclic(g: Graph) {
    forall x :: x in g.nodes ==> !Reaches(g, x, x)
  }

  lemma {:induction false} PathStays(g: Graph, p: seq<string>, i: nat)
    requires g.Closed() && Path(g, p) && i < |p|
    ensures p[i] in g.nodes
  {
    if i > 0 { PathStays(g, p, i - 1); }
  }

  lemma {:induction false} StepReaches(g: Graph, x: string, y: string)
    requires x in g.nodes && y in g.succ(x)
    ensures Reaches(g, x, y)
  {
    assert PathFromTo(g, [x, y], x, y);
  }

  lemma {:induction false} ReachesTrans(g: Graph, x: string, y: string, z: string)
    requires Reaches(g, x, y) && Reaches(g, y, z)
    ensures Reaches(g, x, z)
  {
    var p :| PathFromTo(g, p, x, y);
    var q :| PathFromTo(g, q, y, z);
    var r := p + q[1..];
    forall i | 0 <= i < |r| - 1 ensures r[i + 1] in g.succ(r[i]) {
      if i >= |p| - 1 { assert r[i] == q[i - |p| + 1] && r[i + 1] == q[i - |p| + 2]; }
    }
    assert PathFromTo(g, r, x, z);
  }

  /** The first step of a path. */
  lemma {:induction false} ReachesFirst(g: Graph, x: string, z: string) returns (y: string)
    requires g.Closed() && Reaches(g, x, z)
    ensures x in g.nodes && y in g.succ(x) && ReachesOrIs(g, y, z)
  {
    var p :| PathFromTo(g, p, x, z);
    y := p[1];
    if |p| > 2 {
      PathStays(g, p, 1);
      assert PathFromTo(g, p[1..], y, z);
    }
  }

  /** More edges reach more. */
  lemma {:induction false} ReachesMore(g: Graph, g': Graph, x: string, y: string)
    requires g.Closed() && Reaches(g, x, y) && g.nodes <= g'.nodes
    requires forall u, v :: u in g.nodes && v in g.succ(u) ==> v in g'.succ(u)
    ensures Reaches(g', x, y)
  {
    var p :| PathFromTo(g, p, x, y);
    forall i | 0 <= i < |p| - 1 ensures p[i + 1] in g'.succ(p[i]) { PathStays(g, p, i); }
    assert PathFromTo(g', p, x, y);
  }

  /** What is closed under successors holds everything reachable. */
  lemma {:induction false} ClosedReaches(g: Graph, s: set<string>, p: seq<string>)
    requires Path(g, p) && p[0] in s && forall x, y :: x in s && y in g.succ(x) ==> y in s
    ensures p[|p| - 1] in s
    decreases |p|
  {
    if |p| > 1 {
      var q := p[..|p| - 1];
      ClosedReaches(g, s, q);
    }
  }

  /** A step to a node off every cycle leads to fewer reachable nodes: recursion along such steps ends. */
  lemma {:induction false} StepDown(g: Graph, x: string, y: string)
    requires g.Closed() && !Reaches(g, y, y) && x in g.nodes && y in g.succ(x)
    ensures |ReachSet(g, y)| < |ReachSet(g, x)|
  {
    StepReaches(g, x, y);
    forall z | z in ReachSet(g, y) ensures z in ReachSet(g, x) {
      ReachesTrans(g, x, y, z);
    }
    assert y in ReachSet(g, x) && y !in ReachSet(g, y);
    SmallerSet(ReachSet(g, y), ReachSet(g, x), y);
  }

  // ---------- the visit that looks for cycles ----------

  /** Where a visit of `x` finds a name that is already on the stack. */
  ghost function Visit(g: Graph, x: string, stack: seq<string>): seq<string>
    requires g.Closed() && x in g.nodes
    decreases g.nodes - Elements(stack), 0
  {
    if x in stack then [x] else
      Pushed(stack, x);
      VisitAll(g, g.succ(x), stack + [x])
  }

  ghost function VisitAll(g: Graph, ys: seq<string>, stack: seq<string>): seq<string>
    requires g.Closed() && forall y :: y in ys ==> y in g.nodes
    decreases g.nodes - Elements(stack), 1 + |ys|
  {
    if |ys| == 0 then [] else VisitAll(g, ys[..|ys| - 1], stack) + Visit(g, ys[|ys| - 1], stack)
  }

  lemma VisitStep(g: Graph, x: string, stack: seq<string>)
    requires g.Closed() && x in g.nodes
    ensures Visit(g, x, stack) == if x in stack then [x] else VisitAll(g, g.succ(x), stack + [x])
  {}

  lemma VisitAllStep(g: Graph, ys: seq<string>, y: string, stack: seq<string>)
    requires g.Closed() && y in g.nodes && forall y :: y in ys ==> y in g.nodes
    ensures VisitAll(g, [], stack) == []
    ensures VisitAll(g, ys + [y], stack) == VisitAll(g, ys, stack) + Visit(g, y, stack)
  {
    assert (ys + [y])[..|ys|] == ys;
  }

  /** A path from `x` that ends in a name on the stack or earlier on the path itself. */
  ghost predicate Trap(g: Graph, p: seq<string>, x: string, stack: seq<string>) {
    Path(g, p) && p[0] == x && p[|p| - 1] in stack + p[..|p| - 1]
  }

  lemma {:induction false} VisitFinds(g: Graph, x: string, stack: seq<string>) returns (p: seq<string>)
    requires g.Closed() && x in g.nodes && Visit(g, x, stack) != []
    ensures Trap(g, p, x, stack)
    decreases g.nodes - Elements(stack), 0
  {
    if x in stack {
      p := [x];
    } else {
      Pushed(stack, x);
      var q := VisitAllFinds(g, g.succ(x), stack + [x]);
      p := [x] + q;
      assert p[..|p| - 1] == [x] + q[..|q| - 1];
    }
  }

  lemma {:induction false} VisitAllFinds(g: Graph, ys: seq<string>, stack: seq<string>) returns (p: seq<string>)
    requires g.Closed() && (forall y :: y in ys ==> y in g.nodes) && VisitAll(g, ys, stack) != []
    ensures |p| > 0 && p[0] in ys && Trap(g, p, p[0], stack)
    decreases g.nodes - Elements(stack), 1 + |ys|
  {
    if VisitAll(g, ys[..|ys| - 1], stack) != [] {
      p := VisitAllFinds(g, ys[..|ys| - 1], stack);
    } else {
      p := VisitFinds(g, ys[|ys| - 1], stack);
    }
  }

  lemma {:induction false} VisitMisses(g: Graph, x: string, stack: seq<string>, p: seq<string>)
    requires g.Closed() && x in g.nodes && Trap(g, p, x, stack)
    ensures Visit(g, x, stack) != []
    decreases |p|
  {
    if x !in stack {
      var q := p[1..];
      assert p[..|p| - 1] == [x] + q[..|q| - 1];
      VisitMisses(g, q[0], stack + [x], q);
      VisitAllHas(g, g.succ(x), stack + [x], q[0]);
    }
  }

  lemma {:induction false} VisitAllHas(g: Graph, ys: seq<string>, stack: seq<string>, y: string)
    requires g.Closed() && (forall y :: y in ys ==> y in g.nodes) && y in ys && Visit(g, y, stack) != []
    ensures VisitAll(g, ys, stack) != []
    decreases |ys|
  {
    if y != ys[|ys| - 1] { VisitAllHas(g, ys[..|ys| - 1], stack, y); }
  }

  /** Visiting every node reports something exactly when some node can reach itself. */
  lemma {:induction false} VisitIff(g: Graph)
    requires g.Closed()
    ensures (forall x :: x in g.nodes ==> Visit(g, x, []) == []) <==> Acyclic(g)
  {
    if x :| x in g.nodes && Visit(g, x, []) != [] {
      var p := VisitFinds(g, x, []);
      var n := |p| - 1;
      var m :| 0 <= m < n && p[m] == p[n];
      PathStays(g, p, m);
      assert PathFromTo(g, p[m..], p[m], p[m]);
    }
    if x :| x in g.nodes && Reaches(g, x, x) {
      var p :| PathFromTo(g, p, x, x);
      assert p[0] in p[..|p| - 1];
      VisitMisses(g, x, [], p);
    }
  }

  /** Every name reported is that of a node that reaches itself, when the names on the stack lead to the visit. */
  lemma {:induction false} VisitSound(g: Graph, x: string, stack: seq<string>, n: string)
    requires g.Closed() && x in g.nodes && (forall y :: y in stack ==> Reaches(g, y, x)) && n in Visit(g, x, stack)
    ensures Reaches(g, n, n)
    decreases g.nodes - Elements(stack), 0
  {
    hide Reaches;
    VisitStep(g, x, stack);
    if x !in stack {
      Pushed(stack, x);
      VisitAllSound(g, x, g.succ(x), stack + [x], n);
    }
  }

  lemma {:induction false} VisitAllSound(g: Graph, x: string, ys: seq<string>, stack: seq<string>, n: string)
    requires g.Closed() && x in g.nodes && (forall y :: y in ys ==> y in g.succ(x))
    requires (forall z :: z in stack ==> ReachesOrIs(g, z, x)) && n in VisitAll(g, ys, stack)
    ensures Reaches(g, n, n)
    decreases g.nodes - Elements(stack), 1 + |ys|
  {
    hide Reaches;
    if |ys| > 0 {
      var y := ys[|ys| - 1];
      if n in VisitAll(g, ys[..|ys| - 1], stack) {
        VisitAllSound(g, x, ys[..|ys| - 1], stack, n);
      } else {
        StepReaches(g, x, y);
        forall z | z in stack ensures Reaches(g, z, y) {
          if z != x { ReachesTrans(g, z, x, y); }
        }
        VisitSound(g, y, stack, n);
      }
    }
  }

  /** A path from a node back to itself that meets no node twice on the way. */
  ghost predicate Ring(g: Graph, p: seq<string>, x: string) {
    PathFromTo(g, p, x, x) && Distinct(p[..|p| - 1])
  }

  lemma {:induction false} RingExists(g: Graph, x: string, p: seq<string>) returns (r: seq<string>)
    requires PathFromTo(g, p, x, x)
    ensures Ring(g, r, x)
    decreases |p|
  {
    var n := |p| - 1;
    if Distinct(p[..n]) {
      r := p;
    } else {
      var i, j :| 0 <= i < j < n && p[i] == p[j];
      var q := p[..i] + p[j..];
      forall k | 0 <= k < |q| - 1 ensures q[k + 1] in g.succ(q[k]) {
        assert q[k] == p[if k < i then k else k + j - i];
        assert q[k + 1] == if k + 1 < i then p[k + 1] else p[k + 1 + j - i];
        if k + 1 == i { assert p[j] == p[i]; }
      }
      assert q[0] == x by { if i == 0 { assert q[0] == p[j]; } }
      r := RingExists(g, x, q);
    }
  }

  lemma {:induction false} VisitAlong(g: Graph, p: seq<string>, x: string, i: nat)
    requires g.Closed() && Ring(g, p, x) && i < |p|
    ensures p[i] in g.nodes && x in Visit(g, p[i], p[..i])
    decreases |p| - i
  {
    PathStays(g, p, i);
    VisitStep(g, p[i], p[..i]);
    if i == |p| - 1 {
      assert p[..i][0] == x;
    } else {
      var q := p[..|p| - 1];
      assert p[i] !in p[..i] by { assert q[i] == p[i] && q[..i] == p[..i] && q[i] !in q[..i]; }
      assert p[..i] + [p[i]] == p[..i + 1];
      VisitAlong(g, p, x, i + 1);
      VisitAllReports(g, g.succ(p[i]), p[..i + 1], p[i + 1], x);
    }
  }

  lemma {:induction false} VisitAllReports(g: Graph, ys: seq<string>, stack: seq<string>, y: string, n: string)
    requires g.Closed() && (forall y :: y in ys ==> y in g.nodes) && y in ys && n in Visit(g, y, stack)
    ensures n in VisitAll(g, ys, stack)
    decreases |ys|
  {
    if y != ys[|ys| - 1] { VisitAllReports(g, ys[..|ys| - 1], stack, y, n); }
  }

  /** Visited from nothing, a node is reported itself exactly when it reaches itself, and nothing else is
      reported anywhere. */
  lemma {:induction false} VisitReports(g: Graph, x: string)
    requires g.Closed() && x in g.nodes
    ensures x in Visit(g, x, []) <==> Reaches(g, x, x)
    ensures forall n :: n in Visit(g, x, []) ==> Reaches(g, n, n)
  {
    hide Visit;
    forall n | n in Visit(g, x, []) ensures Reaches(g, n, n) { VisitSound(g, x, [], n); }
    if Reaches(g, x, x) {
      var p :| PathFromTo(g, p, x, x);
      var r := RingExists(g, x, p);
      assert r[..0] == [];
      VisitAlong(g, r, x, 0);
    }
  }

  // ---------- postorder: a node is listed when its successors are done ----------

  datatype Walk = Walk(done: set<string>, out: seq<string>)

  ghost function Order(g: Graph, x: string, w: Walk): (r: Walk)
    requires g.Closed() && x in g.nodes
    ensures w.done <= r.done
    decreases g.nodes - w.done, 0
  {
    if x in w.done then w
    else
      var r := OrderAll(g, g.succ(x), Walk(w.done + {x}, w.out));
      Walk(r.done, r.out + [x])
  }

  ghost function OrderAll(g: Graph, ys: seq<string>, w: Walk): (r: Walk)
    requires g.Closed() && forall y :: y in ys ==> y in g.nodes
    ensures w.done <= r.done
    decreases g.nodes - w.done, 1 + |ys|
  {
    if |ys| == 0 then w
    else Order(g, ys[|ys| - 1], OrderAll(g, ys[..|ys| - 1], w))
  }

  /** `a` is listed before `b`. */
  ghost predicate Before(s: seq<string>, a: string, b: string) {
    exists i, j :: 0 <= i < j < |s| && s[i] == a && s[j] == b
  }

  lemma {:induction false} BeforeExtends(s: seq<string>, t: seq<string>, a: string, b: string)
    requires s <= t && Before(s, a, b)
    ensures Before(t, a, b)
  {
    var i, j :| 0 <= i < j < |s| && s[i] == a && s[j] == b;
    assert t[i] == a && t[j] == b;
  }

  /** The nodes begun but not listed yet. */
  ghost function Open(w: Walk): set<string> {
    w.done - Elements(w.out)
  }

  ghost predicate Sane(g: Graph, w: Walk) {
    Distinct(w.out) && Elements(w.out) <= w.done <= g.nodes
  }

  /** A listed node's successors are listed before it, or are still open and so lead to it. */
  ghost predicate Listed(g: Graph, w: Walk, u: string) {
    forall v :: v in g.succ(u) ==> v in w.done && (Before(w.out, v, u) || Reaches(g, v, u))
  }

  ghost predicate Sorted(g: Graph, w: Walk) {
    forall u :: u in w.out ==> Listed(g, w, u)
  }

  ghost predicate LeadTo(g: Graph, w: Walk, x: string) {
    forall y :: y in Open(w) ==> ReachesOrIs(g, y, x)
  }

  /** What one traversal adds: the list grows, what was open stays open, and everything new is reachable from `x`. */
  ghost predicate Grown(g: Graph, w: Walk, r: Walk) {
    Sane(g, r) && Sorted(g, r) && w.out <= r.out && w.done <= r.done && Open(r) == Open(w)
  }

  lemma {:induction false} OrderGrows(g: Graph, x: string, w: Walk)
    requires g.Closed() && x in g.nodes && Sane(g, w) && Sorted(g, w) && LeadTo(g, w, x)
    ensures Grown(g, w, Order(g, x, w)) && x in Order(g, x, w).done
    ensures forall u :: u in Order(g, x, w).done ==> u in w.done || ReachesOrIs(g, x, u)
    decreases g.nodes - w.done, 0
  {
    if x !in w.done {
      var w1 := Walk(w.done + {x}, w.out);
      assert Open(w1) == Open(w) + {x};
      Opened(g, x, w);
      OrderAllGrows(g, x, g.succ(x), w1);
      var r := OrderAll(g, g.succ(x), w1);
      Close(g, x, w, w1, r);
    }
  }

  lemma {:induction false} Opened(g: Graph, x: string, w: Walk)
    requires g.Closed() && x in g.nodes && Sane(g, w) && Sorted(g, w) && LeadTo(g, w, x) && x !in w.done
    ensures Sorted(g, Walk(w.done + {x}, w.out))
  {
    var w1 := Walk(w.done + {x}, w.out);
    forall u | u in w1.out ensures Listed(g, w1, u) {
      assert Listed(g, w, u);
    }
  }

  lemma {:induction false} Close(g: Graph, x: string, w: Walk, w1: Walk, r: Walk)
    requires g.Closed() && x in g.nodes && Sane(g, w) && LeadTo(g, w, x) && x !in w.done
    requires w1 == Walk(w.done + {x}, w.out) && Grown(g, w1, r)
    requires forall y :: y in g.succ(x) ==> y in r.done
    ensures Grown(g, w, Walk(r.done, r.out + [x]))
  {
    var r1 := Walk(r.done, r.out + [x]);
    assert x in Open(r) by { assert x in Open(w1); }
    assert x !in r.out by { assert x !in Elements(r.out); }
    Pushed(r.out, x);
    assert Open(w1) == Open(w) + {x};
    assert Open(r1) == Open(r) - {x};
    assert Open(r1) == Open(w);
    forall u | u in r1.out ensures Listed(g, r1, u) {
      forall v | v in g.succ(u) ensures v in r1.done && (Before(r1.out, v, u) || Reaches(g, v, u)) {
        if u in r.out {
          assert Listed(g, r, u);
          if Before(r.out, v, u) { BeforeExtends(r.out, r1.out, v, u); }
        } else {
          assert u == x;
          if v in r.out {
            var i :| 0 <= i < |r.out| && r.out[i] == v;
            assert r1.out[i] == v && r1.out[|r.out|] == x;
          } else {
            assert v in Open(r);
            StepReaches(g, x, v);
            if v != x {
              assert v in Open(w);
            }
          }
        }
      }
    }
  }

  lemma {:induction false} OrderAllGrows(g: Graph, x: string, ys: seq<string>, w: Walk)
    requires g.Closed() && x in g.nodes && (forall y :: y in ys ==> y in g.succ(x))
    requires Sane(g, w) && Sorted(g, w) && LeadTo(g, w, x)
    ensures Grown(g, w, OrderAll(g, ys, w)) && forall y :: y in ys ==> y in OrderAll(g, ys, w).done
    ensures forall u :: u in OrderAll(g, ys, w).done ==> u in w.done || Reaches(g, x, u)
    decreases g.nodes - w.done, 1 + |ys|
  {
    if |ys| > 0 {
      var zs, y := ys[..|ys| - 1], ys[|ys| - 1];
      OrderAllGrows(g, x, zs, w);
      var w1 := OrderAll(g, zs, w);
      StepReaches(g, x, y);
      forall o | o in Open(w1) ensures ReachesOrIs(g, o, y) {
        if o != x { ReachesTrans(g, o, x, y); }
      }
      OrderGrows(g, y, w1);
      var r := Order(g, y, w1);
      forall u | u in r.done ensures u in w.done || Reaches(g, x, u) {
        if u !in w1.done && u != y { ReachesTrans(g, x, y, u); }
      }
    }
  }

  /** What a traversal from nothing is: everything done is listed, in order. */
  ghost predicate Finished(g: Graph, w: Walk) {
    && Distinct(w.out) && Elements(w.out) == w.done <= g.nodes
    && forall u, v :: u in w.out && v in g.succ(u) ==> v in w.out && (Before(w.out, v, u) || Reaches(g, v, u))
  }

  lemma {:induction false} FinishedNext(g: Graph, y: string, w: Walk)
    requires g.Closed() && y in g.nodes && Finished(g, w)
    ensures Finished(g, Order(g, y, w)) && y in Order(g, y, w).out
    ensures forall u :: u in Order(g, y, w).out ==> u in w.out || ReachesOrIs(g, y, u)
    ensures w.out <= Order(g, y, w).out
  {
    hide Order;
    assert Open(w) == {};
    forall u | u in w.out ensures Listed(g, w, u) {}
    OrderGrows(g, y, w);
    var r := Order(g, y, w);
    assert Open(r) == {};
    assert r.done == Elements(r.out);
    forall u | u in r.out ensures u in w.out || ReachesOrIs(g, y, u) { assert u in r.done; }
    forall u, v | u in r.out && v in g.succ(u) ensures v in r.out && (Before(r.out, v, u) || Reaches(g, v, u)) {
      assert Listed(g, r, u);
    }
  }

  ghost predicate FromRoots(g: Graph, roots: seq<string>, u: string) {
    exists x :: x in roots && ReachesOrIs(g, x, u)
  }

  /** From the empty list, over some roots: every root and everything it reaches is listed once, in order. */
  lemma {:induction false} OrderRoots(g: Graph, roots: seq<string>)
    requires g.Closed() && forall x :: x in roots ==> x in g.nodes
    ensures Finished(g, OrderAll(g, roots, Walk({}, [])))
    ensures forall x :: x in roots ==> x in OrderAll(g, roots, Walk({}, [])).out
    ensures forall u :: u in OrderAll(g, roots, Walk({}, [])).out ==> FromRoots(g, roots, u)
    decreases |roots|
  {
    hide Finished, Order;
    if |roots| > 0 {
      var zs, y := roots[..|roots| - 1], roots[|roots| - 1];
      OrderRoots(g, zs);
      var w := OrderAll(g, zs, Walk({}, []));
      FinishedNext(g, y, w);
      var r := Order(g, y, w);
      assert r == OrderAll(g, roots, Walk({}, []));
      PrefixElements(w.out, r.out);
      forall x | x in roots ensures x in r.out { if x != y { assert x in zs; assert x in Elements(w.out); } }
      forall u | u in r.out ensures FromRoots(g, roots, u) {
        if u in w.out {
          var x :| x in zs && ReachesOrIs(g, x, u);
          assert x in roots;
        } else {
          assert y in roots;
        }
      }
    } else {
      NothingFinished(g);
    }
  }

  lemma NothingFinished(g: Graph)
    ensures Finished(g, Walk({}, []))
  {}

  /** Listing below a root, the root itself left out: exactly what it reaches. */
  lemma {:induction false} OrderBelow(g: Graph, x: string)
    requires g.Closed() && x in g.nodes
    ensures var out := OrderAll(g, g.succ(x), Walk({}, [])).out;
            Distinct(out) && forall y :: y in out <==> Reaches(g, x, y)
  {
    hide *;
    SuccInside(g, x);
    OrderRoots(g, g.succ(x));
    var w := OrderAll(g, g.succ(x), Walk({}, []));
    FinishedMeans(g, w);
    forall y ensures y in w.out <==> Reaches(g, x, y) {
      if y in w.out { FromRootsReaches(g, x, y); }
      if Reaches(g, x, y) { ListedReaches(g, w.out, x, y); }
    }
  }

  lemma SuccInside(g: Graph, x: string)
    requires g.Closed() && x in g.nodes
    ensures forall y :: y in g.succ(x) ==> y in g.nodes
  {}

  ghost predicate HasSuccessors(g: Graph, out: seq<string>) {
    forall u, v :: u in out && v in g.succ(u) ==> v in out
  }

  lemma FinishedMeans(g: Graph, w: Walk)
    requires Finished(g, w)
    ensures Distinct(w.out) && HasSuccessors(g, w.out)
  {}

  lemma {:induction false} FromRootsReaches(g: Graph, x: string, y: string)
    requires x in g.nodes && FromRoots(g, g.succ(x), y)
    ensures Reaches(g, x, y)
  {
    var r :| r in g.succ(x) && ReachesOrIs(g, r, y);
    StepReaches(g, x, r);
    if r != y { ReachesTrans(g, x, r, y); }
  }

  lemma {:induction false} ListedReaches(g: Graph, out: seq<string>, x: string, y: string)
    requires g.Closed() && Reaches(g, x, y)
    requires HasSuccessors(g, out) && forall z :: z in g.succ(x) ==> z in out
    ensures y in out
  {
    var z := ReachesFirst(g, x, y);
    if z != y {
      var p :| PathFromTo(g, p, z, y);
      ClosedReaches(g, Elements(out), p);
    }
  }

  lemma {:induction false} OrderExtends(g: Graph, x: string, w: Walk)
    requires g.Closed() && x in g.nodes
    ensures w.out <= Order(g, x, w).out
    decreases g.nodes - w.done, 0
  {
    if x !in w.done { OrderAllExtends(g, g.succ(x), Walk(w.done + {x}, w.out)); }
  }

  lemma {:induction false} OrderAllExtends(g: Graph, ys: seq<string>, w: Walk)
    requires g.Closed() && forall y :: y in ys ==> y in g.nodes
    ensures w.out <= OrderAll(g, ys, w).out
    decreases g.nodes - w.done, 1 + |ys|
  {
    if |ys| > 0 {
      OrderAllExtends(g, ys[..|ys| - 1], w);
      OrderExtends(g, ys[|ys| - 1], OrderAll(g, ys[..|ys| - 1], w));
    }
  }

  /** The first root is finished before the others are begun. */
  lemma {:induction false} OrderFirst(g: Graph, ys: seq<string>, w: Walk)
    requires g.Closed() && |ys| > 0 && forall y :: y in ys ==> y in g.nodes
    ensures Order(g, ys[0], w).out <= OrderAll(g, ys, w).out
    decreases |ys|
  {
    var zs, y := ys[..|ys| - 1], ys[|ys| - 1];
    if |ys| > 1 {
      OrderFirst(g, zs, w);
      OrderExtends(g, y, OrderAll(g, zs, w));
    } else {
      assert OrderAll(g, zs, w) == w;
    }
  }

  lemma OrderAllStep(g: Graph, ys: seq<string>, y: string, w: Walk)
    requires g.Closed() && y in g.nodes && forall y :: y in ys ==> y in g.nodes
    ensures OrderAll(g, [], w) == w
    ensures OrderAll(g, ys + [y], w) == Order(g, y, OrderAll(g, ys, w))
  {
    assert (ys + [y])[..|ys|] == ys;
  }

  lemma OrderStep(g: Graph, x: string, w: Walk)
    requires g.Closed() && x in g.nodes
    ensures x in w.done ==> Order(g, x, w) == w
    ensures x !in w.done ==>
              var r := OrderAll(g, g.succ(x), Walk(w.done + {x}, w.out)); Order(g, x, w) == Walk(r.done, r.out + [x])
  {}

  /** Listing from a single root lists exactly what it reaches, and itself last. */
  lemma {:induction false} OrderOne(g: Graph, x: string)
    requires g.Closed() && x in g.nodes
    ensures var r := Order(g, x, Walk({}, []));
            && Finished(g, r) && |r.out| > 0 && r.out[|r.out| - 1] == x
            && forall u :: u in r.out <==> ReachesOrIs(g, x, u)
  {
    NothingFinished(g);
    FinishedNext(g, x, Walk({}, []));
    var r := Order(g, x, Walk({}, []));
    forall u | ReachesOrIs(g, x, u) ensures u in r.out {
      if u != x {
        var p :| PathFromTo(g, p, x, u);
        ClosedReaches(g, Elements(r.out), p);
      }
    }
  }

  // ---------- preorder: a node is listed before its successors ----------

  ghost function Pre(g: Graph, x: string, w: Walk): (r: Walk)
    requires g.Closed() && x in g.nodes
    ensures w.done <= r.done
    decreases g.nodes - w.done, 0
  {
    if x in w.done then w else PreAll(g, g.succ(x), Walk(w.done + {x}, w.out + [x]))
  }

  ghost function PreAll(g: Graph, ys: seq<string>, w: Walk): (r: Walk)
    requires g.Closed() && forall y :: y in ys ==> y in g.nodes
    ensures w.done <= r.done
    decreases g.nodes - w.done, 1 + |ys|
  {
    if |ys| == 0 then w else Pre(g, ys[|ys| - 1], PreAll(g, ys[..|ys| - 1], w))
  }

  lemma PreAllStep(g: Graph, ys: seq<string>, y: string, w: Walk)
    requires g.Closed() && y in g.nodes && forall y :: y in ys ==> y in g.nodes
    ensures PreAll(g, [], w) == w
    ensures PreAll(g, ys + [y], w) == Pre(g, y, PreAll(g, ys, w))
  {
    assert (ys + [y])[..|ys|] == ys;
  }

  lemma PreStep(g: Graph, x: string, w: Walk)
    requires g.Closed() && x in g.nodes
    ensures Pre(g, x, w) == if x in w.done then w else PreAll(g, g.succ(x), Walk(w.done + {x}, w.out + [x]))
  {}

  /** The traversal has begun `pending` nodes whose successors are not all seen yet. */
  ghost predicate Preserved(g: Graph, w: Walk, r: Walk, pending: set<string>) {
    && Distinct(r.out) && Elements(r.out) <= r.done <= g.nodes
    && w.done <= r.done && w.out <= r.out
    && r.done - w.done <= Elements(r.out) && (forall u :: u in r.out ==> u in w.out || u !in w.done)
    && forall u, v :: u in r.done && u !in pending && v in g.succ(u) ==> v in r.done
  }

  ghost predicate Begun(g: Graph, w: Walk, pending: set<string>) {
    && Distinct(w.out) && Elements(w.out) <= w.done <= g.nodes
    && forall u, v :: u in w.done && u !in pending && v in g.succ(u) ==> v in w.done
  }

  lemma {:induction false} PreGrows(g: Graph, x: string, w: Walk, pending: set<string>)
    requires g.Closed() && x in g.nodes && Begun(g, w, pending)
    ensures Preserved(g, w, Pre(g, x, w), pending) && x in Pre(g, x, w).done
    ensures forall u :: u in Pre(g, x, w).done ==> u in w.done || ReachesOrIs(g, x, u)
    decreases g.nodes - w.done, 0
  {
    if x !in w.done {
      var w1 := Walk(w.done + {x}, w.out + [x]);
      assert Elements(w1.out) == Elements(w.out) + {x};
      PreAllGrows(g, x, g.succ(x), w1, pending + {x});
    }
  }

  lemma {:induction false} PreAllGrows(g: Graph, x: string, ys: seq<string>, w: Walk, pending: set<string>)
    requires g.Closed() && x in g.nodes && (forall y :: y in ys ==> y in g.succ(x)) && Begun(g, w, pending)
    ensures Preserved(g, w, PreAll(g, ys, w), pending) && forall y :: y in ys ==> y in PreAll(g, ys, w).done
    ensures forall u :: u in PreAll(g, ys, w).done ==> u in w.done || Reaches(g, x, u)
    decreases g.nodes - w.done, 1 + |ys|
  {
    if |ys| > 0 {
      var zs, y := ys[..|ys| - 1], ys[|ys| - 1];
      PreAllGrows(g, x, zs, w, pending);
      var w1 := PreAll(g, zs, w);
      PreGrows(g, y, w1, pending);
      var r := Pre(g, y, w1);
      PrefixElements(w1.out, r.out);
      StepReaches(g, x, y);
      forall u | u in r.done ensures u in w.done || Reaches(g, x, u) {
        if u !in w1.done && u != y { ReachesTrans(g, x, y, u); }
      }
    }
  }

  /** From a root that is marked but not listed: exactly what it reaches is listed, each once. */
  lemma {:induction false} PreRoot(g: Graph, x: string)
    requires g.Closed() && x in g.nodes && !Reaches(g, x, x)
    ensures var r := PreAll(g, g.succ(x), Walk({x}, []));
            && Distinct(r.out) && r.done == Elements(r.out) + {x} && x !in r.out
            && Elements(r.out) == ReachSet(g, x)
  {
    var w := Walk({x}, []);
    PreAllGrows(g, x, g.succ(x), w, {x});
    var r := PreAll(g, g.succ(x), w);
    assert forall u, v :: u in r.done && v in g.succ(u) ==> v in r.done;
    forall u | u in ReachSet(g, x) ensures u in r.out {
      var p :| PathFromTo(g, p, x, u);
      ClosedReaches(g, r.done, p);
      assert u in r.done && u != x;
      assert u in Elements(r.out);
    }
  }

  /** Something listed before `i`, or the root, leads to the i-th. */
  ghost predicate HasParent(g: Graph, x: string, out: seq<string>, i: nat) {
    i < |out| && (out[i] in g.succ(x) || exists j :: 0 <= j < i && out[i] in g.succ(out[j]))
  }

  ghost predicate ParentsFirst(g: Graph, x: string, out: seq<string>) {
    forall i :: 0 <= i < |out| ==> HasParent(g, x, out, i)
  }

  lemma {:induction false} ParentsExtend(g: Graph, x: string, out: seq<string>, y: string, z: string)
    requires ParentsFirst(g, x, out) && y in g.succ(z) && (z == x || z in out)
    ensures ParentsFirst(g, x, out + [y])
  {
    var t := out + [y];
    forall i | 0 <= i < |t| ensures HasParent(g, x, t, i) {
      if i < |out| {
        assert HasParent(g, x, out, i);
        if out[i] !in g.succ(x) {
          var j :| 0 <= j < i && out[i] in g.succ(out[j]);
          assert t[j] == out[j];
        }
      } else if z != x {
        var j :| 0 <= j < |out| && out[j] == z;
        assert t[j] == z;
      }
    }
  }

  lemma {:induction false} PreParents(g: Graph, x: string, y: string, z: string, w: Walk)
    requires g.Closed() && y in g.nodes && ParentsFirst(g, x, w.out) && y in g.succ(z) && (z == x || z in w.out)
    ensures ParentsFirst(g, x, Pre(g, y, w).out) && w.out <= Pre(g, y, w).out
    decreases g.nodes - w.done, 0
  {
    if y !in w.done {
      ParentsExtend(g, x, w.out, y, z);
      PreAllParents(g, x, g.succ(y), y, Walk(w.done + {y}, w.out + [y]));
    }
  }

  lemma {:induction false} PreAllParents(g: Graph, x: string, ys: seq<string>, z: string, w: Walk)
    requires g.Closed() && (forall y :: y in ys ==> y in g.nodes && y in g.succ(z))
    requires ParentsFirst(g, x, w.out) && (z == x || z in w.out)
    ensures ParentsFirst(g, x, PreAll(g, ys, w).out) && w.out <= PreAll(g, ys, w).out
    decreases g.nodes - w.done, 1 + |ys|
  {
    if |ys| > 0 {
      var zs := ys[..|ys| - 1];
      PreAllParents(g, x, zs, z, w);
      var w1 := PreAll(g, zs, w);
      if z in w.out { PrefixElements(w.out, w1.out); assert z in Elements(w1.out); }
      PreParents(g, x, ys[|ys| - 1], z, w1);
    }
  }

  /** Each node listed below the root is a successor of the root or of one listed before it. */
  lemma {:induction false} PreOrdered(g: Graph, x: string)
    requires g.Closed() && x in g.nodes
    ensures ParentsFirst(g, x, PreAll(g, g.succ(x), Walk({x}, [])).out)
  {
    PreAllParents(g, x, g.succ(x), x, Walk({x}, []));
  }
}
