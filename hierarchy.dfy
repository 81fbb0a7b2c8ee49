/**
  The order in which `InjectTypeHierarchy` visits types, as a pure function of the type graph
  and the visited set it starts from, together with what that order covers: each type at most
  once, and exactly the types reachable from the start through base and interface edges that
  do not pass through `object`.
*/
module Hierarchy {
  import opened Wrappers
  import opened Reflection

  /** The types processed, in order, and the visited set afterwards. */
  datatype Visit = Visit(order: seq<TypeName>, visited: set<TypeName>)

  predicate Distinct(s: seq<TypeName>) {
    forall i, j :: 0 <= i < j < |s| ==> s[i] != s[j]
  }

  lemma {:induction false} SubsetCard(a: set<TypeName>, b: set<TypeName>)
    requires a <= b
    ensures |a| <= |b|
    decreases |b|
  {
    if a != {} {
      var x :| x in a;
      SubsetCard(a - {x}, b - {x});
    }
  }

  /** Marking a new type of the universe as visited leaves strictly fewer to visit. */
  lemma FewerUnvisited(universe: set<TypeName>, v: set<TypeName>, w: set<TypeName>, t: TypeName)
    requires v <= w && t in universe && t in w && t !in v
    ensures |universe - w| < |universe - v|
  {
    SubsetCard(universe - w, (universe - v) - {t});
  }

  lemma NoMoreUnvisited(universe: set<TypeName>, v: set<TypeName>, w: set<TypeName>)
    requires v <= w
    ensures |universe - w| <= |universe - v|
  {
    SubsetCard(universe - w, universe - v);
  }

  lemma DistinctConcat(a: seq<TypeName>, b: seq<TypeName>)
    requires Distinct(a) && Distinct(b)
    requires forall x | x in a :: x !in b
    ensures Distinct(a + b)
  {
    forall i, j | 0 <= i < j < |a + b|
      ensures (a + b)[i] != (a + b)[j]
    {
      if j < |a| {
      } else if i >= |a| {
        assert (a + b)[i] == b[i - |a|] && (a + b)[j] == b[j - |a|];
      } else {
        assert (a + b)[i] == a[i] && (a + b)[j] == b[j - |a|];
        assert (a + b)[j] in b;
      }
    }
  }

  /**
    `InjectTypeHierarchy(type)` starting from `visited == vis`: nothing when the type is null,
    is `object` or was already visited; otherwise the type itself, then the walk of its base
    type, then the walk of each of its interfaces in turn.
  */
  function Walk(g: TypeGraph, ot: Option<TypeName>, vis: set<TypeName>): (r: Visit)
    requires WellFormed(g) && KnownOpt(g, ot)
    ensures vis <= r.visited
    decreases |g.Keys - vis|, 0
  {
    if ot.None? || ot.value == OBJECT || ot.value in vis then Visit([], vis)
    else
      var t := ot.value;
      FewerUnvisited(g.Keys, vis, vis + {t}, t);
      var fromBase := Walk(g, g[t].base, vis + {t});
      FewerUnvisited(g.Keys, vis, fromBase.visited, t);
      var fromInterfaces := WalkEach(g, g[t].interfaces, 0, fromBase.visited);
      Visit([t] + fromBase.order + fromInterfaces.order, fromInterfaces.visited)
  }

  /**
    The `foreach` over `GetInterfaces()` from position `from` on: each interface walked with the
    set the previous one left.
  */
  function WalkEach(g: TypeGraph, types: seq<TypeName>, from: nat, vis: set<TypeName>): (r: Visit)
    requires WellFormed(g) && AllKnown(g, types) && from <= |types|
    ensures vis <= r.visited
    decreases |g.Keys - vis|, |types| - from + 1
  {
    if from == |types| then Visit([], vis)
    else
      var first := Walk(g, Some(types[from]), vis);
      NoMoreUnvisited(g.Keys, vis, first.visited);
      var rest := WalkEach(g, types, from + 1, first.visited);
      Visit(first.order + rest.order, rest.visited)
  }

  /**
    `r` lists, each once, exactly the types it added to `vis`: all of them described by the graph,
    none of them `object`.
  */
  ghost predicate Extends(g: TypeGraph, vis: set<TypeName>, r: Visit) {
    && vis <= r.visited
    && (forall u :: u in r.order <==> u in r.visited && u !in vis)
    && (forall u | u in r.order :: u in g && u != OBJECT)
    && Distinct(r.order)
  }

  /** Each type is processed at most once per pass, diamonds included, and `visited` records exactly those. */
  lemma {:induction false} WalkVisitsOnce(g: TypeGraph, ot: Option<TypeName>, vis: set<TypeName>)
    requires WellFormed(g) && KnownOpt(g, ot)
    ensures Extends(g, vis, Walk(g, ot, vis))
    decreases |g.Keys - vis|, 0
  {
    if ot.None? || ot.value == OBJECT || ot.value in vis {
    } else {
      var t := ot.value;
      FewerUnvisited(g.Keys, vis, vis + {t}, t);
      var fromBase := Walk(g, g[t].base, vis + {t});
      WalkVisitsOnce(g, g[t].base, vis + {t});
      FewerUnvisited(g.Keys, vis, fromBase.visited, t);
      var fromInterfaces := WalkEach(g, g[t].interfaces, 0, fromBase.visited);
      WalkEachVisitsOnce(g, g[t].interfaces, 0, fromBase.visited);
      DistinctConcat([t], fromBase.order);
      DistinctConcat([t] + fromBase.order, fromInterfaces.order);
    }
  }

  lemma {:induction false} WalkEachVisitsOnce(g: TypeGraph, types: seq<TypeName>, from: nat, vis: set<TypeName>)
    requires WellFormed(g) && AllKnown(g, types) && from <= |types|
    ensures Extends(g, vis, WalkEach(g, types, from, vis))
    decreases |g.Keys - vis|, |types| - from + 1
  {
    if from < |types| {
      var first := Walk(g, Some(types[from]), vis);
      WalkVisitsOnce(g, Some(types[from]), vis);
      NoMoreUnvisited(g.Keys, vis, first.visited);
      var rest := WalkEach(g, types, from + 1, first.visited);
      WalkEachVisitsOnce(g, types, from + 1, first.visited);
      DistinctConcat(first.order, rest.order);
    }
  }

  /** Every edge the walk follows out of `t`, its base and its interfaces except into `object`, lands in `s`. */
  predicate EdgesWithin(g: TypeGraph, t: TypeName, s: set<TypeName>)
    requires t in g
  {
    && (g[t].base.Some? && g[t].base.value != OBJECT ==> g[t].base.value in s)
    && forall i | 0 <= i < |g[t].interfaces| :: g[t].interfaces[i] != OBJECT ==> g[t].interfaces[i] in s
  }

  /** No walk edge leaves `s`. */
  predicate ClosedUnderEdges(g: TypeGraph, s: set<TypeName>) {
    forall t | t in s && t in g :: EdgesWithin(g, t, s)
  }

  /** Every type in `after` that was not in `before` has all its walk edges inside `after`. */
  predicate AddedClosed(g: TypeGraph, before: set<TypeName>, after: set<TypeName>) {
    forall u | u in after && u !in before && u in g :: EdgesWithin(g, u, after)
  }

  /** Every type of `types` other than `object` is in `s`. */
  predicate Covers(types: seq<TypeName>, s: set<TypeName>) {
    forall i | 0 <= i < |types| :: types[i] != OBJECT ==> types[i] in s
  }

  lemma EdgesWithinGrows(g: TypeGraph, t: TypeName, s: set<TypeName>, s': set<TypeName>)
    requires t in g && s <= s' && EdgesWithin(g, t, s)
    ensures EdgesWithin(g, t, s')
  {
  }

  /** A walk ends having visited its start type and every walk edge out of each type it added. */
  lemma {:induction false} WalkCloses(g: TypeGraph, ot: Option<TypeName>, vis: set<TypeName>)
    requires WellFormed(g) && KnownOpt(g, ot)
    ensures var r := Walk(g, ot, vis);
      && (ot.Some? && ot.value != OBJECT ==> ot.value in r.visited)
      && AddedClosed(g, vis, r.visited)
    decreases |g.Keys - vis|, 0
  {
    if ot.None? || ot.value == OBJECT || ot.value in vis {
    } else {
      var t := ot.value;
      FewerUnvisited(g.Keys, vis, vis + {t}, t);
      var fromBase := Walk(g, g[t].base, vis + {t});
      WalkCloses(g, g[t].base, vis + {t});
      FewerUnvisited(g.Keys, vis, fromBase.visited, t);
      var fromInterfaces := WalkEach(g, g[t].interfaces, 0, fromBase.visited);
      WalkEachCloses(g, g[t].interfaces, 0, fromBase.visited);
      var r := Walk(g, ot, vis);
      assert r.visited == fromInterfaces.visited;
      forall u | u in r.visited && u !in vis && u in g
        ensures EdgesWithin(g, u, r.visited)
      {
        if u == t {
        } else if u in fromBase.visited {
          EdgesWithinGrows(g, u, fromBase.visited, r.visited);
        }
      }
    }
  }

  lemma {:induction false} WalkEachCloses(g: TypeGraph, types: seq<TypeName>, from: nat, vis: set<TypeName>)
    requires WellFormed(g) && AllKnown(g, types) && from <= |types|
    ensures Covers(types[from..], WalkEach(g, types, from, vis).visited)
    ensures AddedClosed(g, vis, WalkEach(g, types, from, vis).visited)
    decreases |g.Keys - vis|, |types| - from + 1
  {
    if from < |types| {
      var first := Walk(g, Some(types[from]), vis);
      WalkCloses(g, Some(types[from]), vis);
      NoMoreUnvisited(g.Keys, vis, first.visited);
      var rest := WalkEach(g, types, from + 1, first.visited);
      WalkEachCloses(g, types, from + 1, first.visited);
      AddedClosedChain(g, vis, first.visited, rest.visited);
      assert WalkEach(g, types, from, vis).visited == rest.visited;
      forall i | 0 <= i < |types[from..]| && types[from..][i] != OBJECT
        ensures types[from..][i] in rest.visited
      {
        if i > 0 {
          assert types[from..][i] == types[from + 1..][i - 1];
        }
      }
      assert Covers(types[from..], rest.visited);
    }
  }

  lemma AddedClosedChain(g: TypeGraph, a: set<TypeName>, b: set<TypeName>, c: set<TypeName>)
    requires a <= b <= c && AddedClosed(g, a, b) && AddedClosed(g, b, c)
    ensures AddedClosed(g, a, c)
  {
    forall u | u in c && u !in a && u in g
      ensures EdgesWithin(g, u, c)
    {
      if u in b {
        EdgesWithinGrows(g, u, b, c);
      }
    }
  }

  /** A walk that starts inside a set closed under walk edges adds nothing outside it. */
  lemma {:induction false} WalkStaysWithin(g: TypeGraph, ot: Option<TypeName>, vis: set<TypeName>, s: set<TypeName>)
    requires WellFormed(g) && KnownOpt(g, ot) && ClosedUnderEdges(g, s)
    requires ot.Some? && ot.value != OBJECT ==> ot.value in s
    ensures Walk(g, ot, vis).visited <= vis + s
    decreases |g.Keys - vis|, 0
  {
    if ot.None? || ot.value == OBJECT || ot.value in vis {
    } else {
      var t := ot.value;
      assert EdgesWithin(g, t, s);
      FewerUnvisited(g.Keys, vis, vis + {t}, t);
      var fromBase := Walk(g, g[t].base, vis + {t});
      WalkStaysWithin(g, g[t].base, vis + {t}, s);
      FewerUnvisited(g.Keys, vis, fromBase.visited, t);
      WalkEachStaysWithin(g, g[t].interfaces, 0, fromBase.visited, s);
    }
  }

  lemma {:induction false} WalkEachStaysWithin(g: TypeGraph, types: seq<TypeName>, from: nat, vis: set<TypeName>, s: set<TypeName>)
    requires WellFormed(g) && AllKnown(g, types) && from <= |types|
    requires ClosedUnderEdges(g, s) && Covers(types, s)
    ensures WalkEach(g, types, from, vis).visited <= vis + s
    decreases |g.Keys - vis|, |types| - from + 1
  {
    if from < |types| {
      var first := Walk(g, Some(types[from]), vis);
      WalkStaysWithin(g, Some(types[from]), vis, s);
      NoMoreUnvisited(g.Keys, vis, first.visited);
      WalkEachStaysWithin(g, types, from + 1, first.visited, s);
    }
  }

  /**
    After the pass started by `InjectSharedObjects` (an empty visited set), `visited` holds the
    target's type unless it is `object`, and every type reachable from it by walk edges.
  */
  lemma VisitedIsClosed(g: TypeGraph, t: TypeName)
    requires WellFormed(g) && Known(g, t)
    ensures var visited := Walk(g, Some(t), {}).visited;
      && (t != OBJECT ==> t in visited)
      && OBJECT !in visited
      && ClosedUnderEdges(g, visited)
  {
    WalkCloses(g, Some(t), {});
    WalkVisitsOnce(g, Some(t), {});
  }

  /** ... and nothing else: it lies inside every edge-closed set that contains the target's type. */
  lemma VisitedIsLeast(g: TypeGraph, t: TypeName, s: set<TypeName>)
    requires WellFormed(g) && Known(g, t)
    requires ClosedUnderEdges(g, s) && t in s
    ensures Walk(g, Some(t), {}).visited <= s
  {
    WalkStaysWithin(g, Some(t), {}, s);
  }

  /**
    A class and its base both implement the same interface (`GetInterfaces()` reports inherited
    interfaces too): the walk goes class, base, interface, and the class's own copy of the
    interface is skipped because the base already entered it.
  */
  lemma SharedInterfaceEnteredOnce()
    ensures var g := map[
        "Derived" := TypeInfo(Some("Base"), ["IShared"], [], []),
        "Base" := TypeInfo(Some(OBJECT), ["IShared"], [], []),
        "IShared" := TypeInfo(None, [], [], [])];
      && WellFormed(g)
      && Walk(g, Some("Derived"), {}).order == ["Derived", "Base", "IShared"]
      && Walk(g, Some("Derived"), {}).visited == {"Derived", "Base", "IShared"}
  {
    var g := map[
        "Derived" := TypeInfo(Some("Base"), ["IShared"], [], []),
        "Base" := TypeInfo(Some(OBJECT), ["IShared"], [], []),
        "IShared" := TypeInfo(None, [], [], [])];
    assert WellFormed(g);
    assert "Derived" != OBJECT && "Base" != OBJECT && "IShared" != OBJECT;
    assert "IShared" != "Derived" && "IShared" != "Base" && "Base" != "Derived";
    var v3 := {"Derived", "Base", "IShared"};
    assert Walk(g, None, v3) == Visit([], v3);
    assert WalkEach(g, [], 0, v3) == Visit([], v3);
    // IShared, entered from Base's interfaces
    var iface := Walk(g, Some("IShared"), {"Derived", "Base"});
    assert g["IShared"] == TypeInfo(None, [], [], []);
    assert {"Derived", "Base"} + {"IShared"} == v3;
    assert Walk(g, g["IShared"].base, v3) == Visit([], v3);
    assert WalkEach(g, g["IShared"].interfaces, 0, v3) == Visit([], v3);
    assert iface.visited == v3;
    assert iface.order == ["IShared"];
    assert Walk(g, Some(OBJECT), {"Derived", "Base"}) == Visit([], {"Derived", "Base"});
    assert WalkEach(g, ["IShared"], 1, v3) == Visit([], v3);
    assert WalkEach(g, ["IShared"], 0, {"Derived", "Base"}) == iface;
    // Base, entered as Derived's base type
    var base := Walk(g, Some("Base"), {"Derived"});
    assert {"Derived"} + {"Base"} == {"Derived", "Base"};
    assert base.visited == v3;
    assert base.order == ["Base", "IShared"];
    // Derived's own IShared: already visited
    assert Walk(g, Some("IShared"), v3) == Visit([], v3);
    assert WalkEach(g, ["IShared"], 0, v3) == Visit([], v3);
    assert {} + {"Derived"} == {"Derived"};
  }
}
