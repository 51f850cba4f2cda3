/**
  Configuration-path discovery: a depth-first search over the graph of registered types, whose edges are
  pointer attributes, object-vector attributes, child types and aggregations.  Only the types on the
  current path count as visited.
*/
module ConfigPaths {
  import opened Sequences

  /** Types are numbered in the order of their registration. */
  type TypeId = nat

  datatype Edge = Edge(segment: string, target: TypeId)

  /** For each type its outgoing edges, in the order in which the search follows them. */
  type Graph = seq<seq<Edge>>

  ghost predicate Closed(g: Graph) {
    forall t, i | 0 <= t < |g| && 0 <= i < |g[t]| :: g[t][i].target < |g|
  }

  /** A walk from a type: which edge is taken at each type on the way. */
  type Walk = seq<nat>

  ghost predicate IsWalk(g: Graph, t: TypeId, w: Walk)
    requires Closed(g) && t < |g|
    decreases |w|
  {
    w == [] || (w[0] < |g[t]| && IsWalk(g, g[t][w[0]].target, w[1..]))
  }

  /** The types a walk visits, its start included. */
  ghost function Visited(g: Graph, t: TypeId, w: Walk): seq<TypeId>
    requires Closed(g) && t < |g| && IsWalk(g, t, w)
    decreases |w|
  {
    if w == [] then [t] else [t] + Visited(g, g[t][w[0]].target, w[1..])
  }

  ghost function Labels(g: Graph, t: TypeId, w: Walk): seq<string>
    requires Closed(g) && t < |g| && IsWalk(g, t, w)
    decreases |w|
  {
    if w == [] then [] else [g[t][w[0]].segment] + Labels(g, g[t][w[0]].target, w[1..])
  }

  ghost function End(g: Graph, t: TypeId, w: Walk): TypeId
    requires Closed(g) && t < |g| && IsWalk(g, t, w)
    decreases |w|
  {
    if w == [] then t else End(g, g[t][w[0]].target, w[1..])
  }

  /** No type twice, and none of those to avoid. */
  ghost predicate IsSimpleWalk(g: Graph, t: TypeId, avoid: seq<TypeId>, w: Walk)
    requires Closed(g) && t < |g|
  {
    && IsWalk(g, t, w)
    && Distinct(Visited(g, t, w))
    && forall v | v in Visited(g, t, w) :: v !in avoid
  }

  // ---------- The search as a function ----------

  ghost function Free(g: Graph, avoid: seq<TypeId>): set<TypeId> {
    set t | 0 <= t < |g| && t !in avoid
  }

  lemma FreeShrinks(g: Graph, avoid: seq<TypeId>, t: TypeId)
    requires t < |g| && t !in avoid
    ensures |Free(g, avoid + [t])| < |Free(g, avoid)|
  {
    assert Free(g, avoid + [t]) == Free(g, avoid) - {t};
  }

  ghost function Prefixed(i: nat, ws: seq<Walk>): seq<Walk> {
    seq(|ws|, k requires 0 <= k < |ws| => [i] + ws[k])
  }

  /** The walks the search records from `t`, in its order. */
  ghost function Walks(g: Graph, t: TypeId, avoid: seq<TypeId>): seq<Walk>
    requires Closed(g) && t < |g|
    decreases |Free(g, avoid)|, 1, 0
  {
    if t in avoid then [] else [[]] + WalksFrom(g, t, avoid, 0)
  }

  /** Those among them that leave `t` by its i-th edge or a later one. */
  ghost function WalksFrom(g: Graph, t: TypeId, avoid: seq<TypeId>, i: nat): seq<Walk>
    requires Closed(g) && t < |g| && t !in avoid && i <= |g[t]|
    decreases |Free(g, avoid)|, 0, |g[t]| - i
  {
    if i == |g[t]| then []
    else
      FreeShrinks(g, avoid, t);
      Prefixed(i, Walks(g, g[t][i].target, avoid + [t])) + WalksFrom(g, t, avoid, i + 1)
  }

  /** A simple walk of at least one edge is an edge and a simple walk that avoids its start as well. */
  lemma SimpleWalkTail(g: Graph, t: TypeId, avoid: seq<TypeId>, w: Walk)
    requires Closed(g) && t < |g| && w != []
    ensures IsSimpleWalk(g, t, avoid, w)
       <==> t !in avoid && w[0] < |g[t]| && IsSimpleWalk(g, g[t][w[0]].target, avoid + [t], w[1..])
  {
    if IsWalk(g, t, w) {
      var u, rest := g[t][w[0]].target, w[1..];
      var vs := Visited(g, u, rest);
      assert Visited(g, t, w) == [t] + vs;
      DistinctCons(t, vs);
      assert forall v :: v in [t] + vs <==> v == t || v in vs;
    }
  }

  /** The search records exactly the simple walks that avoid the types already on the stack. */
  lemma {:induction false} WalksExact(g: Graph, t: TypeId, avoid: seq<TypeId>, w: Walk)
    requires Closed(g) && t < |g|
    ensures w in Walks(g, t, avoid) <==> IsSimpleWalk(g, t, avoid, w)
    decreases |Free(g, avoid)|, 1, 0
  {
    if t !in avoid {
      if w == [] {
        assert ([[]] + WalksFrom(g, t, avoid, 0))[0] == [];
      } else {
        WalksFromExact(g, t, avoid, 0, w);
        SimpleWalkTail(g, t, avoid, w);
      }
    } else if IsWalk(g, t, w) {
      assert Visited(g, t, w)[0] == t;
    }
  }

  lemma {:induction false} WalksFromExact(g: Graph, t: TypeId, avoid: seq<TypeId>, i: nat, w: Walk)
    requires Closed(g) && t < |g| && t !in avoid && i <= |g[t]| && w != []
    ensures w in WalksFrom(g, t, avoid, i)
       <==> i <= w[0] < |g[t]| && IsSimpleWalk(g, g[t][w[0]].target, avoid + [t], w[1..])
    decreases |Free(g, avoid)|, 0, |g[t]| - i
  {
    if i < |g[t]| {
      FreeShrinks(g, avoid, t);
      var ws := Walks(g, g[t][i].target, avoid + [t]);
      WalksFromExact(g, t, avoid, i + 1, w);
      WalksExact(g, g[t][i].target, avoid + [t], w[1..]);
      InPrefixed(i, ws, w);
    }
  }

  lemma InPrefixed(i: nat, ws: seq<Walk>, w: Walk)
    requires w != []
    ensures w in Prefixed(i, ws) <==> w[0] == i && w[1..] in ws
  {
    if w[0] == i && w[1..] in ws {
      var k :| 0 <= k < |ws| && ws[k] == w[1..];
      assert w == [i] + ws[k];
      assert Prefixed(i, ws)[k] == w;
    }
  }

  lemma PrefixedDistinct(i: nat, ws: seq<Walk>)
    requires Distinct(ws)
    ensures Distinct(Prefixed(i, ws)) && forall w | w in Prefixed(i, ws) :: w != [] && w[0] == i
  {
    var a := Prefixed(i, ws);
    forall j, k | 0 <= j < k < |a| ensures a[j] != a[k] { assert a[j][1..] == ws[j] && a[k][1..] == ws[k]; }
  }

  /** No walk is recorded twice. */
  lemma {:induction false} WalksDistinct(g: Graph, t: TypeId, avoid: seq<TypeId>)
    requires Closed(g) && t < |g|
    ensures Distinct(Walks(g, t, avoid))
    decreases |Free(g, avoid)|, 1, 0
  {
    if t !in avoid {
      WalksFromDistinct(g, t, avoid, 0);
      DistinctCons([], WalksFrom(g, t, avoid, 0));
    }
  }

  /** The order of a dictionary, on the numbers of the edges taken. */
  predicate Precedes(v: Walk, w: Walk)
    decreases |v|
  {
    w != [] && (v == [] || v[0] < w[0] || (v[0] == w[0] && Precedes(v[1..], w[1..])))
  }

  ghost predicate Ascending(ws: seq<Walk>) {
    forall i, j | 0 <= i < j < |ws| :: Precedes(ws[i], ws[j])
  }

  lemma PrefixedAscending(i: nat, ws: seq<Walk>)
    requires Ascending(ws)
    ensures Ascending(Prefixed(i, ws)) && forall w | w in Prefixed(i, ws) :: w != [] && w[0] == i
  {
    var a := Prefixed(i, ws);
    forall j, k | 0 <= j < k < |a| ensures Precedes(a[j], a[k]) {
      assert a[j][1..] == ws[j] && a[k][1..] == ws[k] && Precedes(ws[j], ws[k]);
    }
  }

  lemma AscendingConcat(a: seq<Walk>, b: seq<Walk>, i: nat)
    requires Ascending(a) && Ascending(b)
    requires (forall w | w in a :: w == [] || w[0] == i) && (forall w | w in b :: w != [] && w[0] > i)
    ensures Ascending(a + b)
  {
    var all := a + b;
    forall j, k | 0 <= j < k < |all| ensures Precedes(all[j], all[k]) {
      if k < |a| {
        assert Precedes(a[j], a[k]);
      } else if j >= |a| {
        assert Precedes(b[j - |a|], b[k - |a|]);
      } else {
        assert a[j] in a && b[k - |a|] in b;
      }
    }
  }

  /** A walk is recorded before its extensions, and those by an earlier edge before those by a later one. */
  lemma {:induction false} WalksAscending(g: Graph, t: TypeId, avoid: seq<TypeId>)
    requires Closed(g) && t < |g|
    ensures Ascending(Walks(g, t, avoid))
    decreases |Free(g, avoid)|, 1, 0
  {
    if t !in avoid {
      var ws := WalksFrom(g, t, avoid, 0);
      WalksFromAscending(g, t, avoid, 0);
      WalksFromDistinct(g, t, avoid, 0);
      StartsWithEmpty(ws);
    }
  }

  lemma StartsWithEmpty(ws: seq<Walk>)
    requires Ascending(ws) && forall w | w in ws :: w != []
    ensures Ascending([[]] + ws)
  {
    var all: seq<Walk> := [[]] + ws;
    forall j, k | 0 <= j < k < |all| ensures Precedes(all[j], all[k]) {
      assert all[k] == ws[k - 1] && ws[k - 1] in ws;
      if j > 0 { assert Precedes(ws[j - 1], ws[k - 1]); }
    }
  }

  lemma {:induction false} WalksFromAscending(g: Graph, t: TypeId, avoid: seq<TypeId>, i: nat)
    requires Closed(g) && t < |g| && t !in avoid && i <= |g[t]|
    ensures Ascending(WalksFrom(g, t, avoid, i))
    decreases |Free(g, avoid)|, 0, |g[t]| - i
  {
    if i < |g[t]| {
      FreeShrinks(g, avoid, t);
      var ws := Walks(g, g[t][i].target, avoid + [t]);
      WalksAscending(g, g[t][i].target, avoid + [t]);
      PrefixedAscending(i, ws);
      WalksFromAscending(g, t, avoid, i + 1);
      WalksFromDistinct(g, t, avoid, i + 1);
      AscendingConcat(Prefixed(i, ws), WalksFrom(g, t, avoid, i + 1), i);
    }
  }

  lemma {:induction false} WalksFromDistinct(g: Graph, t: TypeId, avoid: seq<TypeId>, i: nat)
    requires Closed(g) && t < |g| && t !in avoid && i <= |g[t]|
    ensures Distinct(WalksFrom(g, t, avoid, i))
    ensures forall w | w in WalksFrom(g, t, avoid, i) :: w != [] && w[0] >= i
    decreases |Free(g, avoid)|, 0, |g[t]| - i
  {
    if i < |g[t]| {
      FreeShrinks(g, avoid, t);
      WalksDistinct(g, g[t][i].target, avoid + [t]);
      WalksFromDistinct(g, t, avoid, i + 1);
      var a, b := Prefixed(i, Walks(g, g[t][i].target, avoid + [t])), WalksFrom(g, t, avoid, i + 1);
      PrefixedDistinct(i, Walks(g, g[t][i].target, avoid + [t]));
      assert forall w | w in b :: w[0] >= i + 1;
      DistinctConcat(a, b);
    }
  }

  // ---------- What is recorded for a walk ----------

  /** The segments, each preceded by a slash. */
  function PathOf(segments: seq<string>): string {
    if segments == [] then ""
    else PathOf(segments[..|segments| - 1]) + "/" + segments[|segments| - 1]
  }

  type Entry = (TypeId, string)

  ghost function Record(g: Graph, t: TypeId, above: seq<string>, w: Walk): Entry
    requires Closed(g) && t < |g| && IsWalk(g, t, w)
  {
    (End(g, t, w), PathOf(above + Labels(g, t, w)))
  }

  ghost predicate AllWalks(g: Graph, t: TypeId, ws: seq<Walk>)
    requires Closed(g) && t < |g|
  {
    forall w | w in ws :: IsWalk(g, t, w)
  }

  /** One entry per walk, in order; `above` is the path on which `t` was reached. */
  ghost function Entries(g: Graph, t: TypeId, above: seq<string>, ws: seq<Walk>): (r: seq<Entry>)
    requires Closed(g) && t < |g| && AllWalks(g, t, ws)
    ensures |r| == |ws|
  {
    seq(|ws|, k requires 0 <= k < |ws| => assert ws[k] in ws; Record(g, t, above, ws[k]))
  }

  lemma WalksAreWalks(g: Graph, t: TypeId, avoid: seq<TypeId>)
    requires Closed(g) && t < |g|
    ensures AllWalks(g, t, Walks(g, t, avoid))
  {
    forall w | w in Walks(g, t, avoid) ensures IsWalk(g, t, w) { WalksExact(g, t, avoid, w); }
  }

  lemma WalksFromAreWalks(g: Graph, t: TypeId, avoid: seq<TypeId>, i: nat)
    requires Closed(g) && t < |g| && t !in avoid && i <= |g[t]|
    ensures AllWalks(g, t, WalksFrom(g, t, avoid, i))
  {
    WalksFromDistinct(g, t, avoid, i);
    forall w | w in WalksFrom(g, t, avoid, i) ensures IsWalk(g, t, w) { WalksFromExact(g, t, avoid, i, w); }
  }

  lemma RecordStep(g: Graph, t: TypeId, above: seq<string>, i: nat, w: Walk)
    requires Closed(g) && t < |g| && i < |g[t]| && IsWalk(g, g[t][i].target, w)
    ensures IsWalk(g, t, [i] + w)
    ensures Record(g, t, above, [i] + w) == Record(g, g[t][i].target, above + [g[t][i].segment], w)
  {
    assert ([i] + w)[1..] == w;
    var rest := Labels(g, g[t][i].target, w);
    assert above + ([g[t][i].segment] + rest) == above + [g[t][i].segment] + rest;
  }

  /** The entries still to come when the i-th edge is about to be followed. */
  ghost function Rest(g: Graph, t: TypeId, above: seq<string>, avoid: seq<TypeId>, i: nat): seq<Entry>
    requires Closed(g) && t < |g| && t !in avoid && i <= |g[t]|
  {
    WalksFromAreWalks(g, t, avoid, i);
    Entries(g, t, above, WalksFrom(g, t, avoid, i))
  }

  ghost function Gathered(g: Graph, t: TypeId, above: seq<string>, avoid: seq<TypeId>): seq<Entry>
    requires Closed(g) && t < |g|
  {
    WalksAreWalks(g, t, avoid);
    Entries(g, t, above, Walks(g, t, avoid))
  }

  lemma EntriesConcat(g: Graph, t: TypeId, above: seq<string>, a: seq<Walk>, b: seq<Walk>)
    requires Closed(g) && t < |g| && AllWalks(g, t, a) && AllWalks(g, t, b)
    ensures AllWalks(g, t, a + b)
    ensures Entries(g, t, above, a + b) == Entries(g, t, above, a) + Entries(g, t, above, b)
  {
  }

  lemma GatheredUnfold(g: Graph, t: TypeId, above: seq<string>, avoid: seq<TypeId>)
    requires Closed(g) && t < |g|
    ensures Gathered(g, t, above, avoid)
         == if t in avoid then [] else [(t, PathOf(above))] + Rest(g, t, above, avoid, 0)
  {
    if t !in avoid {
      WalksFromAreWalks(g, t, avoid, 0);
      assert above + Labels(g, t, []) == above;
      assert Entries(g, t, above, [[]]) == [(t, PathOf(above))];
      EntriesConcat(g, t, above, [[]], WalksFrom(g, t, avoid, 0));
    }
  }

  lemma EntriesPrefixed(g: Graph, t: TypeId, above: seq<string>, i: nat, ws: seq<Walk>)
    requires Closed(g) && t < |g| && i < |g[t]| && AllWalks(g, g[t][i].target, ws)
    ensures AllWalks(g, t, Prefixed(i, ws))
    ensures Entries(g, t, above, Prefixed(i, ws)) == Entries(g, g[t][i].target, above + [g[t][i].segment], ws)
  {
    forall k | 0 <= k < |ws|
      ensures IsWalk(g, t, [i] + ws[k])
      ensures Record(g, t, above, [i] + ws[k]) == Record(g, g[t][i].target, above + [g[t][i].segment], ws[k])
    {
      assert ws[k] in ws;
      RecordStep(g, t, above, i, ws[k]);
    }
  }

  lemma RestUnfold(g: Graph, t: TypeId, above: seq<string>, avoid: seq<TypeId>, i: nat)
    requires Closed(g) && t < |g| && t !in avoid && i < |g[t]|
    ensures Rest(g, t, above, avoid, i)
         == Gathered(g, g[t][i].target, above + [g[t][i].segment], avoid + [t]) + Rest(g, t, above, avoid, i + 1)
  {
    var u := g[t][i].target;
    WalksAreWalks(g, u, avoid + [t]);
    WalksFromAreWalks(g, t, avoid, i);
    WalksFromAreWalks(g, t, avoid, i + 1);
    EntriesPrefixed(g, t, above, i, Walks(g, u, avoid + [t]));
    EntriesConcat(g, t, above, Prefixed(i, Walks(g, u, avoid + [t])), WalksFrom(g, t, avoid, i + 1));
  }

  // ---------- The registry and its graph ----------

  datatype Attribute =
    | PointerTo(name: string, pointee: TypeId)
    | VectorOf(name: string, item: TypeId)
    | Plain(name: string)

  /** The registered types; `childOf` holds the pairs for which the first type is a child of the second. */
  datatype Registry = Registry(names: seq<string>, attributes: seq<seq<Attribute>>,
                               childOf: set<(TypeId, TypeId)>, objectType: TypeId)

  type Aggregate = (TypeId, TypeId)

  ghost predicate ValidRegistry(r: Registry) {
    && |r.attributes| == |r.names|
    && forall t, k | 0 <= t < |r.names| && 0 <= k < |r.attributes[t]| ::
         match r.attributes[t][k]
         case PointerTo(_, p) => p < |r.names|
         case VectorOf(_, p) => p < |r.names|
         case Plain(_) => true
  }

  ghost predicate ValidAggregates(r: Registry, aggs: seq<Aggregate>) {
    forall k | 0 <= k < |aggs| :: aggs[k].0 < |r.names| && aggs[k].1 < |r.names|
  }

  /** Pointers to plain objects are not followed; a vector's segment carries an index marker. */
  function AttributeEdges(r: Registry, attrs: seq<Attribute>): seq<Edge> {
    if attrs == [] then []
    else
      var rest := AttributeEdges(r, attrs[1..]);
      match attrs[0]
      case PointerTo(name, pointee) => if pointee == r.objectType then rest else [Edge(name, pointee)] + rest
      case VectorOf(name, item) => [Edge(name + "/[i]", item)] + rest
      case Plain(_) => rest
  }

  function ChildEdges(r: Registry, t: TypeId, j: nat): seq<Edge>
    requires j <= |r.names|
    decreases |r.names| - j
  {
    if j == |r.names| then []
    else (if (j, t) in r.childOf then [Edge("$" + r.names[j], j)] else []) + ChildEdges(r, t, j + 1)
  }

  function Other(a: Aggregate, t: TypeId): TypeId {
    if a.1 == t then a.0 else a.1
  }

  function AggregateEdges(r: Registry, aggs: seq<Aggregate>, t: TypeId): seq<Edge>
    requires forall k | 0 <= k < |aggs| :: aggs[k].0 < |r.names| && aggs[k].1 < |r.names|
  {
    if aggs == [] then []
    else (if aggs[0].0 == t || aggs[0].1 == t then [Edge("$" + r.names[Other(aggs[0], t)], Other(aggs[0], t))] else [])
         + AggregateEdges(r, aggs[1..], t)
  }

  ghost function GraphOf(r: Registry, aggs: seq<Aggregate>): Graph
    requires ValidRegistry(r) && ValidAggregates(r, aggs)
  {
    seq(|r.names|, t requires 0 <= t < |r.names| =>
      AttributeEdges(r, r.attributes[t]) + ChildEdges(r, t, 0) + AggregateEdges(r, aggs, t))
  }

  lemma {:induction false} AttributeTargets(r: Registry, attrs: seq<Attribute>)
    requires forall k | 0 <= k < |attrs| ::
               match attrs[k]
               case PointerTo(_, p) => p < |r.names|
               case VectorOf(_, p) => p < |r.names|
               case Plain(_) => true
    ensures forall k | 0 <= k < |AttributeEdges(r, attrs)| :: AttributeEdges(r, attrs)[k].target < |r.names|
  {
    if attrs != [] { AttributeTargets(r, attrs[1..]); }
  }

  lemma {:induction false} ChildTargets(r: Registry, t: TypeId, j: nat)
    requires j <= |r.names|
    ensures forall k | 0 <= k < |ChildEdges(r, t, j)| :: ChildEdges(r, t, j)[k].target < |r.names|
    decreases |r.names| - j
  {
    if j < |r.names| { ChildTargets(r, t, j + 1); }
  }

  lemma {:induction false} AggregateTargets(r: Registry, aggs: seq<Aggregate>, t: TypeId)
    requires ValidAggregates(r, aggs)
    ensures forall k | 0 <= k < |AggregateEdges(r, aggs, t)| :: AggregateEdges(r, aggs, t)[k].target < |r.names|
  {
    if aggs != [] { AggregateTargets(r, aggs[1..], t); }
  }

  lemma GraphClosed(r: Registry, aggs: seq<Aggregate>)
    requires ValidRegistry(r) && ValidAggregates(r, aggs)
    ensures Closed(GraphOf(r, aggs))
  {
    forall t | 0 <= t < |r.names|
      ensures forall i | 0 <= i < |GraphOf(r, aggs)[t]| :: GraphOf(r, aggs)[t][i].target < |r.names|
    {
      AttributeTargets(r, r.attributes[t]);
      ChildTargets(r, t, 0);
      AggregateTargets(r, aggs, t);
    }
  }

  // ---------- Which edges there are ----------

  /** A pointer attribute is followed unless it points to plain objects, a vector of objects always. */
  ghost predicate EdgeOfAttribute(r: Registry, a: Attribute, e: Edge) {
    || (a.PointerTo? && a.pointee != r.objectType && e == Edge(a.name, a.pointee))
    || (a.VectorOf? && e == Edge(a.name + "/[i]", a.item))
  }

  lemma {:induction false} InAttributeEdges(r: Registry, attrs: seq<Attribute>, e: Edge)
    ensures e in AttributeEdges(r, attrs) <==> exists k :: 0 <= k < |attrs| && EdgeOfAttribute(r, attrs[k], e)
  {
    if attrs != [] {
      var rest := AttributeEdges(r, attrs[1..]);
      InAttributeEdges(r, attrs[1..], e);
      assert e in AttributeEdges(r, attrs) <==> EdgeOfAttribute(r, attrs[0], e) || e in rest;
      if k :| 0 <= k < |attrs| && EdgeOfAttribute(r, attrs[k], e) {
        if k > 0 { assert attrs[1..][k - 1] == attrs[k]; }
      }
      if k :| 0 <= k < |attrs[1..]| && EdgeOfAttribute(r, attrs[1..][k], e) { assert attrs[k + 1] == attrs[1..][k]; }
    }
  }

  lemma {:induction false} InChildEdges(r: Registry, t: TypeId, j: nat, e: Edge)
    requires j <= |r.names|
    ensures e in ChildEdges(r, t, j)
       <==> j <= e.target < |r.names| && (e.target, t) in r.childOf && e.segment == "$" + r.names[e.target]
    decreases |r.names| - j
  {
    if j < |r.names| { InChildEdges(r, t, j + 1, e); }
  }

  lemma {:induction false} InAggregateEdges(r: Registry, aggs: seq<Aggregate>, t: TypeId, e: Edge)
    requires ValidAggregates(r, aggs)
    ensures e in AggregateEdges(r, aggs, t)
       <==> && ((t, e.target) in aggs || (e.target, t) in aggs)
            && e.target < |r.names| && e.segment == "$" + r.names[e.target]
  {
    if aggs != [] {
      var a, rest := aggs[0], aggs[1..];
      InAggregateEdges(r, rest, t, e);
      assert aggs == [a] + rest;
      assert a == (t, e.target) || a == (e.target, t) <==> (a.0 == t || a.1 == t) && Other(a, t) == e.target;
    }
  }

  /** From a type, edges lead along its attributes, to its children, and to the other side of its aggregations. */
  lemma EdgesExact(r: Registry, aggs: seq<Aggregate>, t: TypeId, e: Edge)
    requires ValidRegistry(r) && ValidAggregates(r, aggs) && t < |r.names|
    ensures e in GraphOf(r, aggs)[t]
       <==> || (exists k :: 0 <= k < |r.attributes[t]| && EdgeOfAttribute(r, r.attributes[t][k], e))
            || (&& ((e.target, t) in r.childOf || (t, e.target) in aggs || (e.target, t) in aggs)
                && e.target < |r.names| && e.segment == "$" + r.names[e.target])
  {
    InAttributeEdges(r, r.attributes[t], e);
    InChildEdges(r, t, 0, e);
    InAggregateEdges(r, aggs, t, e);
  }

  lemma AttributeEdgesNext(r: Registry, attrs: seq<Attribute>, i: nat, after: seq<Edge>)
    requires i < |attrs|
    ensures AttributeEdges(r, attrs[i..]) + after
         == match attrs[i]
            case PointerTo(name, pointee) =>
              if pointee == r.objectType then AttributeEdges(r, attrs[i + 1..]) + after
              else [Edge(name, pointee)] + (AttributeEdges(r, attrs[i + 1..]) + after)
            case VectorOf(name, item) => [Edge(name + "/[i]", item)] + (AttributeEdges(r, attrs[i + 1..]) + after)
            case Plain(_) => AttributeEdges(r, attrs[i + 1..]) + after
  {
    assert attrs[i..][1..] == attrs[i + 1..];
    match attrs[i]
    case PointerTo(name, pointee) => Regroup([Edge(name, pointee)], AttributeEdges(r, attrs[i + 1..]), after);
    case VectorOf(name, item) => Regroup([Edge(name + "/[i]", item)], AttributeEdges(r, attrs[i + 1..]), after);
    case Plain(_) =>
  }

  lemma ChildEdgesNext(r: Registry, t: TypeId, j: nat, after: seq<Edge>)
    requires j < |r.names|
    ensures ChildEdges(r, t, j) + after
         == if (j, t) in r.childOf then [Edge("$" + r.names[j], j)] + (ChildEdges(r, t, j + 1) + after)
            else ChildEdges(r, t, j + 1) + after
  {
    Regroup(if (j, t) in r.childOf then [Edge("$" + r.names[j], j)] else [], ChildEdges(r, t, j + 1), after);
    WithEmpty(ChildEdges(r, t, j + 1) + after);
  }

  lemma NextEdge(edges: seq<Edge>, k: nat, e: Edge, rest: seq<Edge>)
    requires k <= |edges| && edges[k..] == [e] + rest
    ensures k < |edges| && edges[k] == e && edges[k + 1..] == rest
  {
    assert edges[k..][0] == e && edges[k..][1..] == rest;
  }

  lemma PushPop<T>(s: seq<T>, x: T)
    ensures (s + [x])[..|s + [x]| - 1] == s
  {
  }

  // ---------- The gatherer ----------

  /** The type registered under the name. */
  function TypeOf(names: seq<string>, name: string): (t: TypeId)
    requires name in names
    ensures t < |names| && names[t] == name && forall k | 0 <= k < t :: names[k] != name
  {
    if names[0] == name then 0
    else
      assert names == [names[0]] + names[1..];
      var t := TypeOf(names[1..], name);
      assert forall k | 0 < k < |names| :: names[k] == names[1..][k - 1];
      t + 1
  }

  /** The pairs of which both names are registered. */
  function Recorded(names: seq<string>, pairs: seq<(string, string)>): seq<Aggregate> {
    if pairs == [] then []
    else
      var (a, b) := pairs[|pairs| - 1];
      Recorded(names, pairs[..|pairs| - 1])
      + if a in names && b in names then [(TypeOf(names, a), TypeOf(names, b))] else []
  }

  ghost predicate Roots(g: Graph, roots: seq<TypeId>) {
    forall k | 0 <= k < |roots| :: roots[k] < |g|
  }

  ghost function GatheredAll(g: Graph, roots: seq<TypeId>): seq<Entry>
    requires Closed(g) && Roots(g, roots)
  {
    if roots == [] then []
    else GatheredAll(g, roots[..|roots| - 1]) + Gathered(g, roots[|roots| - 1], [], [])
  }

  function PathsFor(entries: seq<Entry>, tid: TypeId): seq<string> {
    if entries == [] then []
    else (if entries[0].0 == tid then [entries[0].1] else []) + PathsFor(entries[1..], tid)
  }

  /** The gatherer of configuration paths, with its two stacks. */
  class StaticInformation {
    const registry: Registry
    var aggregates: seq<Aggregate>
    var noTids: seq<string>
    var output: seq<Entry>
    var currentPath: seq<string>
    var alreadyProcessed: seq<TypeId>

    ghost predicate Valid()
      reads this
    {
      ValidRegistry(registry) && ValidAggregates(registry, aggregates)
    }

    ghost function Types(): Graph
      requires Valid()
      reads this
      ensures Closed(Types()) && |Types()| == |registry.names|
    {
      GraphClosed(registry, aggregates);
      GraphOf(registry, aggregates)
    }

    constructor (registry: Registry)
      requires ValidRegistry(registry)
      ensures Valid() && this.registry == registry
      ensures aggregates == [] && noTids == [] && output == [] && currentPath == [] && alreadyProcessed == []
    {
      this.registry := registry;
      aggregates, noTids, output, currentPath, alreadyProcessed := [], [], [], [], [];
    }

    method GetCurrentPath() returns (path: string)
      ensures path == PathOf(currentPath)
    {
      path := "";
      for k := 0 to |currentPath|
        invariant path == PathOf(currentPath[..k])
      {
        assert currentPath[..k + 1][..k] == currentPath[..k];
        path := path + "/" + currentPath[k];
      }
      assert currentPath[..|currentPath|] == currentPath;
    }

    method HasAlreadyBeenProcessed(tid: TypeId) returns (found: bool)
      ensures found <==> tid in alreadyProcessed
    {
      for k := 0 to |alreadyProcessed|
        invariant tid !in alreadyProcessed[..k]
      {
        if alreadyProcessed[k] == tid { return true; }
      }
      return false;
    }

    method RecordOutput(tid: TypeId)
      modifies this`output
      ensures output == old(output) + [(tid, PathOf(currentPath))]
    {
      var path := GetCurrentPath();
      output := output + [(tid, path)];
    }

    /** The search.  It leaves both stacks as it found them. */
    method DoGather(tid: TypeId)
      requires Valid() && tid < |registry.names|
      modifies this`output, this`currentPath, this`alreadyProcessed
      ensures currentPath == old(currentPath) && alreadyProcessed == old(alreadyProcessed)
      ensures output == old(output) + Gathered(Types(), tid, currentPath, alreadyProcessed)
      decreases |Free(Types(), alreadyProcessed)|, 3
    {
      GatheredUnfold(Types(), tid, currentPath, alreadyProcessed);
      var seen := HasAlreadyBeenProcessed(tid);
      if seen {
        return;
      }
      Regroup(output, [(tid, PathOf(currentPath))], ToCome(tid, 0));
      RecordOutput(tid);
      ghost var k := FollowAttributes(tid);
      k := FollowChildren(tid, k);
      FollowAggregates(tid, k);
    }

    ghost predicate AtEdge(tid: TypeId, k: nat, rest: seq<Edge>)
      requires Valid() && tid < |registry.names|
      reads this
    {
      k <= |Types()[tid]| && Types()[tid][k..] == rest && tid !in alreadyProcessed
    }

    ghost function ToCome(tid: TypeId, k: nat): seq<Entry>
      requires Valid() && tid < |registry.names| && tid !in alreadyProcessed && k <= |Types()[tid]|
      reads this
    {
      Rest(Types(), tid, currentPath, alreadyProcessed, k)
    }

    /** The first loop of the search, over the attributes of the type. */
    method FollowAttributes(tid: TypeId) returns (ghost k: nat)
      requires Valid() && tid < |registry.names| && tid !in alreadyProcessed
      modifies this`output, this`currentPath, this`alreadyProcessed
      ensures currentPath == old(currentPath) && alreadyProcessed == old(alreadyProcessed)
      ensures AtEdge(tid, k, ChildEdges(registry, tid, 0) + AggregateEdges(registry, aggregates, tid))
      ensures output + ToCome(tid, k) == old(output) + old(ToCome(tid, 0))
      decreases |Free(Types(), alreadyProcessed)|, 2
    {
      k := 0;
      var attrs := registry.attributes[tid];
      ghost var after := ChildEdges(registry, tid, 0) + AggregateEdges(registry, aggregates, tid);
      assert attrs[0..] == attrs;
      assert Types()[tid] == AttributeEdges(registry, attrs) + after;
      for i := 0 to |attrs|
        invariant currentPath == old(currentPath) && alreadyProcessed == old(alreadyProcessed)
        invariant AtEdge(tid, k, AttributeEdges(registry, attrs[i..]) + after)
        invariant output + ToCome(tid, k) == old(output) + old(ToCome(tid, 0))
      {
        AttributeEdgesNext(registry, attrs, i, after);
        match attrs[i] {
          case PointerTo(name, pointee) =>
            if pointee == registry.objectType {
              continue;
            }
            k := Follow(tid, name, pointee, k, AttributeEdges(registry, attrs[i + 1..]) + after);
          case VectorOf(name, item) =>
            k := Follow(tid, name + "/[i]", item, k, AttributeEdges(registry, attrs[i + 1..]) + after);
          case Plain(_) =>
        }
      }
    }

    /** The second loop: every registered child type. */
    method FollowChildren(tid: TypeId, ghost k0: nat) returns (ghost k: nat)
      requires Valid() && tid < |registry.names|
      requires AtEdge(tid, k0, ChildEdges(registry, tid, 0) + AggregateEdges(registry, aggregates, tid))
      modifies this`output, this`currentPath, this`alreadyProcessed
      ensures currentPath == old(currentPath) && alreadyProcessed == old(alreadyProcessed)
      ensures AtEdge(tid, k, AggregateEdges(registry, aggregates, tid))
      ensures output + ToCome(tid, k) == old(output) + old(ToCome(tid, k0))
      decreases |Free(Types(), alreadyProcessed)|, 2
    {
      k := k0;
      ghost var after := AggregateEdges(registry, aggregates, tid);
      for j := 0 to |registry.names|
        invariant currentPath == old(currentPath) && alreadyProcessed == old(alreadyProcessed)
        invariant AtEdge(tid, k, ChildEdges(registry, tid, j) + after)
        invariant output + ToCome(tid, k) == old(output) + old(ToCome(tid, k0))
      {
        k := FollowChild(tid, j, k, after);
      }
    }

    /** One turn of that loop. */
    method FollowChild(tid: TypeId, j: TypeId, ghost k0: nat, ghost after: seq<Edge>) returns (ghost k: nat)
      requires Valid() && tid < |registry.names| && j < |registry.names|
      requires AtEdge(tid, k0, ChildEdges(registry, tid, j) + after)
      modifies this`output, this`currentPath, this`alreadyProcessed
      ensures currentPath == old(currentPath) && alreadyProcessed == old(alreadyProcessed)
      ensures AtEdge(tid, k, ChildEdges(registry, tid, j + 1) + after)
      ensures output + ToCome(tid, k) == old(output) + old(ToCome(tid, k0))
      decreases |Free(Types(), alreadyProcessed)|, 1
    {
      ChildEdgesNext(registry, tid, j, after);
      k := k0;
      if (j, tid) in registry.childOf {
        k := Follow(tid, "$" + registry.names[j], j, k, ChildEdges(registry, tid, j + 1) + after);
      }
    }

    /** The third loop: the aggregations that involve the type, on either side. */
    method FollowAggregates(tid: TypeId, ghost k0: nat)
      requires Valid() && tid < |registry.names|
      requires AtEdge(tid, k0, AggregateEdges(registry, aggregates, tid))
      modifies this`output, this`currentPath, this`alreadyProcessed
      ensures currentPath == old(currentPath) && alreadyProcessed == old(alreadyProcessed)
      ensures output == old(output) + old(ToCome(tid, k0))
      decreases |Free(Types(), alreadyProcessed)|, 2
    {
      ghost var k := k0;
      assert aggregates[0..] == aggregates;
      for i := 0 to |aggregates|
        invariant currentPath == old(currentPath) && alreadyProcessed == old(alreadyProcessed)
        invariant AtEdge(tid, k, AggregateEdges(registry, aggregates[i..], tid))
        invariant output + ToCome(tid, k) == old(output) + old(ToCome(tid, k0))
      {
        ghost var now := aggregates[i..];
        assert now[1..] == aggregates[i + 1..];
        var item := aggregates[i];
        if item.0 == tid || item.1 == tid {
          var other: TypeId := 0;
          if item.0 == tid {
            other := item.1;
          }
          if item.1 == tid {
            other := item.0;
          }
          k := Follow(tid, "$" + registry.names[other], other, k, AggregateEdges(registry, now[1..], tid));
        }
      }
    }

    /** The statements around each recursive call: push on both stacks, recurse, pop from both. */
    method Follow(tid: TypeId, segment: string, target: TypeId, ghost k0: nat, ghost rest: seq<Edge>)
      returns (ghost k: nat)
      requires Valid() && tid < |registry.names| && AtEdge(tid, k0, [Edge(segment, target)] + rest)
      modifies this`output, this`currentPath, this`alreadyProcessed
      ensures currentPath == old(currentPath) && alreadyProcessed == old(alreadyProcessed)
      ensures k == k0 + 1 && AtEdge(tid, k, rest)
      ensures output + ToCome(tid, k) == old(output) + old(ToCome(tid, k0))
      decreases |Free(Types(), alreadyProcessed)|, 0
    {
      k := k0 + 1;
      ghost var g, above, avoid, was := Types(), currentPath, alreadyProcessed, output;
      NextEdge(g[tid], k0, Edge(segment, target), rest);
      RestUnfold(g, tid, above, avoid, k0);
      FreeShrinks(g, avoid, tid);
      PushPop(above, segment);
      PushPop(avoid, tid);
      currentPath := currentPath + [segment];
      alreadyProcessed := alreadyProcessed + [tid];
      DoGather(target);
      Regroup(was, Gathered(g, target, above + [segment], avoid + [tid]), Rest(g, tid, above, avoid, k));
      alreadyProcessed := alreadyProcessed[..|alreadyProcessed| - 1];
      currentPath := currentPath[..|currentPath| - 1];
    }

    /** The entries of one type, in the order in which they were recorded. */
    method Get(tid: TypeId) returns (paths: seq<string>)
      ensures paths == PathsFor(output, tid)
    {
      paths := [];
      for k := 0 to |output|
        invariant paths + PathsFor(output[k..], tid) == PathsFor(output, tid)
      {
        assert output[k..][1..] == output[k + 1..];
        if output[k].0 == tid {
          paths := paths + [output[k].1];
        }
      }
    }

    /**
      One root.  `Uniquefy` is then handed the output by value, so what it sorts and thins out is a copy:
      the output keeps its order and its duplicates.
    */
    method Gather(tid: TypeId)
      requires Valid() && tid < |registry.names| && currentPath == [] && alreadyProcessed == []
      modifies this`output, this`currentPath, this`alreadyProcessed
      ensures currentPath == [] && alreadyProcessed == []
      ensures output == old(output) + Gathered(Types(), tid, [], [])
    {
      DoGather(tid);
    }

    /** The loop over the root objects: their entries follow one another in the one output. */
    method GatherAll(roots: seq<TypeId>)
      requires Valid() && Roots(Types(), roots) && currentPath == [] && alreadyProcessed == []
      modifies this`output, this`currentPath, this`alreadyProcessed
      ensures currentPath == [] && alreadyProcessed == []
      ensures output == old(output) + GatheredAll(Types(), roots)
    {
      for k := 0 to |roots|
        invariant currentPath == [] && alreadyProcessed == []
        invariant output == old(output) + GatheredAll(Types(), roots[..k])
      {
        assert roots[..k + 1][..k] == roots[..k];
        Regroup(old(output), GatheredAll(Types(), roots[..k]), Gathered(Types(), roots[k], [], []));
        Gather(roots[k]);
      }
      assert roots[..|roots|] == roots;
    }

    /** The registrations that the program makes before gathering. */
    method RecordAll(pairs: seq<(string, string)>)
      requires Valid()
      modifies this`aggregates, this`noTids
      ensures Valid() && aggregates == old(aggregates) + Recorded(registry.names, pairs)
    {
      for k := 0 to |pairs|
        invariant Valid() && aggregates == old(aggregates) + Recorded(registry.names, pairs[..k])
      {
        assert pairs[..k + 1][..k] == pairs[..k];
        RecordAggregationInfo(pairs[k].0, pairs[k].1);
      }
      assert pairs[..|pairs|] == pairs;
    }

    /** Unknown names are remembered, the first of the two only; nothing else changes then. */
    method RecordAggregationInfo(a: string, b: string)
      requires Valid()
      modifies this`aggregates, this`noTids
      ensures Valid()
      ensures a !in registry.names ==> noTids == old(noTids) + [a] && aggregates == old(aggregates)
      ensures a in registry.names && b !in registry.names ==> noTids == old(noTids) + [b] && aggregates == old(aggregates)
      ensures a in registry.names && b in registry.names ==>
                noTids == old(noTids) && aggregates == old(aggregates) + [(TypeOf(registry.names, a), TypeOf(registry.names, b))]
    {
      var foundA, aTid := Lookup(a);
      if !foundA {
        noTids := noTids + [a];
        return;
      }
      var foundB, bTid := Lookup(b);
      if !foundB {
        noTids := noTids + [b];
        return;
      }
      aggregates := aggregates + [(aTid, bTid)];
    }

    method Lookup(name: string) returns (found: bool, tid: TypeId)
      ensures found <==> name in registry.names
      ensures found ==> tid == TypeOf(registry.names, name)
    {
      for k := 0 to |registry.names|
        invariant name !in registry.names[..k]
        invariant name in registry.names ==> TypeOf(registry.names, name) >= k
      {
        if registry.names[k] == name { return true, k; }
      }
      return false, 0;
    }
  }

  // ---------- What is offered for a type ----------

  ghost predicate Reaches(g: Graph, root: TypeId, w: Walk, e: Entry)
    requires Closed(g) && root < |g|
  {
    IsSimpleWalk(g, root, [], w) && End(g, root, w) == e.0 && PathOf(Labels(g, root, w)) == e.1
  }

  /** The entry recorded for the k-th walk. */
  lemma EntryAt(g: Graph, root: TypeId, k: nat)
    requires Closed(g) && root < |g| && k < |Walks(g, root, [])|
    ensures k < |Gathered(g, root, [], [])|
    ensures Reaches(g, root, Walks(g, root, [])[k], Gathered(g, root, [], [])[k])
  {
    WalksAreWalks(g, root, []);
    var w := Walks(g, root, [])[k];
    assert w in Walks(g, root, []);
    WalksExact(g, root, [], w);
    WithEmpty(Labels(g, root, w));
  }

  lemma InGathered(g: Graph, root: TypeId, e: Entry)
    requires Closed(g) && root < |g|
    ensures e in Gathered(g, root, [], []) <==> exists w :: Reaches(g, root, w, e)
  {
    if e in Gathered(g, root, [], []) {
      WalksAreWalks(g, root, []);
      var k :| 0 <= k < |Gathered(g, root, [], [])| && Gathered(g, root, [], [])[k] == e;
      EntryAt(g, root, k);
    }
    if w :| Reaches(g, root, w, e) { ReachedIsGathered(g, root, w, e); }
  }

  lemma ReachedIsGathered(g: Graph, root: TypeId, w: Walk, e: Entry)
    requires Closed(g) && root < |g| && Reaches(g, root, w, e)
    ensures e in Gathered(g, root, [], [])
  {
    WalksExact(g, root, [], w);
    var k :| 0 <= k < |Walks(g, root, [])| && Walks(g, root, [])[k] == w;
    EntryAt(g, root, k);
    assert Gathered(g, root, [], [])[k] == e;
  }

  lemma GatheredAllNext(g: Graph, roots: seq<TypeId>, e: Entry)
    requires Closed(g) && Roots(g, roots) && roots != []
    ensures e in GatheredAll(g, roots)
       <==> e in GatheredAll(g, roots[..|roots| - 1]) || e in Gathered(g, roots[|roots| - 1], [], [])
  {
  }

  lemma {:induction false} InGatheredAll(g: Graph, roots: seq<TypeId>, e: Entry)
    requires Closed(g) && Roots(g, roots)
    ensures e in GatheredAll(g, roots) <==> exists k | 0 <= k < |roots| :: e in Gathered(g, roots[k], [], [])
  {
    if roots != [] {
      var n := |roots| - 1;
      var front := roots[..n];
      InGatheredAll(g, front, e);
      GatheredAllNext(g, roots, e);
      if k :| 0 <= k < n && e in Gathered(g, front[k], [], []) { assert front[k] == roots[k]; }
      if k :| 0 <= k < n && e in Gathered(g, roots[k], [], []) { assert front[k] == roots[k]; }
    }
  }

  /**
    What `Get` offers for a type after all roots were gathered: a path exactly for the simple walks from a
    root that end there.
  */
  lemma PathsForExact(g: Graph, roots: seq<TypeId>, tid: TypeId, path: string)
    requires Closed(g) && Roots(g, roots)
    ensures path in PathsFor(GatheredAll(g, roots), tid)
       <==> exists k, w :: 0 <= k < |roots| && Reaches(g, roots[k], w, (tid, path))
  {
    InPathsFor(GatheredAll(g, roots), tid, path);
    InGatheredAll(g, roots, (tid, path));
    forall k | 0 <= k < |roots|
      ensures (tid, path) in Gathered(g, roots[k], [], []) <==> exists w :: Reaches(g, roots[k], w, (tid, path))
    {
      InGathered(g, roots[k], (tid, path));
    }
  }

  lemma {:induction false} InPathsFor(entries: seq<Entry>, tid: TypeId, path: string)
    ensures path in PathsFor(entries, tid) <==> (tid, path) in entries
  {
    if entries != [] {
      assert entries == [entries[0]] + entries[1..];
      InPathsFor(entries[1..], tid, path);
    }
  }

  lemma {:induction false} PathsForConcat(a: seq<Entry>, b: seq<Entry>, tid: TypeId)
    ensures PathsFor(a + b, tid) == PathsFor(a, tid) + PathsFor(b, tid)
  {
    if a == [] {
      assert a + b == b;
    } else {
      assert (a + b)[1..] == a[1..] + b;
      PathsForConcat(a[1..], b, tid);
      Regroup(if a[0].0 == tid then [a[0].1] else [], PathsFor(a[1..], tid), PathsFor(b, tid));
    }
  }

  /** The paths come in the order in which they were recorded, each as often as it was recorded. */
  lemma PathsForInOrder(before: seq<Entry>, e: Entry, after: seq<Entry>, tid: TypeId)
    ensures PathsFor(before + ([e] + after), tid)
         == PathsFor(before, tid) + ((if e.0 == tid then [e.1] else []) + PathsFor(after, tid))
  {
    PathsForConcat(before, [e] + after, tid);
    assert ([e] + after)[1..] == after;
  }

  /** The registrations are kept in the order in which they are made. */
  lemma {:induction false} RecordedInOrder(names: seq<string>, a: seq<(string, string)>, b: seq<(string, string)>)
    ensures Recorded(names, a + b) == Recorded(names, a) + Recorded(names, b)
    decreases |b|
  {
    if b == [] {
      assert a + b == a;
    } else {
      var front := b[..|b| - 1];
      assert (a + b)[..|a + b| - 1] == a + front;
      RecordedInOrder(names, a, front);
    }
  }

  /** The roots are gathered in order. */
  lemma {:induction false} GatheredInOrder(g: Graph, a: seq<TypeId>, b: seq<TypeId>)
    requires Closed(g) && Roots(g, a) && Roots(g, b)
    ensures Roots(g, a + b) && GatheredAll(g, a + b) == GatheredAll(g, a) + GatheredAll(g, b)
    decreases |b|
  {
    if b == [] {
      assert a + b == a;
    } else {
      var front, last := b[..|b| - 1], b[|b| - 1];
      assert (a + b)[..|a + b| - 1] == a + front;
      GatheredInOrder(g, a, front);
      Regroup(GatheredAll(g, a), GatheredAll(g, front), Gathered(g, last, [], []));
    }
  }
}
