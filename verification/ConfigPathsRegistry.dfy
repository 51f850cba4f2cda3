/**
  Duplicates in the output of a registry: its type graph is well named, and what forks is a pair of types that
  is linked twice.
*/
module ConfigPathsRegistry {
  import opened Sequences
  import opened ConfigPaths
  import opened ConfigPathsUnique

  // ---------- A registry with duplicates ----------

  // ---------- Names ----------

  function SegmentFor(a: Attribute): string {
    match a
    case PointerTo(name, _) => name
    case VectorOf(name, _) => name + "/[i]"
    case Plain(name) => name
  }

  /** The attributes of one type: distinct names that cannot be taken for a type's or for an index marker. */
  ghost predicate NamedAttributes(attrs: seq<Attribute>) {
    && (forall k | 0 <= k < |attrs| ::
          '/' !in attrs[k].name && !("$" <= attrs[k].name) && attrs[k].name != "[i]")
    && (forall i, j | 0 <= i < j < |attrs| :: attrs[i].name != attrs[j].name)
  }

  ghost predicate NamedRegistry(r: Registry) {
    && ValidRegistry(r) && Distinct(r.names)
    && (forall t | 0 <= t < |r.names| :: '/' !in r.names[t] && NamedAttributes(r.attributes[t]))
  }

  lemma SegmentTellsName(a: Attribute, b: Attribute)
    requires '/' !in a.name && '/' !in b.name && SegmentFor(a) == SegmentFor(b)
    ensures a.name == b.name
  {
    var x, y := SegmentFor(a), SegmentFor(b);
    if a.VectorOf? {
      assert x[|a.name|] == '/' && x[..|a.name|] == a.name;
    }
    if b.VectorOf? {
      assert y[|b.name|] == '/' && y[..|b.name|] == b.name;
    }
  }

  /** The attribute that an edge comes from. */
  lemma {:induction false} AttributeOf(r: Registry, attrs: seq<Attribute>, i: nat) returns (k: nat)
    requires i < |AttributeEdges(r, attrs)|
    ensures k < |attrs| && AttributeEdges(r, attrs)[i].segment == SegmentFor(attrs[k])
  {
    var rest := AttributeEdges(r, attrs[1..]);
    if AttributeEdges(r, attrs) == rest {
      k := AttributeOf(r, attrs[1..], i);
      k := k + 1;
    } else if i == 0 {
      k := 0;
    } else {
      assert AttributeEdges(r, attrs)[1..] == rest;
      k := AttributeOf(r, attrs[1..], i - 1);
      k := k + 1;
    }
  }

  lemma AttributeEdgesUnfold(r: Registry, attrs: seq<Attribute>)
    requires attrs != []
    ensures var edges, rest := AttributeEdges(r, attrs), AttributeEdges(r, attrs[1..]);
            edges == rest || (edges != [] && edges[1..] == rest && EdgeOfAttribute(r, attrs[0], edges[0]))
  {
  }

  ghost predicate ComesFromAttribute(r: Registry, e: Edge, attrs: seq<Attribute>, k: nat) {
    k < |attrs| && EdgeOfAttribute(r, attrs[k], e)
  }

  lemma FromAttributeTail(r: Registry, e: Edge, attrs: seq<Attribute>, k: nat)
    requires attrs != [] && ComesFromAttribute(r, e, attrs[1..], k)
    ensures ComesFromAttribute(r, e, attrs, k + 1)
  {
  }

  lemma SomeAttribute(r: Registry, attrs: seq<Attribute>, e: Edge) returns (k: nat)
    requires e in AttributeEdges(r, attrs)
    ensures ComesFromAttribute(r, e, attrs, k)
  {
    InAttributeEdges(r, attrs, e);
    k :| 0 <= k < |attrs| && EdgeOfAttribute(r, attrs[k], e);
  }

  /** Two edges come from two attributes, in the same order. */
  lemma {:induction false} AttributesOf(r: Registry, attrs: seq<Attribute>, i: nat, j: nat) returns (k: nat, l: nat)
    requires i < j < |AttributeEdges(r, attrs)|
    ensures k < l
    ensures ComesFromAttribute(r, AttributeEdges(r, attrs)[i], attrs, k)
    ensures ComesFromAttribute(r, AttributeEdges(r, attrs)[j], attrs, l)
  {
    AttributeEdgesUnfold(r, attrs);
    var edges, rest := AttributeEdges(r, attrs), AttributeEdges(r, attrs[1..]);
    var n := if edges == rest then 0 else 1;
    assert edges[j] == rest[j - n];
    if i < n {
      l := SomeAttribute(r, attrs[1..], rest[j - n]);
      FromAttributeTail(r, edges[j], attrs, l);
      k, l := 0, l + 1;
    } else {
      assert edges[i] == rest[i - n];
      k, l := AttributesOf(r, attrs[1..], i - n, j - n);
      FromAttributeTail(r, edges[i], attrs, k);
      FromAttributeTail(r, edges[j], attrs, l);
      k, l := k + 1, l + 1;
    }
  }

  lemma AttributeSegmentsDiffer(r: Registry, attrs: seq<Attribute>, i: nat, j: nat)
    requires NamedAttributes(attrs) && i < j < |AttributeEdges(r, attrs)|
    ensures AttributeEdges(r, attrs)[i].segment != AttributeEdges(r, attrs)[j].segment
  {
    var k, l := AttributesOf(r, attrs, i, j);
    if SegmentFor(attrs[k]) == SegmentFor(attrs[l]) { SegmentTellsName(attrs[k], attrs[l]); }
  }

  /** The edges that lead to a type by its name: children, then aggregations. */
  function LinkEdges(r: Registry, aggs: seq<Aggregate>, t: TypeId): seq<Edge>
    requires forall k | 0 <= k < |aggs| :: aggs[k].0 < |r.names| && aggs[k].1 < |r.names|
  {
    ChildEdges(r, t, 0) + AggregateEdges(r, aggs, t)
  }

  ghost predicate NamesTarget(r: Registry, e: Edge) {
    e.target < |r.names| && e.segment == "$" + r.names[e.target]
  }

  /** A child edge stands for one child, later ones for later types. */
  lemma {:induction false} ChildOf(r: Registry, t: TypeId, j: nat, i: nat)
    requires j <= |r.names| && i < |ChildEdges(r, t, j)|
    ensures var e := ChildEdges(r, t, j)[i]; NamesTarget(r, e) && j <= e.target && (e.target, t) in r.childOf
    ensures forall k | 0 <= k < i :: ChildEdges(r, t, j)[k].target < ChildEdges(r, t, j)[i].target
    decreases |r.names| - j
  {
    var rest := ChildEdges(r, t, j + 1);
    if (j, t) in r.childOf {
      assert ChildEdges(r, t, j) == [Edge("$" + r.names[j], j)] + rest;
      if i > 0 { ChildOf(r, t, j + 1, i - 1); }
    } else {
      assert ChildEdges(r, t, j) == rest;
      ChildOf(r, t, j + 1, i);
    }
  }

  lemma {:induction false} ChildListed(r: Registry, t: TypeId, j: nat, u: TypeId) returns (i: nat)
    requires j <= u < |r.names| && (u, t) in r.childOf
    ensures i < |ChildEdges(r, t, j)| && ChildEdges(r, t, j)[i] == Edge("$" + r.names[u], u)
    decreases |r.names| - j
  {
    var rest := ChildEdges(r, t, j + 1);
    if j == u {
      i := 0;
    } else {
      i := ChildListed(r, t, j + 1, u);
      if (j, t) in r.childOf {
        assert ChildEdges(r, t, j) == [Edge("$" + r.names[j], j)] + rest;
        i := i + 1;
      } else {
        assert ChildEdges(r, t, j) == rest;
      }
    }
  }

  predicate Touches(a: Aggregate, t: TypeId) { a.0 == t || a.1 == t }

  /** The aggregation makes `u` reachable from `t`. */
  predicate Links(a: Aggregate, t: TypeId, u: TypeId) {
    Touches(a, t) && Other(a, t) == u
  }

  lemma AggregateEdgesUnfold(r: Registry, aggs: seq<Aggregate>, t: TypeId)
    requires ValidAggregates(r, aggs) && aggs != []
    ensures ValidAggregates(r, aggs[1..])
    ensures var rest, u := AggregateEdges(r, aggs[1..], t), Other(aggs[0], t);
            && u < |r.names|
            && AggregateEdges(r, aggs, t) == if Touches(aggs[0], t) then [Edge("$" + r.names[u], u)] + rest else rest
  {
  }

  ghost predicate ComesFrom(r: Registry, e: Edge, aggs: seq<Aggregate>, t: TypeId, k: nat) {
    NamesTarget(r, e) && k < |aggs| && Links(aggs[k], t, e.target)
  }

  lemma ComesFromTail(r: Registry, e: Edge, aggs: seq<Aggregate>, t: TypeId, k: nat)
    requires aggs != [] && ComesFrom(r, e, aggs[1..], t, k)
    ensures ComesFrom(r, e, aggs, t, k + 1)
  {
  }

  /** Where the edges of the aggregations after the first one start. */
  function Skipped(aggs: seq<Aggregate>, t: TypeId): nat
    requires aggs != []
  {
    if Touches(aggs[0], t) then 1 else 0
  }

  lemma EdgeInTail(r: Registry, aggs: seq<Aggregate>, t: TypeId, i: nat)
    requires ValidAggregates(r, aggs) && i < |AggregateEdges(r, aggs, t)|
    ensures aggs != [] && ValidAggregates(r, aggs[1..])
    ensures |AggregateEdges(r, aggs, t)| == Skipped(aggs, t) + |AggregateEdges(r, aggs[1..], t)|
    ensures i >= Skipped(aggs, t) ==>
              AggregateEdges(r, aggs, t)[i] == AggregateEdges(r, aggs[1..], t)[i - Skipped(aggs, t)]
  {
    AggregateEdgesUnfold(r, aggs, t);
  }

  lemma HeadEdge(r: Registry, aggs: seq<Aggregate>, t: TypeId)
    requires ValidAggregates(r, aggs) && aggs != [] && Touches(aggs[0], t)
    ensures AggregateEdges(r, aggs, t) != [] && ComesFrom(r, AggregateEdges(r, aggs, t)[0], aggs, t, 0)
  {
    AggregateEdgesUnfold(r, aggs, t);
  }

  /** The aggregation that an edge comes from. */
  lemma {:induction false} AggregateOf(r: Registry, aggs: seq<Aggregate>, t: TypeId, i: nat) returns (k: nat)
    requires ValidAggregates(r, aggs) && i < |AggregateEdges(r, aggs, t)|
    ensures ComesFrom(r, AggregateEdges(r, aggs, t)[i], aggs, t, k)
    decreases |aggs|
  {
    EdgeInTail(r, aggs, t, i);
    var n := Skipped(aggs, t);
    if i < n {
      HeadEdge(r, aggs, t);
      return 0;
    }
    k := AggregateOf(r, aggs[1..], t, i - n);
    ComesFromTail(r, AggregateEdges(r, aggs, t)[i], aggs, t, k);
    k := k + 1;
  }

  /** Two edges come from two aggregations. */
  lemma {:induction false} AggregatesOf(r: Registry, aggs: seq<Aggregate>, t: TypeId, i: nat, j: nat, d: Edge, e: Edge)
    returns (a: nat, b: nat)
    requires ValidAggregates(r, aggs) && i < j < |AggregateEdges(r, aggs, t)|
    requires AggregateEdges(r, aggs, t)[i] == d && AggregateEdges(r, aggs, t)[j] == e
    ensures a < b && ComesFrom(r, d, aggs, t, a) && ComesFrom(r, e, aggs, t, b)
    decreases |aggs|
  {
    EdgeInTail(r, aggs, t, i);
    EdgeInTail(r, aggs, t, j);
    var n := Skipped(aggs, t);
    if i < n {
      HeadEdge(r, aggs, t);
      a := 0;
      b := AggregateOf(r, aggs[1..], t, j - n);
      ComesFromTail(r, e, aggs, t, b);
      b := b + 1;
    } else {
      a, b := AggregatesOf(r, aggs[1..], t, i - n, j - n, d, e);
      ComesFromTail(r, d, aggs, t, a);
      ComesFromTail(r, e, aggs, t, b);
      a, b := a + 1, b + 1;
    }
  }

  lemma LinkNamesTarget(r: Registry, aggs: seq<Aggregate>, t: TypeId, i: nat)
    requires ValidAggregates(r, aggs) && i < |LinkEdges(r, aggs, t)|
    ensures NamesTarget(r, LinkEdges(r, aggs, t)[i])
  {
    var n := |ChildEdges(r, t, 0)|;
    if i < n { ChildOf(r, t, 0, i); } else { var k := AggregateOf(r, aggs, t, i - n); }
  }

  lemma EdgesOf(r: Registry, aggs: seq<Aggregate>, t: TypeId)
    requires ValidRegistry(r) && ValidAggregates(r, aggs) && t < |r.names|
    ensures GraphOf(r, aggs)[t] == AttributeEdges(r, r.attributes[t]) + LinkEdges(r, aggs, t)
  {
    Regroup(AttributeEdges(r, r.attributes[t]), ChildEdges(r, t, 0), AggregateEdges(r, aggs, t));
  }

  /** Where an edge comes from; attributes come before children and those before aggregations. */
  datatype Source = FromAttribute(k: nat) | FromChild(u: TypeId) | FromAggregate(k: nat)

  ghost predicate IsSource(r: Registry, aggs: seq<Aggregate>, t: TypeId, e: Edge, s: Source)
    requires t < |r.attributes|
  {
    match s
    case FromAttribute(k) => k < |r.attributes[t]| && EdgeOfAttribute(r, r.attributes[t][k], e)
    case FromChild(u) => NamesTarget(r, e) && e.target == u && (u, t) in r.childOf
    case FromAggregate(k) => NamesTarget(r, e) && k < |aggs| && Links(aggs[k], t, e.target)
  }

  predicate Earlier(a: Source, b: Source) {
    match a
    case FromAttribute(k) => b.FromAttribute? ==> k < b.k
    case FromChild(u) => b.FromAggregate? || (b.FromChild? && u < b.u)
    case FromAggregate(k) => b.FromAggregate? && k < b.k
  }

  lemma EdgeSource(r: Registry, aggs: seq<Aggregate>, t: TypeId, i: nat) returns (s: Source)
    requires ValidRegistry(r) && ValidAggregates(r, aggs) && t < |r.names| && i < |GraphOf(r, aggs)[t]|
    ensures IsSource(r, aggs, t, GraphOf(r, aggs)[t][i], s)
    ensures s.FromAttribute? <==> i < |AttributeEdges(r, r.attributes[t])|
    ensures s.FromAggregate? <==> i >= |AttributeEdges(r, r.attributes[t])| + |ChildEdges(r, t, 0)|
    ensures s.FromChild? ==> s.u == GraphOf(r, aggs)[t][i].target
  {
    EdgesOf(r, aggs, t);
    var a, c := AttributeEdges(r, r.attributes[t]), ChildEdges(r, t, 0);
    var e := GraphOf(r, aggs)[t][i];
    if i < |a| {
      assert e in a;
      InAttributeEdges(r, r.attributes[t], e);
      var k :| 0 <= k < |r.attributes[t]| && EdgeOfAttribute(r, r.attributes[t][k], e);
      s := FromAttribute(k);
    } else if i < |a| + |c| {
      ChildOf(r, t, 0, i - |a|);
      s := FromChild(e.target);
    } else {
      var k := AggregateOf(r, aggs, t, i - |a| - |c|);
      s := FromAggregate(k);
    }
  }

  /** The search follows the attributes in their order, then the children, then the aggregations. */
  lemma EdgesInOrder(r: Registry, aggs: seq<Aggregate>, t: TypeId, i: nat, j: nat) returns (x: Source, y: Source)
    requires ValidRegistry(r) && ValidAggregates(r, aggs) && t < |r.names| && i < j < |GraphOf(r, aggs)[t]|
    ensures IsSource(r, aggs, t, GraphOf(r, aggs)[t][i], x) && IsSource(r, aggs, t, GraphOf(r, aggs)[t][j], y)
    ensures Earlier(x, y)
  {
    EdgesOf(r, aggs, t);
    var a, c := AttributeEdges(r, r.attributes[t]), ChildEdges(r, t, 0);
    x := EdgeSource(r, aggs, t, i);
    y := EdgeSource(r, aggs, t, j);
    if j < |a| {
      var k, l := AttributesOf(r, r.attributes[t], i, j);
      x, y := FromAttribute(k), FromAttribute(l);
    } else if |a| <= i && j < |a| + |c| {
      ChildOf(r, t, 0, j - |a|);
    } else if |a| + |c| <= i {
      var m := |a| + |c|;
      var k, l := AggregatesOf(r, aggs, t, i - m, j - m, GraphOf(r, aggs)[t][i], GraphOf(r, aggs)[t][j]);
      x, y := FromAggregate(k), FromAggregate(l);
    }
  }

  lemma EdgeIsGood(r: Registry, aggs: seq<Aggregate>, t: TypeId, i: nat)
    requires NamedRegistry(r) && ValidAggregates(r, aggs) && t < |r.names| && i < |GraphOf(r, aggs)[t]|
    ensures GoodSegment(GraphOf(r, aggs)[t][i].segment)
  {
    EdgesOf(r, aggs, t);
    var attrs := r.attributes[t];
    var n := |AttributeEdges(r, attrs)|;
    var e := GraphOf(r, aggs)[t][i];
    if i < n {
      var k := AttributeOf(r, attrs, i);
      assert SegmentOf(e.segment, attrs[k].name);
    } else {
      LinkNamesTarget(r, aggs, t, i - n);
      assert e.segment[0] == '$' && '/' !in "$" + r.names[e.target];
      assert SegmentOf(e.segment, e.segment);
    }
  }

  lemma NotDollar(a: Attribute, name: string)
    requires !("$" <= a.name)
    ensures SegmentFor(a) != "$" + name
  {
    if a.name == "" {
      assert SegmentFor(a) == "" || SegmentFor(a)[0] == '/';
    } else {
      assert SegmentFor(a)[0] == a.name[0] && a.name[0] != '$';
    }
  }

  /** Edges of one type with one segment are links to one type. */
  lemma SameSegment(r: Registry, aggs: seq<Aggregate>, t: TypeId, i: nat, j: nat)
    requires NamedRegistry(r) && ValidAggregates(r, aggs) && t < |r.names| && i < j < |GraphOf(r, aggs)[t]|
    requires GraphOf(r, aggs)[t][i].segment == GraphOf(r, aggs)[t][j].segment
    ensures GraphOf(r, aggs)[t][i] == GraphOf(r, aggs)[t][j] && |AttributeEdges(r, r.attributes[t])| <= i
  {
    EdgesOf(r, aggs, t);
    var attrs := r.attributes[t];
    var n := |AttributeEdges(r, attrs)|;
    var d, e := GraphOf(r, aggs)[t][i], GraphOf(r, aggs)[t][j];
    if j < n {
      AttributeSegmentsDiffer(r, attrs, i, j);
    } else {
      LinkNamesTarget(r, aggs, t, j - n);
      if i < n {
        var k := AttributeOf(r, attrs, i);
        NotDollar(attrs[k], r.names[e.target]);
      } else {
        LinkNamesTarget(r, aggs, t, i - n);
        assert d.segment[1..] == r.names[d.target] && e.segment[1..] == r.names[e.target];
      }
    }
  }

  /** The graph of a registry with distinct, slash-free names is well named. */
  lemma GraphWellNamed(r: Registry, aggs: seq<Aggregate>)
    requires NamedRegistry(r) && ValidAggregates(r, aggs)
    ensures WellNamed(GraphOf(r, aggs))
  {
    var g: Graph := GraphOf(r, aggs);
    forall t, i | 0 <= t < |g| && 0 <= i < |g[t]| ensures GoodSegment(g[t][i].segment) { EdgeIsGood(r, aggs, t, i); }
    forall t, i, j | 0 <= t < |g| && 0 <= i < |g[t]| && 0 <= j < |g[t]| && g[t][i].segment == g[t][j].segment
      ensures g[t][i].target == g[t][j].target
    {
      if i < j { SameSegment(r, aggs, t, i, j); }
      if j < i { SameSegment(r, aggs, t, j, i); }
    }
  }

  // ---------- Forks ----------

  /** The two types are aggregated twice, or the second is a child of the first and aggregated as well. */
  ghost predicate LinkedTwice(r: Registry, aggs: seq<Aggregate>, t: TypeId, u: TypeId) {
    || (exists a: nat, b: nat :: a < b < |aggs| && Links(aggs[a], t, u) && Links(aggs[b], t, u))
    || ((u, t) in r.childOf && u < |r.names| && exists a: nat :: a < |aggs| && Links(aggs[a], t, u))
  }

  ghost predicate Twins(edges: seq<Edge>, u: TypeId, i: nat, j: nat) {
    i < j < |edges| && edges[i] == edges[j] && edges[i].target == u
  }

  lemma TwinsMeanLinkedTwice(r: Registry, aggs: seq<Aggregate>, t: TypeId, u: TypeId, i: nat, j: nat)
    requires ValidAggregates(r, aggs) && Twins(LinkEdges(r, aggs, t), u, i, j)
    ensures LinkedTwice(r, aggs, t, u)
  {
    var n := |ChildEdges(r, t, 0)|;
    if j < n {
      ChildOf(r, t, 0, j);
      assert false;
    } else if i < n {
      ChildOf(r, t, 0, i);
      var a := AggregateOf(r, aggs, t, j - n);
    } else {
      var e := LinkEdges(r, aggs, t)[j];
      var a, b := AggregatesOf(r, aggs, t, i - n, j - n, e, e);
    }
  }

  lemma {:induction false} AggregateEdgesConcat(r: Registry, a: seq<Aggregate>, b: seq<Aggregate>, t: TypeId)
    requires ValidAggregates(r, a) && ValidAggregates(r, b)
    ensures ValidAggregates(r, a + b)
    ensures AggregateEdges(r, a + b, t) == AggregateEdges(r, a, t) + AggregateEdges(r, b, t)
  {
    if a == [] {
      assert a + b == b;
    } else {
      assert (a + b)[1..] == a[1..] + b && ValidAggregates(r, a[1..]);
      AggregateEdgesConcat(r, a[1..], b, t);
    }
  }

  /** Where the edge of the k-th aggregation stands. */
  lemma AggregateEdgeAt(r: Registry, aggs: seq<Aggregate>, t: TypeId, k: nat)
    requires ValidAggregates(r, aggs) && k < |aggs| && (aggs[k].0 == t || aggs[k].1 == t)
    ensures ValidAggregates(r, aggs[..k]) && ValidAggregates(r, aggs[..k + 1])
    ensures var i := |AggregateEdges(r, aggs[..k], t)|;
            && i < |AggregateEdges(r, aggs, t)| && i < |AggregateEdges(r, aggs[..k + 1], t)|
            && AggregateEdges(r, aggs, t)[i] == Edge("$" + r.names[Other(aggs[k], t)], Other(aggs[k], t))
  {
    assert aggs[..k + 1] == aggs[..k] + [aggs[k]] && aggs == aggs[..k + 1] + aggs[k + 1..];
    AggregateEdgesConcat(r, aggs[..k], [aggs[k]], t);
    AggregateEdgesConcat(r, aggs[..k + 1], aggs[k + 1..], t);
    var single: seq<Aggregate> := [aggs[k]];
    assert |single| == 1 && single[1..] == [];
  }

  lemma MoreAggregatesMoreEdges(r: Registry, aggs: seq<Aggregate>, t: TypeId, a: nat, b: nat)
    requires ValidAggregates(r, aggs) && a <= b <= |aggs|
    ensures ValidAggregates(r, aggs[..a]) && ValidAggregates(r, aggs[..b])
    ensures |AggregateEdges(r, aggs[..a], t)| <= |AggregateEdges(r, aggs[..b], t)|
  {
    assert aggs[..b] == aggs[..a] + aggs[a..b];
    AggregateEdgesConcat(r, aggs[..a], aggs[a..b], t);
  }

  /** Two aggregations of the same types give two equal edges at each of them. */
  lemma AggregatedTwiceTwins(r: Registry, aggs: seq<Aggregate>, t: TypeId, u: TypeId, a: nat, b: nat)
    returns (i: nat, j: nat)
    requires ValidAggregates(r, aggs) && a < b < |aggs| && Links(aggs[a], t, u) && Links(aggs[b], t, u)
    ensures Twins(LinkEdges(r, aggs, t), u, i, j)
  {
    var first, edges := ChildEdges(r, t, 0), AggregateEdges(r, aggs, t);
    AggregateEdgeAt(r, aggs, t, a);
    AggregateEdgeAt(r, aggs, t, b);
    MoreAggregatesMoreEdges(r, aggs, t, a + 1, b);
    AggregateEdgesConcat(r, aggs[..a], [aggs[a]], t);
    assert aggs[..a + 1] == aggs[..a] + [aggs[a]];
    i, j := |first| + |AggregateEdges(r, aggs[..a], t)|, |first| + |AggregateEdges(r, aggs[..b], t)|;
    assert (first + edges)[i] == edges[i - |first|] && (first + edges)[j] == edges[j - |first|];
  }

  lemma LinkedTwiceTwins(r: Registry, aggs: seq<Aggregate>, t: TypeId, u: TypeId) returns (i: nat, j: nat)
    requires ValidAggregates(r, aggs) && LinkedTwice(r, aggs, t, u)
    ensures Twins(LinkEdges(r, aggs, t), u, i, j)
  {
    if a: nat, b: nat :| a < b < |aggs| && Links(aggs[a], t, u) && Links(aggs[b], t, u) {
      i, j := AggregatedTwiceTwins(r, aggs, t, u, a, b);
    } else {
      var a: nat :| a < |aggs| && Links(aggs[a], t, u);
      i := ChildListed(r, t, 0, u);
      AggregateEdgeAt(r, aggs, t, a);
      j := |ChildEdges(r, t, 0)| + |AggregateEdges(r, aggs[..a], t)|;
    }
  }

  /** From the root a simple walk `w` leads to a type that is linked twice to `u`, without `u`. */
  ghost predicate MeetsLinkedTwice(r: Registry, aggs: seq<Aggregate>, root: TypeId, w: Walk, u: TypeId)
    requires ValidRegistry(r) && ValidAggregates(r, aggs) && Closed(GraphOf(r, aggs)) && root < |r.names|
  {
    var g: Graph := GraphOf(r, aggs);
    IsSimpleWalk(g, root, [], w) && LinkedTwice(r, aggs, End(g, root, w), u) && u !in Visited(g, root, w)
  }

  lemma LinkedTwiceForks(r: Registry, aggs: seq<Aggregate>, root: TypeId, w: Walk, u: TypeId) returns (i: nat, j: nat)
    requires ValidRegistry(r) && ValidAggregates(r, aggs) && Closed(GraphOf(r, aggs)) && root < |r.names|
    requires MeetsLinkedTwice(r, aggs, root, w, u)
    ensures TwinsAt(GraphOf(r, aggs), root, w, i, j)
  {
    var g: Graph := GraphOf(r, aggs);
    Extend(g, root, w, 0);
    var t := End(g, root, w);
    EdgesOf(r, aggs, t);
    i, j := LinkedTwiceTwins(r, aggs, t, u);
    var n := |AttributeEdges(r, r.attributes[t])|;
    i, j := n + i, n + j;
  }

  /** The search forks exactly at types that are linked twice. */
  lemma ForksIffLinkedTwice(r: Registry, aggs: seq<Aggregate>, root: TypeId)
    requires NamedRegistry(r) && ValidAggregates(r, aggs) && Closed(GraphOf(r, aggs)) && root < |r.names|
    ensures RootForks(GraphOf(r, aggs), root) <==> exists w, u: TypeId :: MeetsLinkedTwice(r, aggs, root, w, u)
  {
    var g: Graph := GraphOf(r, aggs);
    if w, i: nat, j: nat :| ForksAt(g, root, [], w, i, j) {
      var t := End(g, root, w);
      SameSegment(r, aggs, t, i, j);
      EdgesOf(r, aggs, t);
      var n, u := |AttributeEdges(r, r.attributes[t])|, g[t][i].target;
      TwinsMeanLinkedTwice(r, aggs, t, u, i - n, j - n);
      assert MeetsLinkedTwice(r, aggs, root, w, u);
    }
    if w, u: TypeId :| MeetsLinkedTwice(r, aggs, root, w, u) {
      var i, j := LinkedTwiceForks(r, aggs, root, w, u);
      assert ForksAt(g, root, [], w, i, j);
    }
  }

  /**
    The output of a registry repeats itself exactly when a simple walk from a root comes to a type that is
    linked twice to a type not yet visited, a root comes twice, or walks from two different roots meet.
  */
  lemma RegistryDuplicatesIff(r: Registry, aggs: seq<Aggregate>, roots: seq<TypeId>)
    requires NamedRegistry(r) && ValidAggregates(r, aggs)
    requires Closed(GraphOf(r, aggs)) && Roots(GraphOf(r, aggs), roots)
    ensures !Distinct(GatheredAll(GraphOf(r, aggs), roots))
       <==> || (exists k, w, u: TypeId :: 0 <= k < |roots| && MeetsLinkedTwice(r, aggs, roots[k], w, u))
            || !Distinct(roots)
            || (exists a, b | 0 <= a < b < |roots| ::
                  roots[a] != roots[b] && RootsMeet(GraphOf(r, aggs), roots[a], roots[b]))
  {
    var g: Graph := GraphOf(r, aggs);
    GraphWellNamed(r, aggs);
    DuplicatesIff(g, roots);
    forall k | 0 <= k < |roots|
      ensures RootForks(g, roots[k]) <==> exists w, u: TypeId :: MeetsLinkedTwice(r, aggs, roots[k], w, u)
    {
      ForksIffLinkedTwice(r, aggs, roots[k]);
    }
  }

  // ---------- An aggregation listed twice ----------

  /**
    An aggregation recorded twice makes the output repeat itself as soon as a simple walk from a root ends at
    one of its types and avoids the other, however the types are named.
  */
  lemma RepeatedAggregationDuplicates(r: Registry, aggs: seq<Aggregate>, roots: seq<TypeId>, root: TypeId, w: Walk,
                                      a: nat, b: nat)
    requires ValidRegistry(r) && ValidAggregates(r, aggs) && Closed(GraphOf(r, aggs))
    requires Roots(GraphOf(r, aggs), roots) && root in roots && a < b < |aggs| && aggs[a] == aggs[b]
    requires IsSimpleWalk(GraphOf(r, aggs), root, [], w)
    requires var t := End(GraphOf(r, aggs), root, w);
             (aggs[a].0 == t || aggs[a].1 == t) && Other(aggs[a], t) !in Visited(GraphOf(r, aggs), root, w)
    ensures !Distinct(GatheredAll(GraphOf(r, aggs), roots))
  {
    var g: Graph := GraphOf(r, aggs);
    var u := Other(aggs[a], End(g, root, w));
    assert Links(aggs[a], End(g, root, w), u) && Links(aggs[b], End(g, root, w), u);
    var i, j := LinkedTwiceForks(r, aggs, root, w, u);
    TwinsDuplicate(g, root, w, i, j);
    DistinctAll(g, roots);
  }

  /** A small registry in which a node list leads to nodes, which aggregate the one protocol twice. */
  const SmallRegistry := Registry(["ns3::NodeListPriv", "ns3::Node", "ns3::Icmpv4L4Protocol", "ns3::Object"],
                                  [[VectorOf("NodeList", 1)], [], [], []], {}, 3)

  lemma DuplicatesExample()
    ensures ValidRegistry(SmallRegistry) && ValidAggregates(SmallRegistry, [(1, 2), (1, 2)])
    ensures var g := GraphOf(SmallRegistry, [(1, 2), (1, 2)]);
            Closed(g) && Roots(g, [0]) && !Distinct(GatheredAll(g, [0]))
  {
    var r, aggs: seq<Aggregate> := SmallRegistry, [(1, 2), (1, 2)];
    GraphClosed(r, aggs);
    var g: Graph := GraphOf(r, aggs);
    var attrs := r.attributes[0];
    assert AttributeEdges(r, attrs[1..]) == [];
    assert AttributeEdges(r, attrs) == [Edge("NodeList" + "/[i]", 1)];
    var w: Walk := [0];
    assert g[0][0].target == 1 && w[1..] == [];
    assert IsWalk(g, 1, []) && Visited(g, 0, w) == [0, 1] && End(g, 0, w) == 1;
    RepeatedAggregationDuplicates(r, aggs, [0], 0, w, 0, 1);
  }

  /** A pair of registered names that is listed twice is recorded twice. */
  lemma {:induction false} ListedTwice(names: seq<string>, pairs: seq<(string, string)>, a: nat, b: nat)
    returns (a': nat, b': nat)
    requires a < b < |pairs| && pairs[a] == pairs[b] && pairs[a].0 in names && pairs[a].1 in names
    ensures a' < b' < |Recorded(names, pairs)| && Recorded(names, pairs)[a'] == Recorded(names, pairs)[b']
    ensures Recorded(names, pairs)[a'] == (TypeOf(names, pairs[a].0), TypeOf(names, pairs[a].1))
    decreases |pairs|
  {
    var front := pairs[..|pairs| - 1];
    if b == |pairs| - 1 {
      a' := RecordedAt(names, front, a);
      b' := |Recorded(names, front)|;
    } else {
      a', b' := ListedTwice(names, front, a, b);
    }
  }

  lemma {:induction false} RecordedAt(names: seq<string>, pairs: seq<(string, string)>, a: nat) returns (a': nat)
    requires a < |pairs| && pairs[a].0 in names && pairs[a].1 in names
    ensures a' < |Recorded(names, pairs)|
    ensures Recorded(names, pairs)[a'] == (TypeOf(names, pairs[a].0), TypeOf(names, pairs[a].1))
    decreases |pairs|
  {
    var front := pairs[..|pairs| - 1];
    if a == |pairs| - 1 { a' := |Recorded(names, front)|; } else { a' := RecordedAt(names, front, a); }
  }

  ghost predicate Leads(g: Graph, root: TypeId, w: Walk, to: TypeId, without: TypeId)
    requires Closed(g) && root < |g|
  {
    IsSimpleWalk(g, root, [], w) && End(g, root, w) == to && without !in Visited(g, root, w)
  }

  /** From a root a simple walk leads to the type of the first name without the type of the second. */
  ghost predicate Exposes(r: Registry, aggs: seq<Aggregate>, roots: seq<TypeId>, pair: (string, string))
    requires ValidRegistry(r) && ValidAggregates(r, aggs) && Closed(GraphOf(r, aggs)) && Roots(GraphOf(r, aggs), roots)
    requires pair.0 in r.names && pair.1 in r.names
  {
    exists k, w :: 0 <= k < |roots| && Leads(GraphOf(r, aggs), roots[k], w, TypeOf(r.names, pair.0), TypeOf(r.names, pair.1))
  }

  /**
    The program from the registrations to the last root.  Listing a pair twice, as it does, leaves duplicates
    in the output whenever a root exposes the pair.
  */
  method GetTypicalAggregations(registry: Registry, pairs: seq<(string, string)>, roots: seq<TypeId>)
    returns (info: StaticInformation)
    requires ValidRegistry(registry) && forall k | 0 <= k < |roots| :: roots[k] < |registry.names|
    ensures fresh(info) && info.Valid() && info.registry == registry
    ensures info.aggregates == Recorded(registry.names, pairs) && Roots(info.Types(), roots)
    ensures info.output == GatheredAll(info.Types(), roots)
    ensures forall a: nat, b: nat | a < b < |pairs| && pairs[a] == pairs[b] ::
              (pairs[a].0 in registry.names && pairs[a].1 in registry.names
               && Exposes(registry, info.aggregates, roots, pairs[a])) ==> !Distinct(info.output)
  {
    info := new StaticInformation(registry);
    info.RecordAll(pairs);
    info.GatherAll(roots);
    assert info.output == GatheredAll(info.Types(), roots);
    forall a: nat, b: nat | a < b < |pairs| && pairs[a] == pairs[b]
      && pairs[a].0 in registry.names && pairs[a].1 in registry.names
      && Exposes(registry, info.aggregates, roots, pairs[a])
      ensures !Distinct(info.output)
    {
      ListedPairDuplicates(registry, pairs, info.aggregates, roots, a, b);
    }
  }

  lemma ListedPairDuplicates(r: Registry, pairs: seq<(string, string)>, aggs: seq<Aggregate>, roots: seq<TypeId>,
                             a: nat, b: nat)
    requires ValidRegistry(r) && ValidAggregates(r, aggs) && Closed(GraphOf(r, aggs)) && Roots(GraphOf(r, aggs), roots)
    requires aggs == Recorded(r.names, pairs) && a < b < |pairs| && pairs[a] == pairs[b]
    requires pairs[a].0 in r.names && pairs[a].1 in r.names && Exposes(r, aggs, roots, pairs[a])
    ensures !Distinct(GatheredAll(GraphOf(r, aggs), roots))
  {
    var g: Graph := GraphOf(r, aggs);
    var a', b' := ListedTwice(r.names, pairs, a, b);
    var k, w :| 0 <= k < |roots| && Leads(g, roots[k], w, TypeOf(r.names, pairs[a].0), TypeOf(r.names, pairs[a].1));
    LastVisited(g, roots[k], w);
    RepeatedAggregationDuplicates(r, aggs, roots, roots[k], w, a', b');
  }

  lemma {:induction false} LastVisited(g: Graph, t: TypeId, w: Walk)
    requires Closed(g) && t < |g| && IsWalk(g, t, w)
    ensures End(g, t, w) in Visited(g, t, w)
    decreases |w|
  {
    if w != [] { LastVisited(g, g[t][w[0]].target, w[1..]); }
  }
}
