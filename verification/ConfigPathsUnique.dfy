/**
  When the gathered output has duplicates.  The program means to keep unique entries only, but thins out a
  copy; so duplicates stay, and they arise exactly from edges of one type that carry the same segment, from
  a root gathered twice, and from walks of different roots that meet under the same segments.
*/
module ConfigPathsUnique {
  import opened Sequences
  import opened ConfigPaths

  // ---------- Reading a path back ----------

  /** A segment is a name without slashes, or such a name followed by the index marker. */
  ghost predicate SegmentOf(s: string, name: string) {
    '/' !in name && name != "[i]" && (s == name || s == name + "/[i]")
  }

  ghost predicate GoodSegment(s: string) {
    exists name :: SegmentOf(s, name)
  }

  ghost predicate GoodSegments(segments: seq<string>) {
    forall k | 0 <= k < |segments| :: GoodSegment(segments[k])
  }

  lemma {:induction false} PathOfFront(segments: seq<string>)
    requires segments != []
    ensures PathOf(segments) == "/" + segments[0] + PathOf(segments[1..])
  {
    var n := |segments| - 1;
    if n > 0 {
      var rest := segments[1..];
      PathOfFront(segments[..n]);
      assert segments[..n][1..] == rest[..n - 1] && segments[..n][0] == segments[0];
      assert PathOf(rest) == PathOf(rest[..n - 1]) + "/" + segments[n];
      Regroup("/" + segments[0], PathOf(rest[..n - 1]), "/");
      Regroup("/" + segments[0], PathOf(rest[..n - 1]) + "/", segments[n]);
    } else {
      assert segments[..0] == [] && segments[1..] == [];
    }
  }

  /** The text up to the first slash. */
  function Head(s: string): string {
    if s == [] || s[0] == '/' then [] else [s[0]] + Head(s[1..])
  }

  lemma {:induction false} HeadOf(name: string, rest: string)
    requires '/' !in name && (rest == [] || rest[0] == '/')
    ensures Head(name + rest) == name
  {
    if name != [] {
      assert (name + rest)[1..] == name[1..] + rest;
      HeadOf(name[1..], rest);
    }
  }

  lemma PathStart(segments: seq<string>)
    ensures PathOf(segments) == [] <==> segments == []
    ensures segments != [] ==> PathOf(segments)[0] == '/'
  {
    if segments != [] { PathOfFront(segments); }
  }

  lemma WithoutSlash(x: string, tail: string)
    ensures ("/" + x + tail)[1..] == x + tail && |"/" + x + tail| > 0
  {
  }

  lemma PathHead(segments: seq<string>, name: string)
    requires segments != [] && SegmentOf(segments[0], name)
    ensures PathOf(segments) != [] && Head(PathOf(segments)[1..]) == name
  {
    PathOfFront(segments);
    var tail := PathOf(segments[1..]);
    PathStart(segments[1..]);
    WithoutSlash(segments[0], tail);
    if segments[0] == name {
      HeadOf(name, tail);
    } else {
      Regroup(name, "/[i]", tail);
      HeadOf(name, "/[i]" + tail);
    }
  }

  /** No path starts with a bare index marker. */
  lemma NoBareIndex(segments: seq<string>, rest: string)
    requires GoodSegments(segments) && (rest == [] || rest[0] == '/')
    ensures PathOf(segments) != "/[i]" + rest
  {
    PathStart(segments);
    if PathOf(segments) == "/[i]" + rest {
      assert GoodSegment(segments[0]);
      var n :| SegmentOf(segments[0], n);
      PathHead(segments, n);
      assert ("/[i]" + rest)[1..] == "[i]" + rest;
      HeadOf("[i]", rest);
      assert false;
    }
  }

  /** A plain name cannot be confused with a name and its index marker. */
  lemma NoConfusion(a: seq<string>, b: seq<string>, name: string)
    requires a != [] && b != [] && GoodSegments(a[1..])
    requires a[0] == name && b[0] == name + "/[i]"
    ensures PathOf(a) != PathOf(b)
  {
    PathOfFront(a);
    PathOfFront(b);
    var pa, pb := PathOf(a[1..]), PathOf(b[1..]);
    PathStart(b[1..]);
    NoBareIndex(a[1..], pb);
    Regroup("/", name, "/[i]");
    Regroup("/" + name, "/[i]", pb);
    if PathOf(a) == PathOf(b) { Cancel("/" + name, pa, "/[i]" + pb); }
  }

  lemma Cancel(x: string, y: string, z: string)
    requires x + y == x + z
    ensures y == z
  {
    assert y == (x + y)[|x|..] && z == (x + z)[|x|..];
  }

  lemma {:induction false} PathInjective(a: seq<string>, b: seq<string>)
    requires GoodSegments(a) && GoodSegments(b) && PathOf(a) == PathOf(b)
    ensures a == b
    decreases |a|
  {
    if a == [] {
      if b != [] { PathOfFront(b); }
    } else if b == [] {
      PathOfFront(a);
    } else {
      assert GoodSegment(a[0]) && GoodSegment(b[0]);
      var m :| SegmentOf(a[0], m);
      var n :| SegmentOf(b[0], n);
      PathHead(a, m);
      PathHead(b, n);
      assert m == n;
      if a[0] != b[0] {
        if a[0] == m { NoConfusion(a, b, m); } else { NoConfusion(b, a, m); }
      }
      PathOfFront(a);
      PathOfFront(b);
      Cancel("/" + a[0], PathOf(a[1..]), PathOf(b[1..]));
      PathInjective(a[1..], b[1..]);
      assert a == [a[0]] + a[1..] && b == [b[0]] + b[1..];
    }
  }

  // ---------- Duplicates ----------

  /** The names of a registry: segments are well formed, and at each type a segment leads to one target. */
  ghost predicate WellNamed(g: Graph) {
    && (forall t, i | 0 <= t < |g| && 0 <= i < |g[t]| :: GoodSegment(g[t][i].segment))
    && (forall t, i, j | 0 <= t < |g| && 0 <= i < |g[t]| && 0 <= j < |g[t]| && g[t][i].segment == g[t][j].segment ::
          g[t][i].target == g[t][j].target)
  }

  /** After the simple walk `p` the search has two edges of the same segment to a type not yet on the path. */
  ghost predicate ForksAt(g: Graph, t: TypeId, avoid: seq<TypeId>, p: Walk, i: nat, j: nat)
    requires Closed(g) && t < |g|
  {
    && IsSimpleWalk(g, t, avoid, p)
    && var u := End(g, t, p);
    && u < |g| && i < j < |g[u]| && g[u][i].segment == g[u][j].segment
    && g[u][i].target !in Visited(g, t, p) && g[u][i].target !in avoid
  }

  lemma {:induction false} Extend(g: Graph, t: TypeId, p: Walk, i: nat)
    requires Closed(g) && t < |g| && IsWalk(g, t, p)
    ensures End(g, t, p) < |g|
    ensures i < |g[End(g, t, p)]| ==>
              var e := g[End(g, t, p)][i];
              && IsWalk(g, t, p + [i]) && End(g, t, p + [i]) == e.target
              && Visited(g, t, p + [i]) == Visited(g, t, p) + [e.target]
              && Labels(g, t, p + [i]) == Labels(g, t, p) + [e.segment]
    decreases |p|
  {
    if p != [] {
      var u, q := g[t][p[0]].target, p + [i];
      Extend(g, u, p[1..], i);
      assert q[0] == p[0] && q[1..] == p[1..] + [i];
      if i < |g[End(g, t, p)]| {
        var e := g[End(g, t, p)][i];
        Regroup([t], Visited(g, u, p[1..]), [e.target]);
        Regroup([g[t][p[0]].segment], Labels(g, u, p[1..]), [e.segment]);
      }
    } else {
      assert [i][1..] == [] && p + [i] == [i];
    }
  }

  /** Two different simple walks with the same segments part at a fork. */
  lemma {:induction false} WalksPartAtFork(g: Graph, t: TypeId, avoid: seq<TypeId>, v: Walk, w: Walk)
    returns (p: Walk, i: nat, j: nat)
    requires Closed(g) && t < |g| && WellNamed(g)
    requires IsSimpleWalk(g, t, avoid, v) && IsSimpleWalk(g, t, avoid, w) && v != w
    requires Labels(g, t, v) == Labels(g, t, w)
    ensures ForksAt(g, t, avoid, p, i, j)
    decreases |v|
  {
    LabelsLength(g, t, v);
    LabelsLength(g, t, w);
    SimpleWalkTail(g, t, avoid, v);
    SimpleWalkTail(g, t, avoid, w);
    assert g[t][v[0]].segment == Labels(g, t, v)[0] == g[t][w[0]].segment;
    if v[0] == w[0] {
      var u := g[t][v[0]].target;
      assert Labels(g, u, v[1..]) == Labels(g, t, v)[1..] == Labels(g, u, w[1..]);
      assert v == [v[0]] + v[1..] && w == [w[0]] + w[1..];
      p, i, j := WalksPartAtFork(g, u, avoid + [t], v[1..], w[1..]);
      var q := p;
      p := [v[0]] + q;
      assert p[1..] == q;
      SimpleWalkTail(g, t, avoid, p);
      var y := g[End(g, u, q)][i].target;
      assert Visited(g, t, p) == [t] + Visited(g, u, q);
      assert t in avoid + [t] && y !in avoid + [t];
    } else {
      p, i, j := [], if v[0] < w[0] then v[0] else w[0], if v[0] < w[0] then w[0] else v[0];
      var x := g[t][v[0]].target;
      assert Visited(g, x, v[1..])[0] == x && t in avoid + [t];
    }
  }

  lemma {:induction false} LabelsLength(g: Graph, t: TypeId, w: Walk)
    requires Closed(g) && t < |g| && IsWalk(g, t, w)
    ensures |Labels(g, t, w)| == |w|
    decreases |w|
  {
    if w != [] { LabelsLength(g, g[t][w[0]].target, w[1..]); }
  }

  lemma {:induction false} LabelsGood(g: Graph, t: TypeId, w: Walk)
    requires Closed(g) && t < |g| && WellNamed(g) && IsWalk(g, t, w)
    ensures GoodSegments(Labels(g, t, w))
    decreases |w|
  {
    if w != [] { LabelsGood(g, g[t][w[0]].target, w[1..]); }
  }

  /**
    For well-named types the entries one `Gather` appends are pairwise different exactly when no simple
    walk from the root meets a fork.
  */
  lemma DuplicatesIffFork(g: Graph, root: TypeId)
    requires Closed(g) && root < |g| && WellNamed(g)
    ensures !Distinct(Gathered(g, root, [], [])) <==> exists p, i: nat, j: nat :: ForksAt(g, root, [], p, i, j)
  {
    var ws, es := Walks(g, root, []), Gathered(g, root, [], []);
    WalksAreWalks(g, root, []);
    if !Distinct(es) {
      var a, b :| 0 <= a < b < |es| && es[a] == es[b];
      var p, i, j := DuplicateMeansFork(g, root, a, b);
    }
    if p, i: nat, j: nat :| ForksAt(g, root, [], p, i, j) {
      Extend(g, root, p, i);
      TwinsDuplicate(g, root, p, i, j);
    }
  }

  lemma DuplicateMeansFork(g: Graph, root: TypeId, a: nat, b: nat) returns (p: Walk, i: nat, j: nat)
    requires Closed(g) && root < |g| && WellNamed(g)
    requires a < b < |Gathered(g, root, [], [])| && Gathered(g, root, [], [])[a] == Gathered(g, root, [], [])[b]
    ensures ForksAt(g, root, [], p, i, j)
  {
    var ws := Walks(g, root, []);
    WalksAreWalks(g, root, []);
    WalksDistinct(g, root, []);
    var v, w := ws[a], ws[b];
    assert v in ws && w in ws;
    WalksExact(g, root, [], v);
    WalksExact(g, root, [], w);
    LabelsGood(g, root, v);
    LabelsGood(g, root, w);
    var lv, lw := Labels(g, root, v), Labels(g, root, w);
    assert [] + lv == lv && [] + lw == lw;
    PathInjective(lv, lw);
    p, i, j := WalksPartAtFork(g, root, [], v, w);
  }

  /** After `p`, two equal edges lead to a type not yet on the path. */
  ghost predicate TwinsAt(g: Graph, t: TypeId, p: Walk, i: nat, j: nat)
    requires Closed(g) && t < |g|
  {
    && IsSimpleWalk(g, t, [], p)
    && var u := End(g, t, p);
    && u < |g| && i < j < |g[u]| && g[u][i] == g[u][j] && g[u][i].target !in Visited(g, t, p)
  }

  /** Both are recorded, with one and the same entry. */
  lemma TwinsDuplicate(g: Graph, root: TypeId, p: Walk, i: nat, j: nat)
    requires Closed(g) && root < |g| && TwinsAt(g, root, p, i, j)
    ensures !Distinct(Gathered(g, root, [], []))
  {
    var ws, es := Walks(g, root, []), Gathered(g, root, [], []);
    var a := TwinIndex(g, root, p, i, j, i);
    var b := TwinIndex(g, root, p, i, j, j);
    assert ws[a] != ws[b] by { assert (p + [i])[|p|] != (p + [j])[|p|]; }
    assert a != b && es[a] == es[b];
    if a < b { assert es[a] == es[b]; } else { assert es[b] == es[a]; }
  }

  lemma TwinIndex(g: Graph, root: TypeId, p: Walk, i: nat, j: nat, k: nat) returns (a: nat)
    requires Closed(g) && root < |g| && TwinsAt(g, root, p, i, j) && (k == i || k == j)
    ensures a < |Gathered(g, root, [], [])| && a < |Walks(g, root, [])| && Walks(g, root, [])[a] == p + [k]
    ensures End(g, root, p) < |g| && i < |g[End(g, root, p)]|
    ensures Gathered(g, root, [], [])[a]
         == (g[End(g, root, p)][i].target, PathOf(Labels(g, root, p) + [g[End(g, root, p)][i].segment]))
  {
    Extend(g, root, p, k);
    var vs, x := Visited(g, root, p), g[End(g, root, p)][i].target;
    assert Distinct(vs + [x]);
    assert IsSimpleWalk(g, root, [], p + [k]);
    WalksExact(g, root, [], p + [k]);
    WalksAreWalks(g, root, []);
    a :| 0 <= a < |Walks(g, root, [])| && Walks(g, root, [])[a] == p + [k];
    assert [] + Labels(g, root, p + [k]) == Labels(g, root, p + [k]);
  }

  // ---------- Several roots ----------

  /**
    Simple walks from two roots carry the same segments to two types, and from there edges of one more
    common segment lead to a type that is on neither walk.
  */
  ghost predicate MeetsAt(g: Graph, a: TypeId, b: TypeId, v: Walk, w: Walk, i: nat, j: nat)
    requires Closed(g) && a < |g| && b < |g|
  {
    && IsSimpleWalk(g, a, [], v) && IsSimpleWalk(g, b, [], w) && Labels(g, a, v) == Labels(g, b, w)
    && var x, y := End(g, a, v), End(g, b, w);
    && x != y && x < |g| && y < |g| && i < |g[x]| && j < |g[y]| && g[x][i] == g[y][j]
    && g[x][i].target !in Visited(g, a, v) && g[x][i].target !in Visited(g, b, w)
  }

  /** A simple walk of at least one edge is a simple walk and an edge to a type not on it. */
  lemma {:induction false} WalkFront(g: Graph, t: TypeId, w: Walk)
    requires Closed(g) && t < |g| && IsWalk(g, t, w) && w != []
    ensures var p := w[..|w| - 1];
            && p + [w[|w| - 1]] == w
            && IsWalk(g, t, p) && End(g, t, p) < |g| && w[|w| - 1] < |g[End(g, t, p)]|
    decreases |w|
  {
    if |w| > 1 {
      WalkFront(g, g[t][w[0]].target, w[1..]);
      assert w[..|w| - 1][1..] == w[1..][..|w| - 2];
    }
  }

  lemma SimpleFront(g: Graph, t: TypeId, w: Walk)
    requires Closed(g) && t < |g| && IsSimpleWalk(g, t, [], w) && w != []
    ensures var p, k := w[..|w| - 1], w[|w| - 1];
            && IsSimpleWalk(g, t, [], p) && End(g, t, p) < |g| && k < |g[End(g, t, p)]|
            && var e := g[End(g, t, p)][k];
            && End(g, t, w) == e.target && Labels(g, t, w) == Labels(g, t, p) + [e.segment]
            && e.target !in Visited(g, t, p)
  {
    WalkFront(g, t, w);
    var p, k := w[..|w| - 1], w[|w| - 1];
    Extend(g, t, p, k);
    var vs, x := Visited(g, t, p), g[End(g, t, p)][k].target;
    assert Visited(g, t, w) == vs + [x];
    forall i, j | 0 <= i < j < |vs| ensures vs[i] != vs[j] { assert (vs + [x])[i] != (vs + [x])[j]; }
    forall i | 0 <= i < |vs| ensures vs[i] != x { assert (vs + [x])[i] != (vs + [x])[|vs|]; }
  }

  /** Walks from different roots that end at one type under the same segments have met on the way. */
  lemma {:induction false} WalksMeet(g: Graph, a: TypeId, b: TypeId, v: Walk, w: Walk)
    returns (v': Walk, w': Walk, i: nat, j: nat)
    requires Closed(g) && a < |g| && b < |g| && a != b
    requires IsSimpleWalk(g, a, [], v) && IsSimpleWalk(g, b, [], w)
    requires Labels(g, a, v) == Labels(g, b, w) && End(g, a, v) == End(g, b, w)
    ensures MeetsAt(g, a, b, v', w', i, j)
    decreases |v|
  {
    LabelsLength(g, a, v);
    LabelsLength(g, b, w);
    SimpleFront(g, a, v);
    SimpleFront(g, b, w);
    var n := |v| - 1;
    v', w', i, j := v[..n], w[..n], v[n], w[n];
    var la, lb := Labels(g, a, v'), Labels(g, b, w');
    var x, y := g[End(g, a, v')][i], g[End(g, b, w')][j];
    assert (la + [x.segment])[..n] == la && (lb + [y.segment])[..n] == lb by {
      LabelsLength(g, a, v');
      LabelsLength(g, b, w');
    }
    assert (la + [x.segment])[|la|] == (lb + [y.segment])[|lb|];
    if End(g, a, v') == End(g, b, w') { v', w', i, j := WalksMeet(g, a, b, v', w'); }
  }

  ghost predicate RootsMeet(g: Graph, a: TypeId, b: TypeId)
    requires Closed(g) && a < |g| && b < |g|
  {
    exists v, w, i: nat, j: nat :: MeetsAt(g, a, b, v, w, i, j)
  }

  ghost predicate Common(g: Graph, a: TypeId, b: TypeId)
    requires Closed(g) && a < |g| && b < |g|
  {
    exists e :: e in Gathered(g, a, [], []) && e in Gathered(g, b, [], [])
  }

  lemma CommonIffMeet(g: Graph, a: TypeId, b: TypeId)
    requires Closed(g) && WellNamed(g) && a < |g| && b < |g| && a != b
    ensures Common(g, a, b) <==> RootsMeet(g, a, b)
  {
    if e :| e in Gathered(g, a, [], []) && e in Gathered(g, b, [], []) {
      InGathered(g, a, e);
      InGathered(g, b, e);
      var v :| Reaches(g, a, v, e);
      var w :| Reaches(g, b, w, e);
      LabelsGood(g, a, v);
      LabelsGood(g, b, w);
      PathInjective(Labels(g, a, v), Labels(g, b, w));
      var v', w', i, j := WalksMeet(g, a, b, v, w);
    }
    if v, w, i: nat, j: nat :| MeetsAt(g, a, b, v, w, i, j) {
      var edge := g[End(g, a, v)][i];
      var e := (edge.target, PathOf(Labels(g, a, v) + [edge.segment]));
      StepReached(g, a, v, i);
      StepReached(g, b, w, j);
      assert e in Gathered(g, a, [], []) && e in Gathered(g, b, [], []);
    }
  }

  lemma StepReached(g: Graph, t: TypeId, p: Walk, i: nat)
    requires Closed(g) && t < |g| && IsSimpleWalk(g, t, [], p) && End(g, t, p) < |g| && i < |g[End(g, t, p)]|
    requires g[End(g, t, p)][i].target !in Visited(g, t, p)
    ensures var e := g[End(g, t, p)][i];
            (e.target, PathOf(Labels(g, t, p) + [e.segment])) in Gathered(g, t, [], [])
  {
    Extend(g, t, p, i);
    var edge := g[End(g, t, p)][i];
    assert Distinct(Visited(g, t, p) + [edge.target]);
    var e := (edge.target, PathOf(Labels(g, t, p) + [edge.segment]));
    assert Reaches(g, t, p + [i], e);
    InGathered(g, t, e);
  }

  lemma SameRootCommon(g: Graph, a: TypeId)
    requires Closed(g) && a < |g|
    ensures Common(g, a, a)
  {
    assert Reaches(g, a, [], (a, ""));
    InGathered(g, a, (a, ""));
  }

  lemma SharedWithEarlier(g: Graph, roots: seq<TypeId>, last: TypeId)
    requires Closed(g) && Roots(g, roots) && last < |g|
    ensures (exists e :: e in GatheredAll(g, roots) && e in Gathered(g, last, [], []))
       <==> (exists a | 0 <= a < |roots| :: Common(g, roots[a], last))
  {
    if e :| e in GatheredAll(g, roots) && e in Gathered(g, last, [], []) {
      InGatheredAll(g, roots, e);
      var a :| 0 <= a < |roots| && e in Gathered(g, roots[a], [], []);
      assert Common(g, roots[a], last);
    }
    if a :| 0 <= a < |roots| && Common(g, roots[a], last) {
      var e :| e in Gathered(g, roots[a], [], []) && e in Gathered(g, last, [], []);
      InGatheredAll(g, roots, e);
    }
  }

  ghost predicate EachDistinct(g: Graph, roots: seq<TypeId>)
    requires Closed(g) && Roots(g, roots)
  {
    forall k | 0 <= k < |roots| :: Distinct(Gathered(g, roots[k], [], []))
  }

  ghost predicate NoneCommon(g: Graph, roots: seq<TypeId>)
    requires Closed(g) && Roots(g, roots)
  {
    forall a, b | 0 <= a < b < |roots| :: !Common(g, roots[a], roots[b])
  }

  /** The output of all roots is free of duplicates if that of each is and no two share an entry. */
  lemma {:induction false} DistinctAll(g: Graph, roots: seq<TypeId>)
    requires Closed(g) && Roots(g, roots)
    ensures Distinct(GatheredAll(g, roots)) <==> EachDistinct(g, roots) && NoneCommon(g, roots)
  {
    if roots != [] {
      var front, last := roots[..|roots| - 1], roots[|roots| - 1];
      assert roots == front + [last];
      DistinctAll(g, front);
      OneMoreRoot(g, front, last);
      SharedWithEarlier(g, front, last);
      var es, more := GatheredAll(g, front), Gathered(g, last, [], []);
      assert GatheredAll(g, roots) == es + more;
      assert Distinct(es + more) <==> Distinct(es) && Distinct(more) && !exists e :: e in es && e in more by {
        DistinctConcat(es, more);
      }
    }
  }

  lemma OneMoreRoot(g: Graph, front: seq<TypeId>, last: TypeId)
    requires Closed(g) && Roots(g, front) && last < |g|
    ensures Roots(g, front + [last])
    ensures EachDistinct(g, front + [last]) <==> EachDistinct(g, front) && Distinct(Gathered(g, last, [], []))
    ensures NoneCommon(g, front + [last])
       <==> NoneCommon(g, front) && forall a | 0 <= a < |front| :: !Common(g, front[a], last)
  {
    var roots := front + [last];
    assert roots[|front|] == last && forall a | 0 <= a < |front| :: roots[a] == front[a];
    if EachDistinct(g, roots) {
      forall k | 0 <= k < |front| ensures Distinct(Gathered(g, front[k], [], [])) { assert roots[k] == front[k]; }
    }
    if NoneCommon(g, roots) {
      forall a, b | 0 <= a < b < |front| ensures !Common(g, front[a], front[b]) {
        assert !Common(g, roots[a], roots[b]);
      }
      forall a | 0 <= a < |front| ensures !Common(g, front[a], last) { assert !Common(g, roots[a], roots[|front|]); }
    }
  }

  ghost predicate RootForks(g: Graph, root: TypeId)
    requires Closed(g) && root < |g|
  {
    exists p, i: nat, j: nat :: ForksAt(g, root, [], p, i, j)
  }

  /**
    For well-named types the output of all roots repeats itself exactly when a root forks, a root comes
    twice, or walks from two different roots meet.
  */
  lemma DuplicatesIff(g: Graph, roots: seq<TypeId>)
    requires Closed(g) && Roots(g, roots) && WellNamed(g)
    ensures !Distinct(GatheredAll(g, roots))
       <==> || (exists k | 0 <= k < |roots| :: RootForks(g, roots[k]))
            || !Distinct(roots)
            || (exists a, b | 0 <= a < b < |roots| :: roots[a] != roots[b] && RootsMeet(g, roots[a], roots[b]))
  {
    DistinctAll(g, roots);
    forall k | 0 <= k < |roots| ensures !Distinct(Gathered(g, roots[k], [], [])) <==> RootForks(g, roots[k]) {
      DuplicatesIffFork(g, roots[k]);
    }
    forall a, b | 0 <= a < b < |roots|
      ensures Common(g, roots[a], roots[b]) <==> roots[a] == roots[b] || RootsMeet(g, roots[a], roots[b])
    {
      if roots[a] == roots[b] { SameRootCommon(g, roots[a]); } else { CommonIffMeet(g, roots[a], roots[b]); }
    }
  }
}
