/**
  The congestion-window and slow-start-threshold traces: per node two output streams, each of which gets an
  entry whenever either value changes, once both have started.
*/
module TcpTraces {
  import opened Sequences
  import opened Numerals

  // ---------- The node number in a trace context ----------

  datatype Parsed = NotANumber | Number(value: nat)

  /** The first slash at or after `from`, or -1. */
  function FindSlash(s: string, from: nat): int
    decreases |s| - from
  {
    if from >= |s| then -1 else if s[from] == '/' then from else FindSlash(s, from + 1)
  }

  /** `stoul` on text without sign or leading blanks: the leading digits; without one it throws. */
  function Stoul(s: string): Parsed {
    LeadingDigitsAreDigits(s);
    if LeadingDigits(s) == [] then NotANumber else Number(Decimal(LeadingDigits(s)))
  }

  /** `substr(from, count)`; a negative count has wrapped around and means up to the end. */
  function Substr(s: string, from: nat, count: int): string
    requires from <= |s|
  {
    if count < 0 || from + count > |s| then s[from..] else s[from..from + count]
  }

  lemma {:induction false} FindSlashRange(s: string, from: nat)
    ensures FindSlash(s, from) == -1 || from <= FindSlash(s, from) < |s|
    decreases |s| - from
  {
    if from < |s| && s[from] != '/' { FindSlashRange(s, from + 1); }
  }

  /** The text between the second slash and the third, read as a number. */
  function GetNodeIdFromContext(context: string): Parsed {
    var n1 := FindSlash(context, 1);
    FindSlashRange(context, 1);
    var n2 := FindSlash(context, n1 + 1);
    Stoul(Substr(context, n1 + 1, n2 - n1 - 1))
  }

  lemma {:induction false} FindFirstSlash(pre: string, post: string, from: nat)
    requires from <= |pre| && forall i | from <= i < |pre| :: pre[i] != '/'
    ensures FindSlash(pre + "/" + post, from) == |pre|
    decreases |pre| - from
  {
    if from < |pre| { FindFirstSlash(pre, post, from + 1); }
  }

  lemma NoSlashInField(head: string, digits: string, i: nat)
    requires AllDigits(digits) && |head| + 1 <= i < |head + "/" + digits|
    ensures (head + "/" + digits)[i] != '/'
  {
    assert IsDigit(digits[i - |head| - 1]);
  }

  lemma TwoSlashes(head: string, digits: string, rest: string)
    requires head != [] && (forall i | 1 <= i < |head| :: head[i] != '/') && AllDigits(digits)
    ensures FindSlash(head + "/" + (digits + "/" + rest), 1) == |head|
    ensures FindSlash(head + "/" + (digits + "/" + rest), |head| + 1) == |head| + 1 + |digits|
  {
    FindFirstSlash(head, digits + "/" + rest, 1);
    var upToField := head + "/" + digits;
    assert head + "/" + (digits + "/" + rest) == upToField + "/" + rest;
    forall i | |head| + 1 <= i < |upToField| ensures upToField[i] != '/' { NoSlashInField(head, digits, i); }
    FindFirstSlash(upToField, rest, |head| + 1);
  }

  /** The text between the second slash and the third. */
  lemma SecondField(head: string, digits: string, rest: string)
    requires head != [] && (forall i | 1 <= i < |head| :: head[i] != '/')
    requires digits != [] && AllDigits(digits)
    ensures GetNodeIdFromContext(head + "/" + (digits + "/" + rest)) == Number(Decimal(digits))
  {
    TwoSlashes(head, digits, rest);
    Middle(head + "/", digits, "/" + rest);
    Regroup(digits, "/", rest);
    Regroup(head + "/", digits, "/" + rest);
    LeadingDigitsAll(digits);
  }

  lemma Middle(a: string, b: string, c: string)
    ensures Substr(a + b + c, |a|, |b|) == b
  {
  }

  /** Reading the context that a trace was connected under gives back the node, for every node. */
  lemma NodeIdRoundTrip(id: nat, rest: string)
    ensures GetNodeIdFromContext("/NodeList/" + ToString(id) + "/" + rest) == Number(id)
  {
    var number := ToString(id);
    ToStringDecimal(id);
    SecondField("/NodeList", number, rest);
    assert "/NodeList" + "/" == "/NodeList/";
    Regroup("/NodeList/", number, "/");
    Regroup("/NodeList/", number + "/", rest);
  }

  // ---------- The two streams of a node ----------

  datatype Sample = Sample(time: real, value: nat)

  /** One node's part of the maps. */
  datatype Node = Node(firstCwnd: bool, firstSshThr: bool, cWnd: seq<Sample>, ssThresh: seq<Sample>,
                       cWndValue: nat, ssThreshValue: nat)

  datatype Kind = Cwnd | SsThresh

  datatype Change = Change(kind: Kind, node: nat, old_: nat, new_: nat, now: real)

  const Unstarted := Node(true, true, [], [], 0, 0)

  /** The effect of a change on its node. */
  function React(n: Node, c: Change): Node {
    match c.kind
    case Cwnd =>
      var start := if n.firstCwnd then [Sample(0.0, c.old_)] else [];
      n.(firstCwnd := false, cWnd := n.cWnd + start + [Sample(c.now, c.new_)], cWndValue := c.new_,
         ssThresh := if n.firstSshThr then n.ssThresh else n.ssThresh + [Sample(c.now, n.ssThreshValue)])
    case SsThresh =>
      var start := if n.firstSshThr then [Sample(0.0, c.old_)] else [];
      n.(firstSshThr := false, ssThresh := n.ssThresh + start + [Sample(c.now, c.new_)], ssThreshValue := c.new_,
         cWnd := if n.firstCwnd then n.cWnd else n.cWnd + [Sample(c.now, n.cWndValue)])
  }

  function Fold(n: Node, changes: seq<Change>): Node {
    if changes == [] then n else React(Fold(n, changes[..|changes| - 1]), changes[|changes| - 1])
  }

  function OfNode(changes: seq<Change>, id: nat): seq<Change> {
    if changes == [] then []
    else OfNode(changes[..|changes| - 1], id) + if changes[|changes| - 1].node == id then [changes[|changes| - 1]] else []
  }

  lemma FoldNext(n: Node, changes: seq<Change>, id: nat, i: nat)
    requires i < |changes|
    ensures Fold(n, OfNode(changes[..i + 1], id))
         == if changes[i].node == id then React(Fold(n, OfNode(changes[..i], id)), changes[i])
            else Fold(n, OfNode(changes[..i], id))
  {
    assert changes[..i + 1][..i] == changes[..i];
    var seen, c := OfNode(changes[..i], id), changes[i];
    assert seen + [] == seen && (seen + [c])[..|seen|] == seen;
  }

  /** The tracers with their maps, for the nodes that are traced. */
  class Tracers {
    var firstCwnd: map<nat, bool>
    var firstSshThr: map<nat, bool>
    var cWndStream: map<nat, seq<Sample>>
    var ssThreshStream: map<nat, seq<Sample>>
    var cWndValue: map<nat, nat>
    var ssThreshValue: map<nat, nat>

    /** Both streams of the node have been opened. */
    ghost predicate Traced(id: nat)
      reads this
    {
      id in firstCwnd && id in firstSshThr && id in cWndStream && id in ssThreshStream
    }

    /** A value that was never stored reads as 0. */
    function ValueOf(m: map<nat, nat>, id: nat): nat { if id in m then m[id] else 0 }

    ghost function View(id: nat): Node
      requires Traced(id)
      reads this
    {
      Node(firstCwnd[id], firstSshThr[id], cWndStream[id], ssThreshStream[id],
           ValueOf(cWndValue, id), ValueOf(ssThreshValue, id))
    }

    constructor (nodes: set<nat>)
      ensures forall id | id in nodes :: Traced(id) && View(id) == Unstarted
    {
      firstCwnd := map id | id in nodes :: true;
      firstSshThr := map id | id in nodes :: true;
      cWndStream := map id | id in nodes :: [];
      ssThreshStream := map id | id in nodes :: [];
      cWndValue, ssThreshValue := map[], map[];
    }

    method CwndTracer(nodeId: nat, oldval: nat, newval: nat, now: real)
      requires Traced(nodeId)
      modifies this
      ensures Traced(nodeId) && View(nodeId) == React(old(View(nodeId)), Change(Cwnd, nodeId, oldval, newval, now))
      ensures forall id | id != nodeId && old(Traced(id)) :: Traced(id) && View(id) == old(View(id))
    {
      if firstCwnd[nodeId] {
        cWndStream := cWndStream[nodeId := cWndStream[nodeId] + [Sample(0.0, oldval)]];
        firstCwnd := firstCwnd[nodeId := false];
      }
      cWndStream := cWndStream[nodeId := cWndStream[nodeId] + [Sample(now, newval)]];
      cWndValue := cWndValue[nodeId := newval];
      if !firstSshThr[nodeId] {
        ssThreshStream := ssThreshStream[nodeId := ssThreshStream[nodeId] + [Sample(now, ValueOf(ssThreshValue, nodeId))]];
      }
    }

    method SsThreshTracer(nodeId: nat, oldval: nat, newval: nat, now: real)
      requires Traced(nodeId)
      modifies this
      ensures Traced(nodeId) && View(nodeId) == React(old(View(nodeId)), Change(SsThresh, nodeId, oldval, newval, now))
      ensures forall id | id != nodeId && old(Traced(id)) :: Traced(id) && View(id) == old(View(id))
    {
      if firstSshThr[nodeId] {
        ssThreshStream := ssThreshStream[nodeId := ssThreshStream[nodeId] + [Sample(0.0, oldval)]];
        firstSshThr := firstSshThr[nodeId := false];
      }
      ssThreshStream := ssThreshStream[nodeId := ssThreshStream[nodeId] + [Sample(now, newval)]];
      ssThreshValue := ssThreshValue[nodeId := newval];
      if !firstCwnd[nodeId] {
        cWndStream := cWndStream[nodeId := cWndStream[nodeId] + [Sample(now, ValueOf(cWndValue, nodeId))]];
      }
    }

    /** The tracer that is connected to the change. */
    method Trace(c: Change)
      requires Traced(c.node)
      modifies this
      ensures Traced(c.node) && View(c.node) == React(old(View(c.node)), c)
      ensures forall id | id != c.node && old(Traced(id)) :: Traced(id) && View(id) == old(View(id))
    {
      match c.kind {
        case Cwnd => CwndTracer(c.node, c.old_, c.new_, c.now);
        case SsThresh => SsThreshTracer(c.node, c.old_, c.new_, c.now);
      }
    }

    /** Any interleaving of changes on traced nodes. */
    method Replay(changes: seq<Change>)
      requires forall c | c in changes :: Traced(c.node)
      modifies this
      ensures forall id | old(Traced(id)) :: Traced(id) && View(id) == Fold(old(View(id)), OfNode(changes, id))
    {
      for i := 0 to |changes|
        invariant forall id | old(Traced(id)) :: Traced(id) && View(id) == Fold(old(View(id)), OfNode(changes[..i], id))
      {
        var c := changes[i];
        assert c in changes;
        label before:
        Trace(c);
        forall id | old(Traced(id)) ensures Traced(id) && View(id) == Fold(old(View(id)), OfNode(changes[..i + 1], id)) {
          FoldNext(old(View(id)), changes, id, i);
          assert old@before(View(id)) == Fold(old(View(id)), OfNode(changes[..i], id));
        }
      }
      assert changes[..|changes|] == changes;
    }
  }

  // ---------- What the streams hold ----------

  ghost predicate StreamOk(first: bool, stream: seq<Sample>, value: nat) {
    if first then stream == []
    else |stream| >= 2 && stream[0].time == 0.0 && stream[|stream| - 1].value == value
  }

  /** A stream that has started begins at time 0 and ends with the current value. */
  ghost predicate NodeOk(n: Node) {
    StreamOk(n.firstCwnd, n.cWnd, n.cWndValue) && StreamOk(n.firstSshThr, n.ssThresh, n.ssThreshValue)
  }

  lemma {:induction false} FoldOk(n: Node, changes: seq<Change>)
    requires NodeOk(n)
    ensures NodeOk(Fold(n, changes))
  {
    if changes != [] { FoldOk(n, changes[..|changes| - 1]); }
  }

  ghost predicate BothStarted(n: Node) { !n.firstCwnd && !n.firstSshThr }

  lemma {:induction false} FoldStarted(n: Node, changes: seq<Change>)
    requires BothStarted(n)
    ensures BothStarted(Fold(n, changes))
  {
    if changes != [] { FoldStarted(n, changes[..|changes| - 1]); }
  }

  /** The value of one kind after the first `k` changes, having been `initial`. */
  function Latest(kind: Kind, changes: seq<Change>, initial: nat): nat {
    if changes == [] then initial
    else if changes[|changes| - 1].kind == kind then changes[|changes| - 1].new_
    else Latest(kind, changes[..|changes| - 1], initial)
  }

  /** The values of one kind sampled at every change, of whatever kind. */
  function Sampled(kind: Kind, changes: seq<Change>, initial: nat): seq<Sample> {
    if changes == [] then []
    else Sampled(kind, changes[..|changes| - 1], initial)
         + [Sample(changes[|changes| - 1].now, Latest(kind, changes, initial))]
  }

  /**
    Once both streams have started, they are samplings of the two values at the same instants: each change
    adds one entry to each stream, at its own time and with the value then current.
  */
  lemma {:induction false} StreamsAreAligned(n: Node, changes: seq<Change>)
    requires BothStarted(n)
    ensures var m := Fold(n, changes);
            && m.cWnd == n.cWnd + Sampled(Cwnd, changes, n.cWndValue)
            && m.ssThresh == n.ssThresh + Sampled(SsThresh, changes, n.ssThreshValue)
            && m.cWndValue == Latest(Cwnd, changes, n.cWndValue)
            && m.ssThreshValue == Latest(SsThresh, changes, n.ssThreshValue)
  {
    if changes != [] {
      var front := changes[..|changes| - 1];
      StreamsAreAligned(n, front);
      FoldStarted(n, front);
    }
  }

  lemma {:induction false} SampledTimes(kind: Kind, changes: seq<Change>, initial: nat)
    ensures |Sampled(kind, changes, initial)| == |changes|
    ensures forall k | 0 <= k < |changes| :: Sampled(kind, changes, initial)[k].time == changes[k].now
  {
    if changes != [] { SampledTimes(kind, changes[..|changes| - 1], initial); }
  }

  // ---------- The streams from the start ----------

  function StreamOf(n: Node, kind: Kind): seq<Sample> { match kind case Cwnd => n.cWnd case SsThresh => n.ssThresh }

  function ValueIn(n: Node, kind: Kind): nat { match kind case Cwnd => n.cWndValue case SsThresh => n.ssThreshValue }

  predicate Waiting(n: Node, kind: Kind) { match kind case Cwnd => n.firstCwnd case SsThresh => n.firstSshThr }

  ghost predicate NoneOf(kind: Kind, changes: seq<Change>) { forall i | 0 <= i < |changes| :: changes[i].kind != kind }

  ghost predicate FirstOf(kind: Kind, changes: seq<Change>, k: nat) {
    k < |changes| && changes[k].kind == kind && NoneOf(kind, changes[..k])
  }

  lemma {:induction false} NotStartedYet(kind: Kind, changes: seq<Change>)
    requires NoneOf(kind, changes)
    ensures var n := Fold(Unstarted, changes);
            Waiting(n, kind) && StreamOf(n, kind) == [] && ValueIn(n, kind) == Latest(kind, changes, 0)
  {
    if changes != [] { NotStartedYet(kind, changes[..|changes| - 1]); }
  }

  /** The latest value is that since the first change of the kind. */
  lemma {:induction false} LatestSince(kind: Kind, changes: seq<Change>, k: nat)
    requires k < |changes| && changes[k].kind == kind
    ensures Latest(kind, changes, 0) == Latest(kind, changes[k..], 0)
  {
    var n := |changes| - 1;
    if changes[n].kind != kind {
      LatestSince(kind, changes[..n], k);
      assert changes[k..][..n - k] == changes[..n][k..];
    }
  }

  lemma SampledNext(kind: Kind, changes: seq<Change>, c: Change)
    ensures Sampled(kind, changes + [c], 0)
         == Sampled(kind, changes, 0) + [Sample(c.now, Latest(kind, changes + [c], 0))]
  {
    assert (changes + [c])[..|changes|] == changes;
  }

  /** What a change does to a stream that has started. */
  lemma ReactStarted(n: Node, kind: Kind, c: Change)
    requires !Waiting(n, kind)
    ensures var m := React(n, c);
            && !Waiting(m, kind) && ValueIn(m, kind) == (if c.kind == kind then c.new_ else ValueIn(n, kind))
            && StreamOf(m, kind) == StreamOf(n, kind) + [Sample(c.now, ValueIn(m, kind))]
  {
  }

  lemma ReactFirst(n: Node, kind: Kind, c: Change)
    requires Waiting(n, kind) && StreamOf(n, kind) == [] && c.kind == kind
    ensures var m := React(n, c);
            && !Waiting(m, kind) && ValueIn(m, kind) == c.new_
            && StreamOf(m, kind) == [Sample(0.0, c.old_)] + [Sample(c.now, c.new_)]
  {
    WithEmpty([Sample(0.0, c.old_)]);
  }

  /** The stream of the kind whose first change is the k-th. */
  ghost predicate StreamIs(n: Node, kind: Kind, changes: seq<Change>, k: nat)
    requires k < |changes|
  {
    && !Waiting(n, kind) && ValueIn(n, kind) == Latest(kind, changes, 0)
    && StreamOf(n, kind) == [Sample(0.0, changes[k].old_)] + Sampled(kind, changes[k..], 0)
  }

  lemma StreamNext(n: Node, kind: Kind, front: seq<Change>, k: nat, c: Change)
    requires k < |front| && front[k].kind == kind && StreamIs(n, kind, front, k)
    ensures StreamIs(React(n, c), kind, front + [c], k)
  {
    var changes := front + [c];
    ReactStarted(n, kind, c);
    assert changes[..|front|] == front && changes[k..] == front[k..] + [c];
    LatestSince(kind, changes, k);
    SampledNext(kind, front[k..], c);
    Regroup([Sample(0.0, front[k].old_)], Sampled(kind, front[k..], 0), [Sample(c.now, Latest(kind, changes[k..], 0))]);
  }

  /**
    A stream is empty until the first change of its kind (`NotStartedYet`).  It then begins with the value
    before that change, at time 0, and has one entry for this and every later change of either kind: at the
    time of the change, with the value of its own kind then current.
  */
  lemma {:induction false} StreamExact(kind: Kind, changes: seq<Change>, k: nat)
    requires FirstOf(kind, changes, k)
    ensures StreamIs(Fold(Unstarted, changes), kind, changes, k)
  {
    var n := |changes| - 1;
    var front, last := changes[..n], changes[n];
    assert changes == front + [last];
    if k == n {
      assert front == changes[..k];
      NotStartedYet(kind, front);
      ReactFirst(Fold(Unstarted, front), kind, last);
      StreamFirst(kind, front, last);
    } else {
      assert front[..k] == changes[..k];
      StreamExact(kind, front, k);
      StreamNext(Fold(Unstarted, front), kind, front, k, last);
    }
  }

  lemma StreamFirst(kind: Kind, front: seq<Change>, c: Change)
    requires c.kind == kind
    ensures Latest(kind, front + [c], 0) == c.new_
    ensures Sampled(kind, (front + [c])[|front|..], 0) == [Sample(c.now, c.new_)]
  {
    assert (front + [c])[|front|..] == [c] && [c][..0] == [];
  }
}
