/**
  Reading a trace file into timelines: each range or event line goes to the series of its names, which is
  found or created.  Lines arrive split into their fields.
*/
module GridReader {

  datatype Kind = Ranges | EventStr | EventInt

  /** The data of one line: the times of a range, or the time of an event, with the value as text. */
  datatype Item = RangeItem(start: nat, end: nat, value: string) | EventItem(at: nat, value: string)

  /** The names that select a series. */
  datatype Key = Key(kind: Kind, timeline: string, series: string)

  datatype Line = Data(key: Key, item: Item) | Color(name: string, rgb: string) | Other

  class Series {
    const name: string
    ghost const key: Key
    var items: seq<Item>

    constructor (name: string, ghost key: Key)
      ensures this.name == name && this.key == key && items == []
    {
      this.name, this.key, items := name, key, [];
    }

    method Append(item: Item)
      modifies this`items
      ensures items == old(items) + [item]
    {
      items := items + [item];
    }
  }

  // ---------- Timelines as values ----------

  /** A timeline with the series objects in its three lists. */
  datatype Row = Row(name: string, ranges: seq<Series>, eventStr: seq<Series>, eventInt: seq<Series>) {
    function Of(k: Kind): seq<Series> {
      match k case Ranges => ranges case EventStr => eventStr case EventInt => eventInt
    }

    function With(k: Kind, s: Series): Row {
      match k
      case Ranges => this.(ranges := ranges + [s])
      case EventStr => this.(eventStr := eventStr + [s])
      case EventInt => this.(eventInt := eventInt + [s])
    }
  }

  function EmptyRow(name: string): Row { Row(name, [], [], []) }

  /** The first series of that name, or the length of the list. */
  function FindSeries(l: seq<Series>, name: string): (i: nat)
    ensures i <= |l| && (i < |l| ==> l[i].name == name)
  {
    if l == [] || l[0].name == name then 0 else 1 + FindSeries(l[1..], name)
  }

  function FindRow(rows: seq<Row>, name: string): (i: nat)
    ensures i <= |rows| && (i < |rows| ==> rows[i].name == name)
  {
    if rows == [] || rows[0].name == name then 0 else 1 + FindRow(rows[1..], name)
  }

  class Timeline {
    const name: string
    var ranges: seq<Series>
    var eventStr: seq<Series>
    var eventInt: seq<Series>

    constructor (name: string)
      ensures this.name == name && AsRow() == EmptyRow(name)
    {
      this.name, ranges, eventStr, eventInt := name, [], [], [];
    }

    function AsRow(): Row
      reads this
    {
      Row(name, ranges, eventStr, eventInt)
    }

    /** `get_range`, `get_event_str` and `get_event_int`: the series of that name, made if there is none. */
    method GetSeries(k: Kind, name: string) returns (s: Series)
      modifies this
      ensures var i := FindSeries(old(AsRow()).Of(k), name);
              if i < |old(AsRow()).Of(k)| then AsRow() == old(AsRow()) && s == old(AsRow()).Of(k)[i]
              else fresh(s) && s.items == [] && s.name == name && s.key == Key(k, this.name, name)
                   && AsRow() == old(AsRow()).With(k, s)
    {
      var l := match k case Ranges => ranges case EventStr => eventStr case EventInt => eventInt;
      for i := 0 to |l|
        invariant FindSeries(l, name) == i + FindSeries(l[i..], name)
      {
        assert l[i..][1..] == l[i + 1..];
        if l[i].name == name {
          return l[i];
        }
      }
      s := new Series(name, Key(k, this.name, name));
      match k {
        case Ranges => ranges := ranges + [s];
        case EventStr => eventStr := eventStr + [s];
        case EventInt => eventInt := eventInt + [s];
      }
    }
  }

  lemma {:induction false} FindSeriesAppend(l: seq<Series>, x: Series, name: string)
    ensures FindSeries(l + [x], name)
         == if FindSeries(l, name) < |l| then FindSeries(l, name) else if x.name == name then |l| else |l| + 1
  {
    if l == [] {
      assert (l + [x])[1..] == [];
    } else {
      assert (l + [x])[1..] == l[1..] + [x];
      FindSeriesAppend(l[1..], x, name);
    }
  }

  lemma {:induction false} FindRowAppend(rows: seq<Row>, x: Row, name: string)
    ensures FindRow(rows + [x], name)
         == if FindRow(rows, name) < |rows| then FindRow(rows, name) else if x.name == name then |rows| else |rows| + 1
  {
    if rows == [] {
      assert (rows + [x])[1..] == [];
    } else {
      assert (rows + [x])[1..] == rows[1..] + [x];
      FindRowAppend(rows[1..], x, name);
    }
  }

  lemma {:induction false} FindRowUpdate(rows: seq<Row>, i: nat, x: Row, name: string)
    requires i < |rows| && x.name == rows[i].name
    ensures FindRow(rows[i := x], name) == FindRow(rows, name)
  {
    if i > 0 {
      assert rows[i := x][1..] == rows[1..][i - 1 := x];
      FindRowUpdate(rows[1..], i - 1, x, name);
    } else {
      assert rows[i := x][1..] == rows[1..];
    }
  }

  /** Some series is found under the three names of the key. */
  ghost predicate Findable(rows: seq<Row>, key: Key) {
    var i := FindRow(rows, key.timeline);
    i < |rows| && FindSeries(rows[i].Of(key.kind), key.series) < |rows[i].Of(key.kind)|
  }

  /** The series object found there. */
  ghost function At(rows: seq<Row>, key: Key): Series
    requires Findable(rows, key)
  {
    var l := rows[FindRow(rows, key.timeline)].Of(key.kind);
    l[FindSeries(l, key.series)]
  }

  ghost predicate UniqueNames(l: seq<Series>) {
    forall i, j | 0 <= i < j < |l| :: l[i].name != l[j].name
  }

  /** Timeline names are unique, and so are series names in each list. */
  ghost predicate Unique(rows: seq<Row>) {
    && (forall i, j | 0 <= i < j < |rows| :: rows[i].name != rows[j].name)
    && (forall i: nat, k: Kind | i < |rows| :: UniqueNames(rows[i].Of(k)))
  }

  /** Names are unique, and what is found under a key was made for that key. */
  ghost predicate WellKept(rows: seq<Row>) {
    && Unique(rows)
    && (forall key | Findable(rows, key) :: At(rows, key).key == key)
  }

  lemma AddRowAt(rows: seq<Row>, name: string, key: Key)
    requires FindRow(rows, name) == |rows|
    ensures var rows' := rows + [EmptyRow(name)];
            && (Findable(rows', key) <==> Findable(rows, key))
            && (Findable(rows, key) ==> At(rows', key) == At(rows, key))
  {
    FindRowAppend(rows, EmptyRow(name), key.timeline);
  }

  lemma AddRowUnique(rows: seq<Row>, name: string)
    requires Unique(rows) && FindRow(rows, name) == |rows|
    ensures Unique(rows + [EmptyRow(name)])
  {
    forall i: nat | i < |rows| ensures rows[i].name != name { NotBefore(rows, name, i); }
  }

  lemma AddRow(rows: seq<Row>, name: string)
    requires WellKept(rows) && FindRow(rows, name) == |rows|
    ensures WellKept(rows + [EmptyRow(name)])
    ensures forall key :: Findable(rows + [EmptyRow(name)], key) <==> Findable(rows, key)
    ensures forall key | Findable(rows, key) :: At(rows + [EmptyRow(name)], key) == At(rows, key)
  {
    var rows' := rows + [EmptyRow(name)];
    forall key
      ensures Findable(rows', key) <==> Findable(rows, key)
      ensures Findable(rows, key) ==> At(rows', key) == At(rows, key)
    {
      AddRowAt(rows, name, key);
    }
    AddRowUnique(rows, name);
  }

  lemma {:induction false} NotBefore(rows: seq<Row>, name: string, i: nat)
    requires i < FindRow(rows, name)
    ensures i < |rows| && rows[i].name != name
  {
    if i > 0 { NotBefore(rows[1..], name, i - 1); }
  }

  lemma {:induction false} NotBeforeSeries(l: seq<Series>, name: string, i: nat)
    requires i < FindSeries(l, name)
    ensures i < |l| && l[i].name != name
  {
    if i > 0 { NotBeforeSeries(l[1..], name, i - 1); }
  }

  lemma RowFound(rows: seq<Row>, i: nat)
    requires Unique(rows) && i < |rows|
    ensures FindRow(rows, rows[i].name) == i
  {
    FindRowAtMost(rows, i);
  }

  lemma {:induction false} FindRowAtMost(rows: seq<Row>, i: nat)
    requires i < |rows|
    ensures FindRow(rows, rows[i].name) <= i
  {
    if i > 0 { FindRowAtMost(rows[1..], i - 1); }
  }

  lemma SeriesFound(l: seq<Series>, j: nat)
    requires UniqueNames(l) && j < |l|
    ensures FindSeries(l, l[j].name) == j
  {
    FindSeriesAtMost(l, j);
  }

  lemma {:induction false} FindSeriesAtMost(l: seq<Series>, j: nat)
    requires j < |l|
    ensures FindSeries(l, l[j].name) <= j
  {
    if j > 0 { FindSeriesAtMost(l[1..], j - 1); }
  }

  /** So no series hides behind another: each is the one found under its names. */
  lemma EverySeriesFound(rows: seq<Row>, i: nat, k: Kind, j: nat)
    requires WellKept(rows) && i < |rows| && j < |rows[i].Of(k)|
    ensures var key := Key(k, rows[i].name, rows[i].Of(k)[j].name);
            Findable(rows, key) && At(rows, key) == rows[i].Of(k)[j]
  {
    RowFound(rows, i);
    assert UniqueNames(rows[i].Of(k));
    SeriesFound(rows[i].Of(k), j);
  }

  lemma AddUniqueSeries(l: seq<Series>, s: Series)
    requires UniqueNames(l) && FindSeries(l, s.name) == |l|
    ensures UniqueNames(l + [s])
  {
    forall i: nat | i < |l| ensures l[i].name != s.name { NotBeforeSeries(l, s.name, i); }
  }

  function WithSeries(rows: seq<Row>, key: Key, s: Series): seq<Row>
    requires FindRow(rows, key.timeline) < |rows|
  {
    var i := FindRow(rows, key.timeline);
    rows[i := rows[i].With(key.kind, s)]
  }

  lemma WithOf(row: Row, k: Kind, s: Series, j: Kind)
    ensures row.With(k, s).Of(j) == if j == k then row.Of(j) + [s] else row.Of(j)
    ensures row.With(k, s).name == row.name
  {
  }

  /** Finding in one row: what `Findable` and `At` come down to. */
  lemma AddedInRow(row: Row, key: Key, s: Series, other: Key)
    requires FindSeries(row.Of(key.kind), key.series) == |row.Of(key.kind)| && s.name == key.series
    requires other.timeline == key.timeline
    ensures var l, l' := row.Of(other.kind), row.With(key.kind, s).Of(other.kind);
            var f, f' := FindSeries(l, other.series), FindSeries(l', other.series);
            if other == key then f' == |l| && f' < |l'| && l'[f'] == s
            else (f' < |l'| <==> f < |l|) && (f < |l| ==> l'[f'] == l[f])
  {
    WithOf(row, key.kind, s, other.kind);
    if other.kind == key.kind { FindSeriesAppend(row.Of(key.kind), s, other.series); }
  }

  lemma AddSeriesAt(rows: seq<Row>, key: Key, s: Series, other: Key)
    requires FindRow(rows, key.timeline) < |rows| && !Findable(rows, key) && s.name == key.series
    ensures var rows' := WithSeries(rows, key, s);
            && (Findable(rows', other) <==> Findable(rows, other) || other == key)
            && (Findable(rows', other) ==> At(rows', other) == if other == key then s else At(rows, other))
  {
    var i := FindRow(rows, key.timeline);
    var row := rows[i].With(key.kind, s);
    assert row.name == rows[i].name;
    FindRowUpdate(rows, i, row, other.timeline);
    if other.timeline == key.timeline {
      AddedInRow(rows[i], key, s, other);
    } else {
      assert FindRow(rows, other.timeline) != i;
    }
  }

  lemma WithUnique(row: Row, kind: Kind, s: Series, k: Kind)
    requires UniqueNames(row.Of(k)) && (k == kind ==> FindSeries(row.Of(k), s.name) == |row.Of(k)|)
    ensures UniqueNames(row.With(kind, s).Of(k))
  {
    WithOf(row, kind, s, k);
    if k == kind { AddUniqueSeries(row.Of(k), s); }
  }

  lemma AddSeriesUnique(rows: seq<Row>, key: Key, s: Series)
    requires Unique(rows) && FindRow(rows, key.timeline) < |rows| && !Findable(rows, key) && s.name == key.series
    ensures Unique(WithSeries(rows, key, s))
  {
    var r := FindRow(rows, key.timeline);
    var row := rows[r].With(key.kind, s);
    WithOf(rows[r], key.kind, s, key.kind);
    forall k: Kind ensures UniqueNames(row.Of(k)) {
      assert UniqueNames(rows[r].Of(k));
      WithUnique(rows[r], key.kind, s, k);
    }
    UpdateUnique(rows, r, row);
  }

  lemma UpdateUnique(rows: seq<Row>, r: nat, row: Row)
    requires Unique(rows) && r < |rows| && row.name == rows[r].name && forall k: Kind :: UniqueNames(row.Of(k))
    ensures Unique(rows[r := row])
  {
  }

  lemma AddSeries(rows: seq<Row>, key: Key, s: Series)
    requires WellKept(rows) && FindRow(rows, key.timeline) < |rows| && !Findable(rows, key)
    requires s.key == key && s.name == key.series
    ensures var rows' := WithSeries(rows, key, s);
            && WellKept(rows')
            && (forall other :: Findable(rows', other) <==> Findable(rows, other) || other == key)
            && (forall other | Findable(rows', other) :: At(rows', other) == if other == key then s else At(rows, other))
  {
    var rows' := WithSeries(rows, key, s);
    forall other
      ensures Findable(rows', other) <==> Findable(rows, other) || other == key
      ensures Findable(rows', other) ==> At(rows', other) == if other == key then s else At(rows, other)
    {
      AddSeriesAt(rows, key, s, other);
    }
    AddSeriesUnique(rows, key, s);
  }

  /** Finding or making a timeline changes nothing that can be found. */
  lemma GetKeeps(rows: seq<Row>, rows': seq<Row>, name: string)
    requires WellKept(rows)
    requires rows' == if FindRow(rows, name) < |rows| then rows else rows + [EmptyRow(name)]
    ensures WellKept(rows') && FindRow(rows', name) == FindRow(rows, name) && FindRow(rows', name) < |rows'|
    ensures forall key :: Findable(rows', key) <==> Findable(rows, key)
    ensures forall key | Findable(rows, key) :: At(rows', key) == At(rows, key)
  {
    if FindRow(rows, name) == |rows| {
      AddRow(rows, name);
      FindRowAppend(rows, EmptyRow(name), name);
    }
  }

  // ---------- Timelines in the heap ----------

  class Timelines {
    var timelines: seq<Timeline>

    ghost function Rows(): seq<Row>
      reads this, timelines
    {
      seq(|timelines|, i requires 0 <= i < |timelines| reads this, timelines => timelines[i].AsRow())
    }

    ghost predicate Valid()
      reads this, timelines
    {
      WellKept(Rows())
    }

    constructor ()
      ensures Valid() && Rows() == [] && timelines == []
    {
      timelines := [];
    }

    /** The timeline of that name, made if there is none. */
    method Get(name: string) returns (t: Timeline)
      requires Valid()
      modifies this
      ensures Valid()
      ensures var i := FindRow(old(Rows()), name);
              && i < |timelines| && timelines[i] == t && t.name == name
              && (if i < |old(Rows())| then timelines == old(timelines) && Rows() == old(Rows())
                  else fresh(t) && timelines == old(timelines) + [t] && Rows() == old(Rows()) + [EmptyRow(name)])
    {
      ghost var rows := Rows();
      for i := 0 to |timelines|
        invariant timelines == old(timelines) && Rows() == rows
        invariant FindRow(rows, name) == i + FindRow(rows[i..], name)
      {
        assert rows[i..][1..] == rows[i + 1..] && rows[i..][0] == timelines[i].AsRow();
        if timelines[i].name == name {
          return timelines[i];
        }
      }
      AddRow(rows, name);
      t := new Timeline(name);
      timelines := timelines + [t];
      assert Rows() == rows + [EmptyRow(name)];
    }

    /** The items of the series under the key; none if there is no such series. */
    ghost function Items(key: Key): seq<Item>
      reads this, timelines, if Findable(Rows(), key) then {At(Rows(), key)} else {}
    {
      if Findable(Rows(), key) then At(Rows(), key).items else []
    }

    /** The two searches of a branch, one after the other. */
    method SearchBoth(key: Key) returns (s: Series)
      requires Valid()
      modifies this, timelines
      ensures Valid() && Findable(Rows(), key) && At(Rows(), key) == s
      ensures forall other :: Findable(Rows(), other) <==> old(Findable(Rows(), other)) || other == key
      ensures forall other | old(Findable(Rows(), other)) :: At(Rows(), other) == old(At(Rows(), other))
      ensures !old(Findable(Rows(), key)) ==> fresh(s) && s.items == []
      ensures forall i | 0 <= i < |timelines| :: timelines[i] in old(timelines) || fresh(timelines[i])
    {
      ghost var rows0 := Rows();
      var t := Get(key.timeline);
      ghost var rows1 := Rows();
      GetKeeps(rows0, rows1, key.timeline);
      s := SeriesIn(t, key);
      if !Findable(rows1, key) { AddSeries(rows1, key, s); }
    }

    /** The series of the key, in the timeline of its name; no items change. */
    method FindOrMake(key: Key) returns (s: Series)
      requires Valid()
      modifies this, timelines
      ensures Valid() && Findable(Rows(), key) && At(Rows(), key) == s
      ensures forall other :: Findable(Rows(), other) <==> old(Findable(Rows(), other)) || other == key
      ensures forall other | old(Findable(Rows(), other)) :: At(Rows(), other) == old(At(Rows(), other))
      ensures if old(Findable(Rows(), key)) then s == old(At(Rows(), key)) else fresh(s)
      ensures forall other :: Items(other) == old(Items(other))
      ensures forall i | 0 <= i < |timelines| :: timelines[i] in old(timelines) || fresh(timelines[i])
    {
      ghost var rows0 := Rows();
      s := SearchBoth(key);
      ghost var rows := Rows();
      forall other ensures Items(other) == old(Items(other)) {
        assert Items(other) == if Findable(rows, other) then At(rows, other).items else [];
        assert old(Items(other)) == if Findable(rows0, other) then old(At(rows0, other).items) else [];
        if Findable(rows0, other) {
          assert At(rows, other) == At(rows0, other);
        } else if other == key {
          assert At(rows, other) == s && s.items == [];
        } else {
          assert !Findable(rows, other);
        }
      }
    }

    /** The second of the two searches. */
    method SeriesIn(t: Timeline, key: Key) returns (s: Series)
      requires Valid() && FindRow(Rows(), key.timeline) < |timelines| && timelines[FindRow(Rows(), key.timeline)] == t
      modifies t
      ensures timelines == old(timelines)
      ensures old(Findable(Rows(), key)) ==> Rows() == old(Rows()) && s == old(At(Rows(), key))
      ensures !old(Findable(Rows(), key)) ==>
                fresh(s) && s.items == [] && s.key == key && s.name == key.series && Rows() == WithSeries(old(Rows()), key, s)
    {
      ghost var rows := Rows();
      ghost var i := FindRow(rows, key.timeline);
      assert forall j | 0 <= j < |timelines| && j != i :: rows[j].name != rows[i].name;
      s := t.GetSeries(key.kind, key.series);
      assert forall j | 0 <= j < |timelines| && j != i :: timelines[j].AsRow() == rows[j];
    }

    /** The branches of `read_data` for a data line: find or make the series, then append to it. */
    method Add(key: Key, item: Item)
      requires Valid()
      modifies this, timelines, if Findable(Rows(), key) then {At(Rows(), key)} else {}
      ensures Valid()
      ensures forall other :: Findable(Rows(), other) <==> old(Findable(Rows(), other)) || other == key
      ensures forall other :: Items(other) == old(Items(other)) + if other == key then [item] else []
      ensures forall i | 0 <= i < |timelines| :: timelines[i] in old(timelines) || fresh(timelines[i])
      ensures forall other | Findable(Rows(), other) ::
                if old(Findable(Rows(), other)) then At(Rows(), other) == old(At(Rows(), other)) else fresh(At(Rows(), other))
    {
      var s := FindOrMake(key);
      AppendTo(key, s, item);
    }

    /** The second half: no other series is touched. */
    method AppendTo(key: Key, s: Series, item: Item)
      requires Valid() && Findable(Rows(), key) && At(Rows(), key) == s
      modifies s
      ensures Valid() && Rows() == old(Rows())
      ensures forall other :: Items(other) == old(Items(other)) + if other == key then [item] else []
    {
      ghost var rows := Rows();
      s.Append(item);
      assert Rows() == rows;
      forall other ensures Items(other) == old(Items(other)) + if other == key then [item] else [] {
        if other != key && Findable(rows, other) { assert At(rows, other).key != At(rows, key).key; }
      }
    }
  }

  // ---------- Reading a file ----------

  /** The items of the data lines with these names, in order. */
  function Selected(lines: seq<Line>, key: Key): seq<Item> {
    if lines == [] then []
    else
      var last := lines[|lines| - 1];
      Selected(lines[..|lines| - 1], key) + if last.Data? && last.key == key then [last.item] else []
  }

  /** The items stand in the order of their lines, each once. */
  lemma {:induction false} SelectedInOrder(before: seq<Line>, after: seq<Line>, key: Key)
    ensures Selected(before + after, key) == Selected(before, key) + Selected(after, key)
    decreases |after|
  {
    if after == [] {
      assert before + after == before;
    } else {
      var front := after[..|after| - 1];
      assert (before + after)[..|before + after| - 1] == before + front;
      SelectedInOrder(before, front, key);
    }
  }

  lemma SelectedOne(line: Line, key: Key)
    ensures Selected([line], key) == if line.Data? && line.key == key then [line.item] else []
  {
    assert [line][..0] == [];
  }

  /** One turn of the loop over the lines. */
  method ReadLine(timelines: Timelines, line: Line, ghost before: seq<Line>)
    requires timelines.Valid()
    requires forall key :: timelines.Items(key) == Selected(before, key)
    requires forall key :: Findable(timelines.Rows(), key) <==> Selected(before, key) != []
    modifies timelines, timelines.timelines
    modifies if line.Data? && Findable(timelines.Rows(), line.key) then {At(timelines.Rows(), line.key)} else {}
    ensures timelines.Valid()
    ensures forall key :: timelines.Items(key) == Selected(before + [line], key)
    ensures forall key :: Findable(timelines.Rows(), key) <==> Selected(before + [line], key) != []
    ensures forall i | 0 <= i < |timelines.timelines| ::
              timelines.timelines[i] in old(timelines.timelines) || fresh(timelines.timelines[i])
    ensures forall key | Findable(timelines.Rows(), key) ::
              if old(Findable(timelines.Rows(), key)) then At(timelines.Rows(), key) == old(At(timelines.Rows(), key))
              else fresh(At(timelines.Rows(), key))
  {
    forall key
      ensures Selected(before + [line], key)
           == Selected(before, key) + if line.Data? && line.key == key then [line.item] else []
    {
      SelectedInOrder(before, [line], key);
      SelectedOne(line, key);
    }
    match line
    case Data(key, item) => timelines.Add(key, item);
    case Color(_, _) =>
    case Other =>
  }

  /**
    The loop of `read_data`, before the final sort.  A series exists exactly if some line names it, and holds
    the items of those lines in order; names are unique (`Valid`), so this goes for every series in every list.
  */
  method ReadData(lines: seq<Line>) returns (timelines: Timelines)
    ensures fresh(timelines) && timelines.Valid()
    ensures forall key :: timelines.Items(key) == Selected(lines, key)
    ensures forall key :: Findable(timelines.Rows(), key) <==> Selected(lines, key) != []
    ensures forall i: nat, k: Kind, j: nat | i < |timelines.Rows()| && j < |timelines.Rows()[i].Of(k)| ::
              timelines.Rows()[i].Of(k)[j].items
                == Selected(lines, Key(k, timelines.Rows()[i].name, timelines.Rows()[i].Of(k)[j].name))
  {
    timelines := new Timelines();
    for i := 0 to |lines|
      invariant fresh(timelines) && timelines.Valid()
      invariant fresh(timelines.timelines)
      invariant forall key | Findable(timelines.Rows(), key) :: fresh(At(timelines.Rows(), key))
      invariant forall key :: timelines.Items(key) == Selected(lines[..i], key)
      invariant forall key :: Findable(timelines.Rows(), key) <==> Selected(lines[..i], key) != []
    {
      assert lines[..i + 1] == lines[..i] + [lines[i]];
      ReadLine(timelines, lines[i], lines[..i]);
    }
    assert lines[..|lines|] == lines;
    ghost var rows := timelines.Rows();
    forall i: nat, k: Kind, j: nat | i < |rows| && j < |rows[i].Of(k)|
      ensures rows[i].Of(k)[j].items == Selected(lines, Key(k, rows[i].name, rows[i].Of(k)[j].name))
    {
      EverySeriesFound(rows, i, k, j);
      assert timelines.Items(Key(k, rows[i].name, rows[i].Of(k)[j].name)) == rows[i].Of(k)[j].items;
    }
  }
}
