/** The Python string and file operations that the style checks use, on strings of characters. */
module PyText {
  import opened Sequences

  /** `str.isspace`, character by character. */
  predicate IsSpace(c: char) {
    || c == '\t' || c == '\n' || c == '\U{000B}' || c == '\U{000C}' || c == '\r' || c == ' '
    || '\U{001C}' <= c <= '\U{001F}' || c == '\U{0085}' || c == '\U{00A0}' || c == '\U{1680}'
    || '\U{2000}' <= c <= '\U{200A}' || c == '\U{2028}' || c == '\U{2029}' || c == '\U{202F}'
    || c == '\U{205F}' || c == '\U{3000}'
  }

  predicate IsComment(c: char) { c == '*' || c == '#' || c == '/' }

  // ---------- Trimming ----------

  function TrimLeft(p: char -> bool, s: string): string {
    if s != [] && p(s[0]) then TrimLeft(p, s[1..]) else s
  }

  function TrimRight(p: char -> bool, s: string): string {
    if s != [] && p(s[|s| - 1]) then TrimRight(p, s[..|s| - 1]) else s
  }

  function Trim(p: char -> bool, s: string): string { TrimLeft(p, TrimRight(p, s)) }

  /** `line.rstrip()` and `line.strip()`. */
  function RStrip(s: string): string { TrimRight(IsSpace, s) }

  function Strip(s: string): string { Trim(IsSpace, s) }

  ghost predicate All(p: char -> bool, s: string) { forall c | c in s :: p(c) }

  /** Nothing to trim at either end. */
  ghost predicate Solid(p: char -> bool, s: string) {
    s != [] ==> !p(s[0]) && !p(s[|s| - 1])
  }

  lemma {:induction false} TrimLeftParts(p: char -> bool, s: string) returns (pre: string)
    ensures s == pre + TrimLeft(p, s) && All(p, pre)
    ensures TrimLeft(p, s) != [] ==> !p(TrimLeft(p, s)[0])
  {
    if s != [] && p(s[0]) {
      pre := TrimLeftParts(p, s[1..]);
      pre := [s[0]] + pre;
    } else {
      pre := [];
    }
  }

  lemma {:induction false} TrimRightParts(p: char -> bool, s: string) returns (post: string)
    ensures s == TrimRight(p, s) + post && All(p, post)
    ensures TrimRight(p, s) != [] ==> !p(TrimRight(p, s)[|TrimRight(p, s)| - 1])
  {
    if s != [] && p(s[|s| - 1]) {
      post := TrimRightParts(p, s[..|s| - 1]);
      post := post + [s[|s| - 1]];
    } else {
      post := [];
    }
  }

  /** What is trimmed off, and that nothing more could be. */
  lemma TrimParts(p: char -> bool, s: string) returns (pre: string, post: string)
    ensures s == pre + Trim(p, s) + post && All(p, pre) && All(p, post) && Solid(p, Trim(p, s))
  {
    post := TrimRightParts(p, s);
    pre := TrimLeftParts(p, TrimRight(p, s));
  }

  lemma {:induction false} TrimLeftSkips(p: char -> bool, pre: string, s: string)
    requires All(p, pre)
    ensures TrimLeft(p, pre + s) == TrimLeft(p, s)
  {
    if pre == [] {
      assert pre + s == s;
    } else {
      assert (pre + s)[1..] == pre[1..] + s && pre[0] in pre;
      TrimLeftSkips(p, pre[1..], s);
    }
  }

  lemma {:induction false} TrimRightSkips(p: char -> bool, s: string, post: string)
    requires All(p, post)
    ensures TrimRight(p, s + post) == TrimRight(p, s)
  {
    if post == [] {
      assert s + post == s;
    } else {
      var n := |post| - 1;
      assert (s + post)[..|s + post| - 1] == s + post[..n] && post[n] in post;
      TrimRightSkips(p, s, post[..n]);
    }
  }

  /** Trimming undoes padding. */
  lemma TrimPadded(p: char -> bool, pre: string, s: string, post: string)
    requires All(p, pre) && All(p, post) && s != [] && Solid(p, s)
    ensures Trim(p, pre + s + post) == s
  {
    TrimRightSkips(p, pre + s, post);
    assert TrimRight(p, pre + s) == pre + s;
    TrimLeftSkips(p, pre, s);
  }

  // ---------- Tabs ----------

  const TabSize := 4

  function Spaces(n: nat): string { seq(n, _ => ' ') }

  /** `expandtabs`, from column `col` on; a line break starts a new column count. */
  function ExpandTabs(s: string, col: nat): string {
    if s == [] then []
    else if s[0] == '\t' then Spaces(TabSize - col % TabSize) + ExpandTabs(s[1..], col + (TabSize - col % TabSize))
    else if s[0] == '\n' || s[0] == '\r' then [s[0]] + ExpandTabs(s[1..], 0)
    else [s[0]] + ExpandTabs(s[1..], col + 1)
  }

  function ColumnAfter(s: string, col: nat): nat {
    if s == [] then col
    else if s[0] == '\t' then ColumnAfter(s[1..], col + (TabSize - col % TabSize))
    else if s[0] == '\n' || s[0] == '\r' then ColumnAfter(s[1..], 0)
    else ColumnAfter(s[1..], col + 1)
  }

  lemma {:induction false} ExpandConcat(a: string, b: string, col: nat)
    ensures ExpandTabs(a + b, col) == ExpandTabs(a, col) + ExpandTabs(b, ColumnAfter(a, col))
  {
    if a == [] {
      assert a + b == b;
    } else {
      assert (a + b)[1..] == a[1..] + b;
      var col' := if a[0] == '\t' then col + (TabSize - col % TabSize)
                  else if a[0] == '\n' || a[0] == '\r' then 0 else col + 1;
      ExpandConcat(a[1..], b, col');
    }
  }

  /** No tab remains; other characters are kept, and only spaces are added. */
  lemma {:induction false} ExpandChars(s: string, col: nat)
    ensures '\t' !in ExpandTabs(s, col)
    ensures forall c | c in ExpandTabs(s, col) :: c in s || c == ' '
    ensures s == [] <==> ExpandTabs(s, col) == []
  {
    if s != [] {
      var col' := if s[0] == '\t' then col + (TabSize - col % TabSize)
                  else if s[0] == '\n' || s[0] == '\r' then 0 else col + 1;
      ExpandChars(s[1..], col');
    }
  }

  lemma {:induction false} ExpandNoTabs(s: string, col: nat)
    requires '\t' !in s
    ensures ExpandTabs(s, col) == s
  {
    if s != [] {
      assert s == [s[0]] + s[1..];
      if s[0] == '\n' || s[0] == '\r' { ExpandNoTabs(s[1..], 0); } else { ExpandNoTabs(s[1..], col + 1); }
    }
  }

  predicate IsBreak(c: char) { c == '\n' || c == '\r' }

  /** The column at the end of the text: how many characters stand after the last line break. */
  function EndColumn(s: string): nat {
    if s == [] || IsBreak(s[|s| - 1]) then 0 else 1 + EndColumn(s[..|s| - 1])
  }

  lemma {:induction false} EndColumnSpaces(s: string, n: nat)
    ensures EndColumn(s + Spaces(n)) == EndColumn(s) + n
  {
    if n == 0 {
      assert s + Spaces(0) == s;
    } else {
      assert (s + Spaces(n))[..|s| + n - 1] == s + Spaces(n - 1);
      EndColumnSpaces(s, n - 1);
    }
  }

  lemma ColumnAfterStep(a: string, c: char, col: nat)
    ensures ColumnAfter(a + [c], col)
         == var k := ColumnAfter(a, col);
            if c == '\t' then k + (TabSize - k % TabSize) else if IsBreak(c) then 0 else k + 1
    decreases |a|
  {
    if a == [] {
      assert a + [c] == [c] && [c][1..] == [];
    } else {
      assert (a + [c])[1..] == a[1..] + [c];
      var col' := if a[0] == '\t' then col + (TabSize - col % TabSize) else if IsBreak(a[0]) then 0 else col + 1;
      ColumnAfterStep(a[1..], c, col');
    }
  }

  /** The columns by which tabs are expanded are those of the expanded text. */
  lemma {:induction false} ColumnIsEndColumn(a: string)
    ensures ColumnAfter(a, 0) == EndColumn(ExpandTabs(a, 0))
  {
    if a != [] {
      var front, c := a[..|a| - 1], a[|a| - 1];
      assert a == front + [c];
      ColumnIsEndColumn(front);
      ColumnAfterStep(front, c, 0);
      var col, done := ColumnAfter(front, 0), ExpandTabs(front, 0);
      ExpandConcat(front, [c], 0);
      assert [c][1..] == [];
      if c == '\t' {
        WithEmpty(Spaces(TabSize - col % TabSize));
        EndColumnSpaces(done, TabSize - col % TabSize);
      } else {
        assert ExpandTabs([c], col) == [c];
        assert (done + [c])[..|done|] == done;
      }
    }
  }

  lemma ExpandTabFirst(b: string, col: nat)
    ensures var n := TabSize - col % TabSize;
            ExpandTabs("\t" + b, col) == Spaces(n) + ExpandTabs(b, col + n)
  {
    assert ("\t" + b)[1..] == b;
  }

  /**
    The last tab of a text becomes one to four spaces that end at the next multiple of four columns; the text
    after it stays, and the text before it is expanded in the same way.
  */
  lemma ExpandLastTab(a: string, b: string) returns (n: nat)
    requires '\t' !in b
    ensures 1 <= n <= 4 && (EndColumn(ExpandTabs(a, 0)) + n) % 4 == 0
    ensures ExpandTabs(a + ("\t" + b), 0) == ExpandTabs(a, 0) + (Spaces(n) + b)
  {
    ColumnIsEndColumn(a);
    var col := ColumnAfter(a, 0);
    n := TabSize - col % TabSize;
    ExpandConcat(a, "\t" + b, 0);
    ExpandTabFirst(b, col);
    ExpandNoTabs(b, col + n);
  }

  // ---------- Replacing ----------

  /** `str.replace`: occurrences from the left, without overlap. */
  function Replace(s: string, old_: string, new_: string): string
    requires old_ != []
    decreases |s|
  {
    if s == [] then []
    else if old_ <= s then new_ + Replace(s[|old_|..], old_, new_)
    else [s[0]] + Replace(s[1..], old_, new_)
  }

  lemma {:induction false} ReplaceAbsent(s: string, old_: string, new_: string)
    requires old_ != [] && old_[0] !in s
    ensures Replace(s, old_, new_) == s
  {
    if s != [] {
      assert s[0] in s;
      ReplaceAbsent(s[1..], old_, new_);
    }
  }

  /** One occurrence, with its first character nowhere around it. */
  lemma {:induction false} ReplaceOnce(pre: string, old_: string, post: string, new_: string)
    requires old_ != [] && old_[0] !in pre && old_[0] !in post
    ensures Replace(pre + old_ + post, old_, new_) == pre + new_ + post
  {
    var s := pre + old_ + post;
    if pre == [] {
      assert s == old_ + post && s[|old_|..] == post;
      ReplaceAbsent(post, old_, new_);
    } else {
      assert s[1..] == pre[1..] + old_ + post;
      assert s[0] == pre[0] && pre[0] in pre;
      ReplaceOnce(pre[1..], old_, post, new_);
      assert Replace(s, old_, new_) == [pre[0]] + (pre[1..] + new_ + post);
      assert [pre[0]] + pre[1..] == pre;
    }
  }

  // ---------- Lines of a file ----------

  /** Reading in text mode: "\r\n" and "\r" become "\n". */
  function Universal(s: string): string {
    if s == [] then []
    else if s[0] == '\r' then
      "\n" + Universal(if |s| > 1 && s[1] == '\n' then s[2..] else s[1..])
    else [s[0]] + Universal(s[1..])
  }

  /** Lines keep their line break; the last one may lack it. */
  function SplitLines(s: string): seq<string> {
    if s == [] then []
    else if s[0] == '\n' then ["\n"] + SplitLines(s[1..])
    else if |s| == 1 then [s]
    else
      var rest := SplitLines(s[1..]);
      if rest == [] then [[s[0]]] else [[s[0]] + rest[0]] + rest[1..]
  }

  function ReadLines(content: string): seq<string> { SplitLines(Universal(content)) }

  function Join(lines: seq<string>): string {
    if lines == [] then [] else lines[0] + Join(lines[1..])
  }

  /** Text without line breaks, followed by a line break or not. */
  ghost predicate IsBody(s: string) { '\n' !in s && '\r' !in s }

  ghost predicate IsFullLine(l: string) {
    l != [] && l[|l| - 1] == '\n' && IsBody(l[..|l| - 1])
  }

  /** What `readlines` yields: full lines, of which the last may lack its line break. */
  ghost predicate AreLines(ls: seq<string>) {
    && (forall k | 0 <= k < |ls| - 1 :: IsFullLine(ls[k]))
    && (ls != [] ==> IsFullLine(ls[|ls| - 1]) || (IsBody(ls[|ls| - 1]) && ls[|ls| - 1] != []))
  }

  lemma {:induction false} UniversalNoReturn(s: string)
    ensures '\r' !in Universal(s)
    decreases |s|
  {
    if s != [] {
      UniversalNoReturn(if s[0] == '\r' && |s| > 1 && s[1] == '\n' then s[2..] else s[1..]);
    }
  }

  lemma {:induction false} UniversalIdentity(s: string)
    requires '\r' !in s
    ensures Universal(s) == s
  {
    if s != [] { UniversalIdentity(s[1..]); }
  }

  /** Whichever way a line ends, it is read up to its end, and with a plain line break. */
  lemma {:induction false} UniversalLine(l: string, rest: string)
    requires IsBody(l)
    ensures Universal(l + ("\n" + rest)) == l + ("\n" + Universal(rest))
    ensures Universal(l + ("\r\n" + rest)) == l + ("\n" + Universal(rest))
    ensures (rest == [] || rest[0] != '\n') ==> Universal(l + ("\r" + rest)) == l + ("\n" + Universal(rest))
  {
    if l == [] {
      assert "\n" + rest == [] + ("\n" + rest) && ("\n" + rest)[1..] == rest;
      assert "\r\n" + rest == [] + ("\r\n" + rest) && ("\r\n" + rest)[2..] == rest;
      assert "\r" + rest == [] + ("\r" + rest) && ("\r" + rest)[1..] == rest;
    } else {
      UniversalLine(l[1..], rest);
      assert (l + ("\n" + rest))[1..] == l[1..] + ("\n" + rest);
      assert (l + ("\r\n" + rest))[1..] == l[1..] + ("\r\n" + rest);
      assert (l + ("\r" + rest))[1..] == l[1..] + ("\r" + rest);
      assert l[0] in l;
    }
  }

  lemma {:induction false} SplitAreLines(s: string)
    requires '\r' !in s
    ensures AreLines(SplitLines(s)) && (s != [] ==> SplitLines(s) != [])
  {
    if s != [] {
      SplitAreLines(s[1..]);
      var rest := SplitLines(s[1..]);
      if s[0] == '\n' {
        assert IsFullLine("\n");
        AreLinesCons("\n", rest);
      } else if |s| > 1 {
        var l := [s[0]] + rest[0];
        assert l[..|l| - 1] == [s[0]] + rest[0][..|rest[0]| - 1] by {
          assert rest[0] != [];
        }
        assert IsFullLine(rest[0]) ==> IsFullLine(l);
      }
    }
  }

  lemma AreLinesCons(l: string, ls: seq<string>)
    requires IsFullLine(l) && AreLines(ls)
    ensures AreLines([l] + ls)
  {
    var all := [l] + ls;
    forall k | 0 <= k < |all| - 1 ensures IsFullLine(all[k]) {
      if k > 0 { assert all[k] == ls[k - 1]; }
    }
    if ls != [] { assert all[|all| - 1] == ls[|ls| - 1]; }
  }

  lemma {:induction false} SplitFullLine(l: string, tail: string)
    requires IsFullLine(l)
    ensures SplitLines(l + tail) == [l] + SplitLines(tail)
  {
    if |l| == 1 {
      assert l == "\n" && (l + tail)[1..] == tail;
    } else {
      assert l[0] in l[..|l| - 1];
      assert (l + tail)[1..] == l[1..] + tail;
      assert l[1..][..|l| - 2] == l[..|l| - 1][1..];
      SplitFullLine(l[1..], tail);
      assert [l[0]] + l[1..] == l;
      assert ([l[1..]] + SplitLines(tail))[1..] == SplitLines(tail);
    }
  }

  lemma {:induction false} SplitBody(l: string)
    requires IsBody(l) && l != []
    ensures SplitLines(l) == [l]
  {
    if |l| > 1 {
      SplitBody(l[1..]);
      assert [l[0]] + l[1..] == l;
    }
  }

  /** Splitting undoes joining. */
  lemma {:induction false} SplitJoin(ls: seq<string>)
    requires AreLines(ls)
    ensures SplitLines(Join(ls)) == ls && '\r' !in Join(ls)
  {
    if ls != [] {
      if |ls| == 1 {
        assert Join(ls) == ls[0] + [] == ls[0];
        if IsFullLine(ls[0]) {
          SplitFullLine(ls[0], []);
          assert ls[0] + [] == ls[0];
          assert ls[0] == ls[0][..|ls[0]| - 1] + "\n";
        } else {
          SplitBody(ls[0]);
        }
      } else {
        assert IsFullLine(ls[0]);
        assert AreLines(ls[1..]);
        SplitJoin(ls[1..]);
        SplitFullLine(ls[0], Join(ls[1..]));
        assert ls[0] == ls[0][..|ls[0]| - 1] + "\n";
      }
    }
  }

  lemma ReadJoin(ls: seq<string>)
    requires AreLines(ls)
    ensures ReadLines(Join(ls)) == ls
  {
    SplitJoin(ls);
    UniversalIdentity(Join(ls));
  }

  lemma ReadAreLines(content: string)
    ensures AreLines(ReadLines(content))
  {
    UniversalNoReturn(content);
    SplitAreLines(Universal(content));
  }
}
