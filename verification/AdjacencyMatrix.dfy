/** The adjacency matrix of the matrix-topology example: its printer and its reader. */
module AdjacencyMatrix {
  import opened Sequences
  import opened Numerals

  type Matrix = seq<seq<bool>>

  ghost predicate Square(m: Matrix) { forall i | 0 <= i < |m| :: |m[i]| == |m| }

  // ---------- Printing ----------

  function PrintRow(row: seq<bool>): string {
    if row == [] then "\n" else (if row[0] then "1 " else "0 ") + PrintRow(row[1..])
  }

  function PrintRows(m: Matrix): string {
    if m == [] then "" else PrintRow(m[0]) + PrintRows(m[1..])
  }

  lemma PrintRowNext(row: seq<bool>, j: nat)
    requires j < |row|
    ensures PrintRow(row[j..]) == (if row[j] then "1 " else "0 ") + PrintRow(row[j + 1..])
  {
    assert row[j..][1..] == row[j + 1..];
  }

  lemma PrintRowsNext(m: Matrix, i: nat)
    requires i < |m|
    ensures PrintRows(m[i..]) == PrintRow(m[i]) + PrintRows(m[i + 1..])
  {
    assert m[i..][1..] == m[i + 1..];
  }

  /** The inner loop with the line break after it. */
  method PrintOneRow(before: string, row: seq<bool>) returns (text: string)
    ensures text == before + PrintRow(row)
  {
    text := before;
    for j := 0 to |row|
      invariant text + PrintRow(row[j..]) == before + PrintRow(row)
    {
      PrintRowNext(row, j);
      var element := if row[j] then "1 " else "0 ";
      Regroup(text, element, PrintRow(row[j + 1..]));
      text := text + element;
    }
    text := text + "\n";
  }

  /** The body rows that `printMatrix` writes. */
  method PrintMatrix(m: Matrix) returns (text: string)
    ensures text == PrintRows(m)
  {
    text := "";
    for i := 0 to |m|
      invariant text + PrintRows(m[i..]) == PrintRows(m)
    {
      PrintRowsNext(m, i);
      Regroup(text, PrintRow(m[i]), PrintRows(m[i + 1..]));
      text := PrintOneRow(text, m[i]);
    }
  }

  // ---------- Reading one row ----------

  predicate IsBlank(c: char) {
    c == ' ' || c == '\t' || c == '\n' || c == '\r' || c == '\U{000B}' || c == '\U{000C}'
  }

  function SkipBlanks(s: string): (r: string)
    ensures |r| <= |s|
  {
    if s != [] && IsBlank(s[0]) then SkipBlanks(s[1..]) else s
  }

  datatype Element = Fail | Element(value: bool, rest: string)

  /** One extraction of a boolean: a number with an optional sign, which must be 0 or 1. */
  function Extract(s: string): (e: Element)
    ensures e.Element? ==> |e.rest| < |s|
  {
    var t := SkipBlanks(s);
    var negative := t != [] && t[0] == '-';
    var u := if t != [] && (t[0] == '-' || t[0] == '+') then t[1..] else t;
    var digits := LeadingDigits(u);
    LeadingDigitsAreDigits(u);
    LeadingDigitsPrefix(u);
    if digits == [] then Fail
    else if Decimal(digits) == 0 then Element.Element(false, u[|digits|..])
    else if Decimal(digits) == 1 && !negative then Element.Element(true, u[|digits|..])
    else Fail
  }

  lemma {:induction false} LeadingDigitsPrefix(s: string)
    ensures LeadingDigits(s) <= s
  {
    if s != [] && IsDigit(s[0]) { LeadingDigitsPrefix(s[1..]); }
  }

  /** The elements up to the first failure. */
  function RowOf(line: string): seq<bool>
    decreases |line|
  {
    var e := Extract(line);
    if e.Fail? then [] else [e.value] + RowOf(e.rest)
  }

  method ReadRow(line: string) returns (row: seq<bool>)
    ensures row == RowOf(line)
  {
    row := [];
    var iss := line;
    var e := Extract(iss);
    while e.Element?
      invariant e == Extract(iss) && row + RowOf(iss) == RowOf(line)
      decreases |iss|
    {
      row := row + [e.value];
      iss := e.rest;
      e := Extract(iss);
    }
  }

  // ---------- Reading the file ----------

  function LineAt(s: string): string {
    if s == [] || s[0] == '\n' then [] else [s[0]] + LineAt(s[1..])
  }

  /** The rows of the lines up to the first empty one. */
  function RowsOf(content: string): Matrix
    decreases |content|
  {
    var line := LineAt(content);
    if line == [] then []
    else
      LineAtPrefix(content);
      [RowOf(line)] + RowsOf(if |line| == |content| then [] else content[|line| + 1..])
  }

  lemma {:induction false} LineAtPrefix(s: string)
    ensures LineAt(s) <= s && (|LineAt(s)| < |s| ==> s[|LineAt(s)|] == '\n')
  {
    if s != [] && s[0] != '\n' { LineAtPrefix(s[1..]); }
  }

  datatype ReadResult = Read(matrix: Matrix) | FatalError

  /** What is left to read after the line at the front. */
  function AfterLine(content: string): string {
    LineAtPrefix(content);
    if |LineAt(content)| == |content| then [] else content[|LineAt(content)| + 1..]
  }

  lemma RowsUnfold(content: string)
    ensures RowsOf(content)
         == if LineAt(content) == [] then [] else [RowOf(LineAt(content))] + RowsOf(AfterLine(content))
  {
  }

  ghost predicate Uniform(m: Matrix, n: nat) { forall k | 0 <= k < |m| :: |m[k]| == n }

  lemma UnevenRows(m: Matrix, i: nat)
    requires i < |m| && |m[i]| != |m[0]|
    ensures !Square(m)
  {
  }

  lemma SquareIfUniform(m: Matrix, n: nat)
    requires Uniform(m, n) && (m == [] ==> n == 0)
    ensures Square(m) <==> n == |m|
  {
    if m != [] { assert |m[0]| == n; }
  }

  /** `getline`: it hits the end of the file if no line break follows the line. */
  method GetLine(content: string) returns (line: string, rest: string, eof: bool)
    ensures line == [] ==> RowsOf(content) == []
    ensures line != [] ==> RowsOf(content) == [RowOf(line)] + if eof then [] else RowsOf(rest)
    ensures |rest| <= |content| && (!eof ==> |rest| < |content|)
  {
    line := LineAt(content);
    LineAtPrefix(content);
    RowsUnfold(content);
    eof := |line| == |content|;
    rest := AfterLine(content);
  }

  /** What the loop has read so far of the rows `all`, and what is left in the file. */
  ghost predicate Reading(all: Matrix, rows: Matrix, nNodes: nat, left: Matrix) {
    rows + left == all && Uniform(rows, nNodes) && (rows == [] ==> nNodes == 0)
  }

  lemma ReadingNext(all: Matrix, rows: Matrix, nNodes: nat, row: seq<bool>, left: Matrix)
    requires Reading(all, rows, nNodes, [row] + left)
    ensures rows == [] || |row| == nNodes ==> Reading(all, rows + [row], |row|, left)
    ensures rows != [] && |row| != nNodes ==> !Square(all)
  {
    assert rows + ([row] + left) == (rows + [row]) + left;
    if rows != [] && |row| != nNodes {
      assert all[|rows|] == row && all[0] == rows[0] && |rows[0]| == nNodes;
      UnevenRows(all, |rows|);
    }
  }

  /** `readNxNMatrix`: it accepts exactly the files whose rows all have as many elements as there are rows. */
  method ReadNxNMatrix(content: string) returns (r: ReadResult)
    ensures r.Read? <==> Square(RowsOf(content))
    ensures r.Read? ==> r.matrix == RowsOf(content)
  {
    var rows: Matrix := [];
    var i, nNodes: nat := 0, 0;
    var rest, eof := content, false;
    ghost var all, left := RowsOf(content), RowsOf(content);
    while !eof
      invariant i == |rows| && Reading(all, rows, nNodes, left)
      invariant left == if eof then [] else RowsOf(rest)
      decreases !eof, |rest|
    {
      var line;
      line, rest, eof := GetLine(rest);
      if line == [] {
        break;
      }
      var row := ReadRow(line);
      left := if eof then [] else RowsOf(rest);
      ReadingNext(all, rows, nNodes, row, left);
      if i == 0 {
        nNodes := |row|;
      }
      if |row| != nNodes {
        return FatalError;
      }
      rows := rows + [row];
      i := i + 1;
    }
    assert left == [] && rows == all;
    SquareIfUniform(rows, nNodes);
    if i != nNodes {
      return FatalError;
    }
    return Read(rows);
  }

  // ---------- Round trip ----------

  /** The printed row without its line break. */
  function RowText(row: seq<bool>): string {
    if row == [] then "" else (if row[0] then "1 " else "0 ") + RowText(row[1..])
  }

  lemma ExtractDigit(d: char, tail: string)
    requires d == '0' || d == '1'
    ensures Extract([d] + (" " + tail)) == Element.Element(d == '1', " " + tail)
  {
    var text := [d] + (" " + tail);
    assert (" " + tail)[0] == ' ' && LeadingDigits(" " + tail) == [];
    assert text[1..] == " " + tail && LeadingDigits(text) == [d];
    assert SkipBlanks(text) == text;
    assert [d][..0] == [] && Decimal([d]) == if d == '1' then 1 else 0;
  }

  lemma {:induction false} RowTextFacts(row: seq<bool>)
    ensures PrintRow(row) == RowText(row) + "\n" && (forall c | c in RowText(row) :: c != '\n')
    ensures row != [] ==> RowText(row) != []
  {
    if row != [] { RowTextFacts(row[1..]); }
  }

  lemma {:induction false} RowRoundTrip(row: seq<bool>)
    ensures RowOf(RowText(row)) == row
  {
    if row != [] {
      var d, tail := if row[0] then '1' else '0', RowText(row[1..]);
      assert RowText(row) == [d] + (" " + tail);
      ExtractDigit(d, tail);
      BlankBefore(tail);
      RowRoundTrip(row[1..]);
      assert RowOf(RowText(row)) == [row[0]] + RowOf(" " + tail);
    } else {
      EmptyRow();
    }
  }

  lemma EmptyRow()
    ensures RowOf("") == []
  {
    assert SkipBlanks("") == "" && LeadingDigits("") == "";
  }

  lemma BlankBefore(s: string)
    ensures RowOf(" " + s) == RowOf(s)
  {
    assert (" " + s)[1..] == s;
    assert SkipBlanks(" " + s) == SkipBlanks(s);
    assert Extract(" " + s) == Extract(s);
  }

  lemma {:induction false} LineAtBreak(line: string, tail: string)
    requires forall c | c in line :: c != '\n'
    ensures LineAt(line + ("\n" + tail)) == line
  {
    if line != [] {
      assert (line + ("\n" + tail))[1..] == line[1..] + ("\n" + tail);
      assert line[0] in line && forall c | c in line[1..] :: c in line;
      LineAtBreak(line[1..], tail);
    }
  }

  /** A file is read line by line, up to its end or the first empty line. */
  lemma RowsOfLines(line: string, rest: string)
    requires forall c | c in line :: c != '\n'
    ensures RowsOf(line + ("\n" + rest)) == if line == "" then [] else [RowOf(line)] + RowsOf(rest)
    ensures RowsOf(line) == if line == "" then [] else [RowOf(line)]
  {
    var text := line + ("\n" + rest);
    LineAtBreak(line, rest);
    RowsUnfold(text);
    if line != "" { assert text[|line| + 1..] == rest; }
    LineAtEnd(line);
    RowsUnfold(line);
  }

  lemma {:induction false} LineAtEnd(line: string)
    requires forall c | c in line :: c != '\n'
    ensures LineAt(line) == line
  {
    if line != [] {
      assert line[0] in line && forall c | c in line[1..] :: c in line;
      LineAtEnd(line[1..]);
    }
  }

  lemma RowStep(row: seq<bool>, tail: string)
    requires row != []
    ensures RowsOf(PrintRow(row) + tail) == [row] + RowsOf(tail)
  {
    RowTextFacts(row);
    var line := RowText(row);
    var text := line + ("\n" + tail);
    assert PrintRow(row) + tail == text;
    LineAtBreak(line, tail);
    RowsUnfold(text);
    assert AfterLine(text) == tail by { assert text[|line| + 1..] == tail; }
    RowRoundTrip(row);
  }

  // ---------- Rows written in other ways ----------

  const Blanks: set<char> := {' ', '\t', '\n', '\r', '\U{000B}', '\U{000C}'}

  ghost predicate AllBlank(s: string) { forall k | 0 <= k < |s| :: s[k] in Blanks }

  lemma {:induction false} SkipsBlanks(blanks: string, s: string)
    requires AllBlank(blanks) && (s == [] || s[0] !in Blanks)
    ensures SkipBlanks(blanks + s) == s
  {
    if blanks == [] {
      assert blanks + s == s;
    } else {
      assert (blanks + s)[1..] == blanks[1..] + s;
      SkipsBlanks(blanks[1..], s);
    }
  }

  /** A number with an optional sign: it must be 0 or 1, and only 0 can be negative. */
  lemma ExtractNumber(blanks: string, sign: string, digits: string, rest: string)
    requires AllBlank(blanks) && sign in {"", "+", "-"}
    requires digits != [] && AllDigits(digits) && (rest == [] || !IsDigit(rest[0]))
    ensures Extract(blanks + (sign + (digits + rest)))
         == if Decimal(digits) == 0 then Element.Element(false, rest)
            else if Decimal(digits) == 1 && sign != "-" then Element.Element(true, rest)
            else Fail
  {
    var u := digits + rest;
    var t := sign + u;
    assert t[0] == if sign == "" then digits[0] else sign[0];
    SkipsBlanks(blanks, t);
    if sign == "" {
      assert t == u && u[0] == digits[0];
    } else {
      assert t[1..] == u;
    }
    LeadingDigitsOf(digits, rest);
    assert u[|digits|..] == rest;
  }

  /** Anything else ends the row. */
  lemma ExtractNoNumber(blanks: string, s: string)
    requires AllBlank(blanks) && (s == [] || (s[0] !in Blanks && s[0] != '+' && s[0] != '-' && !IsDigit(s[0])))
    ensures Extract(blanks + s) == Fail && RowOf(blanks + s) == []
  {
    SkipsBlanks(blanks, s);
  }

  /** The elements of a row, each after some blanks. */
  function Written(row: seq<bool>, blanks: seq<string>, tail: string): string
    requires |blanks| == |row|
  {
    if row == [] then tail
    else blanks[0] + ([if row[0] then '1' else '0'] + Written(row[1..], blanks[1..], tail))
  }

  lemma WrittenStart(row: seq<bool>, blanks: seq<string>, tail: string)
    requires |blanks| == |row| && (forall k | 0 <= k < |blanks| :: AllBlank(blanks[k]) && blanks[k] != [])
    requires AllBlank(tail)
    ensures var s := Written(row, blanks, tail); s == [] || !IsDigit(s[0])
  {
    if row != [] { assert Written(row, blanks, tail)[0] == blanks[0][0]; }
  }

  /** The first of them. */
  lemma ReadFirst(blanks: string, x: bool, rest: string)
    requires AllBlank(blanks) && (rest == [] || !IsDigit(rest[0]))
    ensures RowOf(blanks + ([if x then '1' else '0'] + rest)) == [x] + RowOf(rest)
  {
    var d := [if x then '1' else '0'];
    assert "" + (d + rest) == d + rest && d[..0] == [];
    assert Decimal(d) == if x then 1 else 0;
    ExtractNumber(blanks, "", d, rest);
  }

  /** However the elements of a row are separated, by blanks, tabs or returns, the row is read. */
  lemma {:induction false} AnySeparators(row: seq<bool>, blanks: seq<string>, tail: string)
    requires |blanks| == |row| && (forall k | 0 <= k < |blanks| :: AllBlank(blanks[k]))
    requires (forall k | 0 < k < |blanks| :: blanks[k] != []) && AllBlank(tail)
    ensures RowOf(Written(row, blanks, tail)) == row
  {
    if row == [] {
      assert tail == tail + [];
      ExtractNoNumber(tail, []);
    } else {
      AnySeparators(row[1..], blanks[1..], tail);
      WrittenStart(row[1..], blanks[1..], tail);
      ReadFirst(blanks[0], row[0], Written(row[1..], blanks[1..], tail));
    }
  }

  lemma {:induction false} PrintedLength(row: seq<bool>)
    ensures |PrintRow(row)| == 2 * |row| + 1 && PrintRow(row)[2 * |row|] == '\n'
  {
    if row != [] { PrintedLength(row[1..]); }
  }

  /** What is printed: each element as a digit and a blank, then a line break. */
  lemma {:induction false} PrintedChars(row: seq<bool>, k: nat)
    requires k < |row|
    ensures |PrintRow(row)| == 2 * |row| + 1 && PrintRow(row)[2 * |row|] == '\n'
    ensures PrintRow(row)[2 * k] == (if row[k] then '1' else '0') && PrintRow(row)[2 * k + 1] == ' '
  {
    PrintedLength(row);
    if k > 0 {
      var rest := PrintRow(row[1..]);
      PrintedChars(row[1..], k - 1);
      assert PrintRow(row)[2 * k] == rest[2 * (k - 1)] && PrintRow(row)[2 * k + 1] == rest[2 * (k - 1) + 1];
    }
  }

  /** Reading the printed rows gives the matrix back, whatever its shape, if no row is empty. */
  lemma {:induction false} RowsRoundTrip(m: Matrix)
    requires forall i | 0 <= i < |m| :: m[i] != []
    ensures RowsOf(PrintRows(m)) == m
  {
    if m != [] {
      RowsRoundTrip(m[1..]);
      RowStep(m[0], PrintRows(m[1..]));
    }
  }

  /** What is printed of an n x n matrix is read back as that matrix. */
  method PrintThenRead(m: Matrix) returns (r: ReadResult)
    requires Square(m)
    ensures r == Read(m)
  {
    RowsRoundTrip(m);
    var text := PrintMatrix(m);
    r := ReadNxNMatrix(text);
  }
}
