/**
  The three line checks that need nothing but the line: trailing whitespace, tabs and licence text.  One
  fixing run of any selection of them, in the program's order, leaves nothing for a second run to find.
*/
module StyleChecks {
  import opened Sequences
  import opened PyText
  import opened StyleFile

  // The licence text, line by line; the lines are cut into short pieces for the verifier's sake only.
  const Gpl0 := "This program is free " + "software; you can " + "redistribute it and/or " + "modify"
  const Gpl1 := "it under the terms of the " + "GNU General Public " + "License version 2 as"
  const Gpl2 := "published by the Free " + "Software Foundation;"
  const Gpl3 := "This program is " + "distributed in the hope " + "that it will be useful,"
  const Gpl4 := "but WITHOUT ANY WARRANTY; " + "without even the implied " + "warranty of"
  const Gpl5 := "MERCHANTABILITY or " + "FITNESS FOR A PARTICULAR " + "PURPOSE.  See the"
  const Gpl6 := "GNU General Public " + "License for more details."
  const Gpl7 := "You should have received " + "a copy of the GNU General " + "Public License"
  const Gpl8 := "along with this program; " + "if not, write to the Free " + "Software"
  const Gpl9 := "Foundation, Inc., 59 " + "Temple Place, Suite 330, " + "Boston, MA  02111-1307  " + "USA"

  const GplLines: seq<string> := [Gpl0, Gpl1, Gpl2, Gpl3, Gpl4, Gpl5, Gpl6, Gpl7, Gpl8, Gpl9]

  const Spdx := "SPDX-License-" + "Identifier: " + "GPL-2.0-only"

  predicate IsGpl(s: string) { s in GplLines }

  predicate IsFirstGpl(s: string) { s == Gpl0 }

  /** The line without surrounding whitespace and comment characters. */
  function Core(line: string): string { Strip(Trim(IsComment, Strip(line))) }

  function WhitespaceLine(line: string): (bool, string) {
    (RStrip(line) + "\n" == line, RStrip(line) + "\n")
  }

  function TabsLine(line: string): (bool, string) {
    if '\t' in line then (false, ExpandTabs(line, 0)) else (true, line)
  }

  /** The first line of the licence text becomes the SPDX line, the others vanish. */
  function LicenseLine(line: string): (bool, string) {
    if !IsGpl(Core(line)) then (true, line)
    else if IsFirstGpl(Core(line)) && Core(line) != [] then (false, Replace(line, Core(line), Spdx))
    else (false, "")
  }

  const WhitespaceCheck := Check(false, WhitespaceLine)
  const TabsCheck := Check(true, TabsLine)
  const LicenseCheck := Check(true, LicenseLine)

  // ---------- Facts about the texts ----------

  /** Whitespace and comment characters: what can surround the text of a licence line. */
  predicate IsPadding(c: char) { IsSpace(c) || IsComment(c) }

  predicate IsUpper(c: char) { 'A' <= c <= 'Z' }

  ghost predicate HasUpper(s: string) { exists k :: 0 <= k < |s| && IsUpper(s[k]) }

  /** What matters about a line of the licence text. */
  ghost predicate LicenceText(s: string) {
    && s != [] && !IsPadding(s[0]) && s[0] != 'S' && !IsPadding(s[|s| - 1])
    && HasUpper(s)
  }

  lemma GplText0() ensures LicenceText(Gpl0) { assert IsUpper(Gpl0[0]); }
  lemma GplText1() ensures LicenceText(Gpl1) { assert IsUpper(Gpl1[26]); }
  lemma GplText2() ensures LicenceText(Gpl2) { assert IsUpper(Gpl2[17]); }
  lemma GplText3() ensures LicenceText(Gpl3) { assert IsUpper(Gpl3[0]); }
  lemma GplText4() ensures LicenceText(Gpl4) { assert IsUpper(Gpl4[4]); }
  lemma GplText5() ensures LicenceText(Gpl5) { assert IsUpper(Gpl5[0]); }
  lemma GplText6() ensures LicenceText(Gpl6) { assert IsUpper(Gpl6[0]); }
  lemma GplText7() ensures LicenceText(Gpl7) { assert IsUpper(Gpl7[0]); }
  lemma GplText8() ensures LicenceText(Gpl8) { assert IsUpper(Gpl8[46]); }
  lemma GplText9() ensures LicenceText(Gpl9) { assert IsUpper(Gpl9[0]); }

  lemma GplFacts(s: string)
    requires IsGpl(s)
    ensures LicenceText(s)
  {
    GplText0(); GplText1(); GplText2(); GplText3(); GplText4();
    GplText5(); GplText6(); GplText7(); GplText8(); GplText9();
  }

  // ---------- Lines keep their shape ----------

  ghost predicate IsLine(l: string) { IsFullLine(l) || (IsBody(l) && l != []) }

  /** A fix deletes a line or leaves one line; a line that ends the file may stay without its break. */
  ghost predicate KeepsShape(c: Check, l: string) {
    && (IsFullLine(l) ==> Fixed(c, l) == [] || IsFullLine(Fixed(c, l)))
    && (IsLine(l) ==> Fixed(c, l) == [] || IsLine(Fixed(c, l)))
  }

  lemma FullLine(body: string)
    requires IsBody(body)
    ensures IsFullLine(body + "\n")
  {
    assert (body + "\n")[..|body|] == body;
  }

  lemma FullLineParts(l: string) returns (body: string)
    requires IsFullLine(l)
    ensures l == body + "\n" && IsBody(body)
  {
    body := l[..|l| - 1];
  }

  /** No trailing whitespace but the line break. */
  ghost predicate Neat(l: string) { WhitespaceLine(l).0 }

  lemma NeatParts(body: string)
    ensures Neat(body + "\n") <==> body == [] || !IsSpace(body[|body| - 1])
  {
    assert (body + "\n")[..|body|] == body;
    assert RStrip(body + "\n") == RStrip(body);
    var post := TrimRightParts(IsSpace, body);
    if Neat(body + "\n") { assert (RStrip(body) + "\n")[..|RStrip(body)|] == RStrip(body); }
  }

  lemma WhitespaceFix(l: string)
    requires IsLine(l)
    ensures Neat(Fixed(WhitespaceCheck, l)) && IsFullLine(Fixed(WhitespaceCheck, l))
  {
    var r := RStrip(l);
    RStripIsBody(l);
    FullLine(r);
    NeatParts(r);
    assert Fixed(WhitespaceCheck, l) == r + "\n";
  }

  /** The fix keeps the text and ends it with a line break; what goes is trailing whitespace. */
  lemma WhitespaceKeepsText(l: string) returns (r: string, post: string)
    ensures l == r + post && All(IsSpace, post) && (r != [] ==> !IsSpace(r[|r| - 1]))
    ensures Fixed(WhitespaceCheck, l) == r + "\n" && (WhitespaceLine(l).0 <==> l == r + "\n")
  {
    r := RStrip(l);
    post := TrimRightParts(IsSpace, l);
  }

  /** Blanks and tabs before the line break go, up to the last visible character. */
  lemma TrailingBlanksGo(r: string, post: string, end: string)
    requires (r == [] || '!' <= r[|r| - 1] <= '~') && (forall c | c in post :: c == ' ' || c == '\t')
    requires end in {"", "\n", "\r\n"}
    ensures Fixed(WhitespaceCheck, r + (post + end)) == r + "\n"
  {
    assert All(IsSpace, post + end);
    TrimRightSkips(IsSpace, r, post + end);
    assert RStrip(r) == r;
  }

  lemma RStripIsBody(l: string)
    requires IsLine(l)
    ensures IsBody(RStrip(l)) && (RStrip(l) != [] ==> !IsSpace(RStrip(l)[|RStrip(l)| - 1]))
  {
    var post := TrimRightParts(IsSpace, l);
    var r := RStrip(l);
    if post == [] {
      assert r == l;
    } else {
      assert r == l[..|r|];
      forall c | c in r ensures c != '\n' && c != '\r' { InFront(l, |r|, c); }
    }
  }

  lemma InFront(l: string, n: nat, c: char)
    requires IsLine(l) && n < |l| && c in l[..n]
    ensures c != '\n' && c != '\r'
  {
    assert c in l[..|l| - 1];
  }

  // ---------- Tabs ----------

  lemma TabsFixLine(l: string)
    requires IsLine(l)
    ensures '\t' !in Fixed(TabsCheck, l) && KeepsShape(TabsCheck, l) && Fixed(TabsCheck, l) != []
  {
    ExpandChars(l, 0);
    if IsFullLine(l) {
      var body := FullLineParts(l);
      TabsFixFull(body);
      FullLine(ExpandTabs(body, 0));
    }
  }

  /** Expanding tabs keeps a last character that is no whitespace. */
  lemma TabsKeepEnd(body: string)
    requires body != [] && !IsSpace(body[|body| - 1])
    ensures var e := ExpandTabs(body, 0); e != [] && !IsSpace(e[|e| - 1])
  {
    var n := |body| - 1;
    assert body == body[..n] + [body[n]];
    ExpandConcat(body[..n], [body[n]], 0);
    assert [body[n]][1..] == [];
  }

  lemma TabsFixFull(body: string)
    requires IsBody(body)
    ensures Fixed(TabsCheck, body + "\n") == ExpandTabs(body, 0) + "\n"
    ensures IsBody(ExpandTabs(body, 0))
  {
    ExpandChars(body, 0);
    ExpandConcat(body, "\n", 0);
    assert "\n"[1..] == [] && ExpandTabs("\n", ColumnAfter(body, 0)) == "\n";
    if '\t' !in body + "\n" { ExpandNoTabs(body, 0); }
  }

  /** Expanding tabs cannot create trailing whitespace where there was none. */
  lemma TabsFixNeat(l: string)
    requires IsFullLine(l) && Neat(l)
    ensures Neat(Fixed(TabsCheck, l))
  {
    var body := FullLineParts(l);
    NeatParts(body);
    TabsFixFull(body);
    ExpandChars(body, 0);
    if body != [] { TabsKeepEnd(body); }
    NeatParts(ExpandTabs(body, 0));
  }

  /** Guards contain no tabs and no capital letters, and nothing to trim. */
  lemma GuardFacts(s: string)
    requires s in GuardOn || s in GuardOff
    ensures '\t' !in s && !HasUpper(s) && s != [] && Solid(IsSpace, s)
    ensures s in GuardOn ==> s !in GuardOff
  {
    if s in GuardOn { GuardOnFacts(s); } else { GuardOffFacts(s); }
  }

  lemma GuardOnFacts(s: string)
    requires s in GuardOn
    ensures '\t' !in s && !HasUpper(s) && s != [] && Solid(IsSpace, s) && s !in GuardOff
  {
  }

  lemma GuardOffFacts(s: string)
    requires s in GuardOff
    ensures '\t' !in s && !HasUpper(s) && s != [] && Solid(IsSpace, s)
  {
  }

  /** Around text without tabs, expanding changes only the padding. */
  lemma ExpandPadded(pre: string, g: string, post: string) returns (pre': string, post': string)
    requires All(IsSpace, pre) && All(IsSpace, post) && '\t' !in g
    ensures ExpandTabs(pre + g + post, 0) == pre' + g + post' && All(IsSpace, pre') && All(IsSpace, post')
  {
    var col := ColumnAfter(pre, 0);
    var col' := ColumnAfter(g, col);
    pre', post' := ExpandTabs(pre, 0), ExpandTabs(post, col');
    Regroup(pre, g, post);
    ExpandConcat(pre, g + post, 0);
    ExpandConcat(g, post, col);
    ExpandNoTabs(g, col);
    Regroup(pre', g, post');
    ExpandChars(pre, 0);
    ExpandChars(post, col');
  }

  lemma ExpandKeepsGuard(l: string)
    requires IsOn(l) || IsOff(l)
    ensures Strip(ExpandTabs(l, 0)) == Strip(l)
  {
    var g := Strip(l);
    GuardFacts(g);
    var pre, post := TrimParts(IsSpace, l);
    var pre', post' := ExpandPadded(pre, g, post);
    TrimPadded(IsSpace, pre', g, post');
  }

  /** A guard stays the same guard when the tabs around it are expanded. */
  lemma TabsFixGuard(l: string)
    ensures IsOn(l) ==> IsOn(Fixed(TabsCheck, l)) && !IsOff(Fixed(TabsCheck, l))
    ensures IsOff(l) ==> IsOff(Fixed(TabsCheck, l)) && !IsOn(Fixed(TabsCheck, l))
  {
    if IsOn(l) || IsOff(l) {
      GuardFacts(Strip(l));
      ExpandKeepsGuard(l);
    }
  }

  // ---------- Licence text ----------

  lemma Nested(a1: string, a2: string, a3: string, m: string, b3: string, b2: string, b1: string)
    ensures a1 + (a2 + (a3 + m + b3) + b2) + b1 == (a1 + a2 + a3) + m + (b3 + b2 + b1)
  {
  }

  lemma PaddingParts(x: string, y: string, z: string)
    requires All(IsPadding, x) && All(IsPadding, y) && All(IsPadding, z)
    ensures All(IsPadding, x + y + z)
  {
  }

  lemma AllPadding(p: char -> bool, s: string)
    requires All(p, s) && forall c | p(c) :: IsPadding(c)
    ensures All(IsPadding, s)
  {
  }

  /** Whitespace, then comment characters, then whitespace again. */
  datatype Padding = Padding(outer: string, comment: string, inner: string)

  ghost predicate ValidPadding(p: Padding) {
    All(IsSpace, p.outer) && All(IsComment, p.comment) && All(IsSpace, p.inner)
  }

  function Before(p: Padding): string { p.outer + p.comment + p.inner }

  function Behind(p: Padding): string { p.inner + p.comment + p.outer }

  lemma PaddingIsPadding(p: Padding)
    requires ValidPadding(p)
    ensures All(IsPadding, Before(p)) && All(IsPadding, Behind(p))
  {
    AllPadding(IsSpace, p.outer);
    AllPadding(IsComment, p.comment);
    AllPadding(IsSpace, p.inner);
    PaddingParts(p.outer, p.comment, p.inner);
    PaddingParts(p.inner, p.comment, p.outer);
  }

  /** Every line is its core between such padding. */
  lemma CoreParts(l: string) returns (left: Padding, right: Padding)
    ensures ValidPadding(left) && ValidPadding(right) && l == Before(left) + Core(l) + Behind(right)
  {
    var s1 := Strip(l);
    var a1, b1 := TrimParts(IsSpace, l);
    var s2 := Trim(IsComment, s1);
    var a2, b2 := TrimParts(IsComment, s1);
    var a3, b3 := TrimParts(IsSpace, s2);
    left, right := Padding(a1, a2, a3), Padding(b1, b2, b3);
    Nested(a1, a2, a3, Core(l), b3, b2, b1);
  }

  lemma NoSpaceIsComment(c: char)
    ensures !IsSpace(c) || !IsComment(c)
  {
  }

  lemma SolidBetween(p: char -> bool, a: string, m: string, b: string)
    requires m != [] && (if a == [] then !p(m[0]) else !p(a[0])) && (if b == [] then !p(m[|m| - 1]) else !p(b[|b| - 1]))
    ensures Solid(p, a + m + b) && a + m + b != []
  {
    var s := a + m + b;
    assert s[0] == if a == [] then m[0] else a[0];
    assert s[|s| - 1] == if b == [] then m[|m| - 1] else b[|b| - 1];
  }

  /** And text that begins and ends visibly is the core of any line that pads it so. */
  lemma CoreOfPadded(left: Padding, g: string, right: Padding)
    requires ValidPadding(left) && ValidPadding(right) && g != [] && !IsPadding(g[0]) && !IsPadding(g[|g| - 1])
    requires (left.comment == [] ==> left.inner == []) && (right.comment == [] ==> right.inner == [])
    ensures Core(Before(left) + g + Behind(right)) == g
  {
    var inner := left.inner + g + right.inner;
    var middle := left.comment + inner + right.comment;
    Nested(left.outer, left.comment, left.inner, g, right.inner, right.comment, right.outer);
    assert Solid(IsSpace, g);
    if left.inner != [] { NoSpaceIsComment(left.inner[0]); }
    if right.inner != [] { NoSpaceIsComment(right.inner[|right.inner| - 1]); }
    assert Solid(IsComment, inner) && inner != [] by { SolidBetween(IsComment, left.inner, g, right.inner); }
    if left.comment != [] { NoSpaceIsComment(left.comment[0]); }
    if right.comment != [] { NoSpaceIsComment(right.comment[|right.comment| - 1]); }
    assert inner[0] == if left.inner == [] then g[0] else left.inner[0];
    assert inner[|inner| - 1] == if right.inner == [] then g[|g| - 1] else right.inner[|right.inner| - 1];
    SolidBetween(IsSpace, left.comment, inner, right.comment);
    TrimPadded(IsSpace, left.outer, middle, right.outer);
    TrimPadded(IsComment, left.comment, inner, right.comment);
    TrimPadded(IsSpace, left.inner, g, right.inner);
  }

  /** A licence line is its text between padding. */
  lemma LicenceParts(l: string) returns (pre: string, post: string)
    requires IsGpl(Core(l))
    ensures l == pre + Core(l) + post && All(IsPadding, pre) && All(IsPadding, post)
  {
    var left, right := CoreParts(l);
    PaddingIsPadding(left);
    PaddingIsPadding(right);
    pre, post := Before(left), Behind(right);
  }

  /** The first character that is no padding is where the text starts. */
  lemma SameStart(pre: string, s: string, post: string, pre': string, s': string, post': string)
    requires pre + s + post == pre' + s' + post' && s != [] && s' != []
    requires All(IsPadding, pre) && All(IsPadding, pre') && !IsPadding(s[0]) && !IsPadding(s'[0])
    ensures s[0] == s'[0]
  {
    var l := pre + s + post;
    assert l[|pre|] == s[0] && l[|pre'|] == s'[0];
    assert l[..|pre|] == pre && l[..|pre'|] == pre';
  }

  lemma SpdxFacts()
    ensures Spdx != [] && Spdx[0] == 'S' && !IsPadding(Spdx[0]) && !IsPadding(Spdx[|Spdx| - 1])
    ensures '\n' !in Spdx && '\r' !in Spdx && '\t' !in Spdx && HasUpper(Spdx)
  {
    assert IsUpper(Spdx[0]);
  }

  /** What the licence check leaves of a line of the licence text. */
  lemma LicenceFixed(l: string) returns (pre: string, post: string)
    requires IsGpl(Core(l))
    ensures l == pre + Core(l) + post && All(IsPadding, pre) && All(IsPadding, post) && LicenceText(Core(l))
    ensures Fixed(LicenseCheck, l) == if Core(l) == GplLines[0] then pre + Spdx + post else ""
  {
    pre, post := LicenceParts(l);
    GplFacts(Core(l));
    if IsFirstGpl(Core(l)) { ReplaceOnce(pre, Core(l), post, Spdx); }
  }

  /**
    A line of the licence text in a comment, however it is indented: the first is replaced by the SPDX
    identifier, each of the others is deleted.
  */
  lemma LicenceLineInComment(left: Padding, k: nat, right: Padding)
    requires ValidPadding(left) && ValidPadding(right) && k < |GplLines|
    requires (left.comment == [] ==> left.inner == []) && (right.comment == [] ==> right.inner == [])
    ensures var l := Before(left) + GplLines[k] + Behind(right);
            && !LicenseLine(l).0
            && Fixed(LicenseCheck, l) == if k == 0 then Before(left) + Spdx + Behind(right) else ""
  {
    var g := GplLines[k];
    GplFacts(g);
    CoreOfPadded(left, g, right);
    PaddingIsPadding(left);
    PaddingIsPadding(right);
    if k == 0 {
      ReplaceOnce(Before(left), g, Behind(right), Spdx);
    } else {
      OtherLicenceLines(k);
    }
  }

  /** In the comment styles in use. */
  lemma LicenceLineInUse(start: string, k: nat)
    requires start in {"", "// ", " * ", "# ", "/* "} && k < |GplLines|
    ensures Fixed(LicenseCheck, start + GplLines[k] + "\n") == if k == 0 then start + Spdx + "\n" else ""
  {
    var left := if start == "" then Padding("", "", "")
                else if start == "// " then Padding("", "//", " ")
                else if start == " * " then Padding(" ", "*", " ")
                else if start == "# " then Padding("", "#", " ")
                else Padding("", "/*", " ");
    var right := Padding("\n", "", "");
    assert Before(left) == start && Behind(right) == "\n";
    LicenceLineInComment(left, k, right);
  }

  lemma OtherLicenceLines(k: nat)
    requires 0 < k < |GplLines|
    ensures GplLines[k] != GplLines[0]
  {
  }

  /** Only such lines are touched. */
  lemma OnlyLicenceLines(l: string) returns (left: Padding, k: nat, right: Padding)
    requires !LicenseLine(l).0 || Fixed(LicenseCheck, l) != l
    ensures k < |GplLines| && ValidPadding(left) && ValidPadding(right)
    ensures l == Before(left) + GplLines[k] + Behind(right)
  {
    left, right := CoreParts(l);
    k :| k < |GplLines| && GplLines[k] == Core(l);
  }

  // ---------- Which lines are guards ----------

  ghost predicate IsPadded(l: string, pre: string, g: string, post: string) {
    All(IsSpace, pre) && All(IsSpace, post) && l == pre + g + post
  }

  /** A guard line is one of the guards, with nothing but whitespace around it. */
  lemma GuardsExactly(l: string)
    ensures IsOn(l) <==> exists pre, g, post :: g in GuardOn && IsPadded(l, pre, g, post)
    ensures IsOff(l) <==> exists pre, g, post :: g in GuardOff && IsPadded(l, pre, g, post)
  {
    var pre, post := TrimParts(IsSpace, l);
    assert IsPadded(l, pre, Strip(l), post);
    forall pre, g, post | (g in GuardOn || g in GuardOff) && IsPadded(l, pre, g, post) ensures Strip(l) == g {
      GuardFacts(g);
      TrimPadded(IsSpace, pre, g, post);
    }
  }

  /** The SPDX line is no licence text. */
  lemma LicenceFixSettled(l: string)
    requires Fixed(LicenseCheck, l) != []
    ensures LicenseLine(Fixed(LicenseCheck, l)).0
  {
    if IsGpl(Core(l)) {
      var pre, post := LicenceFixed(l);
      var l' := Fixed(LicenseCheck, l);
      SpdxFacts();
      if IsGpl(Core(l')) {
        var pre', post' := LicenceParts(l');
        GplFacts(Core(l'));
        SameStart(pre, Spdx, post, pre', Core(l'), post');
      }
    }
  }

  lemma InMiddle(p: char -> bool, a: string, s: string, b: string, i: nat)
    requires All(p, a) && All(p, b) && i < |a + s + b| && !p((a + s + b)[i])
    ensures |a| <= i < |a| + |s| && (a + s + b)[i] == s[i - |a|]
  {
    forall k | 0 <= k < |a| ensures p(a[k]) { assert a[k] in a; }
    forall k | 0 <= k < |b| ensures p(b[k]) { assert b[k] in b; }
  }

  /** Text with a capital letter is no guard, whatever the padding. */
  lemma UpperIsNoGuard(pre: string, s: string, post: string)
    requires HasUpper(s)
    ensures !IsOn(pre + s + post) && !IsOff(pre + s + post)
  {
    var l := pre + s + post;
    var k :| 0 <= k < |s| && IsUpper(s[k]);
    var a, b := TrimParts(IsSpace, l);
    var i := |pre| + k;
    assert l[i] == s[k];
    InMiddle(IsSpace, a, Strip(l), b, i);
    if IsOn(l) || IsOff(l) { GuardFacts(Strip(l)); }
  }

  lemma LicenceFixGuard(l: string)
    ensures IsOn(l) || IsOff(l) ==> Fixed(LicenseCheck, l) == l
    ensures Fixed(LicenseCheck, l) == l || Fixed(LicenseCheck, l) == []
         || (!IsOn(Fixed(LicenseCheck, l)) && !IsOff(Fixed(LicenseCheck, l)))
  {
    if IsGpl(Core(l)) {
      var pre, post := LicenceFixed(l);
      UpperIsNoGuard(pre, Core(l), post);
      SpdxFacts();
      UpperIsNoGuard(pre, Spdx, post);
    }
  }

  lemma LicenceFixTabs(l: string)
    requires '\t' !in l
    ensures '\t' !in Fixed(LicenseCheck, l)
  {
    if IsGpl(Core(l)) {
      var pre, post := LicenceFixed(l);
      SpdxFacts();
      forall c | c in pre || c in post ensures c in l {}
    }
  }

  lemma LicenceFixShape(l: string)
    requires IsLine(l)
    ensures KeepsShape(LicenseCheck, l)
    ensures IsFullLine(l) && Neat(l) && Fixed(LicenseCheck, l) != [] ==> Neat(Fixed(LicenseCheck, l))
  {
    if IsGpl(Core(l)) {
      var pre, post := LicenceFixed(l);
      SpdxFacts();
      if IsFullLine(l) {
        LicenceFixFull(pre, Core(l), post);
      } else {
        assert IsBody(l);
        forall c | c in pre || c in post ensures c in l {}
      }
    }
  }

  /** Swapping the text between the paddings keeps a full line full and neat. */
  lemma LicenceFixFull(pre: string, s: string, post: string)
    requires IsFullLine(pre + s + post) && LicenceText(s)
    ensures IsFullLine(pre + Spdx + post)
    ensures Neat(pre + s + post) ==> Neat(pre + Spdx + post)
  {
    var l := pre + s + post;
    SpdxFacts();
    assert (pre + s)[|pre + s| - 1] == s[|s| - 1];
    var n := |post| - 1;
    var p := post[..n];
    assert post == p + "\n" by { assert post[n] == l[|l| - 1]; }
    assert l[..|l| - 1] == pre + s + p;
    forall c | c in pre || c in p ensures c != '\n' && c != '\r' { assert c in pre + s + p; }
    assert pre + Spdx + post == pre + Spdx + p + "\n";
    FullLine(pre + Spdx + p);
    NeatParts(pre + Spdx + p);
    assert l == pre + s + p + "\n";
    NeatParts(pre + s + p);
  }
}
