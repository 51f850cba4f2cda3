/**
  A run of the checker over one file: the selected checks one after the other.  The main result is that a
  fixing run is a fixpoint, although expanding tabs can turn a line into a format guard.
*/
module StyleRun {
  import opened PyText
  import opened StyleFile
  import opened StyleChecks

  /** Which checks the user has left enabled (and the file's name asks for). */
  datatype Selection = Selection(whitespace: bool, tabs: bool, license: bool)

  function Stage(on: bool, c: Check, content: string): string {
    if on then FixFile(c, content) else content
  }

  /** The file after a fixing run. */
  function FixRun(sel: Selection, content: string): string {
    Stage(sel.license, LicenseCheck, Stage(sel.tabs, TabsCheck, Stage(sel.whitespace, WhitespaceCheck, content)))
  }

  predicate Clean(sel: Selection, content: string) {
    && (sel.whitespace ==> FileComplies(WhitespaceCheck, content))
    && (sel.tabs ==> FileComplies(TabsCheck, content))
    && (sel.license ==> FileComplies(LicenseCheck, content))
  }

  /** The loop over the checks; in fix mode every check counts as successful. */
  method RunChecks(f: TextFile, sel: Selection, fix: bool, verbose: bool) returns (successful: bool)
    modifies f
    ensures f.content == if fix then FixRun(sel, old(f.content)) else old(f.content)
    ensures successful <==> fix || Clean(sel, old(f.content))
  {
    successful := true;
    if sel.whitespace {
      var compliant := CheckManuallyFile(f, fix, verbose, WhitespaceCheck);
      successful := successful && (compliant || fix);
    }
    if sel.tabs {
      var compliant := CheckManuallyFile(f, fix, verbose, TabsCheck);
      successful := successful && (compliant || fix);
    }
    if sel.license {
      var compliant := CheckManuallyFile(f, fix, verbose, LicenseCheck);
      successful := successful && (compliant || fix);
    }
  }

  // ---------- From contents to lines ----------

  /** Deleted lines leave nothing in the file. */
  function NonEmpty(ls: seq<string>): seq<string> {
    if ls == [] then [] else (if ls[0] == [] then [] else [ls[0]]) + NonEmpty(ls[1..])
  }

  lemma {:induction false} JoinNonEmpty(ls: seq<string>)
    ensures Join(NonEmpty(ls)) == Join(ls)
  {
    if ls != [] {
      JoinNonEmpty(ls[1..]);
      var tail := NonEmpty(ls[1..]);
      assert [] + tail == tail && ([ls[0]] + tail)[1..] == tail && ls[0] + Join(tail) == Join(ls);
    }
  }

  lemma {:induction false} LinesAreLines(ls: seq<string>)
    requires AreLines(ls)
    ensures (forall l | l in ls :: IsLine(l)) && NonEmpty(ls) == ls
  {
    if ls != [] {
      if |ls| > 1 { assert AreLines(ls[1..]); }
      LinesAreLines(ls[1..]);
      assert ls == [ls[0]] + ls[1..];
    }
  }

  lemma {:induction false} CompliantPass(c: Check, ls: seq<string>, enabled: bool)
    requires Compliant(c, ls, enabled)
    ensures Pass(c, ls, enabled) == ls
  {
    if ls != [] {
      CompliantPass(c, ls[1..], NextEnabled(c, ls[0], enabled));
    }
  }

  lemma {:induction false} PassShape(c: Check, ls: seq<string>, enabled: bool)
    requires AreLines(ls) && forall l | l in ls :: KeepsShape(c, l)
    ensures AreLines(NonEmpty(Pass(c, ls, enabled)))
  {
    if ls != [] {
      var next := NextEnabled(c, ls[0], enabled);
      var l, rest := PassLine(c, ls[0], enabled), ls[1..];
      assert Pass(c, ls, enabled) == [l] + Pass(c, rest, next);
      assert KeepsShape(c, ls[0]);
      if rest == [] {
        assert Pass(c, rest, next) == [];
      } else {
        assert AreLines(rest);
        PassShape(c, rest, next);
        if l != [] { AreLinesCons(l, NonEmpty(Pass(c, rest, next))); }
      }
    }
  }

  /** What the next reader of a file finds after a fixing pass. */
  lemma FixFileLines(c: Check, content: string)
    requires forall l | IsLine(l) :: KeepsShape(c, l)
    ensures ReadLines(FixFile(c, content)) == NonEmpty(Pass(c, ReadLines(content), true))
    ensures AreLines(ReadLines(content))
  {
    var ls := ReadLines(content);
    ReadAreLines(content);
    LinesAreLines(ls);
    if FileComplies(c, content) {
      CompliantPass(c, ls, true);
    } else {
      PassShape(c, ls, true);
      JoinNonEmpty(Pass(c, ls, true));
      ReadJoin(NonEmpty(Pass(c, ls, true)));
    }
  }

  lemma AllKeepShape(c: Check)
    requires c == WhitespaceCheck || c == TabsCheck || c == LicenseCheck
    ensures forall l | IsLine(l) :: KeepsShape(c, l)
  {
    forall l | IsLine(l) ensures KeepsShape(c, l) {
      if c == WhitespaceCheck { WhitespaceFix(l); }
      else if c == TabsCheck { TabsFixLine(l); }
      else { LicenceFixShape(l); }
    }
  }

  /** Trailing whitespace is removed everywhere; tabs and licence text only outside the protected lines. */
  lemma WhatGuardsProtect(ls: seq<string>, k: nat)
    requires k < |ls|
    ensures |Pass(WhitespaceCheck, ls, true)| == |Pass(TabsCheck, ls, true)| == |Pass(LicenseCheck, ls, true)| == |ls|
    ensures Pass(WhitespaceCheck, ls, true)[k] == Fixed(WhitespaceCheck, ls[k])
    ensures Pass(TabsCheck, ls, true)[k] == if Protected(ls, k) then ls[k] else Fixed(TabsCheck, ls[k])
    ensures Pass(LicenseCheck, ls, true)[k] == if Protected(ls, k) then ls[k] else Fixed(LicenseCheck, ls[k])
  {
    GuardsProtect(WhitespaceCheck, ls);
    GuardsProtect(TabsCheck, ls);
    GuardsProtect(LicenseCheck, ls);
  }

  // ---------- Trailing whitespace ----------

  ghost predicate NeatLines(ls: seq<string>) {
    forall l | l in ls :: IsFullLine(l) && Neat(l)
  }

  lemma {:induction false} NeatLinesComply(ls: seq<string>, enabled: bool)
    requires AreLines(ls)
    ensures Compliant(WhitespaceCheck, ls, enabled) <==> NeatLines(ls)
  {
    if ls != [] {
      if |ls| > 1 { assert AreLines(ls[1..]); }
      NeatLinesComply(ls[1..], enabled);
      assert ls == [ls[0]] + ls[1..];
      if Neat(ls[0]) { FullLineIfNeat(ls[0]); }
    }
  }

  lemma FullLineIfNeat(l: string)
    requires IsLine(l) && Neat(l)
    ensures IsFullLine(l)
  {
    assert l[|l| - 1] == (RStrip(l) + "\n")[|l| - 1] && l[|l| - 1] in l;
  }

  ghost predicate KeepsNeat(c: Check, l: string) {
    IsFullLine(l) && Neat(l) && Fixed(c, l) != [] ==> IsFullLine(Fixed(c, l)) && Neat(Fixed(c, l))
  }

  /** Whatever `c` makes of neat lines is neat. */
  lemma {:induction false} NeatStays(c: Check, ls: seq<string>, enabled: bool)
    requires NeatLines(ls) && forall l | l in ls :: KeepsNeat(c, l)
    ensures NeatLines(NonEmpty(Pass(c, ls, enabled)))
  {
    if ls != [] {
      NeatStays(c, ls[1..], NextEnabled(c, ls[0], enabled));
      assert KeepsNeat(c, ls[0]) && ls[0] in ls;
    }
  }

  lemma {:induction false} WhitespacePassIsNeat(ls: seq<string>, enabled: bool)
    requires forall l | l in ls :: IsLine(l)
    ensures NeatLines(NonEmpty(Pass(WhitespaceCheck, ls, enabled)))
  {
    if ls != [] {
      WhitespacePassIsNeat(ls[1..], enabled);
      assert ls[0] in ls;
      WhitespaceFix(ls[0]);
    }
  }

  // ---------- Guarded checks ----------

  ghost predicate KeepsGuard(c: Check, l: string) {
    && (IsOn(l) ==> Fixed(c, l) != [] && IsOn(Fixed(c, l)))
    && (IsOff(l) && !IsOn(l) ==> Fixed(c, l) != [] && IsOff(Fixed(c, l)) && !IsOn(Fixed(c, l)))
  }

  /** `c` leaves a line on which `k` is content; if not `own`, provided `k` was content before. */
  ghost predicate Contents(c: Check, k: Check, own: bool, l: string) {
    Fixed(c, l) != [] && (own || k.line(l).0) ==> k.line(Fixed(c, l)).0
  }

  /**
    After a pass of `c`, a later run of `k` finds nothing.  The guards may have changed in between: the
    point is that a line enabled in the later run was enabled in the pass.
  */
  lemma {:induction false} Settles(c: Check, k: Check, ls: seq<string>, enabled: bool, later: bool, own: bool)
    requires c.respectsGuards && k.respectsGuards && (later ==> enabled)
    requires forall l | l in ls :: l != [] && KeepsGuard(c, l) && Contents(c, k, own, l)
    requires !own ==> Compliant(k, ls, enabled)
    ensures Compliant(k, NonEmpty(Pass(c, ls, enabled)), later)
  {
    if ls != [] {
      var next := NextEnabled(c, ls[0], enabled);
      var l := PassLine(c, ls[0], enabled);
      assert ls[0] in ls && KeepsGuard(c, ls[0]) && Contents(c, k, own, ls[0]);
      var tail := NonEmpty(Pass(c, ls[1..], next));
      assert [] + tail == tail;
      forall m | m in ls[1..] ensures m != [] && KeepsGuard(c, m) && Contents(c, k, own, m) { assert m in ls; }
      if l == [] {
        Settles(c, k, ls[1..], next, later, own);
      } else {
        Settles(c, k, ls[1..], next, NextEnabled(k, l, later), own);
        assert ([l] + tail)[1..] == tail;
      }
    }
  }

  lemma TabsLines(ls: seq<string>)
    requires forall l | l in ls :: IsLine(l)
    ensures forall l | l in ls :: l != [] && KeepsGuard(TabsCheck, l) && Contents(TabsCheck, TabsCheck, true, l)
  {
    forall l | l in ls ensures KeepsGuard(TabsCheck, l) && Contents(TabsCheck, TabsCheck, true, l) {
      TabsFixGuard(l);
      TabsFixLine(l);
    }
  }

  lemma LicenceLines(ls: seq<string>)
    requires forall l | l in ls :: IsLine(l)
    ensures forall l | l in ls :: l != [] && KeepsGuard(LicenseCheck, l)
    ensures forall l | l in ls :: Contents(LicenseCheck, LicenseCheck, true, l) && Contents(LicenseCheck, TabsCheck, false, l)
  {
    forall l | l in ls
      ensures KeepsGuard(LicenseCheck, l)
      ensures Contents(LicenseCheck, LicenseCheck, true, l) && Contents(LicenseCheck, TabsCheck, false, l)
    {
      LicenceFixGuard(l);
      if Fixed(LicenseCheck, l) != [] { LicenceFixSettled(l); }
      if '\t' !in l { LicenceFixTabs(l); }
    }
  }

  // ---------- The stages ----------

  lemma WhitespaceStage(content: string)
    ensures FileComplies(WhitespaceCheck, FixFile(WhitespaceCheck, content))
  {
    var ls := ReadLines(content);
    AllKeepShape(WhitespaceCheck);
    FixFileLines(WhitespaceCheck, content);
    LinesAreLines(ls);
    WhitespacePassIsNeat(ls, true);
    ReadAreLines(FixFile(WhitespaceCheck, content));
    NeatLinesComply(ReadLines(FixFile(WhitespaceCheck, content)), true);
  }

  lemma TabsStage(content: string)
    ensures FileComplies(TabsCheck, FixFile(TabsCheck, content))
    ensures FileComplies(WhitespaceCheck, content) ==> FileComplies(WhitespaceCheck, FixFile(TabsCheck, content))
  {
    var ls := ReadLines(content);
    AllKeepShape(TabsCheck);
    FixFileLines(TabsCheck, content);
    LinesAreLines(ls);
    TabsLines(ls);
    Settles(TabsCheck, TabsCheck, ls, true, true, true);
    if FileComplies(WhitespaceCheck, content) {
      NeatLinesComply(ls, true);
      forall l | l in ls ensures KeepsNeat(TabsCheck, l) {
        TabsFixNeat(l);
        TabsFixLine(l);
      }
      NeatStays(TabsCheck, ls, true);
      ReadAreLines(FixFile(TabsCheck, content));
      NeatLinesComply(ReadLines(FixFile(TabsCheck, content)), true);
    }
  }

  lemma LicenseStage(content: string)
    ensures FileComplies(LicenseCheck, FixFile(LicenseCheck, content))
    ensures FileComplies(TabsCheck, content) ==> FileComplies(TabsCheck, FixFile(LicenseCheck, content))
    ensures FileComplies(WhitespaceCheck, content) ==> FileComplies(WhitespaceCheck, FixFile(LicenseCheck, content))
  {
    var ls := ReadLines(content);
    AllKeepShape(LicenseCheck);
    FixFileLines(LicenseCheck, content);
    LinesAreLines(ls);
    LicenceLines(ls);
    Settles(LicenseCheck, LicenseCheck, ls, true, true, true);
    if FileComplies(TabsCheck, content) {
      Settles(LicenseCheck, TabsCheck, ls, true, true, false);
    }
    if FileComplies(WhitespaceCheck, content) {
      NeatLinesComply(ls, true);
      forall l | l in ls ensures KeepsNeat(LicenseCheck, l) { LicenceFixShape(l); }
      NeatStays(LicenseCheck, ls, true);
      ReadAreLines(FixFile(LicenseCheck, content));
      NeatLinesComply(ReadLines(FixFile(LicenseCheck, content)), true);
    }
  }

  /** After a fixing run with any selection of checks, a second run finds all of them satisfied. */
  lemma FixRunIsClean(sel: Selection, content: string)
    ensures Clean(sel, FixRun(sel, content))
  {
    var c1 := Stage(sel.whitespace, WhitespaceCheck, content);
    if sel.whitespace { WhitespaceStage(content); }
    var c2 := Stage(sel.tabs, TabsCheck, c1);
    if sel.tabs { TabsStage(c1); }
    if sel.license { LicenseStage(c2); }
  }

  /** The files a fixing run leaves alone are exactly the clean ones; so a second run changes nothing. */
  lemma FixRunFixpoint(sel: Selection, content: string)
    ensures FixRun(sel, content) == content <==> Clean(sel, content)
    ensures FixRun(sel, FixRun(sel, content)) == FixRun(sel, content)
  {
    FixRunIsClean(sel, content);
  }

  /** The two modes together: a check after a fix is successful. */
  method FixThenCheck(f: TextFile, sel: Selection, verbose: bool) returns (successful: bool)
    modifies f
    ensures successful && f.content == FixRun(sel, old(f.content))
  {
    var fixedAll := RunChecks(f, sel, true, verbose);
    FixRunIsClean(sel, old(f.content));
    successful := RunChecks(f, sel, false, verbose);
  }

  lemma {:induction false} PlainColumns(s: string)
    requires forall c | c in s :: c != '\t' && c != '\n' && c != '\r'
    ensures ColumnAfter(s, 0) == |s|
  {
    if s != [] {
      var front, c := s[..|s| - 1], s[|s| - 1];
      assert s == front + [c] && c in s;
      assert forall x | x in front :: x in s;
      PlainColumns(front);
      ColumnAfterStep(front, c, 0);
    }
  }

  lemma OneSpace()
    ensures Spaces(1) == " "
  {
  }

  lemma TabFromThree(rest: string)
    requires '\t' !in rest
    ensures ExpandTabs("\t" + rest, 3) == " " + rest
  {
    ExpandTabFirst(rest, 3);
    ExpandNoTabs(rest, 4);
    OneSpace();
  }

  /** A tab after three columns becomes one space. */
  lemma TabAtThree(start: string, rest: string)
    requires |start| == 3 && (forall c | c in start :: c != '\t' && c != '\n' && c != '\r') && '\t' !in rest
    ensures ExpandTabs(start + ("\t" + rest), 0) == start + (" " + rest)
  {
    ExpandConcat(start, "\t" + rest, 0);
    PlainColumns(start);
    ExpandNoTabs(start, 0);
    TabFromThree(rest);
  }

  lemma PaddedGuard(g: string)
    requires g in GuardOff
    ensures IsOff("  " + g + "\n")
  {
    GuardFacts(g);
    TrimPadded(IsSpace, "  ", g, "\n");
  }

  /** The line of an off guard with a tab after the hash: no guard before the tabs check, a guard after it. */
  lemma NewGuardExample(rest: string, l: string)
    requires rest == "fmt: off" && l == "  #" + ("\t" + (rest + "\n"))
    ensures !IsOn(l) && !IsOff(l) && IsOff(Fixed(TabsCheck, l))
  {
    var inner := "#" + ("\t" + rest);
    assert l == "  " + inner + "\n";
    assert inner[1] == '\t' && Solid(IsSpace, inner);
    TrimPadded(IsSpace, "  ", inner, "\n");
    if IsOn(l) || IsOff(l) { GuardFacts(inner); }
    TabAtThree("  #", rest + "\n");
    var g := "# " + rest;
    assert g == GuardOff[2];
    PaddedGuard(g);
    assert "  #" + (" " + (rest + "\n")) == "  " + g + "\n";
    assert l[3] == '\t';
  }
}
