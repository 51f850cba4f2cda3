/**
  The file walk of the style checker: it reads a file line by line, keeps track of the format guards, has
  every line that is not switched off checked by a given function, and rewrites the file with the fixes.
*/
module StyleFile {
  import opened PyText

  const GuardOn: seq<string> := ["// clang-format on", "# cmake-format: on", "# fmt: on"]
  const GuardOff: seq<string> := ["// clang-format off", "# cmake-format: off", "# fmt: off"]

  predicate IsOn(line: string) { Strip(line) in GuardOn }

  predicate IsOff(line: string) { Strip(line) in GuardOff }

  /** Whether a line complies, and what it becomes if it does not. */
  type LineFunction = string -> (bool, string)

  datatype Check = Check(respectsGuards: bool, line: LineFunction)

  function Fixed(c: Check, line: string): string {
    if c.line(line).0 then line else c.line(line).1
  }

  /** Whether checking is enabled once `line` has been read. */
  function NextEnabled(c: Check, line: string, enabled: bool): bool {
    if !c.respectsGuards then enabled
    else if IsOn(line) then true
    else if IsOff(line) then false
    else enabled
  }

  /** Guard lines themselves are always checked. */
  predicate Checked(c: Check, line: string, enabled: bool) {
    !c.respectsGuards || NextEnabled(c, line, enabled) || IsOff(line)
  }

  /** What a pass makes of one line. */
  function PassLine(c: Check, line: string, enabled: bool): string {
    if Checked(c, line, enabled) then Fixed(c, line) else line
  }

  predicate LineComplies(c: Check, line: string, enabled: bool) {
    Checked(c, line, enabled) ==> c.line(line).0
  }

  /** The lines after a fixing pass. */
  function Pass(c: Check, lines: seq<string>, enabled: bool): seq<string> {
    if lines == [] then []
    else [PassLine(c, lines[0], enabled)] + Pass(c, lines[1..], NextEnabled(c, lines[0], enabled))
  }

  predicate Compliant(c: Check, lines: seq<string>, enabled: bool) {
    lines == []
    || (LineComplies(c, lines[0], enabled) && Compliant(c, lines[1..], NextEnabled(c, lines[0], enabled)))
  }

  predicate FileComplies(c: Check, content: string) {
    Compliant(c, ReadLines(content), true)
  }

  function FixFile(c: Check, content: string): string {
    if FileComplies(c, content) then content else Join(Pass(c, ReadLines(content), true))
  }

  class TextFile {
    var content: string

    constructor (content: string)
      ensures this.content == content
    {
      this.content := content;
    }
  }

  /** One turn of the loop over the lines: the guard flag, then the check unless the line is skipped. */
  method VisitLine(c: Check, line: string, before: bool) returns (enabled: bool, complies: bool, fixed: string)
    ensures enabled == NextEnabled(c, line, before)
    ensures complies == LineComplies(c, line, before)
    ensures fixed == PassLine(c, line, before)
    ensures complies ==> fixed == line
  {
    enabled := before;
    if c.respectsGuards {
      var lineStripped := Strip(line);
      if lineStripped in GuardOn {
        enabled := true;
      } else if lineStripped in GuardOff {
        enabled := false;
      }
      if !enabled && lineStripped !in GuardOn + GuardOff {
        return enabled, true, line;
      }
    }
    var (isLineCompliant, lineFixed) := c.line(line);
    return enabled, isLineCompliant, if isLineCompliant then line else lineFixed;
  }

  /** The guard flag before line `i`, having started with `enabled`. */
  function EnabledAt(c: Check, lines: seq<string>, enabled: bool, i: nat): bool
    requires i <= |lines|
    decreases i
  {
    if i == 0 then enabled else NextEnabled(c, lines[i - 1], EnabledAt(c, lines, enabled, i - 1))
  }

  lemma EnabledAtNext(c: Check, lines: seq<string>, enabled: bool, i: nat)
    requires i < |lines|
    ensures EnabledAt(c, lines, enabled, i + 1) == NextEnabled(c, lines[i], EnabledAt(c, lines, enabled, i))
  {
  }

  lemma {:induction false} EnabledAtTail(c: Check, lines: seq<string>, enabled: bool, i: nat)
    requires 0 < i <= |lines|
    ensures EnabledAt(c, lines, enabled, i) == EnabledAt(c, lines[1..], NextEnabled(c, lines[0], enabled), i - 1)
    decreases i
  {
    var next := NextEnabled(c, lines[0], enabled);
    EnabledAtNext(c, lines, enabled, i - 1);
    if i > 1 {
      EnabledAtTail(c, lines, enabled, i - 1);
      EnabledAtNext(c, lines[1..], next, i - 2);
    }
  }

  lemma {:induction false} PassLength(c: Check, lines: seq<string>, enabled: bool)
    ensures |Pass(c, lines, enabled)| == |lines|
  {
    if lines != [] { PassLength(c, lines[1..], NextEnabled(c, lines[0], enabled)); }
  }

  lemma {:induction false} PassAtLine(c: Check, lines: seq<string>, enabled: bool, i: nat)
    requires i < |lines| == |Pass(c, lines, enabled)|
    ensures Pass(c, lines, enabled)[i] == PassLine(c, lines[i], EnabledAt(c, lines, enabled, i))
    ensures Compliant(c, lines, enabled) ==> LineComplies(c, lines[i], EnabledAt(c, lines, enabled, i))
    decreases i
  {
    if i > 0 {
      EnabledAtTail(c, lines, enabled, i);
      PassAtLine(c, lines[1..], NextEnabled(c, lines[0], enabled), i - 1);
    }
  }

  /** The first line that does not comply. */
  lemma {:induction false} Offender(c: Check, lines: seq<string>, enabled: bool) returns (i: nat)
    requires !Compliant(c, lines, enabled)
    ensures i < |lines| && !LineComplies(c, lines[i], EnabledAt(c, lines, enabled, i))
    decreases |lines|
  {
    i := 0;
    if LineComplies(c, lines[0], enabled) {
      i := Offender(c, lines[1..], NextEnabled(c, lines[0], enabled));
      i := i + 1;
      EnabledAtTail(c, lines, enabled, i);
    }
  }

  /** The pass and its verdict, line by line. */
  lemma PassAt(c: Check, lines: seq<string>, enabled: bool)
    ensures |Pass(c, lines, enabled)| == |lines|
    ensures forall i | 0 <= i < |lines| ::
              Pass(c, lines, enabled)[i] == PassLine(c, lines[i], EnabledAt(c, lines, enabled, i))
    ensures Compliant(c, lines, enabled)
       <==> forall i | 0 <= i < |lines| :: LineComplies(c, lines[i], EnabledAt(c, lines, enabled, i))
  {
    PassLength(c, lines, enabled);
    forall i: nat | i < |lines|
      ensures Pass(c, lines, enabled)[i] == PassLine(c, lines[i], EnabledAt(c, lines, enabled, i))
      ensures Compliant(c, lines, enabled) ==> LineComplies(c, lines[i], EnabledAt(c, lines, enabled, i))
    {
      PassAtLine(c, lines, enabled, i);
    }
    if !Compliant(c, lines, enabled) { var i := Offender(c, lines, enabled); }
  }

  // ---------- What guards protect ----------

  ghost predicate IsGuard(line: string) { IsOn(line) || IsOff(line) }

  ghost predicate SwitchesOff(line: string) { IsOff(line) && !IsOn(line) }

  /** The last guard before line `k` is the off guard at `i`, and line `k` is no guard. */
  ghost predicate OffSince(lines: seq<string>, k: nat, i: nat)
    requires k < |lines|
  {
    i < k && SwitchesOff(lines[i]) && forall j | i < j <= k :: !IsGuard(lines[j])
  }

  ghost predicate Protected(lines: seq<string>, k: nat)
    requires k < |lines|
  {
    exists i: nat :: OffSince(lines, k, i)
  }

  lemma OffStays(lines: seq<string>, k: nat, i: nat)
    requires k + 1 < |lines| && OffSince(lines, k, i) && !IsGuard(lines[k + 1])
    ensures OffSince(lines, k + 1, i)
  {
  }

  lemma OffStarts(lines: seq<string>, k: nat)
    requires k + 1 < |lines| && SwitchesOff(lines[k]) && !IsGuard(lines[k + 1])
    ensures OffSince(lines, k + 1, k)
  {
  }

  lemma OffBefore(lines: seq<string>, k: nat, i: nat)
    requires k + 1 < |lines| && OffSince(lines, k + 1, i)
    ensures !IsGuard(lines[k + 1]) && (if i == k then SwitchesOff(lines[k]) else OffSince(lines, k, i))
  {
  }

  lemma ProtectedNext(lines: seq<string>, k: nat, n: nat)
    requires n == k + 1 < |lines|
    ensures Protected(lines, n) <==> !IsGuard(lines[n]) && (Protected(lines, k) || SwitchesOff(lines[k]))
  {
    if i: nat :| OffSince(lines, n, i) { OffBefore(lines, k, i); }
    if !IsGuard(lines[n]) {
      if i: nat :| OffSince(lines, k, i) { OffStays(lines, k, i); }
      if SwitchesOff(lines[k]) { OffStarts(lines, k); }
    }
  }

  lemma FlagNext(c: Check, line: string, enabled: bool)
    requires c.respectsGuards
    ensures NextEnabled(c, line, enabled) <==> !SwitchesOff(line) && (IsGuard(line) || enabled)
  {
  }

  lemma FlagThere(c: Check, lines: seq<string>, k: nat, n: nat)
    requires c.respectsGuards && n == k + 1 < |lines|
    ensures EnabledAt(c, lines, true, n)
       <==> !SwitchesOff(lines[k]) && (IsGuard(lines[k]) || EnabledAt(c, lines, true, k))
  {
    EnabledAtNext(c, lines, true, k);
    FlagNext(c, lines[k], EnabledAt(c, lines, true, k));
  }

  /** The guard flag before line `k` is off exactly if the last guard so far is an off guard. */
  ghost predicate FlagTells(c: Check, lines: seq<string>, k: nat)
    requires k < |lines|
  {
    EnabledAt(c, lines, true, k) || IsGuard(lines[k]) <==> !Protected(lines, k)
  }

  lemma FlagTellsNext(c: Check, lines: seq<string>, k: nat, n: nat)
    requires c.respectsGuards && n == k + 1 < |lines| && FlagTells(c, lines, k)
    ensures FlagTells(c, lines, n)
  {
    FlagThere(c, lines, k, n);
    ProtectedNext(lines, k, n);
  }

  lemma {:induction false} FlagBefore(c: Check, lines: seq<string>, k: nat)
    requires c.respectsGuards && k < |lines|
    ensures FlagTells(c, lines, k)
    decreases k
  {
    if k > 0 {
      FlagBefore(c, lines, k - 1);
      FlagTellsNext(c, lines, k - 1, k);
    }
  }

  lemma CheckedIffUnprotected(c: Check, lines: seq<string>, k: nat)
    requires k < |lines|
    ensures Checked(c, lines[k], EnabledAt(c, lines, true, k)) <==> !c.respectsGuards || !Protected(lines, k)
  {
    if c.respectsGuards {
      FlagBefore(c, lines, k);
      FlagNext(c, lines[k], EnabledAt(c, lines, true, k));
    }
  }

  /**
    A pass fixes every line, except that a check which respects guards leaves the lines between an off guard
    and the next guard alone; and only the lines it fixes matter for the verdict.
  */
  lemma GuardsProtect(c: Check, lines: seq<string>)
    ensures |Pass(c, lines, true)| == |lines|
    ensures forall k: nat | k < |lines| ::
              Pass(c, lines, true)[k]
              == if c.respectsGuards && Protected(lines, k) then lines[k] else Fixed(c, lines[k])
    ensures Compliant(c, lines, true)
       <==> forall k: nat | k < |lines| && !(c.respectsGuards && Protected(lines, k)) :: c.line(lines[k]).0
  {
    PassAt(c, lines, true);
    forall k: nat | k < |lines|
      ensures Checked(c, lines[k], EnabledAt(c, lines, true, k)) <==> !(c.respectsGuards && Protected(lines, k))
    {
      CheckedIffUnprotected(c, lines, k);
    }
    assert forall k: nat | k < |lines| ::
      LineComplies(c, lines[k], EnabledAt(c, lines, true, k))
      <==> (!(c.respectsGuards && Protected(lines, k)) ==> c.line(lines[k]).0);
  }

  /** A file is rewritten line by line, and only if some line that is not protected does not comply. */
  lemma FixFileExact(c: Check, content: string) returns (lines: seq<string>)
    ensures lines == ReadLines(content) && |lines| == |Pass(c, lines, true)|
    ensures FileComplies(c, content)
       <==> forall k: nat | k < |lines| && !(c.respectsGuards && Protected(lines, k)) :: c.line(lines[k]).0
    ensures FileComplies(c, content) ==> FixFile(c, content) == content
    ensures !FileComplies(c, content) ==>
              FixFile(c, content) == Join(seq(|lines|, k requires 0 <= k < |lines| =>
                if c.respectsGuards && Protected(lines, k) then lines[k] else Fixed(c, lines[k])))
  {
    lines := ReadLines(content);
    GuardsProtect(c, lines);
    assert Pass(c, lines, true) == seq(|lines|, k requires 0 <= k < |lines| =>
      if c.respectsGuards && Protected(lines, k) then lines[k] else Fixed(c, lines[k]));
  }

  /** The loop has seen the guard flag before line `k`. */
  ghost predicate FlagSeen(c: Check, lines: seq<string>, flags: seq<bool>, k: nat)
    requires k < |flags| && k <= |lines|
  {
    flags[k] == EnabledAt(c, lines, true, k)
  }

  /** What the loop has established before line `i`; `flags` are the guard flags it has seen. */
  ghost predicate Visited(c: Check, lines: seq<string>, fileLines: seq<string>, flags: seq<bool>, i: nat) {
    && |fileLines| == |lines| && |flags| == i + 1 && i <= |lines|
    && (forall k: nat | k <= i :: FlagSeen(c, lines, flags, k))
    && (forall k | 0 <= k < i :: fileLines[k] == PassLine(c, lines[k], flags[k]))
    && (forall k | i <= k < |lines| :: fileLines[k] == lines[k])
  }

  lemma FlagsNext(c: Check, lines: seq<string>, flags: seq<bool>, i: nat, next: bool)
    requires i < |lines| && |flags| == i + 1 && forall k: nat | k <= i :: FlagSeen(c, lines, flags, k)
    requires next == EnabledAt(c, lines, true, i + 1)
    ensures forall k: nat | k <= i + 1 :: FlagSeen(c, lines, flags + [next], k)
  {
    forall k: nat | k <= i + 1 ensures FlagSeen(c, lines, flags + [next], k) {
      if k <= i { assert FlagSeen(c, lines, flags, k); }
    }
  }

  lemma VisitNext(c: Check, lines: seq<string>, fileLines: seq<string>, flags: seq<bool>, i: nat)
    requires i < |lines| && Visited(c, lines, fileLines, flags, i)
    ensures Visited(c, lines, fileLines[i := PassLine(c, lines[i], flags[i])],
                    flags + [NextEnabled(c, lines[i], flags[i])], i + 1)
  {
    assert FlagSeen(c, lines, flags, i);
    EnabledAtNext(c, lines, true, i);
    FlagsNext(c, lines, flags, i, NextEnabled(c, lines[i], flags[i]));
  }

  lemma VisitDone(c: Check, lines: seq<string>, fileLines: seq<string>, flags: seq<bool>)
    requires Visited(c, lines, fileLines, flags, |lines|)
    ensures fileLines == Pass(c, lines, true)
    ensures Compliant(c, lines, true) <==> forall k | 0 <= k < |lines| :: LineComplies(c, lines[k], flags[k])
  {
    forall k: nat | k < |lines| ensures flags[k] == EnabledAt(c, lines, true, k) {
      assert FlagSeen(c, lines, flags, k);
    }
    PassAt(c, lines, true);
  }

  lemma Offence(c: Check, lines: seq<string>, i: nat)
    requires i < |lines| && !LineComplies(c, lines[i], EnabledAt(c, lines, true, i))
    ensures !Compliant(c, lines, true)
  {
    PassAt(c, lines, true);
  }

  /** The loop over the lines.  In plain check mode the first offence ends it. */
  method VisitLines(c: Check, lines: seq<string>, fix: bool, verbose: bool)
    returns (isFileCompliant: bool, fileLines: seq<string>)
    ensures isFileCompliant == Compliant(c, lines, true)
    ensures fix || verbose ==> fileLines == Pass(c, lines, true)
  {
    isFileCompliant := true;
    var clangFormatEnabled := true;
    fileLines := lines;
    ghost var flags := [true];
    for i := 0 to |fileLines|
      invariant Visited(c, lines, fileLines, flags, i) && |fileLines| == |lines| && clangFormatEnabled == flags[i]
      invariant isFileCompliant <==> forall k | 0 <= k < i :: LineComplies(c, lines[k], flags[k])
    {
      VisitNext(c, lines, fileLines, flags, i);
      var isLineCompliant, lineFixed;
      clangFormatEnabled, isLineCompliant, lineFixed := VisitLine(c, fileLines[i], clangFormatEnabled);
      if !isLineCompliant {
        isFileCompliant := false;
        fileLines := fileLines[i := lineFixed];
        if !fix && !verbose {
          assert FlagSeen(c, lines, flags, i);
          Offence(c, lines, i);
          return;
        }
      }
      flags := flags + [clangFormatEnabled];
    }
    VisitDone(c, lines, fileLines, flags);
  }

  /** `check_manually_file`: the verdict is the one before the fix. */
  method CheckManuallyFile(f: TextFile, fix: bool, verbose: bool, c: Check) returns (isFileCompliant: bool)
    modifies f
    ensures isFileCompliant == old(FileComplies(c, f.content))
    ensures f.content == if fix then old(FixFile(c, f.content)) else old(f.content)
  {
    var fileLines := ReadLines(f.content);
    isFileCompliant, fileLines := VisitLines(c, fileLines, fix, verbose);
    if fix && !isFileCompliant {
      f.content := Join(fileLines);
    }
  }
}
