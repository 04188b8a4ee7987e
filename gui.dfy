/**
  * The logic of the font manager's window that does not depend on widgets:
  * the tab and search filters over the catalog, the status line, the family
  * name derived from a registry value name for the preview, and the batch
  * install and uninstall loops with their result summaries.
  */
module FontManagerGui {
  import opened Sequences
  import opened Paths
  import opened Catalog
  import opened FontRegistry

  // ---------------------------------------------------------------------
  // Decimal numbers, as f-strings print them
  // ---------------------------------------------------------------------

  predicate IsDigit(c: char) {
    '0' <= c <= '9'
  }

  function DigitChar(d: nat): (c: char)
    requires d < 10
    ensures IsDigit(c) && c as int - '0' as int == d
  {
    ('0' as int + d) as char
  }

  /** `str(n)`: the decimal digits of `n`, without leading zeros. */
  function NatToString(n: nat): (r: string)
    decreases n
    ensures r != [] && forall i :: 0 <= i < |r| ==> IsDigit(r[i])
    ensures r[0] == '0' ==> n == 0
  {
    if n < 10 then [DigitChar(n)] else NatToString(n / 10) + [DigitChar(n % 10)]
  }

  /** The number a string of decimal digits denotes. */
  function DigitsValue(s: string): nat
    requires forall i :: 0 <= i < |s| ==> IsDigit(s[i])
  {
    if s == [] then 0
    else
      var last := s[|s| - 1];
      assert IsDigit(last);
      DigitsValue(s[..|s| - 1]) * 10 + (last as int - '0' as int)
  }

  lemma {:induction false} NatToStringValue(n: nat)
    ensures DigitsValue(NatToString(n)) == n
    decreases n
  {
    if n >= 10 {
      NatToStringValue(n / 10);
      var r := NatToString(n);
      assert r[..|r| - 1] == NatToString(n / 10);
    }
  }

  /** Different counts print differently. */
  lemma NatToStringInjective(a: nat, b: nat)
    requires NatToString(a) == NatToString(b)
    ensures a == b
  {
    NatToStringValue(a);
    NatToStringValue(b);
  }

  // ---------------------------------------------------------------------
  // Filters
  // ---------------------------------------------------------------------

  /** The condition a comprehension of `_apply_filters` keeps records by. */
  datatype Criterion = InScope(scope: Scope) | MatchesText(text: string)

  /** The search text occurs in the lower-cased name or the lower-cased file. */
  predicate Matches(f: FontRecord, text: string) {
    Contains(Lower(f.name), text) || Contains(Lower(f.file), text)
  }

  predicate Accepts(c: Criterion, f: FontRecord) {
    match c
    case InScope(scope) => f.scope == scope
    case MatchesText(text) => Matches(f, text)
  }

  /** `[f for f in s if ...]`. */
  function Select(s: seq<FontRecord>, c: Criterion): seq<FontRecord> {
    if s == [] then [] else (if Accepts(c, s[0]) then [s[0]] else []) + Select(s[1..], c)
  }

  lemma {:induction false} SelectSound(s: seq<FontRecord>, c: Criterion)
    ensures IsSubseq(Select(s, c), s)
    ensures forall x :: x in Select(s, c) <==> x in s && Accepts(c, x)
  {
    if s != [] {
      SelectSound(s[1..], c);
      var t := Select(s[1..], c);
      if Accepts(c, s[0]) {
        assert Select(s, c) == [s[0]] + t;
        assert ([s[0]] + t)[1..] == t;
      } else {
        assert Select(s, c) == t;
      }
      forall x ensures x in s <==> x == s[0] || x in s[1..] {
        assert s == [s[0]] + s[1..];
      }
    }
  }

  /** A comprehension drops nothing exactly when every element passes its condition. */
  lemma {:induction false} SelectKeepsAll(s: seq<FontRecord>, c: Criterion)
    ensures |Select(s, c)| <= |s|
    ensures |Select(s, c)| == |s| <==> forall i :: 0 <= i < |s| ==> Accepts(c, s[i])
  {
    if s != [] {
      SelectKeepsAll(s[1..], c);
      if forall i :: 0 <= i < |s| ==> Accepts(c, s[i]) {
        assert forall i :: 0 <= i < |s[1..]| ==> Accepts(c, s[1..][i]) by {
          forall i | 0 <= i < |s[1..]| ensures Accepts(c, s[1..][i]) {
            assert s[1..][i] == s[i + 1];
          }
        }
      }
      if forall i :: 0 <= i < |s[1..]| ==> Accepts(c, s[1..][i]) {
        if Accepts(c, s[0]) {
          forall i | 0 <= i < |s| ensures Accepts(c, s[i]) {
            if i > 0 {
              assert s[i] == s[1..][i - 1];
            }
          }
        }
      }
    }
  }

  /** The scope a tab shows: "user" shows user fonts, any other tab system fonts. */
  function TabScope(tab: string): Scope {
    if tab == "user" then User else System
  }

  /** `current_fonts`: the catalog records of the tab's scope. */
  function TabFonts(all: seq<FontRecord>, tab: string): seq<FontRecord> {
    Select(all, InScope(TabScope(tab)))
  }

  /** `filtered_fonts`: the tab's records, further narrowed by a non-empty lower-cased search text. */
  function FilterFonts(all: seq<FontRecord>, tab: string, search: string): seq<FontRecord> {
    var current := TabFonts(all, tab);
    var text := Lower(search);
    if text != [] then Select(current, MatchesText(text)) else current
  }

  /**
    * The filtered list keeps the catalog's order and holds exactly the
    * records of the tab's scope that match the search, or all of them when
    * the search is empty.
    */
  lemma FilterFontsCorrect(all: seq<FontRecord>, tab: string, search: string)
    ensures IsSubseq(FilterFonts(all, tab, search), TabFonts(all, tab))
    ensures IsSubseq(FilterFonts(all, tab, search), all)
    ensures forall x :: x in FilterFonts(all, tab, search) <==>
      x in all && x.scope == TabScope(tab) && (search == [] || Matches(x, Lower(search)))
    ensures search == [] ==> FilterFonts(all, tab, search) == TabFonts(all, tab)
  {
    var current := TabFonts(all, tab);
    SelectSound(all, InScope(TabScope(tab)));
    SelectSound(current, MatchesText(Lower(search)));
    if Lower(search) != [] {
      SubseqTrans(FilterFonts(all, tab, search), current, all);
    } else {
      SubseqRefl(current);
    }
  }

  // ---------------------------------------------------------------------
  // Status line
  // ---------------------------------------------------------------------

  /** The kind of font the status line names: system on the "system" tab, user on any other. */
  function StatusTypeText(tab: string): string {
    if tab == "system" then SystemTypeName else UserTypeName
  }

  /** `_update_tree`'s status text for `count` shown records out of `total` in the tab. */
  function StatusText(count: nat, total: nat, tab: string): string {
    if count == total then "共 " + NatToString(total) + " 个" + StatusTypeText(tab)
    else "显示 " + NatToString(count) + " 个" + StatusTypeText(tab) + "（共 " + NatToString(total) + " 个）"
  }

  /**
    * The status line reads "共 …" exactly when the search hides none of the
    * tab's records; otherwise it reads "显示 …" and names both counts.
    */
  lemma StatusLineCorrect(all: seq<FontRecord>, tab: string, search: string)
    ensures var current := TabFonts(all, tab);
            var status := StatusText(|FilterFonts(all, tab, search)|, |current|, tab);
      && (status[0] == '共' <==> forall i :: 0 <= i < |current| ==> search == [] || Matches(current[i], Lower(search)))
      && (status[0] == '共' ==> status == "共 " + NatToString(|current|) + " 个" + StatusTypeText(tab))
  {
    var current := TabFonts(all, tab);
    SelectKeepsAll(current, MatchesText(Lower(search)));
  }

  // ---------------------------------------------------------------------
  // Family name for the preview
  // ---------------------------------------------------------------------

  /** The type annotations `_preview_font_inline` tries, in this order. */
  const TypeSuffixes: seq<string> := [" (TrueType)", " (OpenType)", " (TTC)", " & ", "(TrueType)", "(OpenType)"]

  /** The first text at or after position `k` of `suffixes` that occurs in `name`. */
  function FirstSuffixFrom(name: string, suffixes: seq<string>, k: nat): (r: Option<nat>)
    decreases |suffixes| - k
    ensures r.Some? ==> k <= r.value < |suffixes| && Contains(name, suffixes[r.value])
    ensures r.Some? ==> forall j :: k <= j < r.value ==> !Contains(name, suffixes[j])
    ensures r.None? ==> forall j :: k <= j < |suffixes| ==> !Contains(name, suffixes[j])
  {
    if k >= |suffixes| then None
    else if Contains(name, suffixes[k]) then Some(k)
    else FirstSuffixFrom(name, suffixes, k + 1)
  }

  /** No text of `suffixes` is empty, as `str.split` demands of its separator. */
  predicate NonEmptyTexts(suffixes: seq<string>) {
    forall j :: 0 <= j < |suffixes| ==> suffixes[j] != []
  }

  /** The text before the first of `suffixes` that occurs, stripped; `name` itself if none occurs. */
  function StripFirstSuffix(name: string, suffixes: seq<string>): string
    requires NonEmptyTexts(suffixes)
  {
    match FirstSuffixFrom(name, suffixes, 0)
    case None => name
    case Some(k) => Strip(BeforeFirst(name, suffixes[k]))
  }

  /** The family name the preview uses for a registry value name. */
  function FamilyName(name: string): string {
    StripFirstSuffix(name, TypeSuffixes)
  }

  /** When text `k` occurs and none before it does, the search from position `i <= k` finds `k`. */
  lemma {:induction false} FirstSuffixIs(name: string, suffixes: seq<string>, i: nat, k: nat)
    requires i <= k < |suffixes| && Contains(name, suffixes[k])
    requires forall j :: i <= j < k ==> !Contains(name, suffixes[j])
    ensures FirstSuffixFrom(name, suffixes, i) == Some(k)
    decreases k - i
  {
    if i < k {
      FirstSuffixIs(name, suffixes, i + 1, k);
    }
  }

  /** The suffix loop: try each text in turn and stop at the first one that occurs. */
  method StripFirstSuffixOf(fontName: string, suffixes: seq<string>) returns (actualFontName: string)
    requires NonEmptyTexts(suffixes)
    ensures actualFontName == StripFirstSuffix(fontName, suffixes)
  {
    actualFontName := fontName;
    for k := 0 to |suffixes|
      invariant actualFontName == fontName
      invariant forall j :: 0 <= j < k ==> !Contains(fontName, suffixes[j])
    {
      var suffix := suffixes[k];
      var found := Contains(actualFontName, suffix);
      if found {
        FirstSuffixIs(fontName, suffixes, 0, k);
        actualFontName := Strip(BeforeFirst(actualFontName, suffix));
        return;
      }
    }
    assert FirstSuffixFrom(fontName, suffixes, 0).None?;
  }

  /** `_preview_font_inline`'s loop over the six type annotations. */
  method FamilyNameOf(fontName: string) returns (actualFontName: string)
    ensures actualFontName == FamilyName(fontName)
  {
    actualFontName := StripFirstSuffixOf(fontName, TypeSuffixes);
  }

  predicate NoParen(s: string) {
    forall i :: 0 <= i < |s| ==> s[i] != '('
  }

  /** A text with a '(' at position `p` never occurs in a text with no '('. */
  lemma ParenNeverOccurs(s: string, t: string, p: nat)
    requires NoParen(s) && p < |t| && t[p] == '('
    ensures !Contains(s, t)
  {
    ContainsIff(s, t);
  }

  /**
    * In `stem + ann`, where `ann` is an 11-character annotation opening with
    * " (", an 11-character text with '(' second can only occur where `ann`
    * starts, and only if it is `ann`.
    */
  lemma AnnotationOccurrence(stem: string, ann: string, t: string, k: int)
    requires NoParen(stem) && |ann| == 11 && ann[0] == ' ' && |t| == 11 && t[1] == '('
    requires OccursAt(stem + ann, t, k)
    ensures k == |stem| && t == ann
  {
    var s := stem + ann;
    assert s[k..k + |t|][1] == s[k + 1];
    assert s[|stem|..] == ann;
  }

  /** The family name of `stem + ann` when `ann` is the first annotation that occurs. */
  lemma AnnotatedFamilyName(stem: string, ann: string, k: nat)
    requires NoParen(stem) && |ann| == 11 && ann[0] == ' ' && ann[1] == '('
    requires k < |TypeSuffixes| && TypeSuffixes[k] == ann
    requires forall j :: 0 <= j < k ==> !Contains(stem + ann, TypeSuffixes[j])
    ensures FamilyName(stem + ann) == Strip(stem)
  {
    var s := stem + ann;
    assert s[|stem|..|stem| + |ann|] == ann;
    assert OccursAt(s, ann, |stem|);
    ContainsIff(s, ann);
    assert FirstSuffixFrom(s, TypeSuffixes, 0) == Some(k);
    var v := IndexOf(s, ann).value;
    AnnotationOccurrence(stem, ann, ann, v);
    assert s[..|stem|] == stem;
  }

  /**
    * Preview after install: the family name of the value name `install_font`
    * writes is the stripped stem for .ttf and .otf and the bare stem
    * otherwise, provided the stem contains no '(' and no " & ".
    */
  lemma FamilyNameOfRegistryName(fileName: string, ext: string)
    requires NoParen(SplitExt(fileName).0) && !Contains(SplitExt(fileName).0, " & ")
    ensures var stem := SplitExt(fileName).0;
      FamilyName(RegistryName(fileName, ext)) == if ext == ".ttf" || ext == ".otf" then Strip(stem) else stem
  {
    var stem := SplitExt(fileName).0;
    if ext == ".ttf" {
      AnnotatedFamilyName(stem, " (TrueType)", 0);
    } else if ext == ".otf" {
      var s := stem + " (OpenType)";
      ContainsIff(s, " (TrueType)");
      if Contains(s, " (TrueType)") {
        var k :| OccursAt(s, " (TrueType)", k);
        AnnotationOccurrence(stem, " (OpenType)", " (TrueType)", k);
      }
      AnnotatedFamilyName(stem, " (OpenType)", 1);
    } else {
      ParenNeverOccurs(stem, " (TrueType)", 1);
      ParenNeverOccurs(stem, " (OpenType)", 1);
      ParenNeverOccurs(stem, " (TTC)", 1);
      ParenNeverOccurs(stem, "(TrueType)", 0);
      ParenNeverOccurs(stem, "(OpenType)", 0);
      assert FirstSuffixFrom(stem, TypeSuffixes, 0) == None;
    }
  }

  // ---------------------------------------------------------------------
  // Batch results
  // ---------------------------------------------------------------------

  /** One item of a batch: its label for the error list and what the engine returned. */
  datatype Outcome = Outcome(item: string, ok: bool, message: string)

  /** The loop's `success_count`, `fail_count` and `errors`. */
  datatype Tally = Tally(successCount: nat, failCount: nat, errors: seq<string>)

  function ErrorLine(o: Outcome): string {
    o.item + ": " + o.message
  }

  /** The accumulators after the loop has handled `outs`. */
  function TallyOf(outs: seq<Outcome>): Tally
    decreases |outs|
  {
    if outs == [] then Tally(0, 0, [])
    else
      var t := TallyOf(outs[..|outs| - 1]);
      var o := outs[|outs| - 1];
      if o.ok then Tally(t.successCount + 1, t.failCount, t.errors)
      else Tally(t.successCount, t.failCount + 1, t.errors + [ErrorLine(o)])
  }

  /** Handling one more item adds to exactly one counter, and a failure appends its error line. */
  lemma TallySnoc(outs: seq<Outcome>, o: Outcome)
    ensures var t := TallyOf(outs);
      TallyOf(outs + [o])
        == if o.ok then Tally(t.successCount + 1, t.failCount, t.errors)
           else Tally(t.successCount, t.failCount + 1, t.errors + [ErrorLine(o)])
  {
    assert (outs + [o])[..|outs|] == outs;
  }

  /**
    * Every item is counted once, every failure leaves exactly one error line
    * naming its item and message, in item order, and nothing else does.
    */
  lemma {:induction false} TallyCounts(outs: seq<Outcome>)
    ensures var t := TallyOf(outs);
      && t.successCount + t.failCount == |outs|
      && |t.errors| == t.failCount
      && (t.failCount == 0 <==> forall i :: 0 <= i < |outs| ==> outs[i].ok)
      && (forall e :: e in t.errors <==> exists i :: 0 <= i < |outs| && !outs[i].ok && e == ErrorLine(outs[i]))
    decreases |outs|
  {
    if outs != [] {
      var pre := outs[..|outs| - 1];
      var o := outs[|outs| - 1];
      TallyCounts(pre);
      var t := TallyOf(outs);
      forall e ensures e in t.errors <==> exists i :: 0 <= i < |outs| && !outs[i].ok && e == ErrorLine(outs[i]) {
        if e in t.errors {
          if e in TallyOf(pre).errors {
            var i :| 0 <= i < |pre| && !pre[i].ok && e == ErrorLine(pre[i]);
            assert outs[i] == pre[i];
          } else {
            assert !o.ok && e == ErrorLine(outs[|outs| - 1]);
          }
        }
        if exists i :: 0 <= i < |outs| && !outs[i].ok && e == ErrorLine(outs[i]) {
          var i :| 0 <= i < |outs| && !outs[i].ok && e == ErrorLine(outs[i]);
          if i < |pre| {
            assert pre[i] == outs[i];
          }
        }
      }
      if forall i :: 0 <= i < |outs| ==> outs[i].ok {
        assert forall i :: 0 <= i < |pre| ==> pre[i].ok by {
          forall i | 0 <= i < |pre| ensures pre[i].ok {
            assert pre[i] == outs[i];
          }
        }
      }
      if TallyOf(outs).failCount == 0 {
        forall i | 0 <= i < |outs| ensures outs[i].ok {
          if i < |pre| {
            assert pre[i] == outs[i];
          }
        }
      }
    }
  }

  /** `"\n".join(lines)`. */
  function JoinLines(lines: seq<string>): string
    decreases |lines|
  {
    if lines == [] then "" else if |lines| == 1 then lines[0] else lines[0] + "\n" + JoinLines(lines[1..])
  }

  /** `errors[:5]`: the error lines the summary shows. */
  function Shown(errors: seq<string>): (r: seq<string>)
    ensures |r| == if |errors| < 5 then |errors| else 5
    ensures r == errors[..|r|]
  {
    if |errors| < 5 then errors else errors[..5]
  }

  const DetailsHeader := "\n\n错误详情:\n"

  /** The closing line when more than five errors were collected. */
  function Omitted(errorCount: nat): string {
    if errorCount > 5 then "\n... 还有 " + NatToString(errorCount - 5) + " 个错误" else ""
  }

  /** The error part of the summary: at most five lines, then a count of the lines left out. */
  function Details(errors: seq<string>): string {
    if errors != [] then DetailsHeader + JoinLines(Shown(errors)) + Omitted(|errors|) else ""
  }

  /** The first line of the summary; `verb` is "安装" or "卸载". */
  function SuccessLine(verb: string, successCount: nat): string {
    "成功" + verb + " " + NatToString(successCount) + " 个字体"
  }

  function FailureTail(t: Tally): string {
    "\n失败 " + NatToString(t.failCount) + " 个" + Details(t.errors)
  }

  /** The text of the result dialog. */
  function Summary(verb: string, t: Tally): string {
    if t.failCount > 0 then SuccessLine(verb, t.successCount) + FailureTail(t) else SuccessLine(verb, t.successCount)
  }

  /**
    * For a tally the loop produced, the summary is exactly the success line
    * when nothing failed; otherwise the error section is always present,
    * lists the first five error lines and counts the rest.
    */
  lemma SummaryOfTally(verb: string, outs: seq<Outcome>)
    ensures var t := TallyOf(outs);
      (Summary(verb, t) == SuccessLine(verb, t.successCount)) <==> (forall i :: 0 <= i < |outs| ==> outs[i].ok)
    ensures var t := TallyOf(outs);
      t.failCount > 0 ==> Details(t.errors) == DetailsHeader + JoinLines(Shown(t.errors)) + Omitted(t.failCount)
  {
    TallyCounts(outs);
    var t := TallyOf(outs);
    if t.failCount > 0 {
      assert |FailureTail(t)| >= 4;
      assert |Summary(verb, t)| > |SuccessLine(verb, t.successCount)|;
    }
  }

  /** The result dialog is an error dialog exactly when nothing succeeded. */
  predicate IsErrorDialog(t: Tally) {
    t.successCount == 0
  }

  // ---------------------------------------------------------------------
  // Batch operations
  // ---------------------------------------------------------------------

  const NoSelectionMessage := "请先选择要卸载的字体"
  const SystemTabRefusalMessage := "无法卸载系统字体\n\n系统字体由Windows管理，不支持通过此工具卸载。"

  /** How a batch command ended. */
  datatype BatchResult =
    | Cancelled                     // no type chosen, no file chosen, or confirmation declined
    | Warned(message: string)       // no rows selected, or the system tab
    | Finished(outcomes: seq<Outcome>, tally: Tally, summary: string, isError: bool)

  /** The fault the operating system raises at step `i` of a batch, if any. */
  function FaultAt(faults: seq<Option<Fault>>, i: nat): Option<Fault> {
    if i < |faults| then faults[i] else None
  }

  /** After a successful install: the target file exists and the value name is in the hive. */
  predicate InstalledIn(files: set<string>, hive: Hive, target: string, regName: string) {
    Exists(files, target) && HasValue(hive, regName)
  }

  /** After a successful uninstall: the value name is gone from the hive and the file from disk. */
  predicate RemovedFrom(files: set<string>, hive: Hive, path: string, name: string) {
    !HasValue(hive, name) && !Exists(files, path)
  }

  /** The outcomes of a batch, item by item, and the state it leaves. */
  datatype Run = Run(outcomes: seq<Outcome>, os: Os)

  /**
    * The install loop from state `os` over the first `n` chosen files: each
    * is installed into the state the files before it left, and labelled
    * with its base name.
    */
  function InstallRun(systemDir: string, userDir: string, os: Os, kind: string, paths: seq<string>,
                      copyFaults: seq<Option<Fault>>, writeFaults: seq<Option<Fault>>, n: nat): (run: Run)
    requires n <= |paths|
    ensures |run.outcomes| == n
    ensures forall i :: 0 <= i < n ==> run.outcomes[i].item == Basename(paths[i])
  {
    if n == 0 then Run([], os)
    else
      var pre := InstallRun(systemDir, userDir, os, kind, paths, copyFaults, writeFaults, n - 1);
      var r := InstallStep(systemDir, userDir, pre.os, paths[n - 1], kind, FaultAt(copyFaults, n - 1), FaultAt(writeFaults, n - 1));
      Run(pre.outcomes + [Outcome(Basename(paths[n - 1]), r.ok, r.message)], r.os)
  }

  /** Item `i` of an install batch reports what the engine returned for it, in the state the items before it left. */
  lemma {:induction false} InstallRunItem(systemDir: string, userDir: string, os: Os, kind: string, paths: seq<string>,
                                          copyFaults: seq<Option<Fault>>, writeFaults: seq<Option<Fault>>, n: nat, i: nat)
    requires i < n <= |paths|
    ensures var pre := InstallRun(systemDir, userDir, os, kind, paths, copyFaults, writeFaults, i);
            var r := InstallStep(systemDir, userDir, pre.os, paths[i], kind, FaultAt(copyFaults, i), FaultAt(writeFaults, i));
      InstallRun(systemDir, userDir, os, kind, paths, copyFaults, writeFaults, n).outcomes[i]
        == Outcome(Basename(paths[i]), r.ok, r.message)
  {
    var pre := InstallRun(systemDir, userDir, os, kind, paths, copyFaults, writeFaults, n - 1);
    var r := InstallStep(systemDir, userDir, pre.os, paths[n - 1], kind, FaultAt(copyFaults, n - 1), FaultAt(writeFaults, n - 1));
    var outs := InstallRun(systemDir, userDir, os, kind, paths, copyFaults, writeFaults, n).outcomes;
    assert outs == pre.outcomes + [Outcome(Basename(paths[n - 1]), r.ok, r.message)];
    if i < n - 1 {
      InstallRunItem(systemDir, userDir, os, kind, paths, copyFaults, writeFaults, n - 1, i);
      assert outs[i] == pre.outcomes[i];
    } else {
      assert outs[i] == Outcome(Basename(paths[n - 1]), r.ok, r.message);
    }
  }

  /**
    * What an install batch leaves: one notification per success, no file
    * removed, no value name lost, the other scope's hive untouched, and for
    * every success the target file and the value name in place.
    */
  lemma {:induction false} InstallRunEffects(systemDir: string, userDir: string, os: Os, kind: string, paths: seq<string>,
                                             copyFaults: seq<Option<Fault>>, writeFaults: seq<Option<Fault>>, n: nat)
    requires n <= |paths|
    ensures var run := InstallRun(systemDir, userDir, os, kind, paths, copyFaults, writeFaults, n);
            var scope := InstallScope(kind);
      && (ValidOs(os) ==> ValidOs(run.os))
      && run.os.notifications == os.notifications + TallyOf(run.outcomes).successCount
      && os.files <= run.os.files
      && HiveIn(run.os, OtherScope(scope)) == HiveIn(os, OtherScope(scope))
      && (forall v :: HasValue(HiveIn(os, scope), v) ==> HasValue(HiveIn(run.os, scope), v))
      && (forall i :: 0 <= i < n && run.outcomes[i].ok ==>
            InstalledIn(run.os.files, HiveIn(run.os, scope), TargetPath(systemDir, userDir, paths[i], kind),
                        RegistryName(Basename(paths[i]), InstallExt(paths[i]))))
  {
    if n > 0 {
      var scope := InstallScope(kind);
      var i := n - 1;
      var pre := InstallRun(systemDir, userDir, os, kind, paths, copyFaults, writeFaults, i);
      var path := paths[i];
      var r := InstallStep(systemDir, userDir, pre.os, path, kind, FaultAt(copyFaults, i), FaultAt(writeFaults, i));
      var run := InstallRun(systemDir, userDir, os, kind, paths, copyFaults, writeFaults, n);
      var name := RegistryName(Basename(path), InstallExt(path));
      InstallRunEffects(systemDir, userDir, os, kind, paths, copyFaults, writeFaults, i);
      InstallStepCases(systemDir, userDir, pre.os, path, kind, FaultAt(copyFaults, i), FaultAt(writeFaults, i), r);
      if ValidOs(os) {
        InstallStepValid(systemDir, userDir, pre.os, path, kind, FaultAt(copyFaults, i), FaultAt(writeFaults, i));
      }
      assert run.outcomes[..i] == pre.outcomes;
      forall v | HasValue(HiveIn(pre.os, scope), v) ensures HasValue(HiveIn(r.os, scope), v) {
        if r.ok {
          SetValueKeeps(HiveIn(pre.os, scope), name, Basename(path), v);
        }
      }
      forall j | 0 <= j < n && run.outcomes[j].ok
        ensures InstalledIn(r.os.files, HiveIn(r.os, scope), TargetPath(systemDir, userDir, paths[j], kind),
                            RegistryName(Basename(paths[j]), InstallExt(paths[j])))
      {
        if j < i {
          assert run.outcomes[j] == pre.outcomes[j];
        } else {
          assert (StoredName(HiveIn(pre.os, scope), name), Basename(path)) in HiveIn(r.os, scope);
        }
      }
    }
  }

  /** The loop of `_install_font`: every chosen file in turn, into the chosen scope. */
  method InstallLoop(m: FontManager, kind: string, paths: seq<string>,
                     copyFaults: seq<Option<Fault>>, writeFaults: seq<Option<Fault>>)
    returns (outs: seq<Outcome>, tally: Tally)
    requires m.Valid()
    modifies m
    ensures m.Valid()
    ensures Run(outs, m.State())
      == InstallRun(m.systemFontsDir, m.userFontsDir, old(m.State()), kind, paths, copyFaults, writeFaults, |paths|)
    ensures tally == TallyOf(outs)
  {
    ghost var os0 := m.State();
    outs := [];
    var successCount, failCount, errors := 0, 0, [];
    for i := 0 to |paths|
      invariant m.Valid()
      invariant Run(outs, m.State()) == InstallRun(m.systemFontsDir, m.userFontsDir, os0, kind, paths, copyFaults, writeFaults, i)
      invariant |outs| == i
      invariant Tally(successCount, failCount, errors) == TallyOf(outs)
    {
      ghost var outs0, os1 := outs, m.State();
      var success, message := m.InstallFont(paths[i], kind, FaultAt(copyFaults, i), FaultAt(writeFaults, i));
      ghost var r := InstallStep(m.systemFontsDir, m.userFontsDir, os1, paths[i], kind, FaultAt(copyFaults, i), FaultAt(writeFaults, i));
      assert success == r.ok && message == r.message && m.State() == r.os;
      var itemLabel := Basename(paths[i]);
      TallySnoc(outs, Outcome(itemLabel, success, message));
      outs := outs + [Outcome(itemLabel, success, message)];
      assert outs[..|outs| - 1] == outs0;
      assert Run(outs, m.State()) == InstallRun(m.systemFontsDir, m.userFontsDir, os0, kind, paths, copyFaults, writeFaults, i + 1);
      if success {
        successCount := successCount + 1;
      } else {
        failCount := failCount + 1;
        errors := errors + [itemLabel + ": " + message];
      }
    }
    tally := Tally(successCount, failCount, errors);
  }

  /**
    * `_install_font` after its dialogs: nothing happens without a chosen
    * type and at least one chosen file; otherwise the loop runs and its
    * tally becomes the result dialog.
    */
  method InstallBatch(m: FontManager, installType: Option<string>, paths: seq<string>,
                      copyFaults: seq<Option<Fault>>, writeFaults: seq<Option<Fault>>)
    returns (result: BatchResult)
    requires m.Valid()
    modifies m
    ensures m.Valid()
    ensures installType.None? || paths == [] ==> result == Cancelled && m.State() == old(m.State())
    ensures installType.Some? && paths != [] ==>
      && result.Finished?
      && Run(result.outcomes, m.State())
           == InstallRun(m.systemFontsDir, m.userFontsDir, old(m.State()), installType.value, paths, copyFaults, writeFaults, |paths|)
      && result.tally == TallyOf(result.outcomes)
      && result.summary == Summary("安装", result.tally)
      && result.isError == IsErrorDialog(result.tally)
  {
    if installType.None? || paths == [] {
      return Cancelled;
    }
    var outs, tally := InstallLoop(m, installType.value, paths, copyFaults, writeFaults);
    return Finished(outs, tally, Summary("安装", tally), IsErrorDialog(tally));
  }

  /**
    * The uninstall loop from state `os` over the first `n` selected rows:
    * each is uninstalled, always as a user font, from the state the rows
    * before it left, and labelled with its name.
    */
  function UninstallRun(systemDir: string, userDir: string, os: Os, selection: seq<FontRecord>,
                        deleteFaults: seq<Option<Fault>>, removeFaults: seq<Option<Fault>>, n: nat): (run: Run)
    requires n <= |selection|
    ensures |run.outcomes| == n
    ensures forall i :: 0 <= i < n ==> run.outcomes[i].item == selection[i].name
  {
    if n == 0 then Run([], os)
    else
      var pre := UninstallRun(systemDir, userDir, os, selection, deleteFaults, removeFaults, n - 1);
      var font := selection[n - 1];
      var r := UninstallStep(systemDir, userDir, pre.os, font.name, font.file, UserTypeName,
                             FaultAt(deleteFaults, n - 1), FaultAt(removeFaults, n - 1));
      Run(pre.outcomes + [Outcome(font.name, r.ok, r.message)], r.os)
  }

  /** Item `i` of an uninstall batch reports what the engine returned for it, in the state the rows before it left. */
  lemma {:induction false} UninstallRunItem(systemDir: string, userDir: string, os: Os, selection: seq<FontRecord>,
                                            deleteFaults: seq<Option<Fault>>, removeFaults: seq<Option<Fault>>, n: nat, i: nat)
    requires i < n <= |selection|
    ensures var pre := UninstallRun(systemDir, userDir, os, selection, deleteFaults, removeFaults, i);
            var r := UninstallStep(systemDir, userDir, pre.os, selection[i].name, selection[i].file, UserTypeName,
                                   FaultAt(deleteFaults, i), FaultAt(removeFaults, i));
      UninstallRun(systemDir, userDir, os, selection, deleteFaults, removeFaults, n).outcomes[i]
        == Outcome(selection[i].name, r.ok, r.message)
  {
    var pre := UninstallRun(systemDir, userDir, os, selection, deleteFaults, removeFaults, n - 1);
    var outs := UninstallRun(systemDir, userDir, os, selection, deleteFaults, removeFaults, n).outcomes;
    assert outs[..n - 1] == pre.outcomes;
    if i < n - 1 {
      UninstallRunItem(systemDir, userDir, os, selection, deleteFaults, removeFaults, n - 1, i);
      assert outs[i] == pre.outcomes[i];
    }
  }

  /**
    * What an uninstall batch leaves: one notification per success, no file
    * and no user value added, the machine hive untouched, and for every
    * success neither the value name nor the file left.
    */
  lemma {:induction false} UninstallRunEffects(systemDir: string, userDir: string, os: Os, selection: seq<FontRecord>,
                                               deleteFaults: seq<Option<Fault>>, removeFaults: seq<Option<Fault>>, n: nat)
    requires n <= |selection|
    ensures var run := UninstallRun(systemDir, userDir, os, selection, deleteFaults, removeFaults, n);
      && (ValidOs(os) ==> ValidOs(run.os))
      && run.os.notifications == os.notifications + TallyOf(run.outcomes).successCount
      && run.os.files <= os.files
      && run.os.machineHive == os.machineHive
      && (forall e :: e in run.os.userHive ==> e in os.userHive)
      && (forall i :: 0 <= i < n && run.outcomes[i].ok ==>
            RemovedFrom(run.os.files, run.os.userHive, Join(userDir, selection[i].file), selection[i].name))
  {
    if n > 0 {
      var i := n - 1;
      var pre := UninstallRun(systemDir, userDir, os, selection, deleteFaults, removeFaults, i);
      var font := selection[i];
      var df, rf := FaultAt(deleteFaults, i), FaultAt(removeFaults, i);
      var r := UninstallStep(systemDir, userDir, pre.os, font.name, font.file, UserTypeName, df, rf);
      var run := UninstallRun(systemDir, userDir, os, selection, deleteFaults, removeFaults, n);
      UninstallRunEffects(systemDir, userDir, os, selection, deleteFaults, removeFaults, i);
      UninstallStepCases(systemDir, userDir, pre.os, font.name, font.file, UserTypeName, df, rf, r);
      if ValidOs(os) {
        UninstallStepValid(systemDir, userDir, pre.os, font.name, font.file, UserTypeName, df, rf);
      }
      assert UninstallScope(UserTypeName) == User;
      assert run.outcomes[..i] == pre.outcomes;
      assert forall e :: e in r.os.userHive ==> e in pre.os.userHive;
      forall j | 0 <= j < n && run.outcomes[j].ok
        ensures RemovedFrom(r.os.files, r.os.userHive, Join(userDir, selection[j].file), selection[j].name)
      {
        if j < i {
          assert run.outcomes[j] == pre.outcomes[j];
        }
      }
    }
  }

  /** The loop of `_uninstall_font`: every selected row in turn, as a user font. */
  method UninstallLoop(m: FontManager, selection: seq<FontRecord>,
                       deleteFaults: seq<Option<Fault>>, removeFaults: seq<Option<Fault>>)
    returns (outs: seq<Outcome>, tally: Tally)
    requires m.Valid()
    modifies m
    ensures m.Valid()
    ensures Run(outs, m.State())
      == UninstallRun(m.systemFontsDir, m.userFontsDir, old(m.State()), selection, deleteFaults, removeFaults, |selection|)
    ensures tally == TallyOf(outs)
  {
    ghost var os0 := m.State();
    outs := [];
    var successCount, failCount, errors := 0, 0, [];
    for i := 0 to |selection|
      invariant m.Valid()
      invariant Run(outs, m.State()) == UninstallRun(m.systemFontsDir, m.userFontsDir, os0, selection, deleteFaults, removeFaults, i)
      invariant |outs| == i
      invariant Tally(successCount, failCount, errors) == TallyOf(outs)
    {
      var font := selection[i];
      ghost var outs0, os1 := outs, m.State();
      var success, message := m.UninstallFont(font.name, font.file, UserTypeName, FaultAt(deleteFaults, i), FaultAt(removeFaults, i));
      ghost var r := UninstallStep(m.systemFontsDir, m.userFontsDir, os1, font.name, font.file, UserTypeName,
                                   FaultAt(deleteFaults, i), FaultAt(removeFaults, i));
      assert success == r.ok && message == r.message && m.State() == r.os;
      TallySnoc(outs, Outcome(font.name, success, message));
      outs := outs + [Outcome(font.name, success, message)];
      assert outs[..|outs| - 1] == outs0;
      assert Run(outs, m.State()) == UninstallRun(m.systemFontsDir, m.userFontsDir, os0, selection, deleteFaults, removeFaults, i + 1);
      if success {
        successCount := successCount + 1;
      } else {
        failCount := failCount + 1;
        errors := errors + [font.name + ": " + message];
      }
    }
    tally := Tally(successCount, failCount, errors);
  }

  /**
    * `_uninstall_font`: refuses an empty selection and the system tab, asks
    * for confirmation, then runs the loop and turns its tally into the
    * result dialog.
    */
  method UninstallBatch(m: FontManager, tab: string, selection: seq<FontRecord>, confirmed: bool,
                        deleteFaults: seq<Option<Fault>>, removeFaults: seq<Option<Fault>>)
    returns (result: BatchResult)
    requires m.Valid()
    modifies m
    ensures m.Valid()
    ensures selection == [] ==> result == Warned(NoSelectionMessage)
    ensures selection != [] && tab == "system" ==> result == Warned(SystemTabRefusalMessage)
    ensures selection != [] && tab != "system" && !confirmed ==> result == Cancelled
    ensures !result.Finished? ==> m.State() == old(m.State())
    ensures selection != [] && tab != "system" && confirmed ==>
      && result.Finished?
      && Run(result.outcomes, m.State())
           == UninstallRun(m.systemFontsDir, m.userFontsDir, old(m.State()), selection, deleteFaults, removeFaults, |selection|)
      && result.tally == TallyOf(result.outcomes)
      && result.summary == Summary("卸载", result.tally)
      && result.isError == IsErrorDialog(result.tally)
  {
    if selection == [] {
      return Warned(NoSelectionMessage);
    }
    var fontType := if tab == "system" then SystemTypeName else UserTypeName;
    if fontType == SystemTypeName {
      return Warned(SystemTabRefusalMessage);
    }
    if !confirmed {
      return Cancelled;
    }
    var outs, tally := UninstallLoop(m, selection, deleteFaults, removeFaults);
    return Finished(outs, tally, Summary("卸载", tally), IsErrorDialog(tally));
  }
}
