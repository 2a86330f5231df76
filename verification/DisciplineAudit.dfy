/** audit_rule of scripts/ci/cxx_discipline_audit.py: which lines a rule reports, and its verdict. */
module DisciplineAudit {
  import opened PyText
  import opened CommentStripper

  datatype Sense = Forbid | Require

  /** A rule's regular expression is any predicate on a line. */
  datatype Rule = Rule(pattern: string -> bool, sense: Sense, allow: seq<string>)

  datatype SourceFile = SourceFile(path: string, text: string)

  datatype Status = Ok | Violation | NoTarget

  datatype Hit = Hit(path: string, lineNo: nat, text: string)

  /** The pseudo hit of a required pattern that is nowhere. */
  const SURFACE := Hit("<scan surface>", 0, "no file matches the required pattern")

  predicate IsCmake(path: string) {
    EndsWith(path, ".txt") || EndsWith(path, ".cmake")
  }

  function RawLines(file: SourceFile): seq<string> {
    Split(file.text, '\n')
  }

  function CodeOf(file: SourceFile): (code: seq<string>)
    ensures |code| == |RawLines(file)|
  {
    Stripped(file.text, IsCmake(file.path))
  }

  predicate Excused(rule: Rule, raw: string) {
    exists i :: 0 <= i < |rule.allow| && Contains(raw, rule.allow[i])
  }

  /** Line `n` (from 1): the pattern is in its code, and no allowed tag is anywhere on the raw line. */
  predicate Flagged(rule: Rule, file: SourceFile, n: nat) {
    1 <= n <= |RawLines(file)| && rule.pattern(CodeOf(file)[n - 1]) && !Excused(rule, RawLines(file)[n - 1])
  }

  /** `h` reports a flagged line of `file`. */
  predicate Reports(rule: Rule, file: SourceFile, h: Hit) {
    Flagged(rule, file, h.lineNo) && h == HitAt(file, h.lineNo)
  }

  function Cut(s: string, n: nat): string {
    if |s| <= n then s else s[..n]
  }

  function HitAt(file: SourceFile, n: nat): Hit
    requires 1 <= n <= |RawLines(file)|
  {
    Hit(file.path, n, Cut(Strip(RawLines(file)[n - 1]), 70))
  }

  /** The flagged ones among the first `n` lines, in order. */
  function FileHits(rule: Rule, file: SourceFile, n: nat): seq<Hit>
    requires n <= |RawLines(file)|
  {
    if n == 0 then []
    else FileHits(rule, file, n - 1) + if Flagged(rule, file, n) then [HitAt(file, n)] else []
  }

  function Hits(rule: Rule, files: seq<SourceFile>): seq<Hit> {
    if files == [] then []
    else
      var last := files[|files| - 1];
      Hits(rule, files[..|files| - 1]) + FileHits(rule, last, |RawLines(last)|)
  }

  /** Status and reported lines, as the source documents its three outcomes. */
  function Outcome(rule: Rule, files: seq<SourceFile>): (Status, seq<Hit>) {
    var hits := Hits(rule, files);
    if files == [] then (NoTarget, [])
    else match rule.sense
      case Forbid => if hits != [] then (Violation, hits) else (Ok, [])
      case Require => if hits != [] then (Ok, []) else (Violation, [SURFACE])
  }

  method AuditRule(rule: Rule, files: seq<SourceFile>) returns (status: Status, hits: seq<Hit>)
    ensures (status, hits) == Outcome(rule, files)
  {
    hide Strip, Stripped, Split, Contains, Cut;
    if files == [] {
      return NoTarget, [];
    }
    hits := [];
    for k := 0 to |files|
      invariant hits == Hits(rule, files[..k])
    {
      var file := files[k];
      assert files[..k + 1][..k] == files[..k];
      ghost var before := hits;
      var stripped := CodeLines(file.text, IsCmake(file.path));
      var rawLines := Split(file.text, '\n');
      for lineNo := 1 to |stripped| + 1
        invariant hits == before + FileHits(rule, file, lineNo - 1)
      {
        if !rule.pattern(stripped[lineNo - 1]) {
          continue;
        }
        if Excused(rule, rawLines[lineNo - 1]) {
          continue;
        }
        hits := hits + [Hit(file.path, lineNo, Cut(Strip(rawLines[lineNo - 1]), 70))];
      }
    }
    assert files[..|files|] == files;
    if rule.sense.Forbid? {
      if hits != [] { return Violation, hits; }
      return Ok, [];
    }
    if hits != [] { return Ok, []; }
    return Violation, [SURFACE];
  }

  // -- what is reported ---------------------------------------------------------------

  lemma {:induction false} FileHitsAreFlagged(rule: Rule, file: SourceFile, n: nat, h: Hit)
    requires n <= |RawLines(file)|
    ensures h in FileHits(rule, file, n) <==> 1 <= h.lineNo <= n && Reports(rule, file, h)
  {
    hide Split, Stripped, Excused, Cut, Strip, IsCmake;
    if n > 0 { FileHitsAreFlagged(rule, file, n - 1, h); }
  }

  /** A hit is reported exactly when it is a flagged line of a scanned file; its number is then a real
      raw line of that file. */
  lemma {:induction false} HitsAreFlaggedLines(rule: Rule, files: seq<SourceFile>, h: Hit)
    ensures h in Hits(rule, files) <==> exists k :: 0 <= k < |files| && Reports(rule, files[k], h)
  {
    hide FileHits, Split, Stripped, Excused, Cut, Strip, IsCmake;
    if files != [] {
      var front, last := files[..|files| - 1], files[|files| - 1];
      HitsAreFlaggedLines(rule, front, h);
      FileHitsAreFlagged(rule, last, |RawLines(last)|, h);
      if h in Hits(rule, front) {
        var k :| 0 <= k < |front| && Reports(rule, front[k], h);
        assert files[k] == front[k];
      }
      if exists k :: 0 <= k < |files| && Reports(rule, files[k], h) {
        var k :| 0 <= k < |files| && Reports(rule, files[k], h);
        if k < |front| { assert front[k] == files[k]; }
      }
    }
  }

  predicate Suffixed(path: string, suffix: string) {
    |path| >= |suffix| && path[|path| - |suffix|..] == suffix
  }

  /** What code_lines makes of the file: only a .txt or a .cmake file has hash comments. */
  function Code(file: SourceFile): (code: seq<string>)
    ensures |code| == |Split(file.text, '\n')|
  {
    Stripped(file.text, Suffixed(file.path, ".txt") || Suffixed(file.path, ".cmake"))
  }

  /** No allowed tag stands anywhere on this raw line. */
  ghost predicate TagFree(allow: seq<string>, raw: string) {
    forall t, i: nat :: t in allow ==> !OccursAt(raw, i, t)
  }

  /** The line that `h` names: its code matches, no tag excuses it, and the text is the trimmed raw line or its
      first seventy characters. */
  ghost predicate Names(rule: Rule, file: SourceFile, h: Hit) {
    var raw := Split(file.text, '\n');
    && h.path == file.path && 1 <= h.lineNo <= |raw|
    && rule.pattern(Code(file)[h.lineNo - 1]) && TagFree(rule.allow, raw[h.lineNo - 1])
    && h.text <= Strip(raw[h.lineNo - 1]) && (h.text == Strip(raw[h.lineNo - 1]) || |h.text| == 70) && |h.text| <= 70
  }

  lemma {:induction false} TagsExcuse(rule: Rule, raw: string)
    ensures Excused(rule, raw) <==> !TagFree(rule.allow, raw)
  {
    if Excused(rule, raw) {
      var k :| 0 <= k < |rule.allow| && Contains(raw, rule.allow[k]);
      var i :| 0 <= i <= |raw| - |rule.allow[k]| && OccursAt(raw, i, rule.allow[k]);
      assert rule.allow[k] in rule.allow;
    }
    if !TagFree(rule.allow, raw) {
      var t, i: nat :| t in rule.allow && OccursAt(raw, i, t);
      var k :| 0 <= k < |rule.allow| && rule.allow[k] == t;
    }
  }

  lemma {:induction false} NamesIsReports(rule: Rule, file: SourceFile, h: Hit)
    ensures Names(rule, file, h) <==> Reports(rule, file, h)
  {
    hide Split, Stripped, Strip, Excused, TagFree;
    if 1 <= h.lineNo <= |Split(file.text, '\n')| {
      TagsExcuse(rule, Split(file.text, '\n')[h.lineNo - 1]);
    }
  }

  /** Which lines a forbidding rule reports, line by line. */
  lemma {:induction false} ReportedLines(rule: Rule, files: seq<SourceFile>, h: Hit)
    requires rule.sense.Forbid?
    ensures h in Outcome(rule, files).1 <==> exists k :: 0 <= k < |files| && Names(rule, files[k], h)
  {
    hide Hits, Reports, Names;
    HitsAreFlaggedLines(rule, files, h);
    forall k | 0 <= k < |files| ensures Names(rule, files[k], h) <==> Reports(rule, files[k], h) {
      NamesIsReports(rule, files[k], h);
    }
    if files == [] { assert Hits(rule, files) == [] by { NothingHit(rule); } }
  }

  lemma NothingHit(rule: Rule)
    ensures Hits(rule, []) == []
  {
  }

  /** Without tags, every line whose code matches is reported. */
  lemma {:induction false} UntaggedRuleReportsAll(rule: Rule, files: seq<SourceFile>, k: nat, n: nat)
    requires rule.sense.Forbid? && rule.allow == [] && k < |files|
    requires 1 <= n <= |Split(files[k].text, '\n')| && rule.pattern(Code(files[k])[n - 1])
    ensures var (status, hits) := Outcome(rule, files);
            status == Violation && exists h :: h in hits && h.path == files[k].path && h.lineNo == n
  {
    hide Hits, Split, Stripped, Strip;
    var file := files[k];
    var h := Hit(file.path, n, Cut(Strip(Split(file.text, '\n')[n - 1]), 70));
    assert Names(rule, file, h);
    ReportedLines(rule, files, h);
  }

  ghost predicate SomeFlagged(rule: Rule, files: seq<SourceFile>) {
    exists k, n :: 0 <= k < |files| && Flagged(rule, files[k], n)
  }

  /** The three statuses are told apart exactly: nothing to scan, a violation, or clean. */
  lemma {:induction false} VerdictIsExact(rule: Rule, files: seq<SourceFile>)
    ensures var status := Outcome(rule, files).0;
            && (status == NoTarget <==> files == [])
            && (files != [] ==> (status == Violation <==> (rule.sense.Forbid? <==> SomeFlagged(rule, files))))
            && (files != [] && rule.sense.Require? && status == Violation ==>
                  Outcome(rule, files).1 == [Hit("<scan surface>", 0, "no file matches the required pattern")])
            && (status != Violation ==> Outcome(rule, files).1 == [])
  {
    hide Hits, Cut, Strip;
    var hits := Hits(rule, files);
    if hits != [] {
      HitsAreFlaggedLines(rule, files, hits[0]);
      assert hits[0] in hits;
    }
    if SomeFlagged(rule, files) {
      var k, n :| 0 <= k < |files| && Flagged(rule, files[k], n);
      assert Reports(rule, files[k], HitAt(files[k], n));
      HitsAreFlaggedLines(rule, files, HitAt(files[k], n));
    }
  }

  /** Stripping comments from a file in advance hides nothing and adds nothing: apart from the excusing
      tags, which live in comments, exactly the same lines are flagged. */
  lemma CommentsNeverMatter(rule: Rule, file: SourceFile, n: nat)
    requires rule.allow == []
    ensures var bare := file.(text := Join(CodeOf(file), '\n')); Flagged(rule, bare, n) <==> Flagged(rule, file, n)
  {
    var bare := file.(text := Join(CodeOf(file), '\n'));
    StrippingIsIdempotent(file.text, IsCmake(file.path));
    assert CodeOf(bare) == CodeOf(file);
  }
}
