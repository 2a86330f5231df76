/** The report printer and its forgery checker (scripts/ci/m5_acceptance.py). */
module AcceptanceReport {
  import opened Basics
  import opened PyText

  /** Results in execution order: distinct case names, one status each. */
  type Results = seq<(string, string)>

  datatype Item = G1 | G1a | G5 | G6 | G7

  const ITEMS: seq<Item> := [G1, G1a, G5, G6, G7]

  /** The order in which item_of tries the prefixes. */
  const TRY_ORDER: seq<Item> := [G1a, G1, G5, G6, G7]

  function Label(item: Item): string {
    match item
    case G1 => "G-1"
    case G1a => "G-1a"
    case G5 => "G-5"
    case G6 => "G-6"
    case G7 => "G-7"
  }

  function Prefix(item: Item): string {
    match item
    case G1 => "test_g1_"
    case G1a => "test_g1a_"
    case G5 => "test_g5_"
    case G6 => "test_g6_"
    case G7 => "test_g7_"
  }

  const NOT_RUN := "NOT-RUN"
  const NO_TESTCASE := "(no testcase)"

  /** What parse_junit can report. */
  predicate KnownStatus(s: string) {
    s == "passed" || s == "failed" || s == "xfailed" || s == "skipped"
  }

  ghost predicate Distinct(r: Results) {
    forall i, j :: 0 <= i < j < |r| ==> r[i].0 != r[j].0
  }

  ghost predicate ValidResults(r: Results) {
    Distinct(r) && forall i :: 0 <= i < |r| ==> KnownStatus(r[i].1)
  }

  /** results.get(name) */
  function Get(r: Results, name: string): (s: Option<string>)
    ensures s.Some? ==> (name, s.value) in r
    ensures s.None? ==> forall i :: 0 <= i < |r| ==> r[i].0 != name
  {
    if r == [] then None else if r[0].0 == name then Some(r[0].1) else Get(r[1..], name)
  }

  lemma {:induction false} GetDistinct(r: Results, i: nat)
    requires Distinct(r) && i < |r|
    ensures Get(r, r[i].0) == Some(r[i].1)
  {
  }

  // -- which item a case belongs to -----------------------------------------------------

  function ItemIn(order: seq<Item>, name: string): Option<Item> {
    if order == [] then None
    else if StartsWith(name, Prefix(order[0])) then Some(order[0])
    else ItemIn(order[1..], name)
  }

  function ItemOf(name: string): Option<Item> {
    ItemIn(TRY_ORDER, name)
  }

  /** No name carries two items' prefixes. */
  lemma PrefixesExclude(a: Item, b: Item, name: string)
    requires StartsWith(name, Prefix(a)) && StartsWith(name, Prefix(b))
    ensures a == b
  {
    assert name[6] == Prefix(a)[6] == Prefix(b)[6];
    assert name[7] == Prefix(a)[7] == Prefix(b)[7];
  }

  /** So the order in which they are tried does not matter. */
  lemma {:induction false} OrderDoesNotMatter(order: seq<Item>, name: string, item: Item)
    requires item in order && StartsWith(name, Prefix(item))
    ensures ItemIn(order, name) == Some(item)
  {
    if StartsWith(name, Prefix(order[0])) {
      PrefixesExclude(order[0], item, name);
    } else {
      OrderDoesNotMatter(order[1..], name, item);
    }
  }

  lemma {:induction false} ItemMatches(order: seq<Item>, name: string)
    ensures var r := ItemIn(order, name); r.Some? ==> r.value in order && StartsWith(name, Prefix(r.value))
  {
    if order != [] { ItemMatches(order[1..], name); }
  }

  lemma ItemOfIsPrefix(name: string, item: Item)
    ensures ItemOf(name) == Some(item) <==> StartsWith(name, Prefix(item))
  {
    assert TRY_ORDER[0] == G1a && TRY_ORDER[1] == G1 && TRY_ORDER[2] == G5 && TRY_ORDER[3] == G6 && TRY_ORDER[4] == G7;
    if StartsWith(name, Prefix(item)) { OrderDoesNotMatter(TRY_ORDER, name, item); }
    ItemMatches(TRY_ORDER, name);
  }

  // -- printing -------------------------------------------------------------------------

  function RowText(tag: string, verdict: string, evidence: string): string {
    "| " + tag + " | " + verdict + " | " + evidence + " |"
  }

  // The verifier does not look into string literals of more than about forty characters, so the longer
  // lines, and the column line whose start matters, are written in two parts.

  function Title(): string { "# M5 exit acceptance report" }

  function OriginNote(): string { "Generated from test execution by " + "scripts/ci/m5_acceptance.py." }

  function NotRunNote(): string { "Rows without a matching testcase " + "are reported as NOT-RUN; this" }

  function ProductNote(): string { "file is a product, not a source -- " + "editing it by hand does not" }

  function VerifyNote(): string { "make anything pass (see verify_report)." }

  function ColumnLine(): string { "| item" + " | verdict | evidence (testcase) |" }

  function RuleLine(): string { "|---|---|---|" }

  function Header(): (h: seq<string>)
    ensures |h| == 9
  {
    [Title(), "", OriginNote(), NotRunNote(), ProductNote(), VerifyNote(), "", ColumnLine(), RuleLine()]
  }

  predicate BelongsTo(item: Item, c: (string, string)) {
    ItemOf(c.0) == Some(item)
  }

  /** The cases of one item, in the order given. */
  function CasesOf(sorted: Results, item: Item): Results {
    if sorted == [] then []
    else
      var c := sorted[|sorted| - 1];
      CasesOf(sorted[..|sorted| - 1], item) + if BelongsTo(item, c) then [c] else []
  }

  function CaseRows(tag: string, cases: Results): (rows: seq<string>)
    ensures |rows| == |cases|
    ensures forall i :: 0 <= i < |cases| ==> rows[i] == RowText(tag, cases[i].1, cases[i].0)
  {
    if cases == [] then [] else [RowText(tag, cases[0].1, cases[0].0)] + CaseRows(tag, cases[1..])
  }

  function RowsFor(item: Item, cases: Results): seq<string> {
    if cases == [] then [RowText(Label(item), NOT_RUN, NO_TESTCASE)] else CaseRows(Label(item), cases)
  }

  function ItemRows(sorted: Results, item: Item): seq<string> {
    RowsFor(item, CasesOf(sorted, item))
  }

  function Rows(sorted: Results, items: seq<Item>): seq<string> {
    if items == [] then [] else Rows(sorted, items[..|items| - 1]) + ItemRows(sorted, items[|items| - 1])
  }

  function Ended(lines: seq<string>): string
    requires lines != []
  {
    Join(lines, '\n') + "\n"
  }

  function ReportLines(sorted: Results): (lines: seq<string>)
    ensures |lines| >= 9
  {
    Header() + Rows(sorted, ITEMS)
  }

  /** The report text, with sorted(results.items()) in whatever order it comes. */
  function Report(sorted: Results): string {
    Ended(ReportLines(sorted))
  }

  /** by_item.get(item, []) */
  function Group(byItem: map<Item, Results>, item: Item): Results {
    if item in byItem then byItem[item] else []
  }

  method GroupByItem(sorted: Results) returns (byItem: map<Item, Results>)
    ensures forall item :: Group(byItem, item) == CasesOf(sorted, item)
  {
    hide ItemOf;
    byItem := map[];
    for n := 0 to |sorted|
      invariant forall item :: Group(byItem, item) == CasesOf(sorted[..n], item)
    {
      assert sorted[..n + 1][..n] == sorted[..n];
      var item := ItemOf(sorted[n].0);
      if item.None? {
        continue;
      }
      byItem := byItem[item.value := Group(byItem, item.value) + [sorted[n]]];
    }
    assert sorted[..|sorted|] == sorted;
  }

  method PrintCases(before: seq<string>, tag: string, cases: Results) returns (lines: seq<string>)
    ensures lines == before + CaseRows(tag, cases)
  {
    hide RowText, CaseRows;
    lines := before;
    NoCaseRows(tag);
    for n := 0 to |cases|
      invariant lines == before + CaseRows(tag, cases[..n])
    {
      assert cases[..n + 1] == cases[..n] + [cases[n]];
      CaseRowsAppend(tag, cases[..n], cases[n]);
      lines := lines + [RowText(tag, cases[n].1, cases[n].0)];
    }
    assert cases[..|cases|] == cases;
  }

  lemma NoCaseRows(tag: string)
    ensures CaseRows(tag, []) == []
  {
  }

  method PrintItem(before: seq<string>, item: Item, cases: Results) returns (lines: seq<string>)
    ensures lines == before + RowsFor(item, cases)
  {
    if cases == [] {
      lines := before + [RowText(Label(item), NOT_RUN, NO_TESTCASE)];
    } else {
      lines := PrintCases(before, Label(item), cases);
    }
  }

  method BuildReport(sorted: Results) returns (report: string)
    ensures report == Report(sorted)
  {
    hide CasesOf, RowsFor, Header, Ended;
    var lines := Header();
    var byItem := GroupByItem(sorted);
    for k := 0 to |ITEMS|
      invariant lines == Header() + Rows(sorted, ITEMS[..k])
    {
      assert ITEMS[..k + 1][..k] == ITEMS[..k];
      lines := PrintItem(lines, ITEMS[k], Group(byItem, ITEMS[k]));
    }
    assert ITEMS[..|ITEMS|] == ITEMS;
    assert lines == ReportLines(sorted);
    return Ended(lines);
  }

  lemma {:induction false} CaseRowsAppend(tag: string, cases: Results, c: (string, string))
    ensures CaseRows(tag, cases + [c]) == CaseRows(tag, cases) + [RowText(tag, c.1, c.0)]
  {
  }

  /** The cases whose names open with `prefix`, in the order given. */
  function Opening(sorted: Results, prefix: string): Results {
    if sorted == [] then []
    else
      var c := sorted[|sorted| - 1];
      Opening(sorted[..|sorted| - 1], prefix) + if StartsWith(c.0, prefix) then [c] else []
  }

  /** One line for each of them, or the one that says that there is none. */
  function Lines(tag: string, cases: Results): seq<string> {
    if cases == [] then ["| " + tag + " | NOT-RUN | (no testcase) |"]
    else seq(|cases|, i requires 0 <= i < |cases| => "| " + tag + " | " + cases[i].1 + " | " + cases[i].0 + " |")
  }

  lemma {:induction false} CasesOpen(sorted: Results, item: Item)
    ensures CasesOf(sorted, item) == Opening(sorted, Prefix(item))
  {
    if sorted != [] {
      CasesOpen(sorted[..|sorted| - 1], item);
      ItemOfIsPrefix(sorted[|sorted| - 1].0, item);
    }
  }

  lemma NotRunLine(tag: string)
    ensures RowText(tag, NOT_RUN, NO_TESTCASE) == "| " + tag + " | NOT-RUN | (no testcase) |"
  {
    var tail := " | " + NOT_RUN + " | " + NO_TESTCASE + " |";
    assert tail == " | NOT-RUN | (no testcase) |";
    assert RowText(tag, NOT_RUN, NO_TESTCASE) == "| " + tag + tail;
  }

  lemma {:induction false} CaseLines(tag: string, cases: Results)
    requires cases != []
    ensures CaseRows(tag, cases) == Lines(tag, cases)
  {
  }

  lemma {:induction false} RowsAreLines(sorted: Results, item: Item)
    ensures ItemRows(sorted, item) == Lines(Label(item), Opening(sorted, Prefix(item)))
  {
    hide CasesOf, Opening, CaseRows, RowText;
    CasesOpen(sorted, item);
    var cases := CasesOf(sorted, item);
    if cases == [] { NotRunLine(Label(item)); } else { CaseLines(Label(item), cases); }
  }

  lemma {:induction false} RowsStep(sorted: Results, items: seq<Item>, item: Item)
    ensures Rows(sorted, items + [item]) == Rows(sorted, items) + ItemRows(sorted, item)
  {
  }

  /** The table, line by line: the five items in this order, each with the cases of its own prefix. */
  lemma {:induction false} ReportInFull(sorted: Results)
    ensures ReportLines(sorted)[..9] == Header()
    ensures ReportLines(sorted)[9..]
         == Lines("G-1", Opening(sorted, "test_g1_")) + Lines("G-1a", Opening(sorted, "test_g1a_"))
            + Lines("G-5", Opening(sorted, "test_g5_")) + Lines("G-6", Opening(sorted, "test_g6_"))
            + Lines("G-7", Opening(sorted, "test_g7_"))
  {
    RowsAreLines(sorted, G1);
    RowsAreLines(sorted, G1a);
    RowsAreLines(sorted, G5);
    RowsAreLines(sorted, G6);
    RowsAreLines(sorted, G7);
    hide Lines, Opening, ItemRows, Header;
    RowsStep(sorted, [], G1);
    RowsStep(sorted, [G1], G1a);
    RowsStep(sorted, [G1, G1a], G5);
    RowsStep(sorted, [G1, G1a, G5], G6);
    RowsStep(sorted, [G1, G1a, G5, G6], G7);
    assert [] + [G1] == [G1] && [G1] + [G1a] == [G1, G1a] && [G1, G1a] + [G5] == [G1, G1a, G5];
    assert [G1, G1a, G5] + [G6] == [G1, G1a, G5, G6] && [G1, G1a, G5, G6] + [G7] == ITEMS;
    assert Rows(sorted, []) == [];
  }

  // -- checking -------------------------------------------------------------------------

  function Cells(line: string): seq<string> {
    StripAll(Split(line, '|'))
  }

  /** set(cell) <= set("- :") */
  predicate OnlyRule(cell: string) {
    forall c :: c in cell ==> c == '-' || c == ' ' || c == ':'
  }

  datatype Row = Row(tag: string, verdict: string, evidence: string)

  /** The row a report line counts as, if any. */
  function Counted(line: string): Option<Row> {
    if !StartsWith(line, "|") || StartsWith(line, "| item") then None
    else
      var cells := Cells(line);
      if |cells| < 5 || OnlyRule(cells[1]) || cells[2] == NOT_RUN then None
      else Some(Row(cells[1], cells[2], cells[3]))
  }

  datatype Problem =
    | NoSuchCase(row: Row)
    | WrongVerdict(row: Row, actual: string)
    | Missing(name: string, status: string)

  function RowProblems(line: string, r: Results): seq<Problem> {
    match Counted(line)
    case None => []
    case Some(row) =>
      match Get(r, row.evidence)
      case None => [NoSuchCase(row)]
      case Some(actual) => if actual != row.verdict then [WrongVerdict(row, actual)] else []
  }

  function LineProblems(lines: seq<string>, r: Results): seq<Problem> {
    if lines == [] then []
    else LineProblems(lines[..|lines| - 1], r) + RowProblems(lines[|lines| - 1], r)
  }

  function Seen(lines: seq<string>): set<string> {
    if lines == [] then {}
    else
      var row := Counted(lines[|lines| - 1]);
      Seen(lines[..|lines| - 1]) + if row.Some? then {row.value.evidence} else {}
  }

  function MissingCases(r: Results, seen: set<string>): seq<Problem> {
    if r == [] then []
    else
      var c := r[|r| - 1];
      MissingCases(r[..|r| - 1], seen) + if ItemOf(c.0).Some? && c.0 !in seen then [Missing(c.0, c.1)] else []
  }

  function Problems(text: string, r: Results): seq<Problem> {
    var lines := Split(text, '\n');
    LineProblems(lines, r) + MissingCases(r, Seen(lines))
  }

  method VerifyReport(text: string, results: Results) returns (problems: seq<Problem>)
    ensures problems == Problems(text, results)
  {
    hide Counted, Get, ItemOf, Split;
    problems := [];
    var seen: set<string> := {};
    var lines := Split(text, '\n');
    for n := 0 to |lines|
      invariant problems == LineProblems(lines[..n], results) && seen == Seen(lines[..n])
    {
      var line := lines[n];
      assert lines[..n + 1][..n] == lines[..n];
      var row := Counted(line);
      if row.None? {
        continue;
      }
      seen := seen + {row.value.evidence};
      var actual := Get(results, row.value.evidence);
      if actual.None? {
        problems := problems + [NoSuchCase(row.value)];
      } else if actual.value != row.value.verdict {
        problems := problems + [WrongVerdict(row.value, actual.value)];
      }
    }
    assert lines[..|lines|] == lines;
    var missing := FindMissing(results, seen);
    problems := problems + missing;
  }

  method FindMissing(results: Results, seen: set<string>) returns (problems: seq<Problem>)
    ensures problems == MissingCases(results, seen)
  {
    hide ItemOf;
    problems := [];
    for n := 0 to |results|
      invariant problems == MissingCases(results[..n], seen)
    {
      assert results[..n + 1][..n] == results[..n];
      if ItemOf(results[n].0).None? {
        continue;
      }
      if results[n].0 !in seen {
        problems := problems + [Missing(results[n].0, results[n].1)];
      }
    }
    assert results[..|results|] == results;
  }

  // -- what the checker decides ---------------------------------------------------------

  /** If this line counts, its verdict is the result of its case. */
  predicate TruthfulLine(line: string, r: Results) {
    var row := Counted(line);
    row.Some? ==> Get(r, row.value.evidence) == Some(row.value.verdict)
  }

  /** Every counted row tells the truth. */
  ghost predicate Truthful(lines: seq<string>, r: Results) {
    forall i :: 0 <= i < |lines| ==> TruthfulLine(lines[i], r)
  }

  lemma NoRowProblems(line: string, r: Results)
    ensures RowProblems(line, r) == [] <==> TruthfulLine(line, r)
  {
    hide Counted, Get;
  }

  /** Some counted row gives this case as its evidence. */
  ghost predicate Mentions(lines: seq<string>, name: string) {
    exists i :: 0 <= i < |lines| && Counted(lines[i]).Some? && Counted(lines[i]).value.evidence == name
  }

  ghost predicate Complete(lines: seq<string>, r: Results) {
    forall i :: 0 <= i < |r| && ItemOf(r[i].0).Some? ==> Mentions(lines, r[i].0)
  }

  lemma {:induction false} SeenIsMentioned(lines: seq<string>, name: string)
    ensures name in Seen(lines) <==> Mentions(lines, name)
  {
    hide Counted;
    if lines != [] {
      var front := lines[..|lines| - 1];
      SeenIsMentioned(front, name);
      if Mentions(front, name) {
        var i :| 0 <= i < |front| && Counted(front[i]).Some? && Counted(front[i]).value.evidence == name;
        assert lines[i] == front[i];
      }
      if Mentions(lines, name) {
        var i :| 0 <= i < |lines| && Counted(lines[i]).Some? && Counted(lines[i]).value.evidence == name;
        if i < |front| { assert front[i] == lines[i]; }
      }
    }
  }

  lemma {:induction false} NoLineProblems(lines: seq<string>, r: Results)
    ensures LineProblems(lines, r) == [] <==> Truthful(lines, r)
  {
    hide RowProblems, TruthfulLine;
    if lines != [] {
      var front := lines[..|lines| - 1];
      NoLineProblems(front, r);
      NoRowProblems(lines[|lines| - 1], r);
      assert forall i :: 0 <= i < |front| ==> front[i] == lines[i];
    }
  }

  lemma {:induction false} NoMissingCases(r: Results, seen: set<string>)
    ensures MissingCases(r, seen) == [] <==> forall i :: 0 <= i < |r| && ItemOf(r[i].0).Some? ==> r[i].0 in seen
  {
    hide ItemOf;
    if r != [] {
      var front := r[..|r| - 1];
      NoMissingCases(front, seen);
      assert forall i :: 0 <= i < |front| ==> front[i] == r[i];
    }
  }

  /** A text is accepted exactly when every counted row is true of this run and every case of an item
      is evidence of some counted row. */
  lemma AcceptedIff(text: string, r: Results)
    ensures var lines := Split(text, '\n');
            Problems(text, r) == [] <==> Truthful(lines, r) && Complete(lines, r)
  {
    hide Counted, ItemOf, Split;
    var lines := Split(text, '\n');
    NoLineProblems(lines, r);
    NoMissingCases(r, Seen(lines));
    forall i | 0 <= i < |r| ensures r[i].0 in Seen(lines) <==> Mentions(lines, r[i].0) {
      SeenIsMentioned(lines, r[i].0);
    }
  }

  // -- rows that parse back ---------------------------------------------------------------

  /** A cell that survives printing and parsing. */
  predicate Clean(s: string) {
    Trimmed(s) && Free(s, '|') && Free(s, '\n')
  }

  lemma SplitThreeCells(a: string, b: string, c: string)
    requires Free(a, '|') && Free(b, '|') && Free(c, '|')
    ensures Split("|" + a + "|" + b + "|" + c + "|", '|') == ["", a, b, c, ""]
  {
    hide Split, Free;
    var s3 := c + ['|'] + "";
    var s2 := b + ['|'] + s3;
    var s1 := a + ['|'] + s2;
    EmptyIsFree('|');
    SplitFree("", '|');
    SplitAtSeparator(c, "", '|');
    SplitAtSeparator(b, s3, '|');
    SplitAtSeparator(a, s2, '|');
    SplitAtSeparator("", s1, '|');
    assert "|" + a + "|" + b + "|" + c + "|" == "" + ['|'] + s1;
  }

  lemma EmptyIsFree(c: char)
    ensures Free("", c)
  {
  }

  lemma PaddedCell(s: string)
    requires Clean(s)
    ensures Strip(" " + s + " ") == s && Free(" " + s + " ", '|')
  {
    StripPads(" ", s, " ");
  }

  lemma RowCells(tag: string, verdict: string, evidence: string)
    requires Clean(tag) && Clean(verdict) && Clean(evidence)
    ensures Cells(RowText(tag, verdict, evidence)) == ["", tag, verdict, evidence, ""]
  {
    hide Split, Strip;
    var a, b, c := " " + tag + " ", " " + verdict + " ", " " + evidence + " ";
    PaddedCell(tag);
    PaddedCell(verdict);
    PaddedCell(evidence);
    StripPads("", "", "");
    assert "" + "" + "" == "";
    SplitThreeCells(a, b, c);
    assert RowText(tag, verdict, evidence) == "|" + a + "|" + b + "|" + c + "|";
  }

  /** A tag that neither reads as a table rule nor as the header. */
  predicate PlainTag(tag: string) {
    Clean(tag) && !OnlyRule(tag) && !StartsWith(tag, "item")
  }

  lemma NotAStart(s: string, p: string, k: nat)
    requires k < |p| && k < |s| && s[k] != p[k]
    ensures !StartsWith(s, p)
  {
  }

  lemma DiffersFromItem(tag: string) returns (k: nat)
    requires |tag| >= 4 && !StartsWith(tag, "item")
    ensures k < 4 && tag[k] != "item"[k]
  {
    assert tag[..4] == [tag[0], tag[1], tag[2], tag[3]];
    k := if tag[0] != 'i' then 0 else if tag[1] != 't' then 1 else if tag[2] != 'e' then 2 else 3;
  }

  lemma NotTheHeader(tag: string, verdict: string, evidence: string)
    requires PlainTag(tag)
    ensures var row := RowText(tag, verdict, evidence); StartsWith(row, "|") && !StartsWith(row, "| item")
  {
    var row := RowText(tag, verdict, evidence);
    assert row[..1] == "|";
    var k := |tag|;
    if |tag| >= 4 {
      k := DiffersFromItem(tag);
      assert row[2 + k] == tag[k];
    } else {
      assert row[2 + k] == ' ';
    }
    assert "| item"[2 + k] == "item"[k];
    NotAStart(row, "| item", 2 + k);
  }

  /** A printed row counts as itself, unless its verdict is NOT-RUN; the tag is not looked at further. */
  lemma PrintedRowCounts(tag: string, verdict: string, evidence: string)
    requires PlainTag(tag) && Clean(verdict) && Clean(evidence)
    ensures Counted(RowText(tag, verdict, evidence)) ==
              if verdict == NOT_RUN then None else Some(Row(tag, verdict, evidence))
  {
    hide RowText, Cells, OnlyRule, StartsWith;
    NotTheHeader(tag, verdict, evidence);
    RowCells(tag, verdict, evidence);
  }

  lemma StatusIsClean(status: string)
    requires KnownStatus(status)
    ensures Clean(status) && status != NOT_RUN
  {
  }

  lemma LabelIsPlain(item: Item)
    ensures PlainTag(Label(item))
  {
    assert 'G' in Label(item);
    NotAStart(Label(item), "item", 0);
  }

  lemma RowIsOneLine(tag: string, verdict: string, evidence: string)
    requires Free(tag, '\n') && Free(verdict, '\n') && Free(evidence, '\n')
    ensures Free(RowText(tag, verdict, evidence), '\n')
  {
  }

  /** The printed row of a clean case is one line and counts as that case. */
  lemma CaseRowCounts(item: Item, c: (string, string))
    requires KnownStatus(c.1) && Clean(c.0)
    ensures var row := RowText(Label(item), c.1, c.0);
            Free(row, '\n') && Counted(row) == Some(Row(Label(item), c.1, c.0))
  {
    hide Counted, KnownStatus, RowText;
    StatusIsClean(c.1);
    LabelIsPlain(item);
    PrintedRowCounts(Label(item), c.1, c.0);
    RowIsOneLine(Label(item), c.1, c.0);
  }

  lemma NotRunRowIsSkipped(item: Item)
    ensures var row := RowText(Label(item), NOT_RUN, NO_TESTCASE); Free(row, '\n') && Counted(row) == None
  {
    hide Counted, RowText;
    LabelIsPlain(item);
    PrintedRowCounts(Label(item), NOT_RUN, NO_TESTCASE);
    RowIsOneLine(Label(item), NOT_RUN, NO_TESTCASE);
  }

  /** A line that is one line of text and no row. */
  predicate Skipped(line: string) {
    Free(line, '\n') && Counted(line) == None
  }

  lemma RuleIsSkipped()
    ensures Skipped(RuleLine())
  {
    hide Split, Strip;
    SplitThreeCells("---", "---", "---");
    assert "|" + "---" + "|" + "---" + "|" + "---" + "|" == RuleLine();
    StripPads("", "---", "");
    assert "" + "---" + "" == "---";
    assert Cells(RuleLine())[1] == "---";
  }

  lemma ColumnsAreSkipped()
    ensures Skipped(ColumnLine())
  {
  }

  lemma ProseIsSkipped(line: string)
    requires Free(line, '\n') && (line == "" || line[0] != '|')
    ensures Skipped(line)
  {
  }

  lemma {:induction false} TitleIsSkipped() ensures Skipped(Title()) { ProseIsSkipped(Title()); }

  lemma OriginNoteIsSkipped() ensures Skipped(OriginNote()) { ProseIsSkipped(OriginNote()); }

  lemma NotRunNoteIsSkipped() ensures Skipped(NotRunNote()) { ProseIsSkipped(NotRunNote()); }

  lemma {:induction false} ProductNoteIsSkipped() ensures Skipped(ProductNote()) { ProseIsSkipped(ProductNote()); }

  lemma {:induction false} VerifyNoteIsSkipped() ensures Skipped(VerifyNote()) { ProseIsSkipped(VerifyNote()); }

  lemma {:induction false} HeaderIsSkipped()
    ensures forall i :: 0 <= i < |Header()| ==> Skipped(Header()[i])
  {
    hide Skipped, Title, OriginNote, NotRunNote, ProductNote, VerifyNote, ColumnLine, RuleLine;
    ProseIsSkipped("");
    TitleIsSkipped();
    OriginNoteIsSkipped();
    NotRunNoteIsSkipped();
    ProductNoteIsSkipped();
    VerifyNoteIsSkipped();
    ColumnsAreSkipped();
    RuleIsSkipped();
  }

  // -- what a printed report says -----------------------------------------------------------

  /** Every case of an item has a name that survives printing. */
  ghost predicate CleanCases(r: Results) {
    forall i :: 0 <= i < |r| && ItemOf(r[i].0).Some? ==> Clean(r[i].0)
  }

  /** `sorted` lists the same cases, in some order. */
  ghost predicate SameCases(sorted: Results, r: Results) {
    Distinct(sorted) && forall c :: c in sorted <==> c in r
  }

  /** Counted rows with this evidence. */
  function CountIn(lines: seq<string>, name: string): nat {
    if lines == [] then 0
    else
      var row := Counted(lines[|lines| - 1]);
      CountIn(lines[..|lines| - 1], name) + if row.Some? && row.value.evidence == name then 1 else 0
  }

  function Occurrences(cases: Results, name: string): nat {
    if cases == [] then 0
    else Occurrences(cases[..|cases| - 1], name) + if cases[|cases| - 1].0 == name then 1 else 0
  }

  lemma {:induction false} CountConcat(a: seq<string>, b: seq<string>, name: string)
    ensures CountIn(a + b, name) == CountIn(a, name) + CountIn(b, name)
  {
    hide Counted;
    if b == [] {
      assert a + b == a;
    } else {
      CountConcat(a, b[..|b| - 1], name);
      assert (a + b)[..|a + b| - 1] == a + b[..|b| - 1];
    }
  }

  lemma {:induction false} CountMeansMention(lines: seq<string>, name: string)
    ensures CountIn(lines, name) > 0 <==> Mentions(lines, name)
  {
    hide Counted;
    if lines != [] {
      var front := lines[..|lines| - 1];
      CountMeansMention(front, name);
      if Mentions(front, name) {
        var i :| 0 <= i < |front| && Counted(front[i]).Some? && Counted(front[i]).value.evidence == name;
        assert lines[i] == front[i];
      }
      if Mentions(lines, name) {
        var i :| 0 <= i < |lines| && Counted(lines[i]).Some? && Counted(lines[i]).value.evidence == name;
        if i < |front| { assert front[i] == lines[i]; }
      }
    }
  }

  lemma {:induction false} OccursOnce(cases: Results, i: nat)
    requires Distinct(cases) && i < |cases|
    ensures Occurrences(cases, cases[i].0) == 1
  {
    var front := cases[..|cases| - 1];
    if i < |front| {
      OccursOnce(front, i);
      assert front[i] == cases[i];
    } else {
      NotOccurring(front, cases[i].0);
    }
  }

  lemma {:induction false} NotOccurring(cases: Results, name: string)
    requires forall i :: 0 <= i < |cases| ==> cases[i].0 != name
    ensures Occurrences(cases, name) == 0
  {
    if cases != [] { NotOccurring(cases[..|cases| - 1], name); }
  }

  lemma {:induction false} OccurrencesOfItem(sorted: Results, item: Item, name: string)
    ensures Occurrences(CasesOf(sorted, item), name)
         == if ItemOf(name) == Some(item) then Occurrences(sorted, name) else 0
  {
    hide ItemOf;
    if sorted != [] {
      OccurrencesOfItem(sorted[..|sorted| - 1], item, name);
      var before, c := CasesOf(sorted[..|sorted| - 1], item), sorted[|sorted| - 1];
      if BelongsTo(item, c) {
        assert (before + [c])[..|before|] == before;
      } else {
        assert before + [] == before;
      }
    }
  }

  lemma {:induction false} CasesBelong(sorted: Results, item: Item, c: (string, string))
    requires c in CasesOf(sorted, item)
    ensures c in sorted && ItemOf(c.0) == Some(item)
  {
    hide ItemOf;
    var front, last := sorted[..|sorted| - 1], sorted[|sorted| - 1];
    assert sorted == front + [last];
    if c in CasesOf(front, item) { CasesBelong(front, item, c); }
  }

  /** A line that is one line of text and tells the truth. */
  predicate Sound(line: string, r: Results) {
    Free(line, '\n') && TruthfulLine(line, r)
  }

  lemma {:induction false} CaseRowsAreSound(item: Item, cases: Results, r: Results, name: string)
    requires ValidResults(r) && forall c :: c in cases ==> c in r && Clean(c.0)
    ensures var rows := CaseRows(Label(item), cases);
            && (forall i :: 0 <= i < |rows| ==> Sound(rows[i], r))
            && CountIn(rows, name) == Occurrences(cases, name)
  {
    hide Counted, Label, KnownStatus, RowText, Clean, CaseRows, TruthfulLine;
    NoCaseRows(Label(item));
    if cases != [] {
      var front, c := cases[..|cases| - 1], cases[|cases| - 1];
      assert c in cases;
      CaseRowsAreSound(item, front, r, name);
      assert front + [c] == cases;
      CaseRowsAppend(Label(item), front, c);
      CaseRowIsSound(item, c, r);
      CaseRowCounts(item, c);
      var before, row := CaseRows(Label(item), front), RowText(Label(item), c.1, c.0);
      assert (before + [row])[..|before|] == before;
    }
  }

  lemma CaseRowIsSound(item: Item, c: (string, string), r: Results)
    requires ValidResults(r) && c in r && Clean(c.0)
    ensures KnownStatus(c.1) && Sound(RowText(Label(item), c.1, c.0), r)
  {
    hide Counted, Label, KnownStatus, RowText, Clean;
    var i :| 0 <= i < |r| && r[i] == c;
    GetDistinct(r, i);
    CaseRowCounts(item, c);
  }

  lemma {:induction false} ItemRowsAreSound(sorted: Results, r: Results, item: Item, name: string)
    requires ValidResults(r) && SameCases(sorted, r) && CleanCases(r)
    ensures var rows := ItemRows(sorted, item);
            && (forall i :: 0 <= i < |rows| ==> Sound(rows[i], r))
            && CountIn(rows, name) == if ItemOf(name) == Some(item) then Occurrences(sorted, name) else 0
  {
    hide Counted, ItemOf, Clean, Label, RowText, CasesOf;
    var cases := CasesOf(sorted, item);
    OccurrencesOfItem(sorted, item, name);
    if cases == [] {
      NotRunRowIsSkipped(item);
    } else {
      forall c | c in cases ensures c in r && Clean(c.0) {
        CasesBelong(sorted, item, c);
        var i :| 0 <= i < |r| && r[i] == c;
      }
      CaseRowsAreSound(item, cases, r, name);
    }
  }

  lemma {:induction false} RowsAreSound(sorted: Results, r: Results, items: seq<Item>, name: string)
    requires ValidResults(r) && SameCases(sorted, r) && CleanCases(r)
    requires forall i, j :: 0 <= i < j < |items| ==> items[i] != items[j]
    ensures var rows := Rows(sorted, items);
            && (forall i :: 0 <= i < |rows| ==> Sound(rows[i], r))
            && CountIn(rows, name) ==
                 if ItemOf(name).Some? && ItemOf(name).value in items then Occurrences(sorted, name) else 0
  {
    hide Counted, ItemOf, ItemRows, Sound, ValidResults, SameCases, CleanCases;
    if items != [] {
      var front, item := items[..|items| - 1], items[|items| - 1];
      RowsAreSound(sorted, r, front, name);
      ItemRowsAreSound(sorted, r, item, name);
      CountConcat(Rows(sorted, front), ItemRows(sorted, item), name);
      assert items == front + [item];
    }
  }

  lemma {:induction false} SkippedLines(lines: seq<string>, r: Results, name: string)
    requires forall i :: 0 <= i < |lines| ==> Skipped(lines[i])
    ensures CountIn(lines, name) == 0 && forall i :: 0 <= i < |lines| ==> Sound(lines[i], r)
  {
    hide Counted;
    if lines != [] {
      var front := lines[..|lines| - 1];
      SkippedLines(front, r, name);
      assert forall i :: 0 <= i < |front| ==> lines[i] == front[i];
    }
  }

  /** Every line of a printed report is sound, and each case of an item is the evidence of exactly one. */
  lemma {:induction false} ReportIsSound(sorted: Results, r: Results, name: string)
    requires ValidResults(r) && SameCases(sorted, r) && CleanCases(r)
    ensures var lines := ReportLines(sorted);
            && (forall i :: 0 <= i < |lines| ==> Sound(lines[i], r))
            && CountIn(lines, name) == if ItemOf(name).Some? then Occurrences(sorted, name) else 0
  {
    hide Counted, Header, Rows, Sound, ValidResults, SameCases, CleanCases, Occurrences, ItemOf;
    HeaderIsSkipped();
    SkippedLines(Header(), r, name);
    RowsAreSound(sorted, r, ITEMS, name);
    CountConcat(Header(), Rows(sorted, ITEMS), name);
    if ItemOf(name).Some? { EveryItemListed(ItemOf(name).value); }
  }

  lemma EveryItemListed(item: Item)
    ensures item in ITEMS
  {
  }

  lemma {:induction false} JoinEnded(lines: seq<string>, c: char)
    requires lines != []
    ensures Join(lines, c) + [c] == Join(lines + [""], c)
  {
    if |lines| > 1 {
      JoinEnded(lines[1..], c);
      assert (lines + [""])[1..] == lines[1..] + [""];
      assert lines[0] + [c] + Join(lines[1..], c) + [c] == lines[0] + [c] + (Join(lines[1..], c) + [c]);
    } else {
      assert (lines + [""])[1..] == [""];
    }
  }

  /** A text made of whole lines splits back into them, and an empty last one. */
  lemma SplitEnded(lines: seq<string>)
    requires lines != [] && forall i :: 0 <= i < |lines| ==> Free(lines[i], '\n')
    ensures Split(Ended(lines), '\n') == lines + [""]
  {
    hide Split, Join;
    JoinEnded(lines, '\n');
    SplitJoin(lines + [""], '\n');
  }

  lemma EmptyLineIsSkipped()
    ensures Counted("") == None
  {
  }

  // -- the main results ---------------------------------------------------------------------

  lemma {:induction false} SplitKeepsFree(s: string, c: char, d: char)
    requires Free(s, d)
    ensures forall i :: 0 <= i < |Split(s, c)| ==> Free(Split(s, c)[i], d)
  {
    if s != "" {
      assert s[0] in s;
      SplitKeepsFree(s[1..], c, d);
    }
  }

  /** Evidence read from a text is always clean. */
  lemma MentionedIsClean(text: string, name: string)
    requires Mentions(Split(text, '\n'), name)
    ensures Clean(name)
  {
    hide Split, Strip, IsSpace;
    var lines := Split(text, '\n');
    var i :| 0 <= i < |lines| && Counted(lines[i]).Some? && Counted(lines[i]).value.evidence == name;
    SplitPiecesAreFree(text, '\n');
    SplitPiecesAreFree(lines[i], '|');
    SplitKeepsFree(lines[i], '|', '\n');
    var piece := Split(lines[i], '|')[3];
    var from, to := StripTrims(piece);
    StripKeepsFree(piece, '|');
    StripKeepsFree(piece, '\n');
  }

  /** The checker accepts the printer's own report exactly when every case of an item has a clean name:
      already stripped, without a cell bar and without a line break. */
  lemma {:induction false} OwnReportIsAcceptedIff(sorted: Results, r: Results)
    requires ValidResults(r) && SameCases(sorted, r)
    ensures Problems(Report(sorted), r) == [] <==> CleanCases(r)
  {
    hide ReportLines, Problems, Counted, Clean, ItemOf, Ended, Split;
    AcceptedIff(Report(sorted), r);
    if CleanCases(r) {
      OwnReportIsComplete(sorted, r);
    }
    if Problems(Report(sorted), r) == [] {
      forall i | 0 <= i < |r| && ItemOf(r[i].0).Some? ensures Clean(r[i].0) {
        MentionedIsClean(Report(sorted), r[i].0);
      }
    }
  }

  lemma {:induction false} OwnReportIsComplete(sorted: Results, r: Results)
    requires ValidResults(r) && SameCases(sorted, r) && CleanCases(r)
    ensures var lines := Split(Report(sorted), '\n'); Truthful(lines, r) && Complete(lines, r)
  {
    hide ReportLines, Counted, Clean, ItemOf, Ended, Split, CleanCases;
    var lines := ReportLines(sorted);
    ReportIsSound(sorted, r, "");
    SplitEnded(lines);
    EmptyLineIsSkipped();
    forall i | 0 <= i < |r| && ItemOf(r[i].0).Some? ensures Mentions(lines + [""], r[i].0) {
      ReportIsSound(sorted, r, r[i].0);
      assert r[i] in sorted;
      var j :| 0 <= j < |sorted| && sorted[j] == r[i];
      OccursOnce(sorted, j);
      CountConcat(lines, [""], r[i].0);
      CountMeansMention(lines + [""], r[i].0);
    }
  }

  /** Does this line count as evidence for case `c` with its true verdict? */
  predicate Vouches(line: string, c: (string, string)) {
    var row := Counted(line);
    row.Some? && row.value.evidence == c.0 && row.value.verdict == c.1
  }

  /** Every clean case of an item has its row in the printed report. */
  lemma {:induction false} EveryCaseHasItsRow(sorted: Results, r: Results, k: nat) returns (i: nat)
    requires ValidResults(r) && SameCases(sorted, r) && CleanCases(r)
    requires k < |r| && ItemOf(r[k].0).Some?
    ensures i < |ReportLines(sorted)| && Vouches(ReportLines(sorted)[i], r[k])
  {
    hide ReportLines, Counted, ItemOf, CleanCases, Occurrences, SameCases, CountIn;
    var lines, name := ReportLines(sorted), r[k].0;
    ReportIsSound(sorted, r, name);
    CaseOccursOnce(sorted, r, k);
    CountMeansMention(lines, name);
    i :| 0 <= i < |lines| && Counted(lines[i]).Some? && Counted(lines[i]).value.evidence == name;
    assert Sound(lines[i], r);
    GetDistinct(r, k);
  }

  lemma NoOtherRow(lines: seq<string>, i: nat, name: string)
    requires CountIn(lines, name) == 1 && i < |lines|
    requires Counted(lines[i]).Some? && Counted(lines[i]).value.evidence == name
    ensures !Mentions(lines[..i], name) && !Mentions(lines[i + 1..], name)
  {
    hide Counted, Mentions;
    var before, row, after := lines[..i], [lines[i]], lines[i + 1..];
    assert lines == before + row + after;
    CountConcat(before + row, after, name);
    CountConcat(before, row, name);
    assert row[..0] == [];
    CountMeansMention(before, name);
    CountMeansMention(after, name);
  }

  lemma MentionInParts(a: seq<string>, b: seq<string>, c: seq<string>, name: string) returns (j: nat)
    requires Mentions(a + b + c, name) && !Mentions(a, name) && !Mentions(c, name)
    ensures j < |b| && Counted(b[j]).Some? && Counted(b[j]).value.evidence == name
  {
    hide Counted;
    var all := a + b + c;
    var i :| 0 <= i < |all| && Counted(all[i]).Some? && Counted(all[i]).value.evidence == name;
    assert forall x :: 0 <= x < |a| ==> all[x] == a[x];
    assert forall x :: |a| + |b| <= x < |all| ==> all[x] == c[x - |a| - |b|];
    assert |a| <= i < |a| + |b|;
    j := i - |a|;
    assert b[j] == all[i];
  }

  /** A forged text that mentions the case somewhere has a line that lies about it. */
  lemma MentionIsALie(before: seq<string>, repl: seq<string>, after: seq<string>, r: Results, k: nat)
    requires Distinct(r) && k < |r|
    requires Mentions(before + repl + after, r[k].0) && !Mentions(before, r[k].0) && !Mentions(after, r[k].0)
    requires forall j :: 0 <= j < |repl| ==> !Vouches(repl[j], r[k])
    ensures !Truthful(before + repl + after + [""], r)
  {
    hide Counted, Mentions;
    var forged := before + repl + after;
    var j := MentionInParts(before, repl, after, r[k].0);
    GetDistinct(r, k);
    assert !TruthfulLine(repl[j], r);
    assert (forged + [""])[|before| + j] == repl[j];
  }

  lemma CaseOccursOnce(sorted: Results, r: Results, k: nat)
    requires SameCases(sorted, r) && k < |r|
    ensures Occurrences(sorted, r[k].0) == 1
  {
    assert r[k] in sorted;
    var j :| 0 <= j < |sorted| && sorted[j] == r[k];
    OccursOnce(sorted, j);
  }

  lemma EmptyLineAddsNothing(lines: seq<string>, name: string)
    ensures Mentions(lines + [""], name) <==> Mentions(lines, name)
  {
    EmptyLineIsSkipped();
    CountConcat(lines, [""], name);
    assert [""][..0] == [];
    CountMeansMention(lines, name);
    CountMeansMention(lines + [""], name);
  }

  /** Tampering with a case's row is always caught: drop it, change its verdict (to NOT-RUN, too), rename its
      evidence or put any other lines in its place -- unless one of those lines vouches for the case. */
  lemma {:induction false} ForgeryIsCaught(sorted: Results, r: Results, k: nat, i: nat, repl: seq<string>)
    requires ValidResults(r) && SameCases(sorted, r) && CleanCases(r)
    requires k < |r| && ItemOf(r[k].0).Some?
    requires i < |ReportLines(sorted)| && Vouches(ReportLines(sorted)[i], r[k])
    requires forall j :: 0 <= j < |repl| ==> Free(repl[j], '\n') && !Vouches(repl[j], r[k])
    ensures var lines := ReportLines(sorted);
            Problems(Ended(lines[..i] + repl + lines[i + 1..]), r) != []
  {
    hide ReportLines, Problems, Counted, Clean, ItemOf, Ended, Split, CleanCases, Occurrences, SameCases, CountIn,
      Mentions;
    var lines, name := ReportLines(sorted), r[k].0;
    var before, after := lines[..i], lines[i + 1..];
    var forged := before + repl + after;
    ReportIsSound(sorted, r, name);
    CaseOccursOnce(sorted, r, k);
    NoOtherRow(lines, i, name);
    assert forall j :: 0 <= j < |forged| ==> Free(forged[j], '\n');
    SplitEnded(forged);
    AcceptedIff(Ended(forged), r);
    EmptyLineAddsNothing(forged, name);
    if Mentions(forged, name) { MentionIsALie(before, repl, after, r, k); }
  }

  /** The item cell is not compared: relabelling a row leaves its judgement and its evidence as they were. */
  lemma ItemCellIsNotCompared(a: string, b: string, verdict: string, evidence: string, r: Results)
    requires PlainTag(a) && PlainTag(b) && Clean(verdict) && Clean(evidence)
    ensures var rowA, rowB := RowText(a, verdict, evidence), RowText(b, verdict, evidence);
            && (TruthfulLine(rowA, r) <==> TruthfulLine(rowB, r))
            && Seen([rowA]) == Seen([rowB])
  {
    hide Counted, RowText, Clean, OnlyRule;
    PrintedRowCounts(a, verdict, evidence);
    PrintedRowCounts(b, verdict, evidence);
    var rowA, rowB := RowText(a, verdict, evidence), RowText(b, verdict, evidence);
    assert [rowA][..0] == [] && [rowB][..0] == [];
  }
}
