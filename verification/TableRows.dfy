/** Markdown table rows: the escape-aware splitter of scripts/doccheck/key_registry.py, the plain one of
    scripts/todo_lint.py, and a renderer to compare them by. */
module TableRows {
  import opened PyText

  predicate EscapedPipe(s: string) {
    |s| >= 2 && s[0] == '\\' && s[1] == '|'
  }

  function OntoFirst(c: char, cells: seq<string>): (r: seq<string>)
    requires cells != []
    ensures |r| == |cells|
  {
    [[c] + cells[0]] + cells[1..]
  }

  /** The untrimmed cells of a line, an escaped pipe standing for a plain one. */
  function RawCells(s: string): (cells: seq<string>)
    ensures cells != []
  {
    if s == "" then [""]
    else if EscapedPipe(s) then OntoFirst('|', RawCells(s[2..]))
    else if s[0] == '|' then [""] + RawCells(s[1..])
    else OntoFirst(s[0], RawCells(s[1..]))
  }

  /** cells[1:-1] */
  function Inner(cells: seq<string>): seq<string> {
    if |cells| >= 2 then cells[1..|cells| - 1] else []
  }

  /** Only dashes, colons and spaces, and not empty. */
  predicate Ruled(cell: string) {
    cell != "" && forall i :: 0 <= i < |cell| ==> cell[i] in "-: "
  }

  predicate Separator(cells: seq<string>) {
    cells != [] && forall i :: 0 <= i < |cells| ==> Ruled(cells[i])
  }

  /** What both splitters do with the cells they have cut. */
  function RowFrom(line: string, raw: seq<string>): seq<string> {
    var cells := Inner(StripAll(raw));
    if !StartsWith(line, "|") || Separator(cells) then [] else cells
  }

  /** The row of key_registry. */
  function Row(line: string): seq<string> {
    RowFrom(line, RawCells(line))
  }

  /** The row of todo_lint: every pipe cuts. */
  function PlainRow(line: string): seq<string> {
    RowFrom(line, Split(line, '|'))
  }

  /** Cells cut so far, and the cell that is being read. */
  function Pending(cells: seq<string>, cur: string, rest: string): seq<string> {
    var raw := RawCells(rest);
    cells + [cur + raw[0]] + raw[1..]
  }

  lemma {:induction false} PendingStep(cells: seq<string>, cur: string, rest: string)
    requires rest != ""
    ensures EscapedPipe(rest) ==>
              Pending(cells, cur, rest) == Pending(cells, cur + "|", rest[2..])
    ensures !EscapedPipe(rest) && rest[0] == '|' ==>
              Pending(cells, cur, rest) == Pending(cells + [cur], "", rest[1..])
    ensures !EscapedPipe(rest) && rest[0] != '|' ==>
              Pending(cells, cur, rest) == Pending(cells, cur + [rest[0]], rest[1..])
  {
    if EscapedPipe(rest) {
      var first := RawCells(rest[2..])[0];
      assert cur + (['|'] + first) == (cur + "|") + first;
    } else {
      var next := RawCells(rest[1..]);
      if rest[0] == '|' {
        assert cur + "" == cur && "" + next[0] == next[0];
        assert [next[0]] + next[1..] == next;
        assert cells + [cur] + next == cells + [cur] + [next[0]] + next[1..];
      } else {
        assert cur + ([rest[0]] + next[0]) == (cur + [rest[0]]) + next[0];
      }
    }
  }

  lemma {:induction false} PendingAll(line: string)
    ensures Pending([], "", line) == RawCells(line)
  {
    var raw := RawCells(line);
    assert "" + raw[0] == raw[0];
    assert [] + [raw[0]] + raw[1..] == raw;
  }

  lemma {:induction false} PendingNone(cells: seq<string>, cur: string)
    ensures Pending(cells, cur, "") == cells + [cur]
  {
    assert cur + "" == cur;
    assert cells + [cur] + [] == cells + [cur];
  }

  method SplitRow(line: string) returns (row: seq<string>)
    ensures row == Row(line)
  {
    hide Pending, RawCells, Strip;
    if !StartsWith(line, "|") {
      return [];
    }
    var cells, cur, i := [], "", 0;
    ghost var raw := [];
    PendingAll(line);
    while i < |line|
      invariant 0 <= i <= |line|
      invariant cells == StripAll(raw)
      invariant Pending(raw, cur, line[i..]) == RawCells(line)
    {
      PendingStep(raw, cur, line[i..]);
      var c := line[i];
      if c == '\\' && i + 1 < |line| && line[i + 1] == '|' {
        assert line[i..][2..] == line[i + 2..];
        cur := cur + "|";
        i := i + 2;
        continue;
      }
      assert line[i..][1..] == line[i + 1..];
      if c == '|' {
        cells := cells + [Strip(cur)];
        raw := raw + [cur];
        cur := "";
        i := i + 1;
        continue;
      }
      cur := cur + [c];
      i := i + 1;
    }
    assert line[i..] == "";
    PendingNone(raw, cur);
    cells := cells + [Strip(cur)];
    assert cells == StripAll(RawCells(line));
    var trimmed := if |cells| >= 2 then cells[1..|cells| - 1] else [];
    if Separator(trimmed) {
      return [];
    }
    return trimmed;
  }

  // -- against the plain splitter -----------------------------------------------------------

  /** How often `\|` occurs. */
  function Escapes(s: string): nat {
    if s == "" then 0 else (if EscapedPipe(s) then 1 else 0) + Escapes(s[1..])
  }

  /** Every escaped pipe is one cut less; without any, the two splitters agree. */
  lemma {:induction false} EachEscapeMergesTwoCells(s: string)
    ensures |RawCells(s)| + Escapes(s) == |Split(s, '|')|
    ensures Escapes(s) == 0 ==> RawCells(s) == Split(s, '|')
  {
    if s != "" {
      if EscapedPipe(s) {
        EachEscapeMergesTwoCells(s[2..]);
        assert s[1..][1..] == s[2..] && s[1] == '|';
      } else {
        EachEscapeMergesTwoCells(s[1..]);
      }
    }
  }

  /** The plain splitter leaves the backslash of an escape at the end of a cell, and never of the last one. */
  lemma {:induction false} EscapeShows(s: string) returns (i: nat)
    requires Escapes(s) > 0
    ensures i < |Split(s, '|')| - 1 && Split(s, '|')[i] != ""
    ensures var cell := Split(s, '|')[i]; cell[|cell| - 1] == '\\'
  {
    var rest := Split(s[1..], '|');
    if EscapedPipe(s) {
      i := 0;
      assert s[1..][0] == '|' && Split(s[1..][1..], '|') != [];
      assert [s[0]] + rest[0] == "\\";
    } else {
      i := EscapeShows(s[1..]);
      if s[0] == '|' { i := i + 1; }
    }
  }

  lemma {:induction false} RStripKeepsEnd(s: string)
    requires s != "" && !IsSpace(s[|s| - 1])
    ensures RStrip(s) == s
  {
  }

  lemma {:induction false} LStripKeepsEnd(s: string)
    requires s != "" && !IsSpace(s[|s| - 1])
    ensures LStrip(s) != "" && LStrip(s)[|LStrip(s)| - 1] == s[|s| - 1]
  {
    if IsSpace(s[0]) { LStripKeepsEnd(s[1..]); }
  }

  /** So its row is no separator. */
  lemma {:induction false} PlainRowShowsEscape(line: string)
    requires StartsWith(line, "|") && Escapes(line) > 0
    ensures PlainRow(line) == Inner(StripAll(Split(line, '|')))
  {
    hide Split, Strip;
    var parts := Split(line, '|');
    assert line[0] == '|' by { assert line[..1][0] == "|"[0]; }
    var i := EscapeShows(line[1..]);
    SplitAfterPipe(line);
    var cell := parts[i + 1];
    BackslashStays(cell);
    var inner := Inner(StripAll(parts));
    assert inner[i] == Strip(cell);
    assert !Ruled(inner[i]);
  }

  lemma {:induction false} SplitAfterPipe(line: string)
    requires line != "" && line[0] == '|'
    ensures Split(line, '|') == [""] + Split(line[1..], '|') && Escapes(line) == Escapes(line[1..])
  {
  }

  lemma {:induction false} BackslashStays(cell: string)
    requires cell != "" && cell[|cell| - 1] == '\\'
    ensures !Ruled(Strip(cell))
  {
    LStripKeepsEnd(cell);
    RStripKeepsEnd(LStrip(cell));
    var kept := Strip(cell);
    assert kept[|kept| - 1] == '\\' && '\\' !in "-: ";
  }

  /** The cells of a registry row before it is looked at as a separator. */
  function RegistryCells(line: string): seq<string> {
    Inner(StripAll(RawCells(line)))
  }

  /** Off a table line both splitters return nothing. On one they agree exactly when it holds no escaped pipe: a
      row of the registry has that many cells less; only where its cells are a separator has it none, and the
      plain row still some. */
  lemma {:induction false} RowsAgreeIff(line: string)
    ensures !StartsWith(line, "|") ==> Row(line) == [] && PlainRow(line) == []
    ensures Row(line) == PlainRow(line) <==> !StartsWith(line, "|") || Escapes(line) == 0
    ensures StartsWith(line, "|") && !Separator(RegistryCells(line)) ==>
              |Row(line)| + Escapes(line) == |PlainRow(line)|
    ensures StartsWith(line, "|") && Separator(RegistryCells(line)) && Escapes(line) > 0 ==>
              Row(line) == [] && PlainRow(line) != []
  {
    hide RawCells, Split, Strip, Separator, Escapes;
    EachEscapeMergesTwoCells(line);
    if StartsWith(line, "|") && Escapes(line) > 0 {
      PlainRowShowsEscape(line);
      TableLineHasCells(line);
      SomeCells(line);
    }
  }

  /** A table line is cut at its first pipe. */
  lemma {:induction false} TableLineHasCells(line: string)
    requires StartsWith(line, "|")
    ensures |RawCells(line)| >= 2
  {
    assert line[0] == '|' by { assert line[..1][0] == "|"[0]; }
  }

  lemma {:induction false} SomeCells(line: string)
    requires StartsWith(line, "|") && Escapes(line) > 0
    ensures |Split(line, '|')| >= 3
  {
    TableLineHasCells(line);
    EachEscapeMergesTwoCells(line);
  }

  /** Nothing is lost: the cells joined by pipes are the line with its escapes taken out. */
  function Unescaped(s: string): string {
    if s == "" then "" else if EscapedPipe(s) then "|" + Unescaped(s[2..]) else [s[0]] + Unescaped(s[1..])
  }

  lemma {:induction false} JoinOntoFirst(c: char, cells: seq<string>)
    requires cells != []
    ensures Join(OntoFirst(c, cells), '|') == [c] + Join(cells, '|')
  {
  }

  lemma {:induction false} CellsKeepTheText(s: string)
    ensures Join(RawCells(s), '|') == Unescaped(s)
  {
    if s != "" {
      if EscapedPipe(s) {
        CellsKeepTheText(s[2..]);
        JoinOntoFirst('|', RawCells(s[2..]));
      } else {
        CellsKeepTheText(s[1..]);
        if s[0] == '|' {
          assert ([""] + RawCells(s[1..]))[1..] == RawCells(s[1..]);
        } else {
          JoinOntoFirst(s[0], RawCells(s[1..]));
        }
      }
    }
  }

  // -- rendering and back ----------------------------------------------------------------------

  /** A cell as it is written: padding, text, padding. */
  datatype Cell = Cell(left: string, text: string, right: string)
  {
    /** Padded by white space only, with nothing to trim, and no backslash flush against the pipe. */
    predicate Renderable() {
      && Blank(left) && Blank(right) && Trimmed(text)
      && (right == "" && text != "" ==> text[|text| - 1] != '\\')
    }
  }

  function Escape(text: string): string {
    if text == "" then "" else (if text[0] == '|' then "\\|" else [text[0]]) + Escape(text[1..])
  }

  function Body(cells: seq<Cell>): string {
    if cells == [] then "" else cells[0].left + Escape(cells[0].text) + cells[0].right + "|" + Body(cells[1..])
  }

  function Render(cells: seq<Cell>): string {
    "|" + Body(cells)
  }

  function Texts(cells: seq<Cell>): (t: seq<string>)
    ensures |t| == |cells| && forall i :: 0 <= i < |t| ==> t[i] == cells[i].text
  {
    if cells == [] then [] else [cells[0].text] + Texts(cells[1..])
  }

  predicate AllRenderable(cells: seq<Cell>) {
    forall i :: 0 <= i < |cells| ==> cells[i].Renderable()
  }

  predicate OpensWithPipe(s: string) {
    s != "" && s[0] == '|'
  }

  lemma SpacesAreNoMarks(c: char)
    requires IsSpace(c)
    ensures c != '|' && c != '\\'
  {
  }

  lemma BlankOpensWithSpace(pad: string)
    requires Blank(pad) && pad != ""
    ensures !OpensWithPipe(pad)
  {
  }

  /** Escaped text in front of a line goes into its first cell, unless a backslash at its end would meet a
      pipe that starts the line. */
  lemma {:induction false} EscapedIntoFirst(text: string, rest: string)
    requires text != "" && text[|text| - 1] == '\\' ==> !OpensWithPipe(rest)
    ensures RawCells(Escape(text) + rest) == [text + RawCells(rest)[0]] + RawCells(rest)[1..]
  {
    var first := RawCells(rest)[0];
    if text == "" {
      assert Escape(text) + rest == rest && text + first == first;
    } else {
      var t := text[1..];
      EscapedIntoFirst(t, rest);
      assert [text[0]] + (t + first) == text + first;
      EscapedFirst(text, rest);
    }
  }

  lemma {:induction false} EscapedFirst(text: string, rest: string)
    requires text != "" && (text[|text| - 1] == '\\' ==> !OpensWithPipe(rest))
    ensures RawCells(Escape(text) + rest) == OntoFirst(text[0], RawCells(Escape(text[1..]) + rest))
  {
    var line, tail := Escape(text) + rest, Escape(text[1..]) + rest;
    if text[0] == '|' {
      assert line[2..] == tail;
    } else {
      assert line == [text[0]] + tail;
      if text[0] == '\\' { EscapedOpensLikeText(text[1..], rest); }
      PlainFirst(text[0], tail);
    }
  }

  lemma {:induction false} EscapedOpensLikeText(text: string, rest: string)
    requires text == "" ==> !OpensWithPipe(rest)
    ensures !OpensWithPipe(Escape(text) + rest)
  {
  }

  lemma {:induction false} PlainFirst(c: char, tail: string)
    requires c != '|' && (c == '\\' ==> !OpensWithPipe(tail))
    ensures RawCells([c] + tail) == OntoFirst(c, RawCells(tail))
  {
  }

  lemma {:induction false} BlankIntoFirst(pad: string, rest: string)
    requires Blank(pad)
    ensures RawCells(pad + rest) == [pad + RawCells(rest)[0]] + RawCells(rest)[1..]
  {
    hide IsSpace, RawCells;
    if pad == "" {
      assert pad + rest == rest && pad + RawCells(rest)[0] == RawCells(rest)[0];
    } else {
      var more := pad[1..] + rest;
      BlankIntoFirst(pad[1..], rest);
      SpacesAreNoMarks(pad[0]);
      assert pad + rest == [pad[0]] + more;
      PlainFirst(pad[0], more);
      assert [pad[0]] + (pad[1..] + RawCells(rest)[0]) == pad + RawCells(rest)[0];
    }
  }

  lemma {:induction false} CellEnds(pad: string, rest: string)
    requires Blank(pad)
    ensures RawCells(pad + ("|" + rest)) == [pad] + RawCells(rest)
    ensures pad != "" ==> !OpensWithPipe(pad + ("|" + rest))
  {
    hide Blank;
    var after := "|" + rest;
    assert after[1..] == rest;
    assert RawCells(after) == [""] + RawCells(rest);
    BlankIntoFirst(pad, after);
    assert pad + "" == pad;
    if pad != "" { BlankOpensWithSpace(pad); }
  }

  lemma {:induction false} CellIntoRaw(c: Cell, rest: string)
    requires c.Renderable()
    ensures RawCells(c.left + Escape(c.text) + c.right + "|" + rest)
         == [c.left + c.text + c.right] + RawCells(rest)
  {
    hide Blank, Trimmed, Escape, RawCells;
    CellEnds(c.right, rest);
    var padded := c.right + ("|" + rest);
    EscapedIntoFirst(c.text, padded);
    var written := Escape(c.text) + padded;
    BlankIntoFirst(c.left, written);
    assert c.left + Escape(c.text) + c.right + "|" + rest == c.left + written;
    assert c.left + c.text + c.right == c.left + (c.text + c.right);
  }

  function Written(cells: seq<Cell>): (w: seq<string>)
    ensures |w| == |cells| && forall i :: 0 <= i < |w| ==> w[i] == cells[i].left + cells[i].text + cells[i].right
  {
    if cells == [] then [] else [cells[0].left + cells[0].text + cells[0].right] + Written(cells[1..])
  }

  lemma {:induction false} BodyIntoRaw(cells: seq<Cell>)
    requires AllRenderable(cells)
    ensures RawCells(Body(cells)) == Written(cells) + [""]
  {
    if cells != [] {
      hide Cell.Renderable, Escape, RawCells;
      BodyIntoRaw(cells[1..]);
      CellIntoRaw(cells[0], Body(cells[1..]));
    }
  }

  /** Splitting undoes rendering, for every row that is not a separator. */
  /** A rendered row is skipped exactly if it has cells and every one is made of dashes, colons and spaces. */
  lemma {:induction false} SkippedIff(cells: seq<Cell>)
    requires AllRenderable(cells) && cells != []
    ensures Row(Render(cells)) == []
       <==> forall t :: t in Texts(cells) ==> t != "" && forall c :: c in t ==> c == '-' || c == ':' || c == ' '
  {
    SplitUndoesRender(cells);
    hide Row, Render, Cell.Renderable;
    var texts := Texts(cells);
    forall t: string ensures Ruled(t) <==> t != "" && forall c :: c in t ==> c == '-' || c == ':' || c == ' ' {
      RuledInFigures(t);
    }
    assert Separator(texts) <==> forall t :: t in texts ==> Ruled(t);
  }

  lemma {:induction false} RuledInFigures(t: string)
    ensures Ruled(t) <==> t != "" && forall c :: c in t ==> c == '-' || c == ':' || c == ' '
  {
    if forall c :: c in t ==> c == '-' || c == ':' || c == ' ' {
      forall i | 0 <= i < |t| ensures t[i] in "-: " { assert t[i] in t; }
    }
  }

  lemma {:induction false} SplitUndoesRender(cells: seq<Cell>)
    requires AllRenderable(cells)
    ensures Row(Render(cells)) == if Separator(Texts(cells)) then [] else Texts(cells)
  {
    hide Strip, Trimmed, Blank, Escape, Body;
    var line := Render(cells);
    assert line[1..] == Body(cells) && !EscapedPipe(line);
    BodyIntoRaw(cells);
    var raw := RawCells(line);
    assert raw == [""] + Written(cells) + [""];
    var inner := Inner(StripAll(raw));
    assert |inner| == |cells|;
    forall i | 0 <= i < |cells| ensures inner[i] == cells[i].text {
      assert raw[i + 1] == Written(cells)[i];
      StripPads(cells[i].left, cells[i].text, cells[i].right);
    }
    assert inner == Texts(cells);
  }

  lemma EscapesWritten()
    ensures Escape("a\\") == "a\\" && Escape("b") == "b" && Escape("a|b") == "a\\|b"
  {
    assert "a\\"[1..] == "\\" && "\\"[1..] == "" && "b"[1..] == "" && "a|b"[1..] == "|b" && "|b"[1..] == "b";
    assert Escape("\\") == "\\" && Escape("|b") == "\\|b";
  }

  /** Why a backslash must not touch the pipe: two such cells are written like one. */
  lemma {:induction false} FlushBackslashMerges()
    ensures Render([Cell("", "a\\", ""), Cell("", "b", "")]) == Render([Cell("", "a|b", "")])
    ensures Row(Render([Cell("", "a|b", "")])) == ["a|b"]
  {
    var apart, joined := [Cell("", "a\\", ""), Cell("", "b", "")], [Cell("", "a|b", "")];
    EscapesWritten();
    hide Escape, RawCells, Strip;
    assert Body(joined[1..]) == "" && Body(apart[1..][1..]) == "";
    assert Body(apart[1..]) == "b|";
    SplitUndoesRender(joined);
    assert Texts(joined) == ["a|b"] by { assert Texts(joined[1..]) == []; }
    assert "a|b"[0] !in "-: ";
  }

  lemma {:induction false} SeparatorInPlain(s: string)
    requires s == "|---|\\|"
    ensures Split(s, '|') == ["", "---", "\\", ""]
  {
    var parts := ["", "---", "\\", ""];
    assert parts[1..] == ["---", "\\", ""] && parts[1..][1..] == ["\\", ""] && parts[1..][1..][1..] == [""];
    assert Join([""], '|') == "" && Join(["\\", ""], '|') == "\\|";
    assert Join(["---", "\\", ""], '|') == "---|\\|";
    assert Join(parts, '|') == s;
    SplitJoin(parts, '|');
  }

  lemma {:induction false} StripNothing(cell: string)
    requires Trimmed(cell)
    ensures Strip(cell) == cell
  {
    StripPads("", cell, "");
    assert "" + cell + "" == cell;
  }

  /** The exception of RowsAgreeIff: cells that are a separator for the registry, and two cells for the plain
      splitter. */
  lemma {:induction false} EscapedSeparator()
    ensures Row("|---|\\|") == [] && PlainRow("|---|\\|") == ["---", "\\"]
  {
    hide RawCells, Split, Strip, Escapes;
    var s := "|---|\\|";
    SeparatorInRaw(s);
    SeparatorInPlain(s);
    StripNothing("---");
    StripNothing("\\");
    var three, four := StripAll(RawCells(s)), StripAll(Split(s, '|'));
    assert three[1] == "---" && Inner(three) == [three[1]];
    assert four[1] == "---" && four[2] == "\\" && Inner(four) == [four[1], four[2]];
    assert Ruled(three[1]) && !Ruled(four[2]) by { assert four[2][0] !in "-: "; }
    assert Separator(Inner(three)) && !Separator(Inner(four)) by { assert Inner(four)[1] == four[2]; }
    assert StartsWith(s, "|") by { assert s[..1] == "|"; }
  }

  lemma {:induction false} SeparatorInRaw(s: string)
    requires s == "|---|\\|"
    ensures RawCells(s) == ["", "---", "|"]
  {
    var end := "\\|";
    assert end[2..] == "" && ['|'] + "" == "|" && RawCells(end) == ["|"];
    CellEnds("", end);
    assert "" + ("|" + end) == "|\\|";
    PlainFirst('-', "|\\|");
    assert ['-'] + "|\\|" == "-|\\|" && ['-'] + "" == "-" && RawCells("-|\\|") == ["-", "|"];
    PlainFirst('-', "-|\\|");
    assert ['-'] + "-|\\|" == "--|\\|" && ['-'] + "-" == "--" && RawCells("--|\\|") == ["--", "|"];
    PlainFirst('-', "--|\\|");
    assert ['-'] + "--|\\|" == "---|\\|" && ['-'] + "--" == "---" && RawCells("---|\\|") == ["---", "|"];
    assert s[1..] == "---|\\|";
  }
}
