/** code_lines and audit_rule of scripts/ci/cxx_discipline_audit.py. */
module CommentStripper {
  import opened Basics
  import opened PyText

  /** Position of the first "*" followed by "/", if any. */
  function FindClose(s: string): (r: Option<nat>)
    ensures r.Some? ==> r.value + 2 <= |s| && s[r.value] == '*' && s[r.value + 1] == '/'
  {
    if |s| < 2 then None
    else if s[0] == '*' && s[1] == '/' then Some(0)
    else
      var r := FindClose(s[1..]);
      if r.None? then None else Some(r.value + 1)
  }

  predicate OpensLine(s: string) {
    |s| >= 2 && s[0] == '/' && s[1] == '/'
  }

  predicate OpensBlock(s: string) {
    |s| >= 2 && s[0] == '/' && s[1] == '*'
  }

  /** The code in the rest of a line, and whether a block comment is open at its end. */
  function StripRest(rest: string, inBlock: bool): (string, bool)
    decreases |rest|
  {
    if rest == "" then ("", inBlock)
    else if inBlock then
      var end := FindClose(rest);
      if end.None? then ("", true) else StripRest(rest[end.value + 2..], false)
    else if OpensLine(rest) then ("", false)
    else if OpensBlock(rest) then StripRest(rest[2..], true)
    else
      var (code, open) := StripRest(rest[1..], false);
      ([rest[0]] + code, open)
  }

  function StripLines(lines: seq<string>, inBlock: bool): (out: seq<string>)
    ensures |out| == |lines|
  {
    if lines == [] then []
    else
      var (code, open) := StripRest(lines[0], inBlock);
      [code] + StripLines(lines[1..], open)
  }

  /** line.split("#", 1)[0] */
  function BeforeHash(line: string): string {
    Split(line, '#')[0]
  }

  /** What stands in front of the first hash, and all of a line without one. */
  lemma {:induction false} BeforeHashStops(line: string)
    ensures var r := BeforeHash(line);
            r <= line && '#' !in r && (|r| < |line| ==> line[|r|] == '#')
  {
    if line != "" && line[0] != '#' {
      BeforeHashStops(line[1..]);
      assert BeforeHash(line) == [line[0]] + BeforeHash(line[1..]);
    }
  }

  function CutLines(lines: seq<string>): (out: seq<string>)
    ensures |out| == |lines| && forall i :: 0 <= i < |lines| ==> out[i] == BeforeHash(lines[i])
  {
    seq(|lines|, i requires 0 <= i < |lines| => BeforeHash(lines[i]))
  }

  /** What code_lines returns for a text. */
  function Stripped(text: string, isCmake: bool): (out: seq<string>)
    ensures |out| == |Split(text, '\n')|
  {
    var lines := Split(text, '\n');
    if isCmake then CutLines(lines) else StripLines(lines, false)
  }

  /** Is a block comment open after the first `n` lines? */
  function OpenAfter(lines: seq<string>, inBlock: bool): bool {
    if lines == [] then inBlock else OpenAfter(lines[1..], StripRest(lines[0], inBlock).1)
  }

  lemma {:induction false} StripConcat(a: seq<string>, b: seq<string>, inBlock: bool)
    ensures StripLines(a + b, inBlock) == StripLines(a, inBlock) + StripLines(b, OpenAfter(a, inBlock))
    ensures OpenAfter(a + b, inBlock) == OpenAfter(b, OpenAfter(a, inBlock))
  {
    hide StripRest;
    if a == [] {
      assert a + b == b;
    } else {
      assert (a + b)[1..] == a[1..] + b;
      StripConcat(a[1..], b, StripRest(a[0], inBlock).1);
    }
  }

  /** One line, character by character; the block state carries over. */
  method StripLine(line: string, wasOpen: bool) returns (code: string, inBlock: bool)
    ensures (code, inBlock) == StripRest(line, wasOpen)
  {
    hide StripRest, FindClose, OpensLine, OpensBlock;
    code, inBlock := "", wasOpen;
    var i := 0;
    assert line[0..] == line && "" + StripRest(line, wasOpen).0 == StripRest(line, wasOpen).0;
    while i < |line|
      invariant i <= |line|
      invariant StripRest(line, wasOpen).0 == code + StripRest(line[i..], inBlock).0
      invariant StripRest(line, wasOpen).1 == StripRest(line[i..], inBlock).1
    {
      var rest := line[i..];
      StripRestUnfolds(rest, inBlock);
      if inBlock {
        var end := FindClose(rest);
        if end.None? {
          i := |line|;
          StripRestUnfolds("", true);
          assert line[i..] == "";
        } else {
          inBlock := false;
          i := i + end.value + 2;
          assert line[i..] == rest[end.value + 2..];
        }
      } else if OpensLine(rest) {
        assert code + "" == code;
        return;
      } else if OpensBlock(rest) {
        inBlock := true;
        OpenerIsTwo(rest);
        i := i + 2;
        assert line[i..] == rest[2..];
      } else {
        Reassociate(code, [rest[0]], StripRest(rest[1..], false).0);
        code := code + [line[i]];
        i := i + 1;
        assert line[i..] == rest[1..];
      }
    }
    StripRestUnfolds("", inBlock);
    assert line[i..] == "" && code + "" == code;
  }

  lemma OpenerIsTwo(s: string)
    ensures OpensBlock(s) || OpensLine(s) ==> |s| >= 2
  {
  }

  lemma StripRestUnfolds(rest: string, inBlock: bool)
    ensures StripRest(rest, inBlock) ==
              if rest == "" then ("", inBlock)
              else if inBlock then
                if FindClose(rest).None? then ("", true) else StripRest(rest[FindClose(rest).value + 2..], false)
              else if OpensLine(rest) then ("", false)
              else if OpensBlock(rest) then StripRest(rest[2..], true)
              else ([rest[0]] + StripRest(rest[1..], false).0, StripRest(rest[1..], false).1)
  {
  }

  lemma Reassociate(a: string, b: string, c: string)
    ensures a + (b + c) == (a + b) + c
  {
  }

  method CodeLines(text: string, isCmake: bool) returns (out: seq<string>)
    ensures out == Stripped(text, isCmake)
  {
    var lines := Split(text, '\n');
    out := [];
    var inBlock := false;
    for n := 0 to |lines|
      invariant |out| == n
      invariant isCmake ==> out == CutLines(lines[..n])
      invariant !isCmake ==> out == StripLines(lines[..n], false) && inBlock == OpenAfter(lines[..n], false)
    {
      var line := lines[n];
      assert lines[..n + 1] == lines[..n] + [line];
      if isCmake {
        out := out + [BeforeHash(line)];
        continue;
      }
      StripConcat(lines[..n], [line], false);
      var code, open := StripLine(line, inBlock);
      StripOne(line, inBlock);
      out, inBlock := out + [code], open;
    }
    assert lines[..|lines|] == lines;
  }

  lemma StripOne(line: string, inBlock: bool)
    ensures StripLines([line], inBlock) == [StripRest(line, inBlock).0]
    ensures OpenAfter([line], inBlock) == StripRest(line, inBlock).1
  {
  }

  // -- against a lexer for the whole text -------------------------------------------

  datatype Mode = InCode | InLineComment | InBlockComment

  /** C++ comments of a whole text replaced by nothing; line breaks are kept. */
  function Lex(t: string, m: Mode): string
    decreases |t|
  {
    if t == "" then ""
    else match m
      case InCode =>
        if OpensLine(t) then Lex(t[2..], InLineComment)
        else if OpensBlock(t) then Lex(t[2..], InBlockComment)
        else [t[0]] + Lex(t[1..], InCode)
      case InLineComment =>
        if t[0] == '\n' then "\n" + Lex(t[1..], InCode) else Lex(t[1..], InLineComment)
      case InBlockComment =>
        if |t| >= 2 && t[0] == '*' && t[1] == '/' then Lex(t[2..], InCode)
        else if t[0] == '\n' then "\n" + Lex(t[1..], InBlockComment)
        else Lex(t[1..], InBlockComment)
  }

  function ModeOf(inBlock: bool): Mode {
    if inBlock then InBlockComment else InCode
  }

  /** What follows a line: nothing, or a line break. */
  predicate AfterLine(tail: string) {
    tail == "" || tail[0] == '\n'
  }

  lemma {:induction false} LexLineComment(rest: string, tail: string)
    requires Free(rest, '\n') && AfterLine(tail)
    ensures Lex(rest + tail, InLineComment) == Lex(tail, InCode)
  {
    if rest == "" {
      assert rest + tail == tail;
    } else {
      assert rest[0] in rest;
      assert (rest + tail)[1..] == rest[1..] + tail;
      LexLineComment(rest[1..], tail);
    }
  }

  predicate ClosesBlock(t: string) {
    |t| >= 2 && t[0] == '*' && t[1] == '/'
  }

  lemma LexBlockUnfolds(t: string)
    requires t != "" && t[0] != '\n'
    ensures Lex(t, InBlockComment) == if ClosesBlock(t) then Lex(t[2..], InCode) else Lex(t[1..], InBlockComment)
  {
  }

  lemma LexCodeUnfolds(t: string)
    requires t != ""
    ensures Lex(t, InCode) ==
              if OpensLine(t) then Lex(t[2..], InLineComment)
              else if OpensBlock(t) then Lex(t[2..], InBlockComment)
              else [t[0]] + Lex(t[1..], InCode)
  {
  }

  /** What a line's first two characters are does not depend on the text after the line. */
  lemma LineHead(rest: string, tail: string)
    requires AfterLine(tail) && rest != ""
    ensures var t := rest + tail;
            && t[0] == rest[0] && t[1..] == rest[1..] + tail
            && (|rest| >= 2 ==> t[1] == rest[1] && t[2..] == rest[2..] + tail)
            && (|rest| == 1 && |t| >= 2 ==> t[1] == '\n')
  {
  }

  lemma LexBlockStep(rest: string, tail: string)
    requires Free(rest, '\n') && AfterLine(tail) && rest != ""
    ensures Lex(rest + tail, InBlockComment) ==
              if ClosesBlock(rest) then Lex(rest[2..] + tail, InCode) else Lex(rest[1..] + tail, InBlockComment)
  {
    hide Lex;
    assert rest[0] in rest;
    LineHead(rest, tail);
    LexBlockUnfolds(rest + tail);
  }

  lemma {:induction false} LexBlockComment(rest: string, tail: string)
    requires Free(rest, '\n') && AfterLine(tail)
    ensures Lex(rest + tail, InBlockComment) ==
              var end := FindClose(rest);
              if end.None? then Lex(tail, InBlockComment) else Lex(rest[end.value + 2..] + tail, InCode)
  {
    hide Lex;
    if rest == "" {
      assert rest + tail == tail;
    } else {
      LexBlockStep(rest, tail);
      if !ClosesBlock(rest) {
        LexBlockComment(rest[1..], tail);
        if |rest| == 1 { assert FindClose(rest).None? && FindClose(rest[1..]).None?; }
        var end := FindClose(rest[1..]);
        if end.Some? { assert rest[1..][end.value + 2..] == rest[end.value + 3..]; }
      }
    }
  }

  lemma LexCodeStep(rest: string, tail: string)
    requires Free(rest, '\n') && AfterLine(tail) && rest != ""
    ensures Lex(rest + tail, InCode) ==
              if OpensLine(rest) then Lex(rest[2..] + tail, InLineComment)
              else if OpensBlock(rest) then Lex(rest[2..] + tail, InBlockComment)
              else [rest[0]] + Lex(rest[1..] + tail, InCode)
  {
    hide Lex;
    LineHead(rest, tail);
    LexCodeUnfolds(rest + tail);
  }

  /** Lexing the rest of a line emits its code and carries the block state over the line break. */
  lemma {:induction false} LexRest(rest: string, inBlock: bool, tail: string)
    requires Free(rest, '\n') && AfterLine(tail)
    ensures Lex(rest + tail, ModeOf(inBlock)) ==
              StripRest(rest, inBlock).0 + Lex(tail, ModeOf(StripRest(rest, inBlock).1))
    decreases |rest|
  {
    hide Lex, StripRest, FindClose, OpensLine, OpensBlock;
    StripRestUnfolds(rest, inBlock);
    if rest == "" {
      assert rest + tail == tail;
    } else if inBlock {
      LexBlockComment(rest, tail);
      var end := FindClose(rest);
      if end.Some? { LexRest(rest[end.value + 2..], false, tail); }
    } else {
      OpenerIsTwo(rest);
      LexCodeStep(rest, tail);
      if OpensLine(rest) {
        LexLineComment(rest[2..], tail);
      } else if OpensBlock(rest) {
        LexRest(rest[2..], true, tail);
      } else {
        LexRest(rest[1..], false, tail);
        var more := StripRest(rest[1..], false);
        Reassociate([rest[0]], more.0, Lex(tail, ModeOf(more.1)));
      }
    }
  }

  lemma LexLineBreak(after: string, inBlock: bool)
    ensures Lex(['\n'] + after, ModeOf(inBlock)) == ['\n'] + Lex(after, ModeOf(inBlock))
  {
  }

  lemma {:induction false} StripLinesIsLexer(lines: seq<string>, inBlock: bool)
    requires lines != [] && forall i :: 0 <= i < |lines| ==> Free(lines[i], '\n')
    ensures Join(StripLines(lines, inBlock), '\n') == Lex(Join(lines, '\n'), ModeOf(inBlock))
  {
    hide StripRest, ModeOf;
    var (code, open) := StripRest(lines[0], inBlock);
    if |lines| == 1 {
      NothingToLex(open);
      LexRest(lines[0], inBlock, "");
      assert lines[0] + "" == lines[0] && code + "" == code;
      assert StripLines(lines, inBlock) == [code];
    } else {
      hide Lex;
      var after := Join(lines[1..], '\n');
      StripLinesIsLexer(lines[1..], open);
      LexRest(lines[0], inBlock, ['\n'] + after);
      LexLineBreak(after, open);
      assert lines[0] + ['\n'] + after == lines[0] + (['\n'] + after);
      assert StripLines(lines, inBlock)[1..] == StripLines(lines[1..], open);
      assert code + (['\n'] + Lex(after, ModeOf(open))) == code + ['\n'] + Lex(after, ModeOf(open));
    }
  }

  lemma NothingToLex(inBlock: bool)
    ensures Lex("", ModeOf(inBlock)) == ""
  {
  }

  /** Line by line or as one text: the stripper is a C++ comment lexer that keeps line breaks. */
  lemma StrippingIsLexing(text: string)
    ensures Join(Stripped(text, false), '\n') == Lex(text, InCode)
  {
    SplitPiecesAreFree(text, '\n');
    JoinSplit(text, '\n');
    StripLinesIsLexer(Split(text, '\n'), false);
  }

  // -- what is left -------------------------------------------------------------------

  /** `sub` is `s` with some characters left out. */
  predicate Subsequence(sub: string, s: string) {
    if sub == "" then true
    else if s == "" then false
    else if sub[0] == s[0] && Subsequence(sub[1..], s[1..]) then true
    else Subsequence(sub, s[1..])
  }

  lemma {:induction false} SubsequenceOfSuffix(sub: string, s: string, n: nat)
    requires n <= |s| && Subsequence(sub, s[n..])
    ensures Subsequence(sub, s)
  {
    if n > 0 {
      assert s[1..][n - 1..] == s[n..];
      SubsequenceOfSuffix(sub, s[1..], n - 1);
    } else {
      assert s[0..] == s;
    }
  }

  /** No two adjacent characters open a comment. */
  predicate NoOpener(s: string) {
    forall k :: 0 <= k < |s| - 1 ==> !(s[k] == '/' && (s[k + 1] == '/' || s[k + 1] == '*'))
  }

  lemma {:induction false} StripRestKeepsCode(rest: string, inBlock: bool)
    ensures var code := StripRest(rest, inBlock).0;
            && Subsequence(code, rest) && NoOpener(code)
            && (rest != "" && !inBlock && !OpensLine(rest) && !OpensBlock(rest) ==> code != "" && code[0] == rest[0])
    decreases |rest|
  {
    if rest == "" {
    } else if inBlock {
      var end := FindClose(rest);
      if end.Some? {
        StripRestKeepsCode(rest[end.value + 2..], false);
        SubsequenceOfSuffix(StripRest(rest, inBlock).0, rest, end.value + 2);
      }
    } else if OpensLine(rest) {
    } else if OpensBlock(rest) {
      StripRestKeepsCode(rest[2..], true);
      SubsequenceOfSuffix(StripRest(rest, inBlock).0, rest, 2);
    } else {
      StripRestKeepsCode(rest[1..], false);
      var code, more := StripRest(rest, false).0, StripRest(rest[1..], false).0;
      assert code == [rest[0]] + more && code[1..] == more;
      forall k | 0 <= k < |code| - 1 ensures !(code[k] == '/' && (code[k + 1] == '/' || code[k + 1] == '*')) {
        if k == 0 && rest[0] == '/' {
          assert |rest| > 1 ==> rest[1..][0] == rest[1];
          if |rest| > 1 { assert more[0] == rest[1]; }
        } else if k > 0 {
          assert code[k] == more[k - 1] && code[k + 1] == more[k];
        }
      }
    }
  }

  /** A line without openers, read in code, is kept whole. */
  lemma {:induction false} CleanLineIsKept(line: string)
    requires NoOpener(line)
    ensures StripRest(line, false) == (line, false)
  {
    if line != "" {
      assert NoOpener(line[1..]) by {
        forall k | 0 <= k < |line[1..]| - 1
          ensures !(line[1..][k] == '/' && (line[1..][k + 1] == '/' || line[1..][k + 1] == '*'))
        {
          assert line[1..][k] == line[k + 1] && line[1..][k + 1] == line[k + 2];
        }
      }
      CleanLineIsKept(line[1..]);
      if |line| >= 2 { assert !(line[0] == '/' && (line[0 + 1] == '/' || line[0 + 1] == '*')); }
      assert [line[0]] + line[1..] == line;
    }
  }

  lemma {:induction false} CleanLinesAreKept(lines: seq<string>)
    requires forall i :: 0 <= i < |lines| ==> NoOpener(lines[i])
    ensures StripLines(lines, false) == lines
  {
    if lines != [] {
      CleanLineIsKept(lines[0]);
      CleanLinesAreKept(lines[1..]);
    }
  }

  lemma {:induction false} StrippedLinesAreClean(lines: seq<string>, inBlock: bool)
    ensures var out := StripLines(lines, inBlock);
            forall i :: 0 <= i < |lines| ==> NoOpener(out[i]) && Subsequence(out[i], lines[i])
  {
    if lines != [] {
      StripRestKeepsCode(lines[0], inBlock);
      StrippedLinesAreClean(lines[1..], StripRest(lines[0], inBlock).1);
    }
  }

  lemma {:induction false} SubsequenceHasNoNew(sub: string, s: string, c: char)
    requires Subsequence(sub, s) && Free(s, c)
    ensures Free(sub, c)
  {
    if sub != "" && s != "" {
      assert s[0] in s;
      if sub[0] == s[0] && Subsequence(sub[1..], s[1..]) {
        SubsequenceHasNoNew(sub[1..], s[1..], c);
        assert sub == [sub[0]] + sub[1..];
      } else {
        SubsequenceHasNoNew(sub, s[1..], c);
      }
    }
  }

  lemma BeforeHashIsPrefix(line: string)
    ensures BeforeHash(line) <= line && Free(BeforeHash(line), '#')
    ensures Free(line, '#') ==> BeforeHash(line) == line
    decreases |line|
  {
    if line != "" {
      BeforeHashIsPrefix(line[1..]);
      if line[0] != '#' { assert [line[0]] + line[1..] == line; }
    }
    if Free(line, '#') { SplitFree(line, '#'); }
  }

  lemma {:induction false} PrefixIsSubsequence(p: string, s: string)
    requires p <= s
    ensures Subsequence(p, s)
  {
    if p != "" { PrefixIsSubsequence(p[1..], s[1..]); }
  }

  /** Every output line is its input line with characters left out, and holds no comment opener
      (no "#" for CMake): removing a comment never makes a new one. */
  lemma OutputLinesAreCode(text: string, isCmake: bool)
    ensures var lines, out := Split(text, '\n'), Stripped(text, isCmake);
            forall i :: 0 <= i < |lines| ==>
              && Subsequence(out[i], lines[i])
              && (if isCmake then Free(out[i], '#') else NoOpener(out[i]))
  {
    var lines := Split(text, '\n');
    if isCmake {
      forall i | 0 <= i < |lines|
        ensures Subsequence(BeforeHash(lines[i]), lines[i]) && Free(BeforeHash(lines[i]), '#')
      {
        BeforeHashIsPrefix(lines[i]);
        PrefixIsSubsequence(BeforeHash(lines[i]), lines[i]);
      }
    } else {
      StrippedLinesAreClean(lines, false);
    }
  }

  /** Stripping what was stripped changes nothing. */
  lemma StrippingIsIdempotent(text: string, isCmake: bool)
    ensures var out := Stripped(text, isCmake); Stripped(Join(out, '\n'), isCmake) == out
  {
    var lines, out := Split(text, '\n'), Stripped(text, isCmake);
    OutputLinesAreCode(text, isCmake);
    SplitPiecesAreFree(text, '\n');
    forall i | 0 <= i < |out| ensures Free(out[i], '\n') {
      SubsequenceHasNoNew(out[i], lines[i], '\n');
    }
    SplitJoin(out, '\n');
    if isCmake {
      forall i | 0 <= i < |out| ensures BeforeHash(out[i]) == out[i] { BeforeHashIsPrefix(out[i]); }
    } else {
      CleanLinesAreKept(out);
    }
  }
}
