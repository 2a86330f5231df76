/** The Python string operations the scripts rely on, with the laws used about them. */
module PyText {
  import opened Basics

  predicate StartsWith(s: string, p: string) {
    |p| <= |s| && s[..|p|] == p
  }

  predicate EndsWith(s: string, p: string) {
    |p| <= |s| && s[|s| - |p|..] == p
  }

  /** `sub in s` for strings. */
  predicate Contains(s: string, sub: string) {
    exists i :: 0 <= i <= |s| && OccursAt(s, i, sub)
  }

  predicate OccursAt(s: string, i: nat, sub: string) {
    i + |sub| <= |s| && s[i..i + |sub|] == sub
  }

  predicate Free(s: string, c: char) {
    c !in s
  }

  /** s.split(c) */
  function Split(s: string, c: char): (parts: seq<string>)
    ensures parts != []
  {
    if s == "" then [""]
    else if s[0] == c then [""] + Split(s[1..], c)
    else
      var rest := Split(s[1..], c);
      [[s[0]] + rest[0]] + rest[1..]
  }

  /** c.join(parts) */
  function Join(parts: seq<string>, c: char): string
    requires parts != []
  {
    if |parts| == 1 then parts[0] else parts[0] + [c] + Join(parts[1..], c)
  }

  lemma {:induction false} SplitPiecesAreFree(s: string, c: char)
    ensures forall i :: 0 <= i < |Split(s, c)| ==> Free(Split(s, c)[i], c)
  {
    if s != "" { SplitPiecesAreFree(s[1..], c); }
  }

  lemma {:induction false} JoinSplit(s: string, c: char)
    ensures Join(Split(s, c), c) == s
  {
    if s != "" {
      JoinSplit(s[1..], c);
      var rest := Split(s[1..], c);
      if s[0] == c {
        assert ([""] + rest)[1..] == rest;
      } else {
        var first := [s[0]] + rest[0];
        assert ([first] + rest[1..])[1..] == rest[1..];
        if |rest| == 1 {
          assert Join([first] + rest[1..], c) == first;
        } else {
          assert Join([first] + rest[1..], c) == [s[0]] + (rest[0] + [c] + Join(rest[1..], c));
        }
      }
    }
  }

  /** Splitting stops at the first separator. */
  lemma {:induction false} SplitAtSeparator(p: string, rest: string, c: char)
    requires Free(p, c)
    ensures Split(p + [c] + rest, c) == [p] + Split(rest, c)
  {
    var s := p + [c] + rest;
    if p == "" {
      assert s[1..] == rest;
    } else {
      assert s[1..] == p[1..] + [c] + rest;
      assert s[0] == p[0] && p[0] in p;
      SplitAtSeparator(p[1..], rest, c);
      assert [p[0]] + p[1..] == p;
    }
  }

  lemma {:induction false} SplitFree(p: string, c: char)
    requires Free(p, c)
    ensures Split(p, c) == [p]
  {
    if p != "" {
      assert p[0] in p;
      SplitFree(p[1..], c);
      assert [p[0]] + p[1..] == p;
    }
  }

  lemma {:induction false} SplitJoin(parts: seq<string>, c: char)
    requires parts != [] && forall i :: 0 <= i < |parts| ==> Free(parts[i], c)
    ensures Split(Join(parts, c), c) == parts
  {
    if |parts| == 1 {
      SplitFree(parts[0], c);
    } else {
      SplitJoin(parts[1..], c);
      SplitAtSeparator(parts[0], Join(parts[1..], c), c);
    }
  }

  // -- strip ----------------------------------------------------------------------

  /** str.isspace() for one character. */
  predicate IsSpace(c: char) {
    var n := c as int;
    n == 0x20 || 0x09 <= n <= 0x0d || 0x1c <= n <= 0x1f || n == 0x85 || n == 0xa0 || n == 0x1680
    || 0x2000 <= n <= 0x200a || n == 0x2028 || n == 0x2029 || n == 0x202f || n == 0x205f || n == 0x3000
  }

  function LStrip(s: string): string {
    if s != "" && IsSpace(s[0]) then LStrip(s[1..]) else s
  }

  function RStrip(s: string): string {
    if s != "" && IsSpace(s[|s| - 1]) then RStrip(s[..|s| - 1]) else s
  }

  function Strip(s: string): string {
    RStrip(LStrip(s))
  }

  function StripAll(cells: seq<string>): (r: seq<string>)
    ensures |r| == |cells| && forall i :: 0 <= i < |r| ==> r[i] == Strip(cells[i])
  {
    seq(|cells|, i requires 0 <= i < |cells| => Strip(cells[i]))
  }

  /** Nothing to strip. */
  predicate Trimmed(s: string) {
    s == "" || (!IsSpace(s[0]) && !IsSpace(s[|s| - 1]))
  }

  predicate Blank(s: string) {
    forall i :: 0 <= i < |s| ==> IsSpace(s[i])
  }

  lemma {:induction false} LStripPads(pad: string, s: string)
    requires Blank(pad) && (s == "" || !IsSpace(s[0]))
    ensures LStrip(pad + s) == s
  {
    if pad == "" {
      assert pad + s == s;
    } else {
      assert (pad + s)[1..] == pad[1..] + s;
      LStripPads(pad[1..], s);
    }
  }

  lemma {:induction false} RStripPads(s: string, pad: string)
    requires Blank(pad) && (s == "" || !IsSpace(s[|s| - 1]))
    ensures RStrip(s + pad) == s
  {
    if pad == "" {
      assert s + pad == s;
    } else {
      assert (s + pad)[..|s + pad| - 1] == s + pad[..|pad| - 1];
      RStripPads(s, pad[..|pad| - 1]);
    }
  }

  /** Padding a trimmed cell and stripping it gives the cell back. */
  lemma StripPads(left: string, s: string, right: string)
    requires Blank(left) && Blank(right) && Trimmed(s)
    ensures Strip(left + s + right) == s
  {
    if s == "" {
      assert left + s + right == left + right + "";
      LStripPads(left + right, "");
    } else {
      assert left + s + right == left + (s + right);
      LStripPads(left, s + right);
      RStripPads(s, right);
    }
  }

  lemma {:induction false} LStripTrims(s: string) returns (n: nat)
    ensures n <= |s| && LStrip(s) == s[n..]
    ensures LStrip(s) == "" || !IsSpace(LStrip(s)[0])
  {
    n := 0;
    if s != "" && IsSpace(s[0]) {
      var k := LStripTrims(s[1..]);
      n := k + 1;
      assert s[1..][k..] == s[n..];
    } else {
      assert s[0..] == s;
    }
  }

  lemma {:induction false} RStripTrims(s: string) returns (n: nat)
    ensures n <= |s| && RStrip(s) == s[..n]
    ensures RStrip(s) == "" || !IsSpace(RStrip(s)[|RStrip(s)| - 1])
  {
    n := |s|;
    if s != "" && IsSpace(s[|s| - 1]) {
      n := RStripTrims(s[..|s| - 1]);
      assert s[..|s| - 1][..n] == s[..n];
    } else {
      assert s[..n] == s;
    }
  }

  /** What strip() returns is a slice of its argument with nothing left to strip. */
  lemma StripTrims(s: string) returns (from: nat, to: nat)
    ensures from <= to <= |s| && Strip(s) == s[from..to] && Trimmed(Strip(s))
  {
    hide IsSpace, LStrip, RStrip;
    from := LStripTrims(s);
    var m := RStripTrims(LStrip(s));
    to := from + m;
    assert s[from..][..m] == s[from..to];
    if Strip(s) != "" { assert Strip(s)[0] == LStrip(s)[0]; }
  }

  lemma StripKeepsFree(s: string, c: char)
    requires Free(s, c)
    ensures Free(Strip(s), c)
  {
    var from, to := StripTrims(s);
  }

  // -- count and replace --------------------------------------------------------------

  /** s.find(sub) for a non-empty `sub`. */
  function Find(s: string, sub: string): (r: Option<nat>)
    requires sub != ""
    ensures r.Some? ==> OccursAt(s, r.value, sub)
  {
    if |s| < |sub| then None
    else if s[..|sub|] == sub then
      assert s[0..0 + |sub|] == sub;
      Some(0)
    else
      var r := Find(s[1..], sub);
      if r.None? then None
      else
        assert s[1..][r.value..r.value + |sub|] == s[r.value + 1..r.value + 1 + |sub|];
        Some(r.value + 1)
  }

  /** s.count(sub): occurrences that do not overlap, from the left. */
  function Count(s: string, sub: string): nat
    decreases |s|
  {
    if sub == "" then |s| + 1
    else
      var r := Find(s, sub);
      if r.None? then 0 else 1 + Count(s[r.value + |sub|..], sub)
  }

  function Interleave(s: string, put: string): string {
    if s == "" then put else put + [s[0]] + Interleave(s[1..], put)
  }

  /** s.replace(sub, put) */
  function Replace(s: string, sub: string, put: string): string
    decreases |s|
  {
    if sub == "" then Interleave(s, put)
    else
      var r := Find(s, sub);
      if r.None? then s else s[..r.value] + put + Replace(s[r.value + |sub|..], sub, put)
  }

  /** `t` is `s` with one fragment `sub` exchanged for `put`. */
  ghost predicate OneReplaced(s: string, sub: string, put: string, t: string) {
    exists at: nat :: OccursAt(s, at, sub) && t == s[..at] + put + s[at + |sub|..]
  }

  /** The positions up to `n` at which `sub` occurs. */
  function Occurrences(s: string, sub: string, n: nat): set<int> {
    set i | 0 <= i <= n && OccursAt(s, i, sub)
  }

  lemma {:induction false} EmptyOccurs(s: string, n: nat)
    requires n <= |s|
    ensures |Occurrences(s, "", n)| == n + 1
  {
    assert OccursAt(s, n, "");
    if n == 0 {
      assert Occurrences(s, "", n) == {0};
    } else {
      EmptyOccurs(s, n - 1);
      assert Occurrences(s, "", n) == Occurrences(s, "", n - 1) + {n};
    }
  }

  /** The empty string is counted at every position, the end included. */
  lemma {:induction false} EmptyCountsEverywhere(s: string)
    ensures Count(s, "") == |Occurrences(s, "", |s|)|
  {
    EmptyOccurs(s, |s|);
  }

  lemma {:induction false} CountUnfolds(s: string, sub: string)
    requires sub != ""
    ensures Find(s, sub).Some? ==> Find(s, sub).value + |sub| <= |s|
    ensures Count(s, sub) == match Find(s, sub) { case Some(r) => 1 + Count(s[r + |sub|..], sub) case None => 0 }
  {
  }

  lemma FindOccurs(s: string, sub: string)
    requires sub != "" && Find(s, sub).Some?
    ensures var r := Find(s, sub).value; r + |sub| <= |s| && s[r..r + |sub|] == sub
  {
  }

  /** Replacing a fragment that is counted once exchanges exactly that one. */
  lemma {:induction false} ReplaceOnce(text: string, sub: string, put: string)
    requires sub != "" && Count(text, sub) == 1
    ensures Find(text, sub).Some? && Find(text, sub).value + |sub| <= |text|
    ensures Replace(text, sub, put) == text[..Find(text, sub).value] + put + text[Find(text, sub).value + |sub|..]
  {
  }

  lemma CountedOnceIsReplacedOnce(s: string, sub: string, put: string)
    requires Count(s, sub) == 1
    ensures OneReplaced(s, sub, put, Replace(s, sub, put))
  {
    if sub == "" {
      assert OccursAt(s, 0, sub);
      assert Replace(s, sub, put) == s[..0] + put + s[0 + |sub|..];
    } else {
      ReplaceOnce(s, sub, put);
      assert OccursAt(s, Find(s, sub).value, sub);
    }
  }

  // -- where occurrences are -----------------------------------------------------------

  /** find() gives the leftmost occurrence. */
  lemma {:induction false} FindIsLeftmost(s: string, sub: string, i: nat)
    requires sub != "" && OccursAt(s, i, sub)
    ensures Find(s, sub).Some? && Find(s, sub).value <= i
  {
    if i > 0 {
      assert s[1..][i - 1..i - 1 + |sub|] == s[i..i + |sub|];
      FindIsLeftmost(s[1..], sub, i - 1);
    }
  }

  lemma {:induction false} FindIs(s: string, sub: string, r: nat)
    requires sub != "" && OccursAt(s, r, sub) && forall i: nat :: i < r ==> !OccursAt(s, i, sub)
    ensures Find(s, sub) == Some(r)
  {
    FindIsLeftmost(s, sub, r);
  }

  lemma OccursBehind(x: string, w: string, sub: string, i: nat)
    ensures OccursAt(x + w, |x| + i, sub) <==> OccursAt(w, i, sub)
  {
  }

  lemma OccursAhead(w: string, y: string, sub: string, i: nat)
    requires i + |sub| <= |w|
    ensures OccursAt(w + y, i, sub) <==> OccursAt(w, i, sub)
  {
  }

  /** find() returning None means no occurrence. */
  lemma {:induction false} FindNothing(s: string, sub: string)
    requires sub != "" && forall i: nat :: !OccursAt(s, i, sub)
    ensures Find(s, sub).None?
  {
  }

  lemma {:induction false} FindSkipsFront(x: string, w: string, sub: string)
    requires sub != "" && forall i: nat :: i < |x| ==> !OccursAt(x + w, i, sub)
    ensures Find(x + w, sub) == match Find(w, sub) { case Some(r) => Some(|x| + r) case None => None }
  {
    hide OccursAt, Find;
    if Find(w, sub).Some? {
      var r := Find(w, sub).value;
      OccursBehind(x, w, sub, r);
      forall i: nat | i < |x| + r ensures !OccursAt(x + w, i, sub) {
        if i >= |x| {
          OccursBehind(x, w, sub, i - |x|);
          if OccursAt(w, i - |x|, sub) { FindIsLeftmost(w, sub, i - |x|); }
        }
      }
      FindIs(x + w, sub, |x| + r);
    } else {
      forall i: nat ensures !OccursAt(x + w, i, sub) {
        if i >= |x| {
          OccursBehind(x, w, sub, i - |x|);
          if OccursAt(w, i - |x|, sub) { FindIsLeftmost(w, sub, i - |x|); }
        }
      }
      FindNothing(x + w, sub);
    }
  }

  lemma {:induction false} FindSkipsBack(w: string, y: string, sub: string)
    requires sub != "" && forall i: nat :: i + |sub| > |w| ==> !OccursAt(w + y, i, sub)
    ensures Find(w + y, sub) == Find(w, sub)
  {
    hide OccursAt, Find;
    forall i: nat ensures OccursAt(w + y, i, sub) ==> OccursAt(w, i, sub) {
      if i + |sub| <= |w| { OccursAhead(w, y, sub, i); }
    }
    if Find(w, sub).Some? {
      var r := Find(w, sub).value;
      FindOccurs(w, sub);
      OccursAhead(w, y, sub, r);
      forall i: nat | i < r ensures !OccursAt(w + y, i, sub) {
        if OccursAt(w, i, sub) { FindIsLeftmost(w, sub, i); }
      }
      FindIs(w + y, sub, r);
    } else {
      forall i: nat ensures !OccursAt(w + y, i, sub) {
        if OccursAt(w, i, sub) { FindIsLeftmost(w, sub, i); }
      }
      FindNothing(w + y, sub);
    }
  }

  /** Text in front in which no occurrence starts does not count. */
  lemma {:induction false} CountSkipsFront(x: string, w: string, sub: string)
    requires sub != "" && forall i: nat :: i < |x| ==> !OccursAt(x + w, i, sub)
    ensures Count(x + w, sub) == Count(w, sub)
  {
    hide OccursAt, Find, Count;
    FindSkipsFront(x, w, sub);
    CountUnfolds(x + w, sub);
    CountUnfolds(w, sub);
    if Find(w, sub).Some? {
      var r := Find(w, sub).value;
      assert (x + w)[|x| + r + |sub|..] == w[r + |sub|..];
    }
  }

  /** Text behind in which no occurrence ends does not count. */
  lemma {:induction false} CountSkipsBack(w: string, y: string, sub: string)
    requires sub != "" && forall i: nat :: i + |sub| > |w| ==> !OccursAt(w + y, i, sub)
    ensures Count(w + y, sub) == Count(w, sub)
    decreases |w|
  {
    hide OccursAt, Find, Count;
    FindSkipsBack(w, y, sub);
    CountUnfolds(w + y, sub);
    CountUnfolds(w, sub);
    if Find(w, sub).Some? {
      var n := Find(w, sub).value + |sub|;
      var rest := w[n..];
      assert (w + y)[n..] == rest + y && w + y == w[..n] + (rest + y);
      forall i: nat | i + |sub| > |rest| ensures !OccursAt(rest + y, i, sub) {
        OccursBehind(w[..n], rest + y, sub, i);
        assert !OccursAt(w + y, n + i, sub);
      }
      CountSkipsBack(rest, y, sub);
    }
  }

  /** Nothing is counted in a text without an occurrence, and nothing else counts as none. */
  lemma {:induction false} CountsNone(s: string, sub: string)
    requires sub != ""
    ensures Count(s, sub) == 0 <==> forall i: nat :: !OccursAt(s, i, sub)
  {
    hide OccursAt, Find, Count;
    CountUnfolds(s, sub);
    if Count(s, sub) == 0 {
      forall i: nat ensures !OccursAt(s, i, sub) {
        if OccursAt(s, i, sub) { FindIsLeftmost(s, sub, i); }
      }
    } else {
      assert OccursAt(s, Find(s, sub).value, sub);
    }
  }

  lemma {:induction false} NoneAcross(x: string, y: string, n: nat, sub: string)
    requires n <= |x| && forall i: nat :: i < |x| < i + |sub| ==> !OccursAt(x + y, i, sub)
    ensures (x + y)[n..] == x[n..] + y
    ensures forall i: nat :: i < |x[n..]| < i + |sub| ==> !OccursAt(x[n..] + y, i, sub)
  {
    hide OccursAt;
    var rest := x[n..];
    assert x + y == x[..n] + (rest + y);
    forall i: nat | i < |rest| < i + |sub| ensures !OccursAt(rest + y, i, sub) {
      OccursBehind(x[..n], rest + y, sub, i);
      assert !OccursAt(x + y, n + i, sub);
    }
  }

  /** Where no occurrence lies across the border of two texts, their counts add up. */
  lemma {:induction false} CountSplits(x: string, y: string, sub: string)
    requires sub != "" && forall i: nat :: i < |x| < i + |sub| ==> !OccursAt(x + y, i, sub)
    ensures Count(x + y, sub) == Count(x, sub) + Count(y, sub)
    decreases |x|
  {
    hide OccursAt, Find, Count;
    CountUnfolds(x, sub);
    if Find(x, sub).Some? {
      var n := Find(x, sub).value + |sub|;
      var rest := x[n..];
      FindInFront(x, y, sub);
      CountUnfolds(x + y, sub);
      NoneAcross(x, y, n, sub);
      CountSplits(rest, y, sub);
    } else {
      CountsNone(x, sub);
      forall i: nat | i < |x| ensures !OccursAt(x + y, i, sub) {
        if i + |sub| <= |x| { OccursAhead(x, y, sub, i); }
      }
      CountSkipsFront(x, y, sub);
    }
  }

  lemma {:induction false} FindInFront(x: string, y: string, sub: string)
    requires sub != "" && Find(x, sub).Some?
    ensures Find(x, sub).value + |sub| <= |x| && Find(x + y, sub) == Find(x, sub)
  {
    hide OccursAt, Find;
    var r := Find(x, sub).value;
    FindOccurs(x, sub);
    OccursAhead(x, y, sub, r);
    forall i: nat | i < r ensures !OccursAt(x + y, i, sub) {
      OccursAhead(x, y, sub, i);
      if OccursAt(x, i, sub) { FindIsLeftmost(x, sub, i); }
    }
    FindIs(x + y, sub, r);
  }

  // -- occurrences by their characters ---------------------------------------------------

  lemma {:induction false} OccurrenceMatches(s: string, i: nat, sub: string, j: nat)
    requires OccursAt(s, i, sub) && j < |sub|
    ensures i + j < |s| && s[i + j] == sub[j]
  {
    assert s[i..i + |sub|][j] == sub[j];
  }

  /** A text that starts with `sub` and never has its first character again behind that. */
  lemma {:induction false} CountAtStart(s: string, sub: string)
    requires sub != "" && StartsWith(s, sub) && forall i :: |sub| <= i < |s| ==> s[i] != sub[0]
    ensures Count(s, sub) == 1 && Find(s, sub) == Some(0)
  {
    hide Find, Count, OccursAt;
    assert OccursAt(s, 0, sub) by { StartOccurs(s, sub); }
    FindIs(s, sub, 0);
    CountUnfolds(s, sub);
    var rest := s[|sub|..];
    forall i: nat ensures !OccursAt(rest, i, sub) {
      if OccursAt(rest, i, sub) { OccurrenceMatches(rest, i, sub, 0); }
    }
    CountsNone(rest, sub);
  }

  lemma StartOccurs(s: string, sub: string)
    requires StartsWith(s, sub)
    ensures OccursAt(s, 0, sub)
  {
  }

  /** A text in which the first two characters of `sub` are never neighbours. */
  lemma {:induction false} CountNowhere(s: string, sub: string)
    requires |sub| >= 2 && forall i :: 0 <= i < |s| - 1 ==> s[i] != sub[0] || s[i + 1] != sub[1]
    ensures Count(s, sub) == 0
  {
    hide Count, OccursAt;
    forall i: nat ensures !OccursAt(s, i, sub) {
      if OccursAt(s, i, sub) {
        OccurrenceMatches(s, i, sub, 0);
        OccurrenceMatches(s, i, sub, 1);
      }
    }
    CountsNone(s, sub);
  }

  lemma {:induction false} NotContained(s: string, sub: string)
    requires sub != "" && Free(s, sub[0])
    ensures !Contains(s, sub)
  {
    hide OccursAt;
    forall i: nat ensures !OccursAt(s, i, sub) {
      if OccursAt(s, i, sub) { OccurrenceMatches(s, i, sub, 0); }
    }
  }
}
