/** What one more key row does to the tally of scripts/doccheck/key_registry.py: the promise of its self-test,
    for every document, row and place. */
module KeyInsertion {
  import opened Basics
  import opened KeyRegistry

  type Heading = string -> Option<int>

  // -- sections of a document with one line more ------------------------------------------------

  lemma {:induction false} LastHeadConcat(a: seq<string>, b: seq<string>, heading: Heading, k: int)
    ensures LastHead(a + b, heading, k)
         == match LastHead(b, heading, k) { case Some(i) => Some(|a| + i) case None => LastHead(a, heading, k) }
  {
    if b == [] {
      assert a + b == a;
    } else {
      assert (a + b)[..|a + b| - 1] == a + b[..|b| - 1];
      LastHeadConcat(a, b[..|b| - 1], heading, k);
    }
  }

  lemma {:induction false} NextNumberConcat(a: seq<string>, b: seq<string>, heading: Heading, n: int)
    ensures NextNumber(a + b, heading, n) == Least(NextNumber(a, heading, n), NextNumber(b, heading, n))
  {
    if b == [] {
      assert a + b == a;
    } else {
      assert (a + b)[..|a + b| - 1] == a + b[..|b| - 1];
      NextNumberConcat(a, b[..|b| - 1], heading, n);
    }
  }

  /** Where index `i` of a + b ends up when a line is put between them. */
  function Shifted(a: seq<string>, i: nat): nat {
    if i >= |a| then i + 1 else i
  }

  lemma {:induction false} HeadShifts(a: seq<string>, row: string, b: seq<string>, heading: Heading, k: int)
    requires heading(row).None?
    ensures LastHead(a + [row] + b, heading, k)
         == match LastHead(a + b, heading, k) { case Some(i) => Some(Shifted(a, i)) case None => None }
  {
    LastHeadConcat(a, b, heading, k);
    LastHeadConcat(a + [row], b, heading, k);
    LastHeadConcat(a, [row], heading, k);
    assert LastHead([row], heading, k) == LastHead([], heading, k) by { assert [row][..0] == []; }
  }

  lemma {:induction false} NumbersStay(a: seq<string>, row: string, b: seq<string>, heading: Heading, n: int)
    requires heading(row).None?
    ensures NextNumber(a + [row] + b, heading, n) == NextNumber(a + b, heading, n)
  {
    NextNumberConcat(a, b, heading, n);
    NextNumberConcat(a + [row], b, heading, n);
    NextNumberConcat(a, [row], heading, n);
    assert NextNumber([row], heading, n) == NextNumber([], heading, n) by { assert [row][..0] == []; }
  }

  /** The place between `a` and `b` lies in section `n`. */
  predicate Inside(a: seq<string>, b: seq<string>, heading: Heading, n: int) {
    var r := Bounds(a + b, heading, n);
    r.Some? && r.value.0 < |a| <= r.value.1
  }

  /** What section `n` has before that place. */
  function Before(a: seq<string>, b: seq<string>, heading: Heading, n: int): seq<string>
    requires Inside(a, b, heading, n)
  {
    (a + b)[Bounds(a + b, heading, n).value.0..|a|]
  }

  function After(a: seq<string>, b: seq<string>, heading: Heading, n: int): seq<string>
    requires Inside(a, b, heading, n)
  {
    (a + b)[|a|..Bounds(a + b, heading, n).value.1]
  }

  lemma {:induction false} BoundsShift(a: seq<string>, row: string, b: seq<string>, heading: Heading, n: int)
    requires heading(row).None?
    ensures Bounds(a + [row] + b, heading, n)
         == match Bounds(a + b, heading, n) {
              case Some((s, e)) => Some((Shifted(a, s), Shifted(a, e)))
              case None => None }
  {
    hide LastHead, NextNumber;
    HeadShifts(a, row, b, heading, n);
    NumbersStay(a, row, b, heading, n);
    var next := NextNumber(a + b, heading, n);
    if next.Some? { HeadShifts(a, row, b, heading, next.value); }
  }

  lemma {:induction false} SliceAround(a: seq<string>, row: string, b: seq<string>, s: nat, e: nat)
    requires s <= |a| <= e <= |a + b|
    ensures (a + b)[s..e] == (a + b)[s..|a|] + (a + b)[|a|..e]
    ensures (a + [row] + b)[s..e + 1] == (a + b)[s..|a|] + [row] + (a + b)[|a|..e]
  {
  }

  lemma {:induction false} SliceBeside(a: seq<string>, row: string, b: seq<string>, s: nat, e: nat)
    requires s <= e <= |a + b| && (e < |a| || |a| <= s)
    ensures (a + [row] + b)[Shifted(a, s)..Shifted(a, e)] == (a + b)[s..e]
  {
  }

  /** A line is put into the sections its place lies in, and into no other. */
  lemma {:induction false} SectionWithLine(a: seq<string>, row: string, b: seq<string>, heading: Heading, n: int)
    requires heading(row).None?
    ensures Inside(a, b, heading, n)
            ==> && Section(a + b, heading, n) == Before(a, b, heading, n) + After(a, b, heading, n)
                && Section(a + [row] + b, heading, n) == Before(a, b, heading, n) + [row] + After(a, b, heading, n)
    ensures !Inside(a, b, heading, n) ==> Section(a + [row] + b, heading, n) == Section(a + b, heading, n)
  {
    hide Bounds;
    BoundsShift(a, row, b, heading, n);
    var r := Bounds(a + b, heading, n);
    if r.Some? {
      var s, e := r.value.0, r.value.1;
      if s < |a| <= e {
        SliceAround(a, row, b, s, e);
      } else if s <= e {
        SliceBeside(a, row, b, s, e);
      }
    }
  }

  // -- the tally of that document ---------------------------------------------------------------

  lemma {:induction false} TallyConcat(x: seq<Record>, y: seq<Record>, g: Group)
    ensures Patterns(x + y, g) == Patterns(x, g) + Patterns(y, g)
    ensures Instances(x + y, g) == Instances(x, g) + Instances(y, g)
  {
    if y == [] {
      assert x + y == x;
    } else {
      assert (x + y)[..|x + y| - 1] == x + y[..|y| - 1];
      TallyConcat(x, y[..|y| - 1], g);
    }
  }

  /** Section `n` takes the line and counts it for `g`. */
  predicate Takes(a: seq<string>, b: seq<string>, heading: Heading, pattern: string, g: Group, n: int) {
    Inside(a, b, heading, n) && !Marked(Before(a, b, heading, n)) && GroupOf(pattern, n) == Some(g)
  }

  /** How many of the sections 1 to `n` do. */
  function Takers(a: seq<string>, b: seq<string>, heading: Heading, pattern: string, g: Group, n: nat): nat {
    if n == 0 then 0
    else Takers(a, b, heading, pattern, g, n - 1) + if Takes(a, b, heading, pattern, g, n) then 1 else 0
  }

  /** A table row with a key, neither a heading nor a marker. */
  predicate KeyRow(row: string, heading: Heading, pattern: string) {
    RowKey(row) == Some(pattern) && heading(row).None? && !IsMarker(row)
  }

  lemma {:induction false} SectionTakes(a: seq<string>, row: string, b: seq<string>, heading: Heading,
                                        pattern: string, g: Group, n: int)
    requires KeyRow(row, heading, pattern)
    ensures var was, now := SectionRecords(Section(a + b, heading, n), n),
                            SectionRecords(Section(a + [row] + b, heading, n), n);
            var takes := Takes(a, b, heading, pattern, g, n);
            && Patterns(now, g) == Patterns(was, g) + (if takes then 1 else 0)
            && Instances(now, g) == Instances(was, g) + (if takes then InstanceCount(pattern) else 0)
  {
    hide Section, Inside, Before, After, SectionRecords, Marked, IsMarker, RowKey, InstanceCount, GroupOf;
    SectionWithLine(a, row, b, heading, n);
    if Inside(a, b, heading, n) {
      var x, y := Before(a, b, heading, n), After(a, b, heading, n);
      LineCounts(x, row, y, pattern, g, n);
    }
  }

  /** A key row before the marker adds its one record. */
  lemma {:induction false} LineAdds(x: seq<string>, row: string, y: seq<string>, pattern: string, n: int)
    requires RowKey(row) == Some(pattern) && !IsMarker(row)
    ensures var front, back := SectionRecords(x, n), if Marked(x) then [] else SectionRecords(y, n);
            && SectionRecords(x + y, n) == front + back
            && SectionRecords(x + [row] + y, n) == front + (if Marked(x) then [] else [RecordFor(pattern, n)]) + back
  {
    hide SectionRecords, Marked, IsMarker, RowKey, InstanceCount, GroupOf;
    SectionsConcatenate(x, y, n);
    SectionsConcatenate(x + [row], y, n);
    SectionsConcatenate(x, [row], n);
    OneLine(row, n);
  }

  lemma {:induction false} LineCounts(x: seq<string>, row: string, y: seq<string>, pattern: string, g: Group, n: int)
    requires RowKey(row) == Some(pattern) && !IsMarker(row)
    ensures var was, now := SectionRecords(x + y, n), SectionRecords(x + [row] + y, n);
            var takes := !Marked(x) && GroupOf(pattern, n) == Some(g);
            && Patterns(now, g) == Patterns(was, g) + (if takes then 1 else 0)
            && Instances(now, g) == Instances(was, g) + (if takes then InstanceCount(pattern) else 0)
  {
    hide SectionRecords, Marked, IsMarker, RowKey, InstanceCount, GroupOf, Patterns, Instances;
    LineAdds(x, row, y, pattern, n);
    var added := [RecordFor(pattern, n)];
    var front, back := SectionRecords(x, n), if Marked(x) then [] else SectionRecords(y, n);
    OneRecord(added[0], g);
    TallyConcat(front, back, g);
    TallyConcat(front + added, back, g);
    TallyConcat(front, added, g);
    assert front + [] == front;
  }

  lemma {:induction false} OneRecord(r: Record, g: Group)
    ensures TallyOf([r], g) == if r.group == Some(g) then (1, r.instances) else (0, 0)
  {
    var one := [r];
    assert one[..|one| - 1] == [];
    assert Patterns([], g) == 0 && Instances([], g) == 0;
    assert Patterns(one, g) == if r.group == Some(g) then 1 else 0;
    assert Instances(one, g) == if r.group == Some(g) then r.instances else 0;
  }

  lemma MultiplyNext(k: nat, c: nat)
    ensures (k + 1) * c == k * c + c
  {
  }

  /** A key row put anywhere into any document adds one pattern and its instances to each group, once for
      every section that takes it, and nothing else. */
  lemma {:induction false} InsertedRowCounts(a: seq<string>, row: string, b: seq<string>, heading: Heading,
                                             pattern: string, g: Group, n: nat)
    requires KeyRow(row, heading, pattern)
    ensures var was, now := RecordsUpTo(a + b, heading, n), RecordsUpTo(a + [row] + b, heading, n);
            var takers := Takers(a, b, heading, pattern, g, n);
            && Patterns(now, g) == Patterns(was, g) + takers
            && Instances(now, g) == Instances(was, g) + takers * InstanceCount(pattern)
  {
    hide Section, SectionRecords, KeyRow, Takes, InstanceCount, Patterns, Instances;
    if n == 0 {
      assert RecordsUpTo(a + b, heading, n) == RecordsUpTo(a + [row] + b, heading, n);
    } else {
      InsertedRowCounts(a, row, b, heading, pattern, g, n - 1);
      SectionTakes(a, row, b, heading, pattern, g, n);
      TallyConcat(RecordsUpTo(a + b, heading, n - 1), SectionRecords(Section(a + b, heading, n), n), g);
      TallyConcat(RecordsUpTo(a + [row] + b, heading, n - 1),
                  SectionRecords(Section(a + [row] + b, heading, n), n), g);
      MultiplyNext(Takers(a, b, heading, pattern, g, n - 1), InstanceCount(pattern));
    }
  }

  // -- which documents count a row twice ------------------------------------------------------------

  /** Section `n` reads a row put at that place, whatever the row's group. */
  predicate Reads(a: seq<string>, b: seq<string>, heading: Heading, n: int) {
    Inside(a, b, heading, n) && !Marked(Before(a, b, heading, n))
  }

  /** How many of the sections 1 to `n` do. */
  function Readers(a: seq<string>, b: seq<string>, heading: Heading, n: nat): nat {
    if n == 0 then 0 else Readers(a, b, heading, n - 1) + if Reads(a, b, heading, n) then 1 else 0
  }

  lemma {:induction false} SomeReader(a: seq<string>, b: seq<string>, heading: Heading, n: nat)
    ensures Readers(a, b, heading, n) >= 1 <==> exists k :: 1 <= k <= n && Reads(a, b, heading, k)
  {
    if n > 0 {
      hide Reads;
      SomeReader(a, b, heading, n - 1);
    }
  }

  lemma {:induction false} SeveralReaders(a: seq<string>, b: seq<string>, heading: Heading, n: nat)
    ensures Readers(a, b, heading, n) >= 2
       <==> exists k, l :: 1 <= k < l <= n && Reads(a, b, heading, k) && Reads(a, b, heading, l)
  {
    hide Reads;
    if n > 0 {
      SomeReader(a, b, heading, n - 1);
      SeveralReaders(a, b, heading, n - 1);
    }
  }

  /** A section that reads the row records it once. */
  lemma {:induction false} SectionRecordsIt(a: seq<string>, row: string, b: seq<string>, heading: Heading,
                                            pattern: string, n: int)
    requires KeyRow(row, heading, pattern)
    ensures |SectionRecords(Section(a + [row] + b, heading, n), n)|
         == |SectionRecords(Section(a + b, heading, n), n)| + if Reads(a, b, heading, n) then 1 else 0
  {
    hide Section, SectionRecords, Inside, Before, After, Marked, IsMarker, RowKey;
    SectionWithLine(a, row, b, heading, n);
    if Inside(a, b, heading, n) {
      LineAdds(Before(a, b, heading, n), row, After(a, b, heading, n), pattern, n);
    }
  }

  lemma {:induction false} RecordsStep(doc: seq<string>, heading: Heading, n: nat)
    requires n > 0
    ensures |RecordsUpTo(doc, heading, n)|
         == |RecordsUpTo(doc, heading, n - 1)| + |SectionRecords(Section(doc, heading, n), n)|
  {
  }

  lemma {:induction false} RecordsAdded(a: seq<string>, row: string, b: seq<string>, heading: Heading,
                                        pattern: string, n: nat)
    requires KeyRow(row, heading, pattern)
    ensures |RecordsUpTo(a + [row] + b, heading, n)| == |RecordsUpTo(a + b, heading, n)| + Readers(a, b, heading, n)
  {
    hide Section, SectionRecords, Reads, KeyRow;
    if n > 0 {
      hide RecordsUpTo;
      RecordsAdded(a, row, b, heading, pattern, n - 1);
      RecordsStep(a + b, heading, n);
      RecordsStep(a + [row] + b, heading, n);
      SectionRecordsIt(a, row, b, heading, pattern, n);
    }
  }

  /** Some place lies in both sections: the later heading stands before either section's end. */
  predicate Meet(doc: seq<string>, heading: Heading, m: int, n: int) {
    var x, y := Bounds(doc, heading, m), Bounds(doc, heading, n);
    x.Some? && y.Some? && Greater(x.value.0, y.value.0) < Lesser(x.value.1, y.value.1)
  }

  /** And no marker stands from the first of their headings to the second. */
  predicate Overlap(doc: seq<string>, heading: Heading, m: int, n: int) {
    Meet(doc, heading, m, n)
    && var s, t := Bounds(doc, heading, m).value.0, Bounds(doc, heading, n).value.0;
       !Marked(doc[Lesser(s, t)..Greater(s, t) + 1])
  }

  predicate InsideAt(doc: seq<string>, i: int, heading: Heading, n: int) {
    0 <= i <= |doc| && Inside(doc[..i], doc[i..], heading, n)
  }

  predicate ReadAt(doc: seq<string>, i: int, heading: Heading, n: int) {
    0 <= i <= |doc| && Reads(doc[..i], doc[i..], heading, n)
  }

  lemma {:induction false} PlacesOf(doc: seq<string>, i: nat, heading: Heading, n: int)
    requires i <= |doc|
    ensures var r := Bounds(doc, heading, n);
            && (InsideAt(doc, i, heading, n) <==> r.Some? && r.value.0 < i <= r.value.1)
            && (ReadAt(doc, i, heading, n) <==> InsideAt(doc, i, heading, n) && !Marked(doc[r.value.0..i]))
  {
    hide Bounds, Marked;
    assert doc[..i] + doc[i..] == doc;
  }

  lemma {:induction false} MarkedGrows(doc: seq<string>, s: nat, t: nat, i: nat)
    requires s <= t <= i <= |doc|
    ensures Marked(doc[s..i]) <==> Marked(doc[s..t]) || Marked(doc[t..i])
  {
    assert doc[s..i] == doc[s..t] + doc[t..i];
    SectionsConcatenate(doc[s..t], doc[t..i], 0);
  }

  /** Two sections share a place exactly when they meet, */
  lemma {:induction false} SharedPlaceIff(doc: seq<string>, heading: Heading, m: int, n: int)
    ensures (exists i :: InsideAt(doc, i, heading, m) && InsideAt(doc, i, heading, n)) <==> Meet(doc, heading, m, n)
  {
    hide Bounds, Inside;
    forall i | 0 <= i <= |doc|
      ensures InsideAt(doc, i, heading, m) && InsideAt(doc, i, heading, n) ==> Meet(doc, heading, m, n)
    {
      PlacesOf(doc, i, heading, m);
      PlacesOf(doc, i, heading, n);
    }
    if Meet(doc, heading, m, n) {
      var i := Greater(Bounds(doc, heading, m).value.0, Bounds(doc, heading, n).value.0) + 1;
      PlacesOf(doc, i, heading, m);
      PlacesOf(doc, i, heading, n);
    }
  }

  /** and both read a row at some place exactly when they overlap. */
  lemma {:induction false} SharedRowIff(doc: seq<string>, heading: Heading, m: int, n: int)
    ensures (exists i :: ReadAt(doc, i, heading, m) && ReadAt(doc, i, heading, n)) <==> Overlap(doc, heading, m, n)
  {
    hide Bounds, Inside, Reads, Marked;
    var x, y := Bounds(doc, heading, m), Bounds(doc, heading, n);
    forall i | 0 <= i <= |doc|
      ensures ReadAt(doc, i, heading, m) && ReadAt(doc, i, heading, n) ==> Overlap(doc, heading, m, n)
    {
      PlacesOf(doc, i, heading, m);
      PlacesOf(doc, i, heading, n);
      if ReadAt(doc, i, heading, m) && ReadAt(doc, i, heading, n) {
        var s, t := Lesser(x.value.0, y.value.0), Greater(x.value.0, y.value.0);
        MarkedGrows(doc, s, t + 1, i);
      }
    }
    if Overlap(doc, heading, m, n) {
      var s, t := Lesser(x.value.0, y.value.0), Greater(x.value.0, y.value.0);
      MarkedGrows(doc, s, t, t + 1);
      PlacesOf(doc, t + 1, heading, m);
      PlacesOf(doc, t + 1, heading, n);
    }
  }

  /** The document with one line more. */
  function WithLine(doc: seq<string>, i: nat, row: string): seq<string>
    requires i <= |doc|
  {
    doc[..i] + [row] + doc[i..]
  }

  lemma {:induction false} AtPlace(doc: seq<string>, row: string, i: nat, heading: Heading, pattern: string)
    requires KeyRow(row, heading, pattern) && i <= |doc|
    ensures |Registry(WithLine(doc, i, row), heading)| <= |Registry(doc, heading)| + 1
       <==> forall m, n :: 1 <= m < n <= SECTIONS ==> !(ReadAt(doc, i, heading, m) && ReadAt(doc, i, heading, n))
  {
    hide Reads, RecordsUpTo, KeyRow, Readers;
    assert doc[..i] + doc[i..] == doc;
    RecordsAdded(doc[..i], row, doc[i..], heading, pattern, SECTIONS);
    SeveralReaders(doc[..i], doc[i..], heading, SECTIONS);
    assert forall n :: ReadAt(doc, i, heading, n) <==> Reads(doc[..i], doc[i..], heading, n);
  }

  /** A document records a row at most once, wherever it stands, exactly when no two of its sections overlap. */
  lemma {:induction false} RecordedOnceIff(doc: seq<string>, row: string, heading: Heading, pattern: string)
    requires KeyRow(row, heading, pattern)
    ensures (forall i: nat :: i <= |doc| ==>
               |Registry(WithLine(doc, i, row), heading)| <= |Registry(doc, heading)| + 1)
       <==> (forall m, n :: 1 <= m < n <= SECTIONS ==> !Overlap(doc, heading, m, n))
  {
    hide Reads, Overlap, Registry, KeyRow;
    forall m, n ensures Overlap(doc, heading, m, n)
                        <==> exists i :: ReadAt(doc, i, heading, m) && ReadAt(doc, i, heading, n)
    {
      SharedRowIff(doc, heading, m, n);
    }
    if m, n :| 1 <= m < n <= SECTIONS && Overlap(doc, heading, m, n) {
      var i :| ReadAt(doc, i, heading, m) && ReadAt(doc, i, heading, n);
      AtPlace(doc, row, i, heading, pattern);
    } else {
      forall i: nat | i <= |doc| ensures |Registry(WithLine(doc, i, row), heading)| <= |Registry(doc, heading)| + 1 {
        AtPlace(doc, row, i, heading, pattern);
        forall m, n | 1 <= m < n <= SECTIONS ensures !(ReadAt(doc, i, heading, m) && ReadAt(doc, i, heading, n)) {
          assert !Overlap(doc, heading, m, n);
        }
      }
    }
  }

  // -- ordered documents ----------------------------------------------------------------------------

  /** Heading numbers rise through the document. */
  predicate Ordered(doc: seq<string>, heading: Heading) {
    forall i, j :: 0 <= i < j < |doc| && heading(doc[i]).Some? && heading(doc[j]).Some?
                   ==> heading(doc[i]).value < heading(doc[j]).value
  }

  lemma {:induction false} NextIsLeast(doc: seq<string>, heading: Heading, n: int, i: nat)
    requires i < |doc| && heading(doc[i]).Some? && heading(doc[i]).value > n
    ensures NextNumber(doc, heading, n).Some? && NextNumber(doc, heading, n).value <= heading(doc[i]).value
  {
    if i < |doc| - 1 { NextIsLeast(doc[..|doc| - 1], heading, n, i); }
  }

  /** In an ordered document no two sections meet, */
  lemma {:induction false} OrderedNeverMeet(doc: seq<string>, heading: Heading, m: int, n: int)
    requires Ordered(doc, heading) && m < n
    ensures !Meet(doc, heading, m, n)
  {
    var head := LastHead(doc, heading, n);
    if head.Some? {
      NextIsLeast(doc, heading, m, head.value);
      var next := NextNumber(doc, heading, m).value;
      assert LastHead(doc, heading, next).value <= head.value;
    }
  }

  /** so a place lies in at most one. */
  lemma {:induction false} AtMostOneSection(a: seq<string>, b: seq<string>, heading: Heading, m: int, n: int)
    requires Ordered(a + b, heading) && m < n
    ensures Inside(a, b, heading, n) ==> !Inside(a, b, heading, m)
  {
    hide Inside, Ordered;
    OrderedNeverMeet(a + b, heading, m, n);
    SharedPlaceIff(a + b, heading, m, n);
    assert (a + b)[..|a|] == a && (a + b)[|a|..] == b;
    assert InsideAt(a + b, |a|, heading, m) <==> Inside(a, b, heading, m);
    assert InsideAt(a + b, |a|, heading, n) <==> Inside(a, b, heading, n);
  }

  lemma {:induction false} OneTaker(a: seq<string>, b: seq<string>, heading: Heading, pattern: string,
                                    g: Group, home: int, n: nat)
    requires Ordered(a + b, heading) && Inside(a, b, heading, home)
    ensures Takers(a, b, heading, pattern, g, n)
         == if 1 <= home <= n && Takes(a, b, heading, pattern, g, home) then 1 else 0
  {
    if n > 0 {
      hide Inside, Ordered;
      OneTaker(a, b, heading, pattern, g, home, n - 1);
      if n < home {
        AtMostOneSection(a, b, heading, n, home);
      } else if home < n {
        AtMostOneSection(a, b, heading, home, n);
      }
    }
  }

  lemma {:induction false} NoTaker(a: seq<string>, b: seq<string>, heading: Heading, pattern: string, g: Group, n: nat)
    requires forall k: int :: 1 <= k <= n ==> !Takes(a, b, heading, pattern, g, k)
    ensures Takers(a, b, heading, pattern, g, n) == 0
  {
    if n > 0 { NoTaker(a, b, heading, pattern, g, n - 1); }
  }

  /** One key row more in section `home` of an ordered document: before the comparison table it changes
      exactly one group's tally, by one pattern and its instances; after it, none. */
  lemma {:induction false} ExactlyOneGroupMoves(a: seq<string>, row: string, b: seq<string>, heading: Heading,
                                                pattern: string, home: int, g: Group)
    requires Ordered(a + b, heading) && 1 <= home <= SECTIONS && Inside(a, b, heading, home)
    requires KeyRow(row, heading, pattern)
    ensures var was, now := TallyOf(Registry(a + b, heading), g), TallyOf(Registry(a + [row] + b, heading), g);
            now == if !Marked(Before(a, b, heading, home)) && GroupOf(pattern, home) == Some(g)
                   then (was.0 + 1, was.1 + InstanceCount(pattern)) else was
  {
    hide RecordsUpTo, Takers, Inside, Before, KeyRow, Ordered, InstanceCount, GroupOf, Marked, Patterns, Instances;
    InsertedRowCounts(a, row, b, heading, pattern, g, SECTIONS);
    OneTaker(a, b, heading, pattern, g, home, SECTIONS);
  }

  /** So a row that is not tallied turns a green check red, naming the one group, and a row in the
      comparison table leaves it green. */
  lemma {:induction false} UntalliedRowIsReported(a: seq<string>, row: string, b: seq<string>, heading: Heading,
                                                  pattern: string, home: int, want: Group -> (nat, nat))
    requires Ordered(a + b, heading) && 1 <= home <= SECTIONS && Inside(a, b, heading, home)
    requires KeyRow(row, heading, pattern)
    requires Deltas(Registry(a + b, heading), want, GROUPS) == []
    ensures GroupOf(pattern, home).Some?
    ensures var g := GroupOf(pattern, home).value;
            Deltas(Registry(a + [row] + b, heading), want, GROUPS)
            == if Marked(Before(a, b, heading, home)) then []
               else [Delta(g, (want(g).0 + 1, want(g).1 + InstanceCount(pattern)), want(g))]
  {
    hide Inside, Before, KeyRow, Ordered, InstanceCount, IsAck, Marked, Registry, TallyOf;
    var g := GroupOf(pattern, home).value;
    var was, now := Registry(a + b, heading), Registry(a + [row] + b, heading);
    GreenIff(was, want);
    forall k: Group
      ensures TallyOf(now, k) == if !Marked(Before(a, b, heading, home)) && k == g
                                 then (want(k).0 + 1, want(k).1 + InstanceCount(pattern)) else want(k)
    {
      ExactlyOneGroupMoves(a, row, b, heading, pattern, home, k);
      assert TallyOf(was, k) == want(k);
    }
    if Marked(Before(a, b, heading, home)) {
      GreenIff(now, want);
    } else {
      OneDelta(now, want, g, GROUPS);
    }
  }

  lemma {:induction false} OneDelta(records: seq<Record>, want: Group -> (nat, nat), g: Group, gs: seq<Group>)
    requires forall k: Group :: k != g ==> TallyOf(records, k) == want(k)
    requires TallyOf(records, g) != want(g)
    requires forall i, j :: 0 <= i < j < |gs| ==> gs[i] != gs[j]
    ensures Deltas(records, want, gs) == if g in gs then [Delta(g, TallyOf(records, g), want(g))] else []
  {
    hide TallyOf;
    if gs != [] {
      var front, last := gs[..|gs| - 1], gs[|gs| - 1];
      assert gs == front + [last];
      OneDelta(records, want, g, front);
    }
  }

  /** Out of order the promise fails: a row under heading 3, between headings 1 and 2, is in sections 1 and 3
      and is tallied for both. */
  lemma {:induction false} DisorderTalliesTwice(h1: string, h2: string, h3: string, row: string,
                                                heading: Heading, pattern: string)
    requires heading(h1) == Some(1) && heading(h2) == Some(2) && heading(h3) == Some(3)
    requires !IsMarker(h1) && !IsMarker(h3) && KeyRow(row, heading, pattern) && !IsAck(pattern)
    ensures var was, now := Registry([h1, h3] + [h2], heading), Registry([h1, h3] + [row] + [h2], heading);
            && TallyOf(now, Rt).0 == TallyOf(was, Rt).0 + 1
            && TallyOf(now, Cmd).0 == TallyOf(was, Cmd).0 + 1
  {
    hide Patterns, Instances, RecordsUpTo, KeyRow, IsMarker, InstanceCount, IsAck, Marked, Inside;
    var a, b := [h1, h3], [h2];
    DisorderIsInsideTwice(h1, h2, h3, heading);
    NotMarked([h1, h3]);
    NotMarked([h3]);
    assert (a + b)[0..2] == [h1, h3] && (a + b)[1..2] == [h3];
    OneOfNine(a, b, heading, pattern, Rt, 1);
    OneOfNine(a, b, heading, pattern, Cmd, 3);
    InsertedRowCounts(a, row, b, heading, pattern, Rt, SECTIONS);
    InsertedRowCounts(a, row, b, heading, pattern, Cmd, SECTIONS);
  }

  lemma {:induction false} NotMarked(lines: seq<string>)
    requires forall i :: 0 <= i < |lines| ==> !IsMarker(lines[i])
    ensures !Marked(lines)
  {
    if lines != [] { NotMarked(lines[1..]); }
  }

  lemma {:induction false} DisorderIsInsideTwice(h1: string, h2: string, h3: string, heading: Heading)
    requires heading(h1) == Some(1) && heading(h2) == Some(2) && heading(h3) == Some(3)
    ensures Bounds([h1, h3] + [h2], heading, 1) == Some((0, 2)) && Inside([h1, h3], [h2], heading, 1)
    ensures Bounds([h1, h3] + [h2], heading, 3) == Some((1, 3)) && Inside([h1, h3], [h2], heading, 3)
  {
    var doc := [h1, h3, h2];
    assert [h1, h3] + [h2] == doc && doc[..2] == [h1, h3] && [h1, h3][..1] == [h1] && [h1][..0] == [];
    assert NextNumber([h1], heading, 1) == None && NextNumber([h1], heading, 3) == None;
    assert NextNumber([h1, h3], heading, 1) == Some(3) && NextNumber([h1, h3], heading, 3) == None;
    assert NextNumber(doc, heading, 1) == Some(2) && NextNumber(doc, heading, 3) == None;
    assert LastHead([h1], heading, 1) == Some(0) && LastHead([h1, h3], heading, 1) == Some(0);
  }

  /** A plain key is tallied for a group by that group's section alone. */
  lemma {:induction false} OneOfNine(a: seq<string>, b: seq<string>, heading: Heading, pattern: string,
                                     g: Group, n: nat)
    requires 1 <= n <= SECTIONS && !IsAck(pattern) && SectionGroup(n) == Some(g)
    requires Takes(a, b, heading, pattern, g, n)
    ensures Takers(a, b, heading, pattern, g, SECTIONS) == 1
  {
    hide Inside, Before, IsAck, Marked;
    OnlyTaker(a, b, heading, pattern, g, n, SECTIONS);
  }

  lemma {:induction false} OnlyTaker(a: seq<string>, b: seq<string>, heading: Heading, pattern: string,
                                     g: Group, n: nat, m: nat)
    requires !IsAck(pattern) && SectionGroup(n) == Some(g) && Takes(a, b, heading, pattern, g, n)
    ensures Takers(a, b, heading, pattern, g, m) == if 1 <= n <= m then 1 else 0
  {
    if m > 0 {
      hide Inside, Before, IsAck, Marked;
      OnlyTaker(a, b, heading, pattern, g, n, m - 1);
      assert m != n ==> SectionGroup(m) != Some(g);
    }
  }
}
