/** The key tally of scripts/doccheck/key_registry.py: extraction from the numbered sections of a document
    and the comparison with the tally the document declares. */
module KeyRegistry {
  import opened Basics
  import opened PyText
  import opened TableRows

  datatype Group = Rt | State | Cmd | CmdAck | Event | Health | Audio | Data | Probe

  const GROUPS := [Rt, State, Cmd, CmdAck, Event, Health, Audio, Data, Probe]
  const SECTIONS := 9

  // -- one row ------------------------------------------------------------------------------------

  /** s.lstrip(chars) */
  function LStripChars(s: string, chars: string): string {
    if s != "" && s[0] in chars then LStripChars(s[1..], chars) else s
  }

  predicate Struck(cell: string) {
    StartsWith(LStripChars(cell, "*_ "), "~~") || '⌦' in cell
  }

  predicate KeyChar(c: char) {
    !IsSpace(c) && c != '`' && c != '*' && c != '|'
  }

  /** The longest run of key characters that opens `s`. */
  function KeyRun(s: string): string {
    if s != "" && KeyChar(s[0]) then [s[0]] + KeyRun(s[1..]) else ""
  }

  /** What the pattern matches at the start of `s`. */
  function KeyAt(s: string): Option<string> {
    var rest := if StartsWith(s, "xbrain/{rid}/") then s[13..]
                else if StartsWith(s, "xbrain/{robot_id}/") then s[18..] else "";
    if KeyRun(rest) == "" then None else Some(KeyRun(rest))
  }

  function FirstKey(s: string): Option<string> {
    if KeyAt(s).Some? || s == "" then KeyAt(s) else FirstKey(s[1..])
  }

  function KeyOf(cell: string): Option<string> {
    if Struck(cell) then None else FirstKey(cell)
  }

  predicate NameChar(c: char) {
    'a' <= c <= 'z' || c == '_'
  }

  function NameRun(s: string): (n: nat)
    ensures n <= |s| && forall i :: 0 <= i < n ==> NameChar(s[i])
    ensures n < |s| ==> !NameChar(s[n])
  {
    if s != "" && NameChar(s[0]) then 1 + NameRun(s[1..]) else 0
  }

  /** A `{name}` opens `s`; its name is `n` long. */
  predicate VariableOpens(s: string, n: nat) {
    s != "" && s[0] == '{' && n == NameRun(s[1..]) && n > 0 && n + 1 < |s| && s[n + 1] == '}'
  }

  /** The names of all variable segments, in order. */
  function Variables(s: string): seq<string>
    decreases |s|
  {
    if s == "" then []
    else
      var n := NameRun(s[1..]);
      if VariableOpens(s, n) then [s[1..n + 1]] + Variables(s[n + 2..]) else Variables(s[1..])
  }

  function Expansion(name: string): nat {
    if name == "domain" then 7 else if name == "severity" then 4 else 1
  }

  function Product(names: seq<string>): nat {
    if names == [] then 1 else Expansion(names[0]) * Product(names[1..])
  }

  const COMBINATORIAL := "event/{severity}/{category}"

  function InstanceCount(pattern: string): nat {
    if pattern == COMBINATORIAL then 1 else Product(Variables(pattern))
  }

  predicate IsAck(pattern: string) {
    EndsWith(pattern, "/ack") || Contains(pattern, "/ack/")
  }

  function SectionGroup(n: int): Option<Group> {
    match n
    case 1 => Some(Rt) case 2 => Some(State) case 3 => Some(Cmd)
    case 4 => Some(CmdAck) case 5 => Some(Event) case 6 => Some(Health)
    case 7 => Some(Audio) case 8 => Some(Data) case 9 => Some(Probe)
    case _ => None
  }

  function GroupOf(pattern: string, n: int): Option<Group> {
    if IsAck(pattern) then Some(CmdAck) else SectionGroup(n)
  }

  datatype Record = Record(pattern: string, group: Option<Group>, section: int, instances: nat)

  /** The key of a table row, if the line is one. */
  function RowKey(line: string): Option<string> {
    var cells := Row(line);
    if cells == [] then None else KeyOf(cells[0])
  }

  function RecordFor(pattern: string, n: int): Record {
    Record(pattern, GroupOf(pattern, n), n, InstanceCount(pattern))
  }

  function RecordsOf(line: string, n: int): seq<Record> {
    var key := RowKey(line);
    if key.None? then [] else [RecordFor(key.value, n)]
  }

  // -- one section --------------------------------------------------------------------------------

  /** The heading of the comparison table: nothing after it counts. */
  predicate IsMarker(line: string) {
    Contains(line, "非独立登记项") || Contains(line, "供实现方对照")
  }

  predicate Marked(lines: seq<string>) {
    lines != [] && (IsMarker(lines[0]) || Marked(lines[1..]))
  }

  function SectionRecords(lines: seq<string>, n: int): seq<Record> {
    if lines == [] || IsMarker(lines[0]) then []
    else RecordsOf(lines[0], n) + SectionRecords(lines[1..], n)
  }

  lemma {:induction false} SectionsConcatenate(a: seq<string>, b: seq<string>, n: int)
    ensures SectionRecords(a + b, n) == SectionRecords(a, n) + if Marked(a) then [] else SectionRecords(b, n)
    ensures Marked(a + b) <==> Marked(a) || Marked(b)
  {
    hide IsMarker, RecordsOf;
    if a == [] {
      assert a + b == b;
    } else {
      assert (a + b)[0] == a[0] && (a + b)[1..] == a[1..] + b;
      if !IsMarker(a[0]) { SectionsConcatenate(a[1..], b, n); }
    }
  }

  method ExtractSection(lines: seq<string>, n: int) returns (records: seq<Record>)
    ensures records == SectionRecords(lines, n)
  {
    hide IsMarker, GroupOf, InstanceCount, Row, KeyOf;
    records := [];
    var seen := false;
    for i := 0 to |lines|
      invariant seen == Marked(lines[..i])
      invariant records == SectionRecords(lines[..i], n)
    {
      var line := lines[i];
      assert lines[..i + 1] == lines[..i] + [line];
      SectionsConcatenate(lines[..i], [line], n);
      OneLine(line, n);
      if IsMarker(line) {
        seen := true;
        continue;
      }
      if seen {
        continue;
      }
      var cells := SplitRow(line);
      if cells == [] {
        continue;
      }
      var key := KeyOf(cells[0]);
      if key.None? {
        continue;
      }
      records := records + [Record(key.value, GroupOf(key.value, n), n, InstanceCount(key.value))];
    }
    assert lines[..|lines|] == lines;
  }

  lemma {:induction false} OneLine(line: string, n: int)
    ensures Marked([line]) <==> IsMarker(line)
    ensures SectionRecords([line], n) == if IsMarker(line) then [] else RecordsOf(line, n)
  {
  }

  /** Either word of the comparison table, anywhere on a line, ends the section's records there, */
  lemma {:induction false} MarkerSilences(lines: seq<string>, a: string, word: string, b: string,
                                          rest: seq<string>, n: int)
    requires word == "非独立登记项" || word == "供实现方对照"
    ensures SectionRecords(lines + [a + word + b] + rest, n) == SectionRecords(lines, n)
  {
    var line := a + word + b;
    assert OccursAt(line, |a|, word);
    assert IsMarker(line);
    hide IsMarker, SectionRecords, Marked;
    OneLine(line, n);
    SectionsConcatenate(lines, [line], n);
    SectionsConcatenate(lines + [line], rest, n);
    assert SectionRecords(lines, n) + [] == SectionRecords(lines, n);
  }

  /** and a line without them ends nothing. */
  lemma {:induction false} PlainLineGoesOn(line: string, rest: seq<string>, n: int)
    requires forall i: nat :: !OccursAt(line, i, "非独立登记项") && !OccursAt(line, i, "供实现方对照")
    ensures SectionRecords([line] + rest, n) == RecordsOf(line, n) + SectionRecords(rest, n)
  {
    assert ([line] + rest)[1..] == rest && !IsMarker(line);
  }

  // -- the document: sections by heading number -----------------------------------------------------

  /** Index of the last heading numbered `k`. */
  function LastHead(doc: seq<string>, heading: string -> Option<int>, k: int): (r: Option<nat>)
    ensures r.Some? ==> r.value < |doc| && heading(doc[r.value]) == Some(k)
  {
    if doc == [] then None
    else if heading(doc[|doc| - 1]) == Some(k) then Some(|doc| - 1)
    else LastHead(doc[..|doc| - 1], heading, k)
  }

  /** The least heading number above `n` in the document. */
  function NextNumber(doc: seq<string>, heading: string -> Option<int>, n: int): (r: Option<int>)
    ensures r.Some? ==> r.value > n && LastHead(doc, heading, r.value).Some?
  {
    if doc == [] then None
    else Least(NextNumber(doc[..|doc| - 1], heading, n), NumberAbove(heading(doc[|doc| - 1]), n))
  }

  function NumberAbove(h: Option<int>, n: int): Option<int> {
    if h.Some? && h.value > n then h else None
  }

  function Least(x: Option<int>, y: Option<int>): Option<int> {
    if x.None? then y else if y.None? || x.value <= y.value then x else y
  }

  /** Where section `n` starts and where the next higher number starts. */
  function Bounds(doc: seq<string>, heading: string -> Option<int>, n: int): (r: Option<(nat, nat)>)
    ensures r.Some? ==> r.value.0 < |doc| && r.value.1 <= |doc|
  {
    var start, next := LastHead(doc, heading, n), NextNumber(doc, heading, n);
    if start.None? then None
    else Some((start.value, if next.None? then |doc| else LastHead(doc, heading, next.value).value))
  }

  function Section(doc: seq<string>, heading: string -> Option<int>, n: int): seq<string> {
    var r := Bounds(doc, heading, n);
    if r.None? || r.value.0 > r.value.1 then [] else doc[r.value.0..r.value.1]
  }

  /** The records of sections 1 to `n`. */
  function RecordsUpTo(doc: seq<string>, heading: string -> Option<int>, n: nat): seq<Record> {
    if n == 0 then []
    else RecordsUpTo(doc, heading, n - 1) + SectionRecords(Section(doc, heading, n), n)
  }

  function Registry(doc: seq<string>, heading: string -> Option<int>): seq<Record> {
    RecordsUpTo(doc, heading, SECTIONS)
  }

  method Extract(doc: seq<string>, heading: string -> Option<int>) returns (records: seq<Record>)
    ensures records == Registry(doc, heading)
  {
    records := [];
    for n := 1 to SECTIONS + 1
      invariant records == RecordsUpTo(doc, heading, n - 1)
    {
      var found := ExtractSection(Section(doc, heading, n), n);
      records := records + found;
    }
  }

  // -- the tally ------------------------------------------------------------------------------------

  function Patterns(records: seq<Record>, g: Group): nat {
    if records == [] then 0
    else Patterns(records[..|records| - 1], g) + if records[|records| - 1].group == Some(g) then 1 else 0
  }

  function Instances(records: seq<Record>, g: Group): nat {
    if records == [] then 0
    else
      var r := records[|records| - 1];
      Instances(records[..|records| - 1], g) + if r.group == Some(g) then r.instances else 0
  }

  function TallyOf(records: seq<Record>, g: Group): (nat, nat) {
    (Patterns(records, g), Instances(records, g))
  }

  method Tally(records: seq<Record>) returns (t: map<Group, (nat, nat)>)
    ensures forall g: Group :: g in t && t[g] == TallyOf(records, g)
  {
    var patt: map<Group, nat> := map[];
    var inst: map<Group, nat> := map[];
    for i := 0 to |records|
      invariant forall g: Group :: Counter(patt, g) == Patterns(records[..i], g)
      invariant forall g: Group :: Counter(inst, g) == Instances(records[..i], g)
    {
      var r := records[i];
      assert records[..i + 1][..i] == records[..i];
      if r.group.None? {
        continue;
      }
      var g := r.group.value;
      patt := patt[g := Counter(patt, g) + 1];
      inst := inst[g := Counter(inst, g) + r.instances];
    }
    assert records[..|records|] == records;
    t := map g: Group | g in GROUPS :: (Counter(patt, g), Counter(inst, g));
    forall g: Group ensures g in GROUPS { AllGroups(g); }
  }

  /** A counter's entry, nothing being zero. */
  function Counter(m: map<Group, nat>, g: Group): nat {
    if g in m then m[g] else 0
  }

  lemma AllGroups(g: Group)
    ensures g in GROUPS
  {
  }

  datatype Delta = Delta(group: Group, got: (nat, nat), want: (nat, nat))

  /** The disagreements among the groups `gs`. */
  function Deltas(records: seq<Record>, want: Group -> (nat, nat), gs: seq<Group>): seq<Delta> {
    if gs == [] then []
    else
      var g := gs[|gs| - 1];
      Deltas(records, want, gs[..|gs| - 1])
      + if TallyOf(records, g) == want(g) then [] else [Delta(g, TallyOf(records, g), want(g))]
  }

  method Check(records: seq<Record>, want: Group -> (nat, nat)) returns (deltas: seq<Delta>)
    ensures deltas == Deltas(records, want, GROUPS)
  {
    var got := Tally(records);
    deltas := [];
    for i := 0 to |GROUPS|
      invariant deltas == Deltas(records, want, GROUPS[..i])
    {
      var g := GROUPS[i];
      assert GROUPS[..i + 1][..i] == GROUPS[..i];
      if got[g] != want(g) {
        deltas := deltas + [Delta(g, got[g], want(g))];
      }
    }
    assert GROUPS[..|GROUPS|] == GROUPS;
  }

  lemma {:induction false} DeltasName(records: seq<Record>, want: Group -> (nat, nat), gs: seq<Group>)
    ensures Deltas(records, want, gs) == [] <==> forall i :: 0 <= i < |gs| ==> TallyOf(records, gs[i]) == want(gs[i])
  {
    if gs != [] {
      DeltasName(records, want, gs[..|gs| - 1]);
      if Deltas(records, want, gs) == [] {
        forall i | 0 <= i < |gs| ensures TallyOf(records, gs[i]) == want(gs[i]) {
          if i < |gs| - 1 { assert gs[..|gs| - 1][i] == gs[i]; }
        }
      }
    }
  }

  /** Green means that every group agrees in patterns and instances. */
  lemma GreenIff(records: seq<Record>, want: Group -> (nat, nat))
    ensures Deltas(records, want, GROUPS) == [] <==> forall g: Group :: TallyOf(records, g) == want(g)
  {
    DeltasName(records, want, GROUPS);
    if Deltas(records, want, GROUPS) == [] {
      forall g: Group ensures TallyOf(records, g) == want(g) { AllGroups(g); }
    }
  }

  // -- what a pattern counts for --------------------------------------------------------------------

  lemma {:induction false} NameRunStops(s: string, rest: string)
    requires rest != "" && !NameChar(rest[0])
    ensures NameRun(s + rest) == NameRun(s)
  {
    if s == "" {
      assert s + rest == rest;
    } else {
      assert (s + rest)[1..] == s[1..] + rest;
      NameRunStops(s[1..], rest);
    }
  }

  lemma {:induction false} VariablesUnfold(s: string)
    requires s != ""
    ensures var n := NameRun(s[1..]);
            Variables(s) == if VariableOpens(s, n) then [s[1..n + 1]] + Variables(s[n + 2..]) else Variables(s[1..])
  {
  }

  /** A path goes on after its first segment without changing what that segment opens with. */
  lemma {:induction false} SegmentOpensAlone(a: string, b: string)
    requires a != ""
    ensures var s := a + "/" + b;
            && NameRun(s[1..]) == NameRun(a[1..])
            && (VariableOpens(s, NameRun(a[1..])) <==> VariableOpens(a, NameRun(a[1..])))
  {
    var s, n := a + "/" + b, NameRun(a[1..]);
    assert s[1..] == a[1..] + ("/" + b);
    NameRunStops(a[1..], "/" + b);
    assert n + 1 < |a| ==> s[n + 1] == a[n + 1];
    assert n + 1 == |a| ==> s[n + 1] == '/';
  }

  /** Variables never span two path segments. */
  lemma {:induction false} VariablesOfPath(a: string, b: string)
    ensures Variables(a + "/" + b) == Variables(a) + Variables(b)
    decreases |a|
  {
    hide Variables, NameRun;
    var s := a + "/" + b;
    VariablesUnfold(s);
    if a == "" {
      assert s[1..] == b && s[0] == '/';
      assert Variables("") + Variables(b) == Variables(b) by { NoVariables(); }
    } else {
      var n := NameRun(a[1..]);
      VariablesUnfold(a);
      SegmentOpensAlone(a, b);
      if VariableOpens(a, n) {
        assert s[n + 2..] == a[n + 2..] + "/" + b && s[1..n + 1] == a[1..n + 1];
        VariablesOfPath(a[n + 2..], b);
      } else {
        assert s[1..] == a[1..] + "/" + b;
        VariablesOfPath(a[1..], b);
      }
    }
  }

  lemma NoVariables()
    ensures Variables("") == []
  {
  }

  lemma {:induction false} ProductConcat(x: seq<string>, y: seq<string>)
    ensures Product(x + y) == Product(x) * Product(y)
  {
    if x == [] {
      assert x + y == y;
    } else {
      assert (x + y)[0] == x[0] && (x + y)[1..] == x[1..] + y;
      ProductConcat(x[1..], y);
      Associates(Expansion(x[0]), Product(x[1..]), Product(y));
    }
  }

  lemma Associates(a: nat, b: nat, c: nat)
    ensures a * (b * c) == (a * b) * c
  {
  }

  /** Except for the overridden key, a path counts for the product of what its segments count for. */
  lemma {:induction false} InstancesMultiply(a: string, b: string)
    requires COMBINATORIAL !in [a, b, a + "/" + b]
    ensures InstanceCount(a + "/" + b) == InstanceCount(a) * InstanceCount(b)
    ensures InstanceCount(a) >= 1
  {
    VariablesOfPath(a, b);
    ProductConcat(Variables(a), Variables(b));
    ProductIsPositive(Variables(a));
  }

  lemma {:induction false} ProductIsPositive(names: seq<string>)
    ensures Product(names) >= 1
  {
    if names != [] { ProductIsPositive(names[1..]); }
  }

  /** What a section's rows are tallied as, acknowledgements apart. */
  lemma SectionsInFigures(pattern: string, n: int)
    ensures EndsWith(pattern, "/ack") || Contains(pattern, "/ack/") ==> GroupOf(pattern, n) == Some(CmdAck)
    ensures !EndsWith(pattern, "/ack") && !Contains(pattern, "/ack/") ==>
              GroupOf(pattern, n) == if 1 <= n <= 9
                then Some([Rt, State, Cmd, CmdAck, Event, Health, Audio, Data, Probe][n - 1]) else None
  {
  }

  lemma {:induction false} WholeName(name: string, rest: string)
    requires forall i :: 0 <= i < |name| ==> 'a' <= name[i] <= 'z' || name[i] == '_'
    requires rest != "" && rest[0] == '}'
    ensures NameRun(name + rest) == |name|
  {
    if name == "" {
      assert name + rest == rest;
    } else {
      assert (name + rest)[1..] == name[1..] + rest;
      WholeName(name[1..], rest);
    }
  }

  /** What a variable segment counts for: seven domains, four severities, and once for every other name. */
  lemma {:induction false} VariableSegmentCounts(name: string)
    requires name != "" && forall i :: 0 <= i < |name| ==> 'a' <= name[i] <= 'z' || name[i] == '_'
    ensures InstanceCount("{" + name + "}") == if name == "domain" then 7 else if name == "severity" then 4 else 1
  {
    var s := "{" + name + "}";
    WholeName(name, "}");
    assert s[1..] == name + "}" && s[1..|name| + 1] == name && s[|name| + 2..] == "";
    VariablesUnfold(s);
    NoVariables();
    assert Variables(s) == [name];
    assert [name][1..] == [] && Product([name]) == Expansion(name) * Product([]);
    assert s != COMBINATORIAL by { assert COMBINATORIAL[0] == 'e'; }
  }

  /** A plain segment counts once. */
  lemma {:induction false} PlainSegmentCounts(segment: string)
    requires '{' !in segment
    ensures InstanceCount(segment) == 1
  {
    NoVariablesIn(segment);
  }

  lemma {:induction false} NoVariablesIn(s: string)
    requires '{' !in s
    ensures Variables(s) == []
  {
    if s != "" { NoVariablesIn(s[1..]); }
  }

  /** And the one combinatorial key counts once, though its severity alone would count for four. */
  lemma CombinatorialCountsOnce()
    ensures InstanceCount("event/{severity}/{category}") == 1
  {
  }

  // -- from a rendered row to its key -----------------------------------------------------------------

  predicate KeyChars(pattern: string) {
    pattern != "" && forall i :: 0 <= i < |pattern| ==> KeyChar(pattern[i])
  }

  lemma {:induction false} KeyRunIsPattern(pattern: string, rest: string)
    requires forall i :: 0 <= i < |pattern| ==> KeyChar(pattern[i])
    requires rest != "" ==> !KeyChar(rest[0])
    ensures KeyRun(pattern + rest) == pattern
  {
    hide KeyChar;
    if pattern == "" {
      assert pattern + rest == rest;
    } else {
      assert (pattern + rest)[1..] == pattern[1..] + rest;
      KeyRunIsPattern(pattern[1..], rest);
      assert [pattern[0]] + pattern[1..] == pattern;
    }
  }

  /** The table cell of a key, under either name of the robot's identity. */
  function KeyCell(pattern: string, longName: bool): string {
    "`" + KeyPath(pattern, longName) + "`"
  }

  function KeyPath(pattern: string, longName: bool): string {
    (if longName then "xbrain/{robot_id}/" else "xbrain/{rid}/") + pattern
  }

  /** Whatever is taken for a key is not empty and holds none of the characters that end one. */
  lemma {:induction false} KeysAreKeys(s: string)
    requires FirstKey(s).Some?
    ensures FirstKey(s).value != ""
    ensures forall c :: c in FirstKey(s).value ==> !IsSpace(c) && c != '`' && c != '*' && c != '|'
  {
    if KeyAt(s).Some? || s == "" {
      var rest := if StartsWith(s, "xbrain/{rid}/") then s[13..]
                  else if StartsWith(s, "xbrain/{robot_id}/") then s[18..] else "";
      RunHoldsKeyChars(rest);
    } else {
      KeysAreKeys(s[1..]);
    }
  }

  lemma {:induction false} RunHoldsKeyChars(s: string)
    ensures forall c :: c in KeyRun(s) ==> !IsSpace(c) && c != '`' && c != '*' && c != '|'
  {
    if s != "" && KeyChar(s[0]) { RunHoldsKeyChars(s[1..]); }
  }

  /** White space, a backquote, an asterisk and a pipe end a key, and nothing else does. */
  lemma {:induction false} KeyEndsAt(pattern: string, stop: char, rest: string, longName: bool)
    requires pattern != "" && forall c :: c in pattern ==> !IsSpace(c) && c != '`' && c != '*' && c != '|'
    requires IsSpace(stop) || stop == '`' || stop == '*' || stop == '|'
    ensures FirstKey(KeyPath(pattern, longName)) == Some(pattern)
    ensures FirstKey(KeyPath(pattern, longName) + ([stop] + rest)) == Some(pattern)
  {
    forall i | 0 <= i < |pattern| ensures KeyChar(pattern[i]) { assert pattern[i] in pattern; }
    assert !KeyChar(stop);
    hide KeyChar;
    assert pattern + "" == pattern && KeyPath(pattern, longName) + "" == KeyPath(pattern, longName);
    KeyOpens(pattern, "", longName);
    KeyOpens(pattern, [stop] + rest, longName);
  }

  lemma {:induction false} KeyOpens(pattern: string, rest: string, longName: bool)
    requires KeyChars(pattern) && (rest != "" ==> !KeyChar(rest[0]))
    ensures KeyAt(KeyPath(pattern, longName) + rest) == Some(pattern)
  {
    hide KeyChar;
    var inner, tail := KeyPath(pattern, longName) + rest, pattern + rest;
    KeyRunIsPattern(pattern, rest);
    if longName {
      var prefix := "xbrain/{robot_id}/";
      assert inner == prefix + tail && inner[18..] == tail && prefix[8] == 'r' && inner[9] == 'o';
      assert !StartsWith(inner, "xbrain/{rid}/") by { assert "xbrain/{rid}/"[9] == 'i'; }
      assert StartsWith(inner, prefix);
    } else {
      var prefix := "xbrain/{rid}/";
      assert inner == prefix + tail && inner[13..] == tail;
      assert StartsWith(inner, prefix);
    }
  }

  lemma {:induction false} KeyCellHasKey(pattern: string, longName: bool)
    requires KeyChars(pattern) && '⌦' !in pattern
    ensures KeyOf(KeyCell(pattern, longName)) == Some(pattern)
  {
    hide KeyChar;
    var cell, inner := KeyCell(pattern, longName), KeyPath(pattern, longName) + "`";
    assert !KeyChar('`') by { BackquoteEndsKeys(); }
    KeyOpens(pattern, "`", longName);
    assert cell[0] == '`' && cell[1..] == inner;
    assert !StartsWith(cell, "xbrain/{rid}/") && !StartsWith(cell, "xbrain/{robot_id}/");
    assert KeyAt(cell).None?;
    assert FirstKey(cell) == Some(pattern);
    assert !Struck(cell);
  }

  /** A struck cell has no key, whatever emphasis or blanks stand in front of the strike. */
  lemma {:induction false} TombstoneHasNoKey(emphasis: string, cell: string)
    requires forall i :: 0 <= i < |emphasis| ==> emphasis[i] in "*_ "
    ensures KeyOf(emphasis + "~~" + cell) == None
  {
    StrikeShows(emphasis, "~~" + cell);
    assert emphasis + "~~" + cell == emphasis + ("~~" + cell);
  }

  lemma {:induction false} StrikeShows(emphasis: string, rest: string)
    requires forall i :: 0 <= i < |emphasis| ==> emphasis[i] in "*_ "
    requires StartsWith(rest, "~~")
    ensures StartsWith(LStripChars(emphasis + rest, "*_ "), "~~")
  {
    if emphasis == "" {
      assert emphasis + rest == rest;
      assert rest[0] == '~' by { assert rest[..2][0] == "~~"[0]; }
    } else {
      assert (emphasis + rest)[1..] == emphasis[1..] + rest;
      StrikeShows(emphasis[1..], rest);
    }
  }

  lemma BackquoteEndsKeys()
    ensures !KeyChar('`')
  {
  }

  /** A rendered row whose first cell holds a key is read back as that key. */
  lemma {:induction false} RenderedRowHasKey(cells: seq<Cell>, pattern: string, longName: bool)
    requires cells != [] && AllRenderable(cells) && cells[0].text == KeyCell(pattern, longName)
    requires KeyChars(pattern) && '⌦' !in pattern
    ensures RowKey(Render(cells)) == Some(pattern)
  {
    hide Row, Render, KeyOf, Cell.Renderable, KeyPath;
    SplitUndoesRender(cells);
    KeyCellHasKey(pattern, longName);
    assert Texts(cells)[0] == KeyCell(pattern, longName);
    assert KeyCell(pattern, longName)[0] == '`' && '`' !in "-: ";
    assert !Ruled(Texts(cells)[0]);
  }
}
