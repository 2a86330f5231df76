/** The receive ledger of scripts/dev/perception_rx_audit.py, and the arrival rule it counts by. */
module RxLedger {
  import opened Basics
  import opened Percentiles

  const FUTURE_TOL_MS := 50
  const EPOCH_BACK_MS := 1000
  const TIER1_MAX_MS := 100
  const TIER2_LIMIT_MS := 50

  datatype Key = Profile | Objects | Status
  datatype Verdict = Accept | Dup | OutOfOrder | Future | EpochReset

  /** What one sample parses to. A status frame is identified by its publish stamp, the other two by
      their capture stamp; those may lack a publish stamp. */
  datatype Arrival =
    | Bad(key: Key, error: string)
    | Frame(key: Key, rx: int, capture: int, publish: Option<int>)
  {
    predicate WellTyped() {
      Frame? && key == Status ==> publish.Some?
    }

    function Ident(): int
      requires Frame? && WellTyped()
    {
      if key == Status then publish.value else capture
    }
  }

  datatype Row = Row(rx: int, key: Key, ident: int, publish: Option<int>, verdict: Verdict)
  {
    function Age(): int { rx - ident }
  }

  function Classify(last: Option<int>, t: int, now: int): Verdict {
    if t > now + FUTURE_TOL_MS then Future
    else if last.None? || t > last.value then Accept
    else if t == last.value then Dup
    else if last.value - t > EPOCH_BACK_MS then EpochReset
    else OutOfOrder
  }

  predicate Counted(v: Verdict) {
    v == Accept || v == EpochReset
  }

  // -- what the ledger means: everything is a function of the arrivals ----------------------

  /** The rows of one key that were accepted, in order. */
  function Unique(rows: seq<Row>, k: Key): (u: seq<Row>)
    ensures forall i :: 0 <= i < |u| ==> u[i].key == k && Counted(u[i].verdict)
  {
    if rows == [] then []
    else
      var r := rows[|rows| - 1];
      Unique(rows[..|rows| - 1], k) + if r.key == k && Counted(r.verdict) then [r] else []
  }

  function LastIdent(rows: seq<Row>, k: Key): Option<int> {
    var u := Unique(rows, k);
    if u == [] then None else Some(u[|u| - 1].ident)
  }

  predicate AllTyped(arrivals: seq<Arrival>) {
    forall i :: 0 <= i < |arrivals| ==> arrivals[i].WellTyped()
  }

  function RowFor(rows: seq<Row>, a: Arrival): Row
    requires a.Frame? && a.WellTyped()
  {
    Row(a.rx, a.key, a.Ident(), a.publish, Classify(LastIdent(rows, a.key), a.Ident(), a.rx))
  }

  /** One row for every frame that parses. */
  function RowsOf(arrivals: seq<Arrival>): seq<Row>
    requires AllTyped(arrivals)
  {
    if arrivals == [] then []
    else
      var rows, a := RowsOf(arrivals[..|arrivals| - 1]), arrivals[|arrivals| - 1];
      if a.Bad? then rows else rows + [RowFor(rows, a)]
  }

  function Errors(arrivals: seq<Arrival>, k: Key): seq<string> {
    if arrivals == [] then []
    else
      var a := arrivals[|arrivals| - 1];
      Errors(arrivals[..|arrivals| - 1], k) + if a.Bad? && a.key == k then [a.error] else []
  }

  function OfKey(rows: seq<Row>, k: Key): seq<Row> {
    if rows == [] then []
    else OfKey(rows[..|rows| - 1], k) + if rows[|rows| - 1].key == k then [rows[|rows| - 1]] else []
  }

  function Tally(rows: seq<Row>, k: Key, v: Verdict): nat {
    if rows == [] then 0
    else Tally(rows[..|rows| - 1], k, v) + if rows[|rows| - 1].key == k && rows[|rows| - 1].verdict == v then 1 else 0
  }

  function Ages(u: seq<Row>): (ages: seq<int>)
    ensures |ages| == |u| && forall i :: 0 <= i < |u| ==> ages[i] == u[i].Age()
  {
    if u == [] then [] else Ages(u[..|u| - 1]) + [u[|u| - 1].Age()]
  }

  function Above(xs: seq<int>, limit: int): (n: nat)
    ensures n <= |xs|
    ensures n == 0 <==> forall i :: 0 <= i < |xs| ==> xs[i] <= limit
  {
    if xs == [] then 0 else Above(xs[..|xs| - 1], limit) + if xs[|xs| - 1] > limit then 1 else 0
  }

  /** Ages past a consumer's timeout, where the key has one. */
  function Past(ages: seq<int>, limit: Option<int>): (n: nat)
    ensures n <= |ages|
  {
    if limit.None? then 0 else Above(ages, limit.value)
  }

  function FirstLimit(k: Key): int {
    match k case Profile => 300 case Objects => 500 case Status => 3000
  }

  function SecondLimit(k: Key): Option<int> {
    if k == Profile then Some(1000) else None
  }

  /** A publish stamp of a unique objects frame; `restart` where a new clock epoch brought it. */
  datatype Stamp = Stamp(at: int, restart: bool)

  function Stamps(u: seq<Row>): seq<Stamp> {
    if u == [] then []
    else
      var r := u[|u| - 1];
      Stamps(u[..|u| - 1]) + if r.publish.Some? then [Stamp(r.publish.value, r.verdict == EpochReset)] else []
  }

  /** Steps between neighbouring stamps, none into a restart. */
  function Intervals(stamps: seq<Stamp>): seq<int> {
    var n := |stamps|;
    if n <= 1 then []
    else if stamps[n - 1].restart then Intervals(stamps[..n - 1])
    else Intervals(stamps[..n - 1]) + [stamps[n - 1].at - stamps[n - 2].at]
  }

  function LastStamp(stamps: seq<Stamp>): Option<int> {
    if stamps == [] then None else Some(stamps[|stamps| - 1].at)
  }

  function StampsOf(rows: seq<Row>): seq<Stamp> {
    Stamps(Unique(rows, Objects))
  }

  // -- the ledger -----------------------------------------------------------------------------

  datatype KeyStats = KeyStats(
    received: nat, rejected: nat, lastError: Option<string>, counts: map<Verdict, nat>,
    lastT: Option<int>, l2: seq<int>, pastFirst: nat, pastSecond: nat)

  const NO_COUNTS: map<Verdict, nat> :=
    map[Accept := 0, Dup := 0, OutOfOrder := 0, Future := 0, EpochReset := 0]

  const NO_STATS := KeyStats(0, 0, None, NO_COUNTS, None, [], 0, 0)

  ghost predicate Tallied(counts: map<Verdict, nat>, rows: seq<Row>, k: Key) {
    forall v: Verdict :: v in counts && counts[v] == Tally(rows, k, v)
  }

  /** Every field of `st` is the count or list it stands for. */
  ghost predicate Records(st: KeyStats, k: Key, arrivals: seq<Arrival>)
    requires AllTyped(arrivals)
  {
    var rows := RowsOf(arrivals);
    var errors := Errors(arrivals, k);
    && st.received == |OfKey(rows, k)|
    && st.rejected == |errors| && st.lastError == (if errors == [] then None else Some(errors[|errors| - 1]))
    && Tallied(st.counts, rows, k)
    && st.lastT == LastIdent(rows, k)
    && st.l2 == Ages(Unique(rows, k))
    && st.pastFirst == Past(st.l2, Some(FirstLimit(k)))
    && st.pastSecond == Past(st.l2, SecondLimit(k))
  }

  ghost predicate Recorded(stats: map<Key, KeyStats>, arrivals: seq<Arrival>)
    requires AllTyped(arrivals)
  {
    forall k: Key :: k in stats && Records(stats[k], k, arrivals)
  }

  ghost predicate Cadenced(dpub: seq<int>, lastPub: Option<int>, rows: seq<Row>) {
    dpub == Intervals(StampsOf(rows)) && lastPub == LastStamp(StampsOf(rows))
  }

  // -- one arrival more -----------------------------------------------------------------------

  lemma {:induction false} ArrivalAdded(arrivals: seq<Arrival>, a: Arrival, k: Key)
    requires AllTyped(arrivals) && a.WellTyped()
    ensures AllTyped(arrivals + [a])
    ensures RowsOf(arrivals + [a])
         == if a.Bad? then RowsOf(arrivals) else RowsOf(arrivals) + [RowFor(RowsOf(arrivals), a)]
    ensures Errors(arrivals + [a], k)
         == if a.Bad? && a.key == k then Errors(arrivals, k) + [a.error] else Errors(arrivals, k)
  {
  }

  lemma {:induction false} RowAdded(rows: seq<Row>, r: Row, k: Key)
    ensures OfKey(rows + [r], k) == if r.key == k then OfKey(rows, k) + [r] else OfKey(rows, k)
    ensures Unique(rows + [r], k)
         == if r.key == k && Counted(r.verdict) then Unique(rows, k) + [r] else Unique(rows, k)
    ensures forall v :: Tally(rows + [r], k, v)
                     == Tally(rows, k, v) + if r.key == k && v == r.verdict then 1 else 0
  {
  }

  lemma {:induction false} UniqueAdded(u: seq<Row>, r: Row)
    ensures Ages(u + [r]) == Ages(u) + [r.Age()]
    ensures Stamps(u + [r]) == if r.publish.Some?
                               then Stamps(u) + [Stamp(r.publish.value, r.verdict == EpochReset)] else Stamps(u)
  {
  }

  lemma {:induction false} PastAdded(ages: seq<int>, age: int, limit: Option<int>)
    ensures Past(ages + [age], limit) == Past(ages, limit) + if limit.Some? && age > limit.value then 1 else 0
  {
  }

  lemma {:induction false} IntervalsSnoc(stamps: seq<Stamp>, x: Stamp)
    ensures Intervals(stamps + [x]) == if stamps == [] || x.restart then Intervals(stamps)
                                       else Intervals(stamps) + [x.at - stamps[|stamps| - 1].at]
  {
  }

  /** An arrival says nothing about the other keys. */
  lemma {:induction false} OtherKeysUnmoved(arrivals: seq<Arrival>, a: Arrival, st: KeyStats, k: Key)
    requires AllTyped(arrivals) && a.WellTyped()
    requires Records(st, k, arrivals) && k != a.key
    ensures AllTyped(arrivals + [a]) && Records(st, k, arrivals + [a])
  {
    hide RowsOf, Errors, OfKey, Unique, Tally, Ages, Past;
    ArrivalAdded(arrivals, a, k);
    if a.Frame? { RowAdded(RowsOf(arrivals), RowFor(RowsOf(arrivals), a), k); }
  }

  /** The statistics of a key after one more of its rows. */
  function Counting(st: KeyStats, r: Row): KeyStats
    requires r.verdict in st.counts
  {
    var counted := st.(received := st.received + 1, counts := st.counts[r.verdict := st.counts[r.verdict] + 1]);
    if !Counted(r.verdict) then counted
    else
      var second := SecondLimit(r.key);
      counted.(lastT := Some(r.ident), l2 := st.l2 + [r.Age()],
               pastFirst := st.pastFirst + (if r.Age() > FirstLimit(r.key) then 1 else 0),
               pastSecond := st.pastSecond + (if second.Some? && r.Age() > second.value then 1 else 0))
  }

  lemma {:induction false} TallyAdded(counts: map<Verdict, nat>, rows: seq<Row>, r: Row)
    requires Tallied(counts, rows, r.key)
    ensures r.verdict in counts && Tallied(counts[r.verdict := counts[r.verdict] + 1], rows + [r], r.key)
  {
  }

  lemma {:induction false} RefusedRowRecorded(arrivals: seq<Arrival>, a: Arrival, st: KeyStats)
    requires AllTyped(arrivals) && a.WellTyped() && a.Frame? && Records(st, a.key, arrivals)
    requires !Counted(RowFor(RowsOf(arrivals), a).verdict)
    ensures AllTyped(arrivals + [a]) && Records(Counting(st, RowFor(RowsOf(arrivals), a)), a.key, arrivals + [a])
  {
    hide RowsOf, Errors, OfKey, Unique, Tallied, Ages, Past, FirstLimit, SecondLimit, Classify;
    ArrivalAdded(arrivals, a, a.key);
    var row := RowFor(RowsOf(arrivals), a);
    RowAdded(RowsOf(arrivals), row, a.key);
    TallyAdded(st.counts, RowsOf(arrivals), row);
  }

  lemma {:induction false} CountedRowRecorded(arrivals: seq<Arrival>, a: Arrival, st: KeyStats)
    requires AllTyped(arrivals) && a.WellTyped() && a.Frame? && Records(st, a.key, arrivals)
    requires Counted(RowFor(RowsOf(arrivals), a).verdict)
    ensures AllTyped(arrivals + [a]) && Records(Counting(st, RowFor(RowsOf(arrivals), a)), a.key, arrivals + [a])
  {
    hide RowsOf, Errors, OfKey, Unique, Tallied, Ages, Past, FirstLimit, SecondLimit, Classify;
    ArrivalAdded(arrivals, a, a.key);
    var row := RowFor(RowsOf(arrivals), a);
    RowAdded(RowsOf(arrivals), row, a.key);
    TallyAdded(st.counts, RowsOf(arrivals), row);
    UniqueAdded(Unique(RowsOf(arrivals), a.key), row);
    PastAdded(st.l2, row.Age(), Some(FirstLimit(a.key)));
    PastAdded(st.l2, row.Age(), SecondLimit(a.key));
  }

  /** The statistics after one more arrival. */
  function StatsAfter(stats: map<Key, KeyStats>, rows: seq<Row>, a: Arrival): map<Key, KeyStats>
    requires a.WellTyped() && a.key in stats
    requires forall v: Verdict :: v in stats[a.key].counts
  {
    var st := stats[a.key];
    stats[a.key := if a.Bad? then st.(rejected := st.rejected + 1, lastError := Some(a.error))
                   else Counting(st, RowFor(rows, a))]
  }

  lemma {:induction false} StatsFollow(stats: map<Key, KeyStats>, arrivals: seq<Arrival>, a: Arrival)
    requires AllTyped(arrivals) && a.WellTyped() && Recorded(stats, arrivals)
    ensures AllTyped(arrivals + [a]) && a.key in stats && forall v: Verdict :: v in stats[a.key].counts
    ensures stats[a.key].lastT == LastIdent(RowsOf(arrivals), a.key)
    ensures Recorded(StatsAfter(stats, RowsOf(arrivals), a), arrivals + [a])
  {
    hide RowsOf, Errors, OfKey, Unique, Tally, Ages, Past, Classify, Counting;
    ArrivalAdded(arrivals, a, a.key);
    var after := StatsAfter(stats, RowsOf(arrivals), a);
    forall k: Key ensures k in after && Records(after[k], k, arrivals + [a]) {
      assert k in stats && Records(stats[k], k, arrivals);
      if k != a.key {
        OtherKeysUnmoved(arrivals, a, stats[k], k);
      } else if a.Frame? {
        if Counted(RowFor(RowsOf(arrivals), a).verdict) {
          CountedRowRecorded(arrivals, a, stats[k]);
        } else {
          RefusedRowRecorded(arrivals, a, stats[k]);
        }
      }
    }
  }

  lemma {:induction false} StampAdded(rows: seq<Row>, r: Row)
    ensures StampsOf(rows + [r]) == if r.key == Objects && Counted(r.verdict) && r.publish.Some?
                                    then StampsOf(rows) + [Stamp(r.publish.value, r.verdict == EpochReset)]
                                    else StampsOf(rows)
  {
    RowAdded(rows, r, Objects);
    UniqueAdded(Unique(rows, Objects), r);
  }

  /** Only a counted objects frame with a stamp moves the cadence; it closes an interval unless it restarts. */
  predicate Stamped(r: Row) {
    r.key == Objects && Counted(r.verdict) && r.publish.Some?
  }

  lemma {:induction false} CadenceAdded(dpub: seq<int>, lastPub: Option<int>, rows: seq<Row>, r: Row)
    requires Cadenced(dpub, lastPub, rows)
    ensures !Stamped(r) ==> Cadenced(dpub, lastPub, rows + [r])
    ensures Stamped(r) && (lastPub.None? || r.verdict == EpochReset) ==> Cadenced(dpub, r.publish, rows + [r])
    ensures Stamped(r) && lastPub.Some? && r.verdict == Accept
            ==> Cadenced(dpub + [r.publish.value - lastPub.value], r.publish, rows + [r])
  {
    hide Intervals, StampsOf;
    StampAdded(rows, r);
    if Stamped(r) { IntervalsSnoc(StampsOf(rows), Stamp(r.publish.value, r.verdict == EpochReset)); }
  }

  // -- the report ------------------------------------------------------------------------------

  function AsReals(xs: seq<int>): (r: seq<real>)
    ensures |r| == |xs|
  {
    seq(|xs|, i requires 0 <= i < |xs| => xs[i] as real)
  }

  /** max(xs), or None where there is none. */
  function MaxOf(xs: seq<int>): (m: Option<int>)
    ensures m.None? <==> xs == []
    ensures m.Some? ==> m.value in xs && forall i :: 0 <= i < |xs| ==> xs[i] <= m.value
  {
    if xs == [] then None
    else
      var before, x := MaxOf(xs[..|xs| - 1]), xs[|xs| - 1];
      assert xs == xs[..|xs| - 1] + [x];
      if before.Some? && before.value >= x then before else Some(x)
  }

  datatype KeySummary = KeySummary(
    received: nat, rejected: nat, lastError: Option<string>, counts: map<Verdict, nat>,
    p50: Option<real>, p99: Option<real>, max: Option<int>, pastFirst: nat, pastSecond: nat)

  function SummaryOf(st: KeyStats): KeySummary {
    KeySummary(st.received, st.rejected, st.lastError, st.counts, Percentile(AsReals(st.l2), 0.5),
               Percentile(AsReals(st.l2), 0.99), MaxOf(st.l2), st.pastFirst, st.pastSecond)
  }

  datatype Cadence = Cadence(
    intervals: nat, dpubMax: Option<int>, dpubP99: Option<real>, over50: nat, over50Share: Option<real>,
    over100: nat, openGap: Option<int>, tier1Pass: bool, tier2Pass: bool)

  /** No wait for a fresh result was over `limit`, the one that is still open included. */
  predicate NeverLate(d: seq<int>, lastPub: Option<int>, now: int, limit: int) {
    lastPub.Some? && now - lastPub.value <= limit && forall i :: 0 <= i < |d| ==> d[i] <= limit
  }

  lemma {:induction false} StampsNeedFrames(dpub: seq<int>, lastPub: Option<int>, rows: seq<Row>)
    requires Cadenced(dpub, lastPub, rows)
    ensures lastPub.Some? ==> Unique(rows, Objects) != []
    ensures lastPub.None? ==> dpub == []
  {
  }

  lemma {:induction false} ObjectsSeen(st: KeyStats, arrivals: seq<Arrival>)
    requires AllTyped(arrivals) && Records(st, Objects, arrivals)
    ensures |st.l2| == |Unique(RowsOf(arrivals), Objects)|
  {
  }

  /** At most one percent, in whole intervals. */
  lemma {:induction false} ShareIsCount(over: nat, n: nat)
    requires n > 0
    ensures over as real / n as real <= 0.01 <==> 100 * over <= n
  {
    var q, m := over as real / n as real, n as real;
    assert m * q == over as real;
    if q <= 0.01 { ScaleMono(m, q, 0.01); } else { ScaleStrict(m, 0.01, q); }
  }

  class Ledger {
    var rows: seq<Row>
    var stats: map<Key, KeyStats>
    var dpub: seq<int>
    var lastPub: Option<int>
    ghost var arrivals: seq<Arrival>

    ghost predicate Valid()
      reads this
    {
      && AllTyped(arrivals)
      && rows == RowsOf(arrivals)
      && Recorded(stats, arrivals)
      && Cadenced(dpub, lastPub, rows)
    }

    constructor ()
      ensures Valid() && arrivals == []
    {
      rows, dpub, lastPub, arrivals := [], [], None, [];
      stats := map[Profile := NO_STATS, Objects := NO_STATS, Status := NO_STATS];
      new;
      forall k: Key ensures k in stats && Records(stats[k], k, []) {
        assert k == Profile || k == Objects || k == Status;
        forall v: Verdict ensures v in NO_COUNTS && NO_COUNTS[v] == Tally([], k, v) {
          assert v == Accept || v == Dup || v == OutOfOrder || v == Future || v == EpochReset;
        }
      }
      assert StampsOf(rows) == [];
    }

    method OnSample(a: Arrival)
      requires Valid() && a.WellTyped()
      modifies this
      ensures Valid() && arrivals == old(arrivals) + [a]
    {
      hide Recorded, Cadenced, RowsOf, LastIdent, Classify, FirstLimit, SecondLimit;
      ghost var before := arrivals;
      arrivals := arrivals + [a];
      ArrivalAdded(before, a, a.key);
      StatsFollow(stats, before, a);
      var st := stats[a.key];
      if a.Bad? {
        stats := stats[a.key := st.(rejected := st.rejected + 1, lastError := Some(a.error))];
        return;
      }
      st := st.(received := st.received + 1);
      var ident := a.Ident();
      var verdict := Classify(st.lastT, ident, a.rx);
      st := st.(counts := st.counts[verdict := st.counts[verdict] + 1]);
      ghost var row := RowFor(rows, a);
      CadenceAdded(dpub, lastPub, rows, row);
      if Counted(verdict) {
        var age := a.rx - ident;
        st := st.(lastT := Some(ident), l2 := st.l2 + [age]);
        if age > FirstLimit(a.key) {
          st := st.(pastFirst := st.pastFirst + 1);
        }
        if SecondLimit(a.key).Some? && age > SecondLimit(a.key).value {
          st := st.(pastSecond := st.pastSecond + 1);
        }
      }
      assert st == Counting(stats[a.key], row);
      stats := stats[a.key := st];
      assert Recorded(stats, arrivals);
      if Counted(verdict) && a.key == Objects && a.publish.Some? {
        if lastPub.Some? && verdict == Accept {
          dpub := dpub + [a.publish.value - lastPub.value];
        }
        lastPub := a.publish;
      }
      assert Cadenced(dpub, lastPub, rows + [row]);
      rows := rows + [Row(a.rx, a.key, ident, a.publish, verdict)];
    }

    /** summary(): the tier-1 verdict is about every interval and the open gap; that no interval is over
        the limit twice, by the maximum and by the count, asks for nothing more. */
    method Summary(now: int) returns (keys: map<Key, KeySummary>, c: Cadence)
      requires Valid()
      ensures forall k: Key :: k in stats && k in keys && keys[k] == SummaryOf(stats[k])
      ensures c.intervals == |dpub| && c.dpubMax == MaxOf(dpub) && c.dpubP99 == Percentile(AsReals(dpub), 0.99)
      ensures c.over50 == Above(dpub, 50) && c.over100 == Above(dpub, 100)
      ensures c.over50Share == if dpub == [] then None else Some(c.over50 as real / |dpub| as real)
      ensures c.openGap == if lastPub.None? then None else Some(now - lastPub.value)
      ensures c.tier1Pass <==> NeverLate(dpub, lastPub, now, 100)
      ensures c.tier2Pass <==> dpub != [] && 100 * Above(dpub, 50) <= |dpub|
    {
      hide Records, Tallied, Cadenced, RowsOf, Unique, Percentile, Above, MaxOf, SummaryOf;
      StampsNeedFrames(dpub, lastPub, rows);
      keys := map k: Key | k in stats :: SummaryOf(stats[k]);
      var openGap: Option<int> := None;
      assert stats[Objects].l2 == [] ==> lastPub.None? by { ObjectsSeen(stats[Objects], arrivals); }
      if lastPub.Some? && stats[Objects].l2 != [] {
        openGap := Some(now - lastPub.value);
      }
      var over50 := Above(dpub, TIER2_LIMIT_MS);
      var over100 := Above(dpub, TIER1_MAX_MS);
      var dpubMax := MaxOf(dpub);
      var tier1Max := if dpubMax.None? then openGap
                      else if openGap.None? || dpubMax.value >= openGap.value then dpubMax else openGap;
      var share := if dpub == [] then None else Some(over50 as real / |dpub| as real);
      c := Cadence(|dpub|, dpubMax, Percentile(AsReals(dpub), 0.99), over50, share, over100, openGap,
                   tier1Max.Some? && tier1Max.value <= TIER1_MAX_MS && over100 == 0,
                   dpub != [] && share.value <= 0.01);
      if dpub != [] { ShareIsCount(over50, |dpub|); }
    }
  }

  // -- in figures --------------------------------------------------------------------------

  /** Row `i` is the last accepted one of its key. */
  ghost predicate LastAccepted(rows: seq<Row>, k: Key, i: int) {
    && 0 <= i < |rows| && rows[i].key == k && (rows[i].verdict == Accept || rows[i].verdict == EpochReset)
    && forall j :: i < j < |rows| && rows[j].key == k ==> rows[j].verdict != Accept && rows[j].verdict != EpochReset
  }

  lemma {:induction false} LastIdentIsIt(rows: seq<Row>, k: Key, i: nat)
    requires LastAccepted(rows, k, i)
    ensures LastIdent(rows, k) == Some(rows[i].ident)
  {
    if i < |rows| - 1 {
      assert LastAccepted(rows[..|rows| - 1], k, i);
      LastIdentIsIt(rows[..|rows| - 1], k, i);
      assert rows[|rows| - 1].key != k || !Counted(rows[|rows| - 1].verdict);
      assert Unique(rows, k) == Unique(rows[..|rows| - 1], k);
    }
  }

  lemma {:induction false} NoneAccepted(rows: seq<Row>, k: Key)
    requires forall i :: 0 <= i < |rows| && rows[i].key == k ==> !Counted(rows[i].verdict)
    ensures LastIdent(rows, k) == None
  {
    if rows != [] {
      NoneAccepted(rows[..|rows| - 1], k);
      assert Unique(rows, k) == Unique(rows[..|rows| - 1], k);
    }
  }

  /** Every verdict, by the identity of the last accepted frame of the key: more than 50 ms ahead of the clock is
      not this machine's; newer is accepted, the same again a repetition; more than a second back is a new
      epoch, and less is late. */
  lemma {:induction false} ArrivalVerdicts(arrivals: seq<Arrival>, a: Arrival)
    requires AllTyped(arrivals) && a.Frame? && a.WellTyped()
    ensures var rows, r := RowsOf(arrivals), RowFor(RowsOf(arrivals), a);
            && r.rx == a.rx && r.key == a.key && r.publish == a.publish
            && Some(r.ident) == (if a.key == Status then a.publish else Some(a.capture))
            && (r.verdict == Future <==> r.ident > a.rx + 50)
            && (r.ident <= a.rx + 50 && (forall i :: !LastAccepted(rows, a.key, i)) ==> r.verdict == Accept)
            && (forall i :: LastAccepted(rows, a.key, i) && r.ident <= a.rx + 50 ==>
                  && (r.verdict == Accept <==> r.ident > rows[i].ident)
                  && (r.verdict == Dup <==> r.ident == rows[i].ident)
                  && (r.verdict == OutOfOrder <==> rows[i].ident - 1000 <= r.ident < rows[i].ident)
                  && (r.verdict == EpochReset <==> r.ident < rows[i].ident - 1000))
  {
    hide Unique;
    var rows := RowsOf(arrivals);
    forall i | LastAccepted(rows, a.key, i) ensures LastIdent(rows, a.key) == Some(rows[i].ident) {
      LastIdentIsIt(rows, a.key, i);
    }
    if forall i :: !LastAccepted(rows, a.key, i) {
      NoLast(rows, a.key);
      NoneAccepted(rows, a.key);
    }
  }

  lemma {:induction false} NoLast(rows: seq<Row>, k: Key)
    requires forall i :: !LastAccepted(rows, k, i)
    ensures forall i :: 0 <= i < |rows| && rows[i].key == k ==> !Counted(rows[i].verdict)
  {
    if i :| 0 <= i < |rows| && rows[i].key == k && Counted(rows[i].verdict) {
      var l := LatestFrom(rows, k, i);
    }
  }

  lemma {:induction false} LatestFrom(rows: seq<Row>, k: Key, i: nat) returns (l: nat)
    requires i < |rows| && rows[i].key == k && Counted(rows[i].verdict)
    ensures LastAccepted(rows, k, l)
    decreases |rows| - i
  {
    if j: nat :| i < j < |rows| && rows[j].key == k && Counted(rows[j].verdict) {
      l := LatestFrom(rows, k, j);
    } else {
      l := i;
    }
  }

  /** The accepted frames that were older than `limit` when they came. */
  function LateThan(u: seq<Row>, limit: int): set<int> {
    set i | 0 <= i < |u| && u[i].rx - u[i].ident > limit
  }

  lemma {:induction false} AboveIsLate(u: seq<Row>, limit: int)
    ensures Above(Ages(u), limit) == |LateThan(u, limit)|
  {
    if u == [] {
      assert LateThan(u, limit) == {};
    } else {
      var n := |u| - 1;
      AboveIsLate(u[..n], limit);
      assert Ages(u)[..n] == Ages(u[..n]);
      assert LateThan(u, limit) == LateThan(u[..n], limit) + if u[n].Age() > limit then {n} else {};
    }
  }

  /** The report of a key: the median and the 99 % quantile of the ages of its accepted frames, the oldest, and
      how many came past the timeouts of its consumers. */
  lemma {:induction false} SummaryInFigures(st: KeyStats, k: Key, arrivals: seq<Arrival>)
    requires AllTyped(arrivals) && Records(st, k, arrivals)
    ensures var u, s := Unique(RowsOf(arrivals), k), SummaryOf(st);
            var ages := AsReals(Ages(u));
            && s.received == st.received && s.rejected == st.rejected && s.lastError == st.lastError
            && s.counts == st.counts
            && (u == [] <==> s.p50.None?) && (u == [] <==> s.p99.None?) && (u == [] <==> s.max.None?)
            && (u != [] ==> Quantile(ages, 0.5, s.p50.value) && Quantile(ages, 0.99, s.p99.value))
            && (s.max.Some? ==> s.max.value in Ages(u))
            && (s.max.Some? ==> forall i :: 0 <= i < |u| ==> u[i].rx - u[i].ident <= s.max.value)
            && (k == Profile ==> s.pastFirst == |LateThan(u, 300)| && s.pastSecond == |LateThan(u, 1000)|)
            && (k == Objects ==> s.pastFirst == |LateThan(u, 500)| && s.pastSecond == 0)
            && (k == Status ==> s.pastFirst == |LateThan(u, 3000)| && s.pastSecond == 0)
  {
    hide RowsOf, Unique, Errors, OfKey, Tallied, LastIdent, Percentile, Above, LateThan, Quantile, MaxOf;
    var u := Unique(RowsOf(arrivals), k);
    if u != [] {
      BothAreQuantiles(AsReals(Ages(u)), 0.5);
      BothAreQuantiles(AsReals(Ages(u)), 0.99);
    } else {
      NoPercentile(0.5);
      NoPercentile(0.99);
      assert AsReals(Ages(u)) == [];
    }
    AboveIsLate(u, 300);
    AboveIsLate(u, 500);
    AboveIsLate(u, 1000);
    AboveIsLate(u, 3000);
  }

  lemma NoPercentile(q: real)
    ensures Percentile([], q) == None
  {
  }

  // -- what every run keeps -----------------------------------------------------------------

  lemma {:induction false} VerdictsAddUp(rows: seq<Row>, k: Key)
    ensures |OfKey(rows, k)| == Tally(rows, k, Accept) + Tally(rows, k, Dup) + Tally(rows, k, OutOfOrder)
                                + Tally(rows, k, Future) + Tally(rows, k, EpochReset)
    ensures |Unique(rows, k)| == Tally(rows, k, Accept) + Tally(rows, k, EpochReset)
  {
    if rows != [] { VerdictsAddUp(rows[..|rows| - 1], k); }
  }

  function Sent(arrivals: seq<Arrival>, k: Key): nat {
    if arrivals == [] then 0
    else Sent(arrivals[..|arrivals| - 1], k) + if arrivals[|arrivals| - 1].key == k then 1 else 0
  }

  lemma {:induction false} EverySampleIsCounted(arrivals: seq<Arrival>, k: Key)
    requires AllTyped(arrivals)
    ensures |OfKey(RowsOf(arrivals), k)| + |Errors(arrivals, k)| == Sent(arrivals, k)
  {
    if arrivals != [] {
      var before, a := arrivals[..|arrivals| - 1], arrivals[|arrivals| - 1];
      EverySampleIsCounted(before, k);
      assert before + [a] == arrivals;
      ArrivalAdded(before, a, k);
      if a.Frame? { RowAdded(RowsOf(before), RowFor(RowsOf(before), a), k); }
    }
  }

  lemma {:induction false} FewerAreAboveMore(xs: seq<int>, low: int, high: int)
    requires low <= high
    ensures Above(xs, high) <= Above(xs, low)
  {
    if xs != [] { FewerAreAboveMore(xs[..|xs| - 1], low, high); }
  }

  /** The books balance for every key after any sequence of samples. */
  lemma {:induction false} BooksBalance(st: KeyStats, k: Key, arrivals: seq<Arrival>)
    requires AllTyped(arrivals) && Records(st, k, arrivals)
    ensures forall v: Verdict :: v in st.counts
    ensures st.received == st.counts[Accept] + st.counts[Dup] + st.counts[OutOfOrder]
                           + st.counts[Future] + st.counts[EpochReset]
    ensures |st.l2| == st.counts[Accept] + st.counts[EpochReset]
    ensures st.received + st.rejected == Sent(arrivals, k)
    ensures st.pastSecond <= st.pastFirst <= |st.l2|
  {
    VerdictsAddUp(RowsOf(arrivals), k);
    EverySampleIsCounted(arrivals, k);
    if SecondLimit(k).Some? { FewerAreAboveMore(st.l2, FirstLimit(k), SecondLimit(k).value); }
  }

  /** `b` is new after `a`: later, or from a clock that started over. */
  predicate Renews(a: Row, b: Row) {
    if b.verdict == Accept then b.ident > a.ident else a.ident - b.ident > EPOCH_BACK_MS
  }

  /** Unique frames only move forward, except into a new clock epoch, and none is from the future. */
  ghost predicate Renewing(u: seq<Row>) {
    && (u != [] ==> u[0].verdict == Accept)
    && (forall i :: 0 < i < |u| ==> Renews(u[i - 1], u[i]))
    && (forall i :: 0 <= i < |u| ==> u[i].Age() >= -FUTURE_TOL_MS)
  }

  lemma {:induction false} CountedRowRenews(rows: seq<Row>, a: Arrival)
    requires a.Frame? && a.WellTyped() && Renewing(Unique(rows, a.key))
    requires Counted(RowFor(rows, a).verdict)
    ensures Renewing(Unique(rows, a.key) + [RowFor(rows, a)])
  {
    hide Unique;
  }

  lemma {:induction false} UniqueFramesRenew(arrivals: seq<Arrival>, k: Key)
    requires AllTyped(arrivals)
    ensures Renewing(Unique(RowsOf(arrivals), k))
  {
    if arrivals != [] {
      hide Renewing, Unique, Errors;
      var before, a := arrivals[..|arrivals| - 1], arrivals[|arrivals| - 1];
      UniqueFramesRenew(before, k);
      assert before + [a] == arrivals;
      ArrivalAdded(before, a, k);
      if a.Frame? {
        var row := RowFor(RowsOf(before), a);
        RowAdded(RowsOf(before), row, k);
        if a.key == k && Counted(row.verdict) { CountedRowRenews(RowsOf(before), a); }
      }
    }
  }

  /** `a` is not accepted after `arrivals`: unreadable, repeated, late or from the future. */
  predicate Refused(arrivals: seq<Arrival>, a: Arrival)
    requires AllTyped(arrivals) && a.WellTyped()
  {
    a.Bad? || !Counted(RowFor(RowsOf(arrivals), a).verdict)
  }

  /** A refused frame leaves no trace in any later age, interval or open gap. */
  lemma {:induction false} RefusedFrameLeavesNoTrace(p: seq<Arrival>, a: Arrival, s: seq<Arrival>, k: Key)
    requires AllTyped(p) && a.WellTyped() && AllTyped(s) && Refused(p, a)
    ensures AllTyped(p + [a] + s) && AllTyped(p + s)
    ensures Unique(RowsOf(p + [a] + s), k) == Unique(RowsOf(p + s), k)
    decreases |s|
  {
    hide RowsOf, Unique, Errors, OfKey;
    if s == [] {
      assert p + [a] + s == p + [a] && p + s == p;
      ArrivalAdded(p, a, k);
      if a.Frame? { RowAdded(RowsOf(p), RowFor(RowsOf(p), a), k); }
    } else {
      var t, b := s[..|s| - 1], s[|s| - 1];
      RefusedFrameLeavesNoTrace(p, a, t, k);
      RefusedFrameLeavesNoTrace(p, a, t, b.key);
      assert p + [a] + s == p + [a] + t + [b] && p + s == p + t + [b];
      SameUniqueSameNext(p + [a] + t, p + t, b, k);
    }
  }

  lemma {:induction false} SameUniqueSameNext(x: seq<Arrival>, y: seq<Arrival>, b: Arrival, k: Key)
    requires AllTyped(x) && AllTyped(y) && b.WellTyped()
    requires Unique(RowsOf(x), k) == Unique(RowsOf(y), k)
    requires Unique(RowsOf(x), b.key) == Unique(RowsOf(y), b.key)
    ensures AllTyped(x + [b]) && AllTyped(y + [b]) && Unique(RowsOf(x + [b]), k) == Unique(RowsOf(y + [b]), k)
  {
    hide RowsOf, Unique, Errors, OfKey;
    ArrivalAdded(x, b, k);
    ArrivalAdded(y, b, k);
    if b.Frame? {
      RowAdded(RowsOf(x), RowFor(RowsOf(x), b), k);
      RowAdded(RowsOf(y), RowFor(RowsOf(y), b), k);
    }
  }

  // -- intervals telescope -----------------------------------------------------------------

  function Sum(xs: seq<int>): int {
    if xs == [] then 0 else Sum(xs[..|xs| - 1]) + xs[|xs| - 1]
  }

  /** The stamps cut in front of every restart. */
  function Epochs(stamps: seq<Stamp>): (e: seq<seq<int>>)
    ensures forall i :: 0 <= i < |e| ==> e[i] != []
    ensures stamps != [] <==> e != []
  {
    if stamps == [] then []
    else
      var e, x := Epochs(stamps[..|stamps| - 1]), stamps[|stamps| - 1];
      if e == [] || x.restart then e + [[x.at]] else e[..|e| - 1] + [e[|e| - 1] + [x.at]]
  }

  lemma {:induction false} LastEpochEndsLast(stamps: seq<Stamp>)
    requires stamps != []
    ensures var last := Epochs(stamps)[|Epochs(stamps)| - 1]; last[|last| - 1] == stamps[|stamps| - 1].at
  {
  }

  function Concat(parts: seq<seq<int>>): seq<int> {
    if parts == [] then [] else Concat(parts[..|parts| - 1]) + parts[|parts| - 1]
  }

  /** From the first to the last stamp of each epoch, added up. */
  function Covered(parts: seq<seq<int>>): int
    requires forall i :: 0 <= i < |parts| ==> parts[i] != []
  {
    if parts == [] then 0
    else
      var last := parts[|parts| - 1];
      Covered(parts[..|parts| - 1]) + (last[|last| - 1] - last[0])
  }

  function Times(stamps: seq<Stamp>): seq<int> {
    if stamps == [] then [] else Times(stamps[..|stamps| - 1]) + [stamps[|stamps| - 1].at]
  }

  lemma {:induction false} EpochAdded(parts: seq<seq<int>>, last: seq<int>)
    requires last != [] && forall i :: 0 <= i < |parts| ==> parts[i] != []
    ensures Concat(parts + [last]) == Concat(parts) + last
    ensures Covered(parts + [last]) == Covered(parts) + (last[|last| - 1] - last[0])
  {
  }

  lemma {:induction false} EpochExtended(parts: seq<seq<int>>, x: int)
    requires parts != [] && forall i :: 0 <= i < |parts| ==> parts[i] != []
    ensures var n := |parts| - 1;
            var last := parts[n];
            var longer := parts[..n] + [last + [x]];
            && Concat(longer) == Concat(parts) + [x]
            && Covered(longer) == Covered(parts) + (x - last[|last| - 1])
  {
  }

  lemma {:induction false} StampExtends(stamps: seq<Stamp>, x: Stamp)
    ensures Times(stamps + [x]) == Times(stamps) + [x.at]
    ensures var e, n := Epochs(stamps), |Epochs(stamps)| - 1;
            Epochs(stamps + [x]) == if stamps == [] || x.restart then e + [[x.at]] else e[..n] + [e[n] + [x.at]]
  {
  }

  lemma {:induction false} SumSnoc(xs: seq<int>, x: int)
    ensures Sum(xs + [x]) == Sum(xs) + x
  {
  }

  /** The epochs are the stamps in order, and an epoch has one interval less than stamps. */
  lemma {:induction false} EpochsPartition(stamps: seq<Stamp>)
    ensures Concat(Epochs(stamps)) == Times(stamps)
    ensures |Intervals(stamps)| + |Epochs(stamps)| == |stamps|
  {
    if stamps != [] {
      hide Intervals, Concat, Covered, Epochs, Times;
      var front, x := stamps[..|stamps| - 1], stamps[|stamps| - 1];
      EpochsPartition(front);
      assert front + [x] == stamps;
      IntervalsSnoc(front, x);
      StampExtends(front, x);
      if front == [] || x.restart {
        EpochAdded(Epochs(front), [x.at]);
      } else {
        EpochExtended(Epochs(front), x.at);
      }
    }
  }

  /** The differences inside one epoch. */
  function Steps(times: seq<int>): seq<int> {
    var n := |times|;
    if n <= 1 then [] else Steps(times[..n - 1]) + [times[n - 1] - times[n - 2]]
  }

  function StepsOf(parts: seq<seq<int>>): (s: seq<seq<int>>)
    ensures |s| == |parts| && forall i :: 0 <= i < |parts| ==> s[i] == Steps(parts[i])
  {
    seq(|parts|, i requires 0 <= i < |parts| => Steps(parts[i]))
  }

  /** One epoch's differences are one less than its stamps and add up to the time from the first to the last. */
  lemma {:induction false} EpochTelescopes(times: seq<int>)
    requires times != []
    ensures |Steps(times)| == |times| - 1 && Sum(Steps(times)) == times[|times| - 1] - times[0]
  {
    var n := |times|;
    if n > 1 {
      EpochTelescopes(times[..n - 1]);
      SumSnoc(Steps(times[..n - 1]), times[n - 1] - times[n - 2]);
    }
  }

  lemma {:induction false} StepsSnoc(times: seq<int>, x: int)
    requires times != []
    ensures Steps(times + [x]) == Steps(times) + [x - times[|times| - 1]]
  {
    assert (times + [x])[..|times + [x]| - 1] == times;
  }

  lemma {:induction false} ConcatSnoc(parts: seq<seq<int>>, last: seq<int>)
    ensures Concat(parts + [last]) == Concat(parts) + last
  {
    assert (parts + [last])[..|parts + [last]| - 1] == parts;
  }

  lemma {:induction false} NewEpochHasNoSteps(e: seq<seq<int>>, x: int)
    ensures Concat(StepsOf(e + [[x]])) == Concat(StepsOf(e))
  {
    hide Concat;
    assert StepsOf(e + [[x]]) == StepsOf(e) + [[]];
    ConcatSnoc(StepsOf(e), []);
    assert Concat(StepsOf(e)) + [] == Concat(StepsOf(e));
  }

  lemma {:induction false} EpochStepsGrow(e: seq<seq<int>>, x: int)
    requires e != [] && e[|e| - 1] != []
    ensures var n := |e| - 1;
            Concat(StepsOf(e[..n] + [e[n] + [x]])) == Concat(StepsOf(e)) + [x - e[n][|e[n]| - 1]]
  {
    hide Concat, Steps;
    var n := |e| - 1;
    var step := x - e[n][|e[n]| - 1];
    StepsSnoc(e[n], x);
    assert StepsOf(e) == StepsOf(e[..n]) + [Steps(e[n])];
    assert StepsOf(e[..n] + [e[n] + [x]]) == StepsOf(e[..n]) + [Steps(e[n]) + [step]];
    ConcatSnoc(StepsOf(e[..n]), Steps(e[n]));
    ConcatSnoc(StepsOf(e[..n]), Steps(e[n]) + [step]);
    assert Concat(StepsOf(e[..n])) + (Steps(e[n]) + [step]) == Concat(StepsOf(e[..n])) + Steps(e[n]) + [step];
  }

  lemma {:induction false} StepIsEpochStep(stamps: seq<Stamp>, x: Stamp)
    requires Intervals(stamps) == Concat(StepsOf(Epochs(stamps))) && stamps != [] && !x.restart
    ensures Intervals(stamps + [x]) == Concat(StepsOf(Epochs(stamps + [x])))
  {
    hide Intervals, Concat, Epochs, StepsOf;
    IntervalsSnoc(stamps, x);
    StampExtends(stamps, x);
    LastEpochEndsLast(stamps);
    EpochStepsGrow(Epochs(stamps), x.at);
  }

  lemma {:induction false} RestartIsNoStep(stamps: seq<Stamp>, x: Stamp)
    requires Intervals(stamps) == Concat(StepsOf(Epochs(stamps))) && (stamps == [] || x.restart)
    ensures Intervals(stamps + [x]) == Concat(StepsOf(Epochs(stamps + [x])))
  {
    hide Intervals, Concat, Epochs, StepsOf;
    IntervalsSnoc(stamps, x);
    StampExtends(stamps, x);
    NewEpochHasNoSteps(Epochs(stamps), x.at);
  }

  /** The intervals are the differences inside each epoch, epoch after epoch: none across a restart. */
  lemma {:induction false} IntervalsAreEpochSteps(stamps: seq<Stamp>)
    ensures Intervals(stamps) == Concat(StepsOf(Epochs(stamps)))
  {
    if stamps != [] {
      hide Intervals, Concat, Epochs, StepsOf;
      var front, x := stamps[..|stamps| - 1], stamps[|stamps| - 1];
      IntervalsAreEpochSteps(front);
      assert front + [x] == stamps;
      if front == [] || x.restart { RestartIsNoStep(front, x); } else { StepIsEpochStep(front, x); }
    } else {
      assert Epochs(stamps) == [] && StepsOf([]) == [];
    }
  }

  /** A stamp that does not restart adds to both sides the step from the stamp before it. */
  lemma {:induction false} StepTelescopes(stamps: seq<Stamp>, x: Stamp)
    requires stamps != [] && !x.restart
    ensures Sum(Intervals(stamps + [x])) - Sum(Intervals(stamps)) == x.at - stamps[|stamps| - 1].at
    ensures Covered(Epochs(stamps + [x])) - Covered(Epochs(stamps)) == x.at - stamps[|stamps| - 1].at
  {
    hide Intervals, Concat, Covered, Sum, Epochs, Times;
    IntervalsSnoc(stamps, x);
    SumSnoc(Intervals(stamps), x.at - stamps[|stamps| - 1].at);
    StampExtends(stamps, x);
    LastEpochEndsLast(stamps);
    EpochExtended(Epochs(stamps), x.at);
  }

  /** A restart adds to neither. */
  lemma {:induction false} RestartTelescopes(stamps: seq<Stamp>, x: Stamp)
    requires stamps == [] || x.restart
    ensures Sum(Intervals(stamps + [x])) == Sum(Intervals(stamps))
    ensures Covered(Epochs(stamps + [x])) == Covered(Epochs(stamps))
  {
  }

  /** The intervals add up to the time the epochs cover. */
  lemma {:induction false} IntervalsTelescope(stamps: seq<Stamp>)
    ensures Sum(Intervals(stamps)) == Covered(Epochs(stamps))
  {
    if stamps != [] {
      hide Intervals, Covered, Sum, Epochs;
      var front, x := stamps[..|stamps| - 1], stamps[|stamps| - 1];
      IntervalsTelescope(front);
      assert front + [x] == stamps;
      if front == [] || x.restart { RestartTelescopes(front, x); } else { StepTelescopes(front, x); }
    }
  }

  // -- what a tier-1 pass means -----------------------------------------------------------------

  predicate Dense(times: seq<int>, limit: int) {
    forall i :: 0 < i < |times| ==> times[i] - times[i - 1] <= limit
  }

  predicate AllDense(parts: seq<seq<int>>, limit: int) {
    forall j :: 0 <= j < |parts| ==> Dense(parts[j], limit)
  }

  lemma {:induction false} EpochStaysDense(parts: seq<seq<int>>, x: int, limit: int)
    requires parts != [] && AllDense(parts, limit)
    requires var last := parts[|parts| - 1]; last != [] && x - last[|last| - 1] <= limit
    ensures AllDense(parts[..|parts| - 1] + [parts[|parts| - 1] + [x]], limit)
  {
    var last := parts[|parts| - 1];
    assert Dense(last + [x], limit);
  }

  lemma {:induction false} NewEpochIsDense(parts: seq<seq<int>>, x: int, limit: int)
    requires AllDense(parts, limit)
    ensures AllDense(parts + [[x]], limit)
  {
    assert Dense([x], limit);
  }

  lemma {:induction false} ShorterStays(xs: seq<int>, more: seq<int>, limit: int)
    requires forall i :: 0 <= i < |xs + more| ==> (xs + more)[i] <= limit
    ensures forall i :: 0 <= i < |xs| ==> xs[i] <= limit
    ensures forall i :: 0 <= i < |more| ==> more[i] <= limit
  {
    assert forall i :: 0 <= i < |xs| ==> (xs + more)[i] == xs[i];
    assert forall i :: 0 <= i < |more| ==> (xs + more)[|xs| + i] == more[i];
  }

  lemma {:induction false} ShortIntervalsAreDense(stamps: seq<Stamp>, limit: int)
    requires forall i :: 0 <= i < |Intervals(stamps)| ==> Intervals(stamps)[i] <= limit
    ensures AllDense(Epochs(stamps), limit)
  {
    if stamps != [] {
      hide Intervals, Epochs, AllDense;
      var front, x := stamps[..|stamps| - 1], stamps[|stamps| - 1];
      assert front + [x] == stamps;
      IntervalsSnoc(front, x);
      StampExtends(front, x);
      if front == [] || x.restart {
        ShortIntervalsAreDense(front, limit);
        NewEpochIsDense(Epochs(front), x.at, limit);
      } else {
        var step := x.at - front[|front| - 1].at;
        ShorterStays(Intervals(front), [step], limit);
        assert [step][0] <= limit;
        ShortIntervalsAreDense(front, limit);
        LastEpochEndsLast(front);
        EpochStaysDense(Epochs(front), x.at, limit);
      }
    }
  }

  /** After a tier-1 pass there is no instant of the current clock epoch, from its first stamp to the end of
      the window, without a unique result published in the tier-1 limit before it. */
  lemma {:induction false} Tier1MeansNoBlackout(stamps: seq<Stamp>, now: int, t: int) returns (i: nat)
    requires NeverLate(Intervals(stamps), LastStamp(stamps), now, TIER1_MAX_MS)
    requires var e := Epochs(stamps); e[|e| - 1][0] <= t <= now
    ensures var e := Epochs(stamps); var last := e[|e| - 1];
            i < |last| && last[i] <= t <= last[i] + TIER1_MAX_MS
  {
    ShortIntervalsAreDense(stamps, TIER1_MAX_MS);
    LastEpochEndsLast(stamps);
    var e := Epochs(stamps);
    var last := e[|e| - 1];
    assert Dense(last, TIER1_MAX_MS);
    i := 0;
    while i + 1 < |last| && last[i + 1] <= t
      invariant i < |last| && last[i] <= t
    {
      i := i + 1;
    }
  }
}
