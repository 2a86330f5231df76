/** The mutation runner of scripts/ci/cxx_mutants.py: it edits source files in place, and a
    signal may arrive at any step. */
module MutationRunner {
  import opened Basics
  import opened PyText

  type Tree = map<string, string>

  datatype Claim = ToBeKilled | Equivalent

  datatype Mutant = Mutant(path: string, anchor: string, mutation: string, claim: Claim)

  /** What build_and_run reports: did everything compile, did every test pass. */
  datatype Outcome = Outcome(compiled: bool, passed: bool)

  datatype Backup = Backup(path: string, text: string)

  datatype Tally = Tally(killed: nat, survived: seq<Mutant>, broken: seq<Mutant>)

  datatype SuiteResult = Skipped | BaselineRed | Finished(tally: Tally) | Raised

  /** A suite: its mutants, and whether its dependencies are missing. */
  datatype Suite = Suite(mutants: seq<Mutant>, unavailable: bool)

  // -- what a run should do -------------------------------------------------------------

  function Usable(original: Tree, m: Mutant): bool {
    m.path in original && Count(original[m.path], m.anchor) == 1
  }

  function Mutated(original: Tree, m: Mutant): Tree
    requires m.path in original
  {
    original[m.path := Replace(original[m.path], m.anchor, m.mutation)]
  }

  /** The trees the builds of these mutants see, in order. */
  function MutantBuilds(original: Tree, mutants: seq<Mutant>): seq<Tree> {
    if mutants == [] then []
    else
      var m := mutants[|mutants| - 1];
      MutantBuilds(original, mutants[..|mutants| - 1]) + if Usable(original, m) then [Mutated(original, m)] else []
  }

  /** Where one built mutant is counted. */
  function Counted(t: Tally, m: Mutant, o: Outcome): Tally {
    if !o.compiled then t.(broken := t.broken + [m])
    else if o.passed then
      if m.claim.Equivalent? then t.(killed := t.killed + 1) else t.(survived := t.survived + [m])
    else if m.claim.Equivalent? then t.(broken := t.broken + [m])
    else t.(killed := t.killed + 1)
  }

  /** The tally after these mutants, the builds being numbered from `first`; a build may raise. */
  function TallyOf(original: Tree, mutants: seq<Mutant>, first: nat,
                   build: (nat, Tree) -> Option<Outcome>): Tally
  {
    if mutants == [] then Tally(0, [], [])
    else
      var m, front := mutants[|mutants| - 1], mutants[..|mutants| - 1];
      var t := TallyOf(original, front, first, build);
      if !Usable(original, m) then t.(broken := t.broken + [m])
      else
        var o := build(first + |MutantBuilds(original, front)|, Mutated(original, m));
        if o.None? then t else Counted(t, m, o.value)
  }

  /** No build of these mutants raises. */
  predicate BuildsReturn(original: Tree, mutants: seq<Mutant>, first: nat, build: (nat, Tree) -> Option<Outcome>) {
    if mutants == [] then true
    else
      var m, front := mutants[|mutants| - 1], mutants[..|mutants| - 1];
      BuildsReturn(original, front, first, build)
      && (Usable(original, m) ==> build(first + |MutantBuilds(original, front)|, Mutated(original, m)).Some?)
  }

  /** Every mutant is counted exactly once: killed, survived or broken. */
  lemma {:induction false} TallyAddsUp(original: Tree, mutants: seq<Mutant>, first: nat,
                                       build: (nat, Tree) -> Option<Outcome>)
    requires BuildsReturn(original, mutants, first, build)
    ensures var t := TallyOf(original, mutants, first, build);
            t.killed + |t.survived| + |t.broken| == |mutants|
  {
    if mutants != [] { TallyAddsUp(original, mutants[..|mutants| - 1], first, build); }
  }

  /** What the build of mutant `i` reported, if it was built. */
  function Reported(original: Tree, mutants: seq<Mutant>, first: nat, build: (nat, Tree) -> Option<Outcome>,
                    i: nat): Option<Outcome>
    requires i < |mutants|
  {
    if !Usable(original, mutants[i]) then None
    else build(first + |MutantBuilds(original, mutants[..i])|, Mutated(original, mutants[i]))
  }

  /** It compiled and behaved as its table says: caught, or passing where nothing can catch it. */
  predicate AsDeclared(m: Mutant, o: Option<Outcome>) {
    o.Some? && o.value.compiled && (o.value.passed <==> m.claim.Equivalent?)
  }

  /** It compiled and nothing caught it, though something should have. */
  predicate Escaped(m: Mutant, o: Option<Outcome>) {
    o.Some? && o.value.compiled && o.value.passed && m.claim.ToBeKilled?
  }

  /** Mutant `i` of the suite is `m`, and it escaped. */
  predicate EscapedAt(original: Tree, mutants: seq<Mutant>, first: nat, build: (nat, Tree) -> Option<Outcome>,
                      m: Mutant, i: int)
  {
    0 <= i < |mutants| && mutants[i] == m && Escaped(m, Reported(original, mutants, first, build, i))
  }

  /** It is `m`, and it neither escaped nor behaved as declared. */
  predicate UnfitAt(original: Tree, mutants: seq<Mutant>, first: nat, build: (nat, Tree) -> Option<Outcome>,
                    m: Mutant, i: int)
  {
    0 <= i < |mutants| && mutants[i] == m
    && var o := Reported(original, mutants, first, build, i); !AsDeclared(m, o) && !Escaped(m, o)
  }

  lemma {:induction false} ReportedInFront(original: Tree, mutants: seq<Mutant>, first: nat,
                                           build: (nat, Tree) -> Option<Outcome>, i: nat)
    requires i < |mutants| - 1
    ensures Reported(original, mutants[..|mutants| - 1], first, build, i)
         == Reported(original, mutants, first, build, i)
  {
    assert mutants[..|mutants| - 1][..i] == mutants[..i];
  }

  /** Leaving the last mutant off changes nothing for the others. */
  lemma {:induction false} AtInFront(original: Tree, mutants: seq<Mutant>, first: nat,
                                     build: (nat, Tree) -> Option<Outcome>, m: Mutant, i: int)
    requires mutants != []
    ensures var n := |mutants| - 1;
            && (EscapedAt(original, mutants, first, build, m, i)
                <==> EscapedAt(original, mutants[..n], first, build, m, i)
                     || (i == n && EscapedAt(original, mutants, first, build, m, n)))
            && (UnfitAt(original, mutants, first, build, m, i)
                <==> UnfitAt(original, mutants[..n], first, build, m, i)
                     || (i == n && UnfitAt(original, mutants, first, build, m, n)))
  {
    hide Usable, Mutated, MutantBuilds, Reported, AsDeclared, Escaped;
    if 0 <= i < |mutants| - 1 { ReportedInFront(original, mutants, first, build, i); }
  }

  /** The lists hold exactly the mutants that deserve it: survived those that compiled and passed against
      their claim, broken those with no single anchor, no compiling build or a kill that was declared
      impossible. */
  lemma {:induction false} TallyIsFair(original: Tree, mutants: seq<Mutant>, first: nat,
                                       build: (nat, Tree) -> Option<Outcome>, m: Mutant)
    requires BuildsReturn(original, mutants, first, build)
    ensures var t := TallyOf(original, mutants, first, build);
            && (m in t.survived <==> exists i :: EscapedAt(original, mutants, first, build, m, i))
            && (m in t.broken <==> exists i :: UnfitAt(original, mutants, first, build, m, i))
  {
    if mutants != [] {
      hide Usable, Mutated, MutantBuilds, TallyOf, EscapedAt, UnfitAt;
      var n := |mutants| - 1;
      var front := mutants[..n];
      TallyIsFair(original, front, first, build, m);
      forall i: int
        ensures EscapedAt(original, mutants, first, build, m, i)
                <==> EscapedAt(original, front, first, build, m, i)
                     || (i == n && EscapedAt(original, mutants, first, build, m, n))
        ensures UnfitAt(original, mutants, first, build, m, i)
                <==> UnfitAt(original, front, first, build, m, i)
                     || (i == n && UnfitAt(original, mutants, first, build, m, n))
      {
        AtInFront(original, mutants, first, build, m, i);
      }
      LastIsFair(original, mutants, first, build, m);
    }
  }

  lemma {:induction false} LastIsFair(original: Tree, mutants: seq<Mutant>, first: nat,
                                      build: (nat, Tree) -> Option<Outcome>, m: Mutant)
    requires mutants != [] && BuildsReturn(original, mutants, first, build)
    ensures var n := |mutants| - 1;
            var before, t := TallyOf(original, mutants[..n], first, build), TallyOf(original, mutants, first, build);
            && (m in t.survived <==> m in before.survived || EscapedAt(original, mutants, first, build, m, n))
            && (m in t.broken <==> m in before.broken || UnfitAt(original, mutants, first, build, m, n))
  {
    hide Usable, Mutated, MutantBuilds;
  }

  /** `seen` is the original tree with this mutant's fragment exchanged, once, in its file. */
  ghost predicate ByMutant(original: Tree, m: Mutant, seen: Tree) {
    m.path in original && m.path in seen && seen == original[m.path := seen[m.path]]
    && OneReplaced(original[m.path], m.anchor, m.mutation, seen[m.path])
  }

  lemma MutatedIsByMutant(original: Tree, m: Mutant)
    requires Usable(original, m)
    ensures ByMutant(original, m, Mutated(original, m))
  {
    hide Replace, Count, OneReplaced;
    CountedOnceIsReplacedOnce(original[m.path], m.anchor, m.mutation);
  }

  /** Every mutant build sees the original tree with exactly one fragment of one file exchanged. */
  lemma {:induction false} BuildsSeeOneFragment(original: Tree, mutants: seq<Mutant>, k: nat) returns (m: Mutant)
    requires k < |MutantBuilds(original, mutants)|
    ensures m in mutants && Usable(original, m) && ByMutant(original, m, MutantBuilds(original, mutants)[k])
  {
    hide ByMutant, Usable, Mutated;
    var front := mutants[..|mutants| - 1];
    m := mutants[|mutants| - 1];
    if k < |MutantBuilds(original, front)| {
      m := BuildsSeeOneFragment(original, front, k);
    } else {
      MutatedIsByMutant(original, m);
    }
  }

  lemma {:induction false} BuildsOfPrefix(original: Tree, mutants: seq<Mutant>, i: nat)
    requires i <= |mutants|
    ensures MutantBuilds(original, mutants[..i]) <= MutantBuilds(original, mutants)
  {
    if i < |mutants| {
      var front := mutants[..|mutants| - 1];
      assert front[..i] == mutants[..i];
      BuildsOfPrefix(original, front, i);
    } else {
      assert mutants[..i] == mutants;
    }
  }

  lemma MutantStep(original: Tree, mutants: seq<Mutant>, i: nat, first: nat, build: (nat, Tree) -> Option<Outcome>)
    requires i < |mutants|
    ensures var m, front := mutants[i], mutants[..i];
            var next := first + |MutantBuilds(original, front)|;
            && MutantBuilds(original, mutants[..i + 1]) ==
                 MutantBuilds(original, front) + (if Usable(original, m) then [Mutated(original, m)] else [])
            && (!Usable(original, m) ==>
                  TallyOf(original, mutants[..i + 1], first, build) ==
                    var t := TallyOf(original, front, first, build); t.(broken := t.broken + [m]))
            && (Usable(original, m) && build(next, Mutated(original, m)).Some? ==>
                  TallyOf(original, mutants[..i + 1], first, build) ==
                    Counted(TallyOf(original, front, first, build), m, build(next, Mutated(original, m)).value))
            && (BuildsReturn(original, mutants[..i + 1], first, build) <==>
                  BuildsReturn(original, front, first, build)
                  && (Usable(original, m) ==> build(next, Mutated(original, m)).Some?))
  {
    assert mutants[..i + 1][..i] == mutants[..i];
  }

  /** A build that raises among the first mutants raises among all. */
  lemma {:induction false} PrefixReturns(original: Tree, mutants: seq<Mutant>, i: nat, first: nat,
                                         build: (nat, Tree) -> Option<Outcome>)
    requires i <= |mutants| && !BuildsReturn(original, mutants[..i], first, build)
    ensures !BuildsReturn(original, mutants, first, build)
  {
    if i == |mutants| {
      assert mutants[..i] == mutants;
    } else {
      var front := mutants[..|mutants| - 1];
      assert front[..i] == mutants[..i];
      PrefixReturns(original, front, i, first, build);
    }
  }

  lemma NoMutants(original: Tree, first: nat, build: (nat, Tree) -> Option<Outcome>)
    ensures MutantBuilds(original, []) == [] && TallyOf(original, [], first, build) == Tally(0, [], [])
    ensures BuildsReturn(original, [], first, build)
  {
  }

  // -- the runner -----------------------------------------------------------------------

  predicate Holds(backups: seq<Backup>, original: Tree) {
    forall i :: 0 <= i < |backups| ==>
      backups[i].path in original && original[backups[i].path] == backups[i].text
  }

  predicate BacksUp(backups: seq<Backup>, path: string) {
    exists i :: 0 <= i < |backups| && backups[i].path == path
  }

  lemma ListedIsBackedUp(backups: seq<Backup>, i: nat)
    requires i < |backups|
    ensures BacksUp(backups, backups[i].path)
  {
  }

  lemma BackedUpIsListed(backups: seq<Backup>)
    ensures forall p :: BacksUp(backups, p) ==> exists i :: 0 <= i < |backups| && backups[i].path == p
  {
  }

  /** `now` differs from `original` at most in the files these backups cover. */
  predicate CoveredBy(now: Tree, original: Tree, backups: seq<Backup>) {
    now.Keys == original.Keys && forall p :: p in original && now[p] != original[p] ==> BacksUp(backups, p)
  }

  class Runner {
    var tree: Tree                       // the working tree
    var garbled: set<string>             // files cut off inside a character: reading them raises
    var clock: nat                       // steps taken
    var hooks: seq<seq<Backup>>          // restores registered with atexit
    var builds: seq<Tree>                // what each build saw
    const signal: nat -> bool            // does a signal arrive at this step?
    const flushed: nat -> nat            // how many characters of a write are on the disk by then
    const cut: nat -> bool               // and is there part of the next one?
    const build: (nat, Tree) -> Option<Outcome>

    constructor (tree: Tree, signal: nat -> bool, flushed: nat -> nat, cut: nat -> bool,
                 build: (nat, Tree) -> Option<Outcome>)
      ensures this.tree == tree && garbled == {} && clock == 0 && hooks == [] && builds == []
      ensures this.signal == signal && this.flushed == flushed && this.cut == cut && this.build == build
    {
      this.tree, this.garbled, this.clock, this.hooks, this.builds := tree, {}, 0, [], [];
      this.signal, this.flushed, this.cut, this.build := signal, flushed, cut, build;
    }

    /** One step passes; a signal that arrives raises. */
    method Pass() returns (raised: bool)
      modifies this`clock
      ensures clock == old(clock) + 1 && raised == signal(old(clock))
    {
      raised := signal(clock);
      clock := clock + 1;
    }

    /** What is on the disk of `text` at this step, while it is being written. */
    function Torn(text: string, step: nat): string {
      if flushed(step) <= |text| then text[..flushed(step)] else text
    }

    /** Is a write of `text` cut off at this step inside a character of more than one byte? */
    predicate Splits(text: string, step: nat) {
      cut(step) && flushed(step) < |text| && text[flushed(step)] as int >= 128
    }

    /** A signal has arrived between these two steps while a write may have been cut that way. */
    ghost predicate CutOff(from: nat, to: nat) {
      exists n :: from <= n < to && signal(n) && cut(n)
    }

    /** A signal has arrived between these two steps. */
    ghost predicate Interrupted(from: nat, to: nat) {
      exists n :: from <= n < to && signal(n)
    }

    lemma InterruptedWithin(a: nat, b: nat, from: nat, to: nat)
      requires Interrupted(a, b) && from <= a && b <= to
      ensures Interrupted(from, to)
    {
    }

    /** Two have. */
    ghost predicate InterruptedTwice(from: nat, to: nat) {
      exists a, b :: from <= a < b < to && signal(a) && signal(b)
    }

    /** A signal tears the write of the first of these mutants, tried from this step on, */
    predicate TearsFirst(now: Tree, mutants: seq<Mutant>, at: nat) {
      mutants != [] && Usable(now, mutants[0]) && !signal(at) && signal(at + 1)
    }

    /** and this is the tree it leaves. */
    function FirstTorn(now: Tree, mutants: seq<Mutant>, at: nat): Tree
      requires mutants != [] && mutants[0].path in now
    {
      now[mutants[0].path := Torn(Mutated(now, mutants[0])[mutants[0].path], at + 1)]
    }

    /** And it may end inside a character. */
    predicate SplitsFirst(now: Tree, mutants: seq<Mutant>, at: nat)
      requires mutants != [] && mutants[0].path in now
    {
      Splits(Mutated(now, mutants[0])[mutants[0].path], at + 1)
    }

    lemma Widened(from: nat, at: nat, end: nat, to: nat)
      requires from <= at && end <= to
      ensures CutOff(at, end) ==> CutOff(from, to)
      ensures InterruptedTwice(at, end) ==> InterruptedTwice(from, to)
    {
    }

    /** open(path, "w") and write: truncated first, and torn if a signal arrives in between. */
    method Write(path: string, text: string) returns (raised: bool)
      requires path in tree
      modifies this`tree, this`garbled, this`clock
      ensures garbled == if signal(old(clock)) then old(garbled)
                         else if raised && Splits(text, old(clock) + 1) then old(garbled) + {path}
                         else old(garbled) - {path}
      ensures raised == (signal(old(clock)) || signal(old(clock) + 1))
      ensures clock == old(clock) + if signal(old(clock)) then 1 else 2
      ensures tree == if signal(old(clock)) then old(tree)
                      else old(tree)[path := if raised then Torn(text, old(clock) + 1) else text]
    {
      raised := Pass();
      if raised { return; }
      tree := tree[path := Torn(text, clock)];
      garbled := if Splits(text, clock) then garbled + {path} else garbled - {path};
      raised := Pass();
      if raised { return; }
      tree := tree[path := text];
      garbled := garbled - {path};
    }

    method Build() returns (o: Option<Outcome>)
      modifies this`builds, this`clock
      ensures builds == old(builds) + [tree] && clock == old(clock) + 1
      ensures o == if signal(old(clock)) then None else build(|old(builds)|, tree)
    {
      o := build(|builds|, tree);
      builds := builds + [tree];
      var raised := Pass();
      if raised { o := None; }
    }

    /** restore(): read every backed-up file and rewrite it if it differs. */
    method Restore(backups: seq<Backup>, ghost original: Tree) returns (raised: bool)
      requires Holds(backups, original) && tree.Keys == original.Keys
      modifies this`tree, this`garbled, this`clock
      ensures tree.Keys == original.Keys
      ensures forall p :: p in tree && !BacksUp(backups, p) ==> tree[p] == old(tree)[p]
      ensures !raised ==> forall p :: p in tree && BacksUp(backups, p) ==> tree[p] == original[p]
      ensures old(tree) == original ==> tree == original
      ensures clock >= old(clock) && (raised ==> Interrupted(old(clock), clock) || old(garbled) != {})
      ensures Interrupted(old(clock), clock) ==> raised
      ensures old(garbled) <= garbled && (garbled != old(garbled) ==> raised && CutOff(old(clock), clock))
      ensures backups != [] && signal(old(clock)) ==> raised && tree == old(tree) && clock == old(clock) + 1
    {
      hide BacksUp, Torn;
      raised := false;
      for i := 0 to |backups|
        invariant tree.Keys == original.Keys && !raised && clock >= old(clock) + i
        invariant forall p :: p in tree && !BacksUp(backups, p) ==> tree[p] == old(tree)[p]
        invariant forall j :: 0 <= j < i ==> tree[backups[j].path] == original[backups[j].path]
        invariant old(tree) == original ==> tree == original
        invariant garbled == old(garbled)
        invariant i == 0 ==> tree == old(tree) && clock == old(clock)
        invariant !Interrupted(old(clock), clock)
      {
        var b := backups[i];
        ListedIsBackedUp(backups, i);
        raised := Pass();
        if raised { return; }
        if b.path in garbled { return true; }
        if tree[b.path] == b.text {
          continue;
        }
        raised := Write(b.path, b.text);
        if raised { return; }
      }
      BackedUpIsListed(backups);
    }

    /** Read every file a mutant may touch, before anything is written. */
    method Backups(mutants: seq<Mutant>) returns (backups: seq<Backup>, raised: bool)
      modifies this`clock
      ensures clock >= old(clock)
      ensures !raised ==> Holds(backups, tree)
      ensures !raised ==> forall i, j :: 0 <= i < j < |backups| ==> backups[i].path != backups[j].path
      ensures !raised ==> forall i :: 0 <= i < |mutants| ==> BacksUp(backups, mutants[i].path)
      ensures !raised ==> clock == old(clock) + |mutants|
      ensures clock <= old(clock) + |mutants|
      ensures raised ==> Interrupted(old(clock), clock) || exists m :: m in mutants && m.path !in tree
      ensures Interrupted(old(clock), clock) ==> raised
    {
      backups, raised := [], false;
      for i := 0 to |mutants|
        invariant Holds(backups, tree) && clock == old(clock) + i && !Interrupted(old(clock), clock)
        invariant forall k, j :: 0 <= k < j < |backups| ==> backups[k].path != backups[j].path
        invariant forall j :: 0 <= j < i ==> BacksUp(backups, mutants[j].path)
      {
        var path := mutants[i].path;
        raised := Pass();
        if raised {
          assert signal(old(clock) + i);
          return;
        }
        if path !in tree { return backups, true; }
        ghost var before := backups;
        if forall k :: 0 <= k < |backups| ==> backups[k].path != path {
          backups := backups + [Backup(path, tree[path])];
          assert backups[|before|].path == path;
        }
        forall j | 0 <= j < i ensures BacksUp(backups, mutants[j].path) {
          var k :| 0 <= k < |before| && before[k].path == mutants[j].path;
          assert backups[k] == before[k];
        }
      }
    }

    /** What a suite that did not raise reports, its builds being numbered from `first`: skipped where something is
        missing, red exactly for a baseline that does not build and pass, and otherwise the tally. */
    ghost predicate Reports(original: Tree, suite: Suite, first: nat, r: SuiteResult) {
      var baseline := build(first, original);
      match r
      case Skipped => suite.unavailable
      case BaselineRed => !suite.unavailable && baseline.Some? && !(baseline.value.compiled && baseline.value.passed)
      case Finished(tally) =>
        && !suite.unavailable && baseline == Some(Outcome(true, true))
        && tally == TallyOf(original, suite.mutants, first + 1, build)
        && BuildsReturn(original, suite.mutants, first + 1, build)
      case Raised => true
    }

    /** Something to raise for: a signal, a missing file, or a build that raises. */
    ghost predicate Excusable(original: Tree, suite: Suite, first: nat, from: nat, to: nat) {
      || Interrupted(from, to) || (exists m :: m in suite.mutants && m.path !in original)
      || BuildRaises(original, suite, first)
    }

    ghost predicate BuildRaises(original: Tree, suite: Suite, first: nat) {
      build(first, original).None? || !BuildsReturn(original, suite.mutants, first + 1, build)
    }

    /** Write one mutant, build, and write the original back (the inner finally); None if anything raises. */
    method TryMutant(m: Mutant) returns (o: Option<Outcome>)
      requires Usable(tree, m) && garbled == {}
      modifies this`tree, this`garbled, this`clock, this`builds
      ensures clock >= old(clock) && tree.Keys == old(tree.Keys)
      ensures forall p :: p in tree && p != m.path ==> tree[p] == old(tree)[p]
      ensures builds == old(builds) || builds == old(builds) + [Mutated(old(tree), m)]
      ensures o.Some? ==> tree == old(tree) && builds == old(builds) + [Mutated(old(tree), m)]
      ensures o.Some? ==> o == build(|old(builds)|, Mutated(old(tree), m))
      ensures Interrupted(old(clock), clock) ==> o.None?
      ensures o.None? ==> Interrupted(old(clock), clock) || build(|old(builds)|, Mutated(old(tree), m)).None?
      ensures tree != old(tree) || garbled != {} ==> Interrupted(old(clock), clock)
      ensures garbled != {} ==> o.None? && CutOff(old(clock), clock)
      ensures TearsFirst(old(tree), [m], old(clock))
              ==> && o.None? && clock == old(clock) + 2 && tree == FirstTorn(old(tree), [m], old(clock))
                  && (SplitsFirst(old(tree), [m], old(clock)) ==> m.path in garbled)
    {
      hide Replace, Count;
      var text := tree[m.path];
      var raised := Write(m.path, Replace(text, m.anchor, m.mutation));
      if raised { return None; }
      o := Build();
      raised := Write(m.path, text);
      if raised { return None; }
      assert o.Some? ==> tree == old(tree);
    }

    /** The loop over the mutants of a suite, up to the point where something raises. */
    method RunMutants(mutants: seq<Mutant>, backups: seq<Backup>) returns (t: Tally, raised: bool)
      requires Holds(backups, tree) && forall i :: 0 <= i < |mutants| ==> BacksUp(backups, mutants[i].path)
      requires garbled == {}
      modifies this`tree, this`garbled, this`clock, this`builds
      ensures CoveredBy(tree, old(tree), backups) && clock >= old(clock)
      ensures old(builds) <= builds <= old(builds) + MutantBuilds(old(tree), mutants)
      ensures !raised ==> tree == old(tree) && builds == old(builds) + MutantBuilds(old(tree), mutants)
      ensures !raised ==> t == TallyOf(old(tree), mutants, |old(builds)|, build)
      ensures !raised ==> BuildsReturn(old(tree), mutants, |old(builds)|, build)
      ensures Interrupted(old(clock), clock) ==> raised
      ensures raised ==> Interrupted(old(clock), clock) || !BuildsReturn(old(tree), mutants, |old(builds)|, build)
      ensures tree != old(tree) || garbled != {} ==> Interrupted(old(clock), clock)
      ensures garbled != {} ==> raised && CutOff(old(clock), clock)
      ensures TearsFirst(old(tree), mutants, old(clock))
              ==> && raised && clock == old(clock) + 2 && tree == FirstTorn(old(tree), mutants, old(clock))
                  && (SplitsFirst(old(tree), mutants, old(clock)) ==> mutants[0].path in garbled)
    {
      hide Replace, Count, Counted, MutantBuilds, TallyOf, BuildsReturn, Mutated;
      ghost var original, first := tree, |builds|;
      t, raised := Tally(0, [], []), false;
      NoMutants(original, first, build);
      BuildsOfPrefix(original, mutants, 0);
      for i := 0 to |mutants|
        invariant !raised && tree == original && garbled == {}
        invariant clock >= old(clock) && (i == 0 ==> clock == old(clock)) && !Interrupted(old(clock), clock)
        invariant i > 0 ==> !TearsFirst(original, mutants, old(clock))
        invariant builds == old(builds) + MutantBuilds(original, mutants[..i])
        invariant t == TallyOf(original, mutants[..i], first, build)
        invariant BuildsReturn(original, mutants[..i], first, build)
      {
        var m := mutants[i];
        MutantStep(original, mutants, i, first, build);
        BuildsOfPrefix(original, mutants, i);
        BuildsOfPrefix(original, mutants, i + 1);
        assert BacksUp(backups, m.path);
        var text := tree[m.path];
        if Count(text, m.anchor) != 1 {
          t := t.(broken := t.broken + [m]);
          continue;
        }
        ghost var at := clock;
        var o := TryMutant(m);
        if o.None? {
          if Interrupted(at, clock) {
            InterruptedWithin(at, clock, old(clock), clock);
          } else {
            PrefixReturns(original, mutants, i + 1, first, build);
          }
          return t, true;
        }
        t := Counted(t, m, o.value);
      }
      assert mutants[..|mutants|] == mutants;
    }

    /** The baseline is built undisturbed and green, and the first mutant's write is torn. */
    predicate GreenThenTorn(now: Tree, mutants: seq<Mutant>, first: nat, at: nat) {
      !signal(at) && build(first, now) == Some(Outcome(true, true)) && TearsFirst(now, mutants, at + 1)
    }

    /** That happens to a suite which got so far undisturbed, */
    ghost predicate HitOnce(now: Tree, suite: Suite, first: nat, at: nat) {
      var start := at + |suite.mutants| + 1;
      && suite.mutants != [] && !suite.unavailable && (forall m :: m in suite.mutants ==> m.path in now)
      && (forall n :: at <= n < start ==> !signal(n))
      && GreenThenTorn(now, suite.mutants, first, start)
    }

    /** and the next signal stops the restore. */
    ghost predicate HitTwice(now: Tree, suite: Suite, first: nat, at: nat) {
      HitOnce(now, suite, first, at) && signal(at + |suite.mutants| + 4)
    }

    /** run_suite: back up, register the exit-time restore, check the baseline, run the mutants, restore. */
    method RunSuite(suite: Suite) returns (r: SuiteResult)
      requires garbled == {}
      modifies this`tree, this`garbled, this`clock, this`builds, this`hooks
      ensures clock >= old(clock) && AllHold(hooks, old(tree)) == AllHold(old(hooks), old(tree))
      ensures old(hooks) <= hooks && |hooks| <= |old(hooks)| + 1 && tree.Keys == old(tree.Keys)
      ensures Covered(tree, old(tree), hooks[|old(hooks)|..])
      ensures !r.Raised? ==> tree == old(tree)
      ensures old(builds) <= builds <= old(builds) + [old(tree)] + MutantBuilds(old(tree), suite.mutants)
      ensures r.Skipped? ==> builds == old(builds)
      ensures r.BaselineRed? ==> builds == old(builds) + [old(tree)]
      ensures r.Finished? ==> builds == old(builds) + [old(tree)] + MutantBuilds(old(tree), suite.mutants)
      ensures Reports(old(tree), suite, |old(builds)|, r)
      ensures Interrupted(old(clock), clock) ==> r.Raised?
      ensures r.Raised? ==> Excusable(old(tree), suite, |old(builds)|, old(clock), clock)
      ensures r.Finished? ==> r.tally.killed + |r.tally.survived| + |r.tally.broken| == |suite.mutants|
      ensures garbled != {} ==> r.Raised? && CutOff(old(clock), clock)
      ensures tree != old(tree) ==> InterruptedTwice(old(clock), clock) || garbled != {}
      ensures HitOnce(old(tree), suite, |old(builds)|, old(clock))
              && SplitsFirst(old(tree), suite.mutants, old(clock) + |suite.mutants| + 2)
              ==> suite.mutants[0].path in garbled
      ensures HitTwice(old(tree), suite, |old(builds)|, old(clock))
              ==> && r.Raised? && clock == old(clock) + |suite.mutants| + 5
                  && |hooks| > |old(hooks)| && hooks[|hooks| - 1] != []
                  && tree == FirstTorn(old(tree), suite.mutants, old(clock) + |suite.mutants| + 2)
    {
      hide MutantBuilds, FirstTorn, GreenThenTorn, SplitsFirst, CutOff, InterruptedTwice, BuildRaises;
      ghost var original := tree;
      if suite.unavailable { return Skipped; }
      var backups, raised := Backups(suite.mutants);
      if raised { return Raised; }
      hooks := hooks + [backups];
      assert suite.mutants != [] ==> BacksUp(backups, suite.mutants[0].path);
      raised := Pass();
      if raised { return Raised; }
      ghost var at := clock;
      r := RunGuarded(suite, backups);
      Widened(old(clock), at, clock, clock);
      SingleCover(tree, original, backups);
      assert hooks[|old(hooks)|..] == [backups];
    }

    /** The try and its finally. */
    method RunGuarded(suite: Suite, backups: seq<Backup>) returns (r: SuiteResult)
      requires Holds(backups, tree) && forall i :: 0 <= i < |suite.mutants| ==> BacksUp(backups, suite.mutants[i].path)
      requires garbled == {} && !suite.unavailable
      modifies this`tree, this`garbled, this`clock, this`builds
      ensures CoveredBy(tree, old(tree), backups) && clock >= old(clock) && !r.Skipped?
      ensures !r.Raised? ==> tree == old(tree)
      ensures old(builds) <= builds <= old(builds) + [old(tree)] + MutantBuilds(old(tree), suite.mutants)
      ensures r.BaselineRed? ==> builds == old(builds) + [old(tree)]
      ensures r.Finished? ==> builds == old(builds) + [old(tree)] + MutantBuilds(old(tree), suite.mutants)
      ensures Reports(old(tree), suite, |old(builds)|, r)
      ensures Interrupted(old(clock), clock) ==> r.Raised?
      ensures r.Raised? ==> Excusable(old(tree), suite, |old(builds)|, old(clock), clock)
      ensures r.Finished? ==> r.tally.killed + |r.tally.survived| + |r.tally.broken| == |suite.mutants|
      ensures garbled != {} ==> r.Raised? && CutOff(old(clock), clock)
      ensures tree != old(tree) ==> InterruptedTwice(old(clock), clock) || garbled != {}
      ensures GreenThenTorn(old(tree), suite.mutants, |old(builds)|, old(clock))
              && SplitsFirst(old(tree), suite.mutants, old(clock) + 1)
              ==> suite.mutants[0].path in garbled
      ensures GreenThenTorn(old(tree), suite.mutants, |old(builds)|, old(clock)) && signal(old(clock) + 3)
              ==> r.Raised? && clock == old(clock) + 4 && tree == FirstTorn(old(tree), suite.mutants, old(clock) + 1)
    {
      hide MutantBuilds, TallyOf, BuildsReturn, FirstTorn, Usable;
      ghost var original := tree;
      r := RunBody(suite, backups);
      assert CoveredBy(tree, original, backups);
      assert suite.mutants != [] ==> BacksUp(backups, suite.mutants[0].path);
      ghost var left := clock;
      var torn := Restore(backups, original);
      if torn { r := Raised; }
      if !torn { RestoredIsOriginal(tree, original, backups); }
      assert tree != original && garbled == {} ==> Interrupted(old(clock), left) && Interrupted(left, clock);
    }

    /** The try block of run_suite. */
    method RunBody(suite: Suite, backups: seq<Backup>) returns (r: SuiteResult)
      requires Holds(backups, tree) && forall i :: 0 <= i < |suite.mutants| ==> BacksUp(backups, suite.mutants[i].path)
      requires garbled == {} && !suite.unavailable
      modifies this`tree, this`garbled, this`clock, this`builds
      ensures CoveredBy(tree, old(tree), backups) && clock >= old(clock) && !r.Skipped?
      ensures !signal(old(clock)) && build(|old(builds)|, old(tree)).Some?
              ==> (r.BaselineRed? <==> build(|old(builds)|, old(tree)) != Some(Outcome(true, true)))
      ensures old(builds) <= builds <= old(builds) + [old(tree)] + MutantBuilds(old(tree), suite.mutants)
      ensures r.BaselineRed? ==> builds == old(builds) + [old(tree)]
      ensures r.Finished? ==> builds == old(builds) + [old(tree)] + MutantBuilds(old(tree), suite.mutants)
      ensures Reports(old(tree), suite, |old(builds)|, r)
      ensures Interrupted(old(clock), clock) ==> r.Raised?
      ensures r.Raised? ==> Excusable(old(tree), suite, |old(builds)|, old(clock), clock)
      ensures r.Finished? ==> r.tally.killed + |r.tally.survived| + |r.tally.broken| == |suite.mutants|
      ensures tree != old(tree) || garbled != {} ==> Interrupted(old(clock), clock)
      ensures garbled != {} ==> r.Raised? && CutOff(old(clock), clock)
      ensures GreenThenTorn(old(tree), suite.mutants, |old(builds)|, old(clock))
              ==> && r.Raised? && clock == old(clock) + 3
                  && tree == FirstTorn(old(tree), suite.mutants, old(clock) + 1)
                  && (SplitsFirst(old(tree), suite.mutants, old(clock) + 1) ==> suite.mutants[0].path in garbled)
    {
      var o := Build();
      if o.None? { return Raised; }
      if !o.value.compiled || !o.value.passed { return BaselineRed; }
      var t, raised := RunMutants(suite.mutants, backups);
      if raised { return Raised; }
      TallyAddsUp(old(tree), suite.mutants, |old(builds)| + 1, build);
      return Finished(t);
    }

    /** One registered restore; what it raises, atexit swallows. */
    method RunHook(j: nat, ghost original: Tree)
      requires j < |hooks| && AllHold(hooks, original) && tree.Keys == original.Keys
      modifies this`tree, this`garbled, this`clock
      ensures tree.Keys == original.Keys && clock >= old(clock)
      ensures old(tree) == original ==> tree == original
      ensures Covered(old(tree), original, hooks[..j + 1])
              ==> Interrupted(old(clock), clock) || old(garbled) != {} || Covered(tree, original, hooks[..j])
      ensures old(garbled) <= garbled && (garbled != old(garbled) ==> CutOff(old(clock), clock))
      ensures hooks[j] != [] && signal(old(clock)) ==> tree == old(tree)
    {
      hide Covered, BacksUp;
      var raised := Restore(hooks[j], original);
      if !raised && Covered(old(tree), original, hooks[..j + 1]) {
        CoverShrinks(old(tree), tree, original, hooks[..j + 1]);
        assert hooks[..j + 1][..j] == hooks[..j];
      }
    }

    /** Interpreter exit: the registered restores, last registered first. */
    method RunHooks(ghost original: Tree)
      requires AllHold(hooks, original) && Covered(tree, original, hooks)
      modifies this`tree, this`garbled, this`clock
      ensures tree.Keys == original.Keys && clock >= old(clock)
      ensures old(tree) == original ==> tree == original
      ensures tree != original ==> Interrupted(old(clock), clock) || garbled != {}
      ensures old(garbled) <= garbled && (garbled != old(garbled) ==> CutOff(old(clock), clock))
      ensures |hooks| == 1 && hooks[0] != [] && signal(old(clock)) ==> tree == old(tree)
    {
      assert tree.Keys == original.Keys;
      hide Covered, Holds, BacksUp, Interrupted;
      var j := |hooks|;
      assert hooks[..j] == hooks;
      while j > 0
        invariant 0 <= j <= |hooks| && tree.Keys == original.Keys && clock >= old(clock)
        invariant old(tree) == original ==> tree == original
        invariant Interrupted(old(clock), clock) || garbled != {} || Covered(tree, original, hooks[..j])
        invariant old(garbled) <= garbled && (garbled != old(garbled) ==> CutOff(old(clock), clock))
        invariant j == |hooks| ==> tree == old(tree) && clock == old(clock)
        invariant |hooks| == 1 && hooks[0] != [] && signal(old(clock)) ==> tree == old(tree)
      {
        j := j - 1;
        ghost var at := clock;
        RunHook(j, original);
        if Interrupted(at, clock) {
          InterruptedWithin(at, clock, old(clock), clock);
        } else if Interrupted(old(clock), at) {
          InterruptedWithin(old(clock), at, old(clock), clock);
        }
      }
      if Covered(tree, original, []) { NothingCovered(tree, original); }
    }

    /** A third signal stops the exit-time restore of that suite, the first of a run. */
    ghost predicate HitThrice(now: Tree, suites: seq<Suite>, first: nat, at: nat) {
      suites != [] && HitTwice(now, suites[0], first, at) && signal(at + |suites[0].mutants| + 5)
    }

    /** How many builds a suite with this result made. */
    function BuildsMade(original: Tree, suite: Suite, r: SuiteResult): nat {
      match r
      case Skipped => 0
      case BaselineRed => 1
      case Finished(_) => 1 + |MutantBuilds(original, suite.mutants)|
      case Raised => 0
    }

    /** Each result is what its suite had to report, build numbers running on from suite to suite. */
    ghost predicate AllReport(original: Tree, suites: seq<Suite>, results: seq<SuiteResult>, firsts: seq<nat>) {
      && |results| == |firsts| <= |suites|
      && (forall k :: 0 <= k < |results| ==> Reports(original, suites[k], firsts[k], results[k]))
      && (forall k :: 0 < k < |results| ==>
            firsts[k] == firsts[k - 1] + BuildsMade(original, suites[k - 1], results[k - 1]))
    }

    function NextBuild(original: Tree, suites: seq<Suite>, results: seq<SuiteResult>, firsts: seq<nat>, start: nat): nat
      requires |results| == |firsts| <= |suites|
    {
      var k := |results|;
      if k == 0 then start else firsts[k - 1] + BuildsMade(original, suites[k - 1], results[k - 1])
    }

    lemma ReportAdded(original: Tree, suites: seq<Suite>, results: seq<SuiteResult>, firsts: seq<nat>, start: nat,
                      r: SuiteResult)
      requires AllReport(original, suites, results, firsts) && |results| < |suites|
      requires firsts != [] ==> firsts[0] == start
      requires Reports(original, suites[|results|], NextBuild(original, suites, results, firsts, start), r)
      ensures var first := NextBuild(original, suites, results, firsts, start);
              && AllReport(original, suites, results + [r], firsts + [first]) && (firsts + [first])[0] == start
              && NextBuild(original, suites, results + [r], firsts + [first], start)
                 == first + BuildsMade(original, suites[|results|], r)
    {
      hide Reports, BuildsMade;
    }

    /** main's loop: the suites one after the other, stopping where something raises. Every suite starts from
        the original tree. */
    method RunSuites(suites: seq<Suite>) returns (results: seq<SuiteResult>, ghost firsts: seq<nat>)
      requires hooks == [] && garbled == {}
      modifies this`tree, this`garbled, this`clock, this`builds, this`hooks
      ensures |results| <= |suites| && forall k :: 0 <= k < |results| - 1 ==> !results[k].Raised?
      ensures |results| == |suites| || (results != [] && results[|results| - 1].Raised?)
      ensures AllReport(old(tree), suites, results, firsts) && (firsts != [] ==> firsts[0] == |old(builds)|)
      ensures AllHold(hooks, old(tree)) && Covered(tree, old(tree), hooks)
      ensures clock >= old(clock) && old(builds) <= builds
      ensures Interrupted(old(clock), clock) ==> results != [] && results[|results| - 1].Raised?
      ensures forall j :: |old(builds)| <= j < |builds| ==> Expected(old(tree), suites, builds[j])
      ensures garbled != {} ==> CutOff(old(clock), clock)
      ensures tree != old(tree) ==> InterruptedTwice(old(clock), clock) || garbled != {}
      ensures suites != [] && HitOnce(old(tree), suites[0], |old(builds)|, old(clock))
              && SplitsFirst(old(tree), suites[0].mutants, old(clock) + |suites[0].mutants| + 2)
              ==> suites[0].mutants[0].path in garbled
      ensures suites != [] && HitTwice(old(tree), suites[0], |old(builds)|, old(clock))
              ==> && |hooks| == 1 && hooks[0] != [] && clock == old(clock) + |suites[0].mutants| + 5
                  && tree == FirstTorn(old(tree), suites[0].mutants, old(clock) + |suites[0].mutants| + 2)
    {
      hide FirstTorn, MutantBuilds, TallyOf, Expected, SplitsFirst, CutOff, InterruptedTwice;
      ghost var original, first := tree, |builds|;
      results, firsts := [], [];
      assert AllReport(original, suites, results, firsts);
      assert NextBuild(original, suites, results, firsts, first) == first;
      hide AllReport, NextBuild, Reports, Excusable;
      for k := 0 to |suites|
        invariant |results| == k && forall i :: 0 <= i < k ==> !results[i].Raised?
        invariant !Interrupted(old(clock), clock)
        invariant |firsts| == k && AllReport(original, suites, results, firsts)
        invariant (k > 0 ==> firsts[0] == first) && |builds| == NextBuild(original, suites, results, firsts, first)
        invariant clock >= old(clock) && (k == 0 ==> clock == old(clock) && builds == old(builds) && hooks == [])
        invariant k > 0 ==> !HitTwice(original, suites[0], |old(builds)|, old(clock))
        invariant k > 0 ==> !(HitOnce(original, suites[0], |old(builds)|, old(clock))
                              && SplitsFirst(original, suites[0].mutants, old(clock) + |suites[0].mutants| + 2))
        invariant tree == original && garbled == {} && AllHold(hooks, original) && old(builds) <= builds
        invariant forall j :: |old(builds)| <= j < |builds| ==> Expected(original, suites, builds[j])
      {
        ghost var before, earlier, at := hooks, builds, clock;
        var r := RunSuite(suites[k]);
        Widened(old(clock), at, clock, clock);
        assert Interrupted(old(clock), clock) ==> Interrupted(at, clock);
        NewBuildsAreExpected(original, suites, k, earlier, builds);
        ReportAdded(original, suites, results, firsts, first, r);
        results, firsts := results + [r], firsts + [|earlier|];
        if r.Raised? {
          CoverGrows(tree, original, before, hooks);
          return;
        }
      }
    }

    /** main, then interpreter exit. The working tree ends as it began, and readable, unless three signals arrive,
        two before the exit-time restores and one during them, or one cuts a write inside a character. Either can
        leave a torn file behind. */
    method RunAll(suites: seq<Suite>)
      returns (results: seq<SuiteResult>, exitClock: nat, ghost firsts: seq<nat>)
      requires hooks == [] && garbled == {}
      modifies this`tree, this`garbled, this`clock, this`builds, this`hooks
      ensures |results| <= |suites| && forall k :: 0 <= k < |results| - 1 ==> !results[k].Raised?
      ensures |results| == |suites| || (results != [] && results[|results| - 1].Raised?)
      ensures AllReport(old(tree), suites, results, firsts) && (firsts != [] ==> firsts[0] == |old(builds)|)
      ensures AllHold(hooks, old(tree))
      ensures Interrupted(old(clock), exitClock) ==> results != [] && results[|results| - 1].Raised?
      ensures old(builds) <= builds
      ensures forall j :: |old(builds)| <= j < |builds| ==> Expected(old(tree), suites, builds[j])
      ensures tree != old(tree) || garbled != {}
              ==> || (InterruptedTwice(old(clock), exitClock) && Interrupted(exitClock, clock))
                  || CutOff(old(clock), clock)
      ensures suites != [] && HitOnce(old(tree), suites[0], |old(builds)|, old(clock))
              && SplitsFirst(old(tree), suites[0].mutants, old(clock) + |suites[0].mutants| + 2)
              ==> suites[0].mutants[0].path in garbled
      ensures HitThrice(old(tree), suites, |old(builds)|, old(clock))
              ==> tree == FirstTorn(old(tree), suites[0].mutants, old(clock) + |suites[0].mutants| + 2)
    {
      hide FirstTorn, MutantBuilds, TallyOf, Expected, HitOnce, SplitsFirst, CutOff, InterruptedTwice, Interrupted;
      results, firsts := RunSuites(suites);
      exitClock := clock;
      RunHooks(old(tree));
      Widened(old(clock), old(clock), exitClock, clock);
      Widened(old(clock), exitClock, clock, clock);
    }
  }

  /** Such a run, for any tree and any mutant: SIGTERM once after the mutant's file was truncated, once in the
      restore of the finally and once in the exit-time restore, and the file is left empty. */
  method ThreeSignalsLeaveItEmpty(before: Tree, m: Mutant) returns (after: Tree)
    requires Usable(before, m)
    ensures after == before[m.path := ""]
  {
    hide Replace, Count;
    var green := (n: nat, t: Tree) => Some(Outcome(true, true));
    var runner := new Runner(before, n => 4 <= n <= 6, n => 0, n => false, green);
    var suite := Suite([m], false);
    assert runner.GreenThenTorn(before, [m], 0, 2);
    assert runner.HitTwice(before, suite, 0, 0);
    var results, exitClock, firsts := runner.RunAll([suite]);
    after := runner.tree;
  }

  /** And with one signal, for any mutant with a character of more than one byte in its file: the write is cut
      inside that character, and from then on every restore fails on reading the file. */
  method OneSignalLeavesItUnreadable(before: Tree, m: Mutant, at: nat) returns (garbled: set<string>)
    requires Usable(before, m)
    requires var text := Mutated(before, m)[m.path]; at < |text| && text[at] as int >= 128
    ensures m.path in garbled
  {
    hide Replace, Count;
    var green := (n: nat, t: Tree) => Some(Outcome(true, true));
    var runner := new Runner(before, n => n == 4, n => at, n => true, green);
    var suite := Suite([m], false);
    assert runner.GreenThenTorn(before, [m], 0, 2);
    assert runner.HitOnce(before, suite, 0, 0);
    assert runner.SplitsFirst(before, [m], 3);
    var results, exitClock, firsts := runner.RunAll([suite]);
    garbled := runner.garbled;
  }

  /** A build of the whole run sees the original tree, or one usable mutant of one suite. */
  ghost predicate Expected(original: Tree, suites: seq<Suite>, seen: Tree) {
    seen == original
    || exists k, m :: 0 <= k < |suites| && m in suites[k].mutants && ByMutant(original, m, seen)
  }

  lemma NewBuildsAreExpected(original: Tree, suites: seq<Suite>, k: nat, earlier: seq<Tree>, builds: seq<Tree>)
    requires k < |suites|
    requires earlier <= builds <= earlier + [original] + MutantBuilds(original, suites[k].mutants)
    ensures forall j :: |earlier| <= j < |builds| ==> Expected(original, suites, builds[j])
  {
    hide MutantBuilds, ByMutant;
    var all := earlier + [original] + MutantBuilds(original, suites[k].mutants);
    forall j | |earlier| <= j < |builds| ensures Expected(original, suites, builds[j]) {
      assert builds[j] == all[j];
      if j > |earlier| {
        var m := BuildsSeeOneFragment(original, suites[k].mutants, j - |earlier| - 1);
      }
    }
  }

  predicate AllHold(hooks: seq<seq<Backup>>, original: Tree) {
    forall i :: 0 <= i < |hooks| ==> Holds(hooks[i], original)
  }

  /** Every file that differs is backed up by some hook. */
  predicate Covered(now: Tree, original: Tree, hooks: seq<seq<Backup>>) {
    now.Keys == original.Keys
    && forall p :: p in original && now[p] != original[p] ==> exists i :: 0 <= i < |hooks| && BacksUp(hooks[i], p)
  }

  lemma SingleCover(now: Tree, original: Tree, backups: seq<Backup>)
    requires CoveredBy(now, original, backups)
    ensures Covered(now, original, [backups])
  {
    forall p | p in original && now[p] != original[p]
      ensures exists i :: 0 <= i < |[backups]| && BacksUp([backups][i], p)
    {
      assert BacksUp([backups][0], p);
    }
  }

  lemma RestoredIsOriginal(now: Tree, original: Tree, backups: seq<Backup>)
    requires CoveredBy(now, original, backups) && forall p :: p in now && BacksUp(backups, p) ==> now[p] == original[p]
    ensures now == original
  {
  }

  lemma CoverShrinks(before: Tree, now: Tree, original: Tree, hooks: seq<seq<Backup>>)
    requires hooks != [] && Covered(before, original, hooks) && now.Keys == original.Keys
    requires var last := hooks[|hooks| - 1];
             && (forall p :: p in now && !BacksUp(last, p) ==> now[p] == before[p])
             && (forall p :: p in now && BacksUp(last, p) ==> now[p] == original[p])
    ensures Covered(now, original, hooks[..|hooks| - 1])
  {
  }

  lemma NothingCovered(now: Tree, original: Tree)
    requires Covered(now, original, [])
    ensures now == original
  {
  }

  lemma CoverGrows(now: Tree, original: Tree, before: seq<seq<Backup>>, hooks: seq<seq<Backup>>)
    requires before <= hooks && Covered(now, original, hooks[|before|..])
    ensures Covered(now, original, hooks)
  {
  }

  // -- verify_clean -----------------------------------------------------------------------

  /** The anchor is there exactly once. */
  predicate Anchored(tree: Tree, m: Mutant)
    requires m.path in tree
  {
    Count(tree[m.path], m.anchor) == 1
  }

  /** No entry of the table is reported. */
  predicate AllAnchored(tree: Tree, mutants: seq<Mutant>)
    requires forall i :: 0 <= i < |mutants| ==> mutants[i].path in tree
  {
    forall i :: 0 <= i < |mutants| ==> Anchored(tree, mutants[i])
  }

  method VerifyClean(tree: Tree, mutants: seq<Mutant>) returns (leftovers: seq<Mutant>, rotted: seq<Mutant>)
    requires forall i :: 0 <= i < |mutants| ==> mutants[i].path in tree
    ensures |leftovers| + |rotted| == 0 <==> AllAnchored(tree, mutants)
    ensures forall m :: m in leftovers ==> m in mutants && !Anchored(tree, m) && Contains(tree[m.path], m.mutation)
    ensures forall m :: m in rotted ==> m in mutants && !Anchored(tree, m) && !Contains(tree[m.path], m.mutation)
    ensures forall m :: m in mutants && !Anchored(tree, m) ==> m in leftovers || m in rotted
  {
    hide Count, Contains;
    leftovers, rotted := [], [];
    for i := 0 to |mutants|
      invariant |leftovers| + |rotted| == 0 <==> forall j :: 0 <= j < i ==> Anchored(tree, mutants[j])
      invariant forall m :: m in leftovers ==> m in mutants && !Anchored(tree, m) && Contains(tree[m.path], m.mutation)
      invariant forall m :: m in rotted ==> m in mutants && !Anchored(tree, m) && !Contains(tree[m.path], m.mutation)
      invariant forall j :: 0 <= j < i && !Anchored(tree, mutants[j]) ==>
                  mutants[j] in leftovers || mutants[j] in rotted
    {
      var m := mutants[i];
      if Count(tree[m.path], m.anchor) == 1 {
        continue;
      }
      if Contains(tree[m.path], m.mutation) {
        leftovers := leftovers + [m];
      } else {
        rotted := rotted + [m];
      }
    }
  }

  // -- what verify_clean says of a mutation left in its file ----------------------------------

  /** The mutated text from `lo` to `hi`, both counted in the original. */
  function Spliced(text: string, at: nat, n: nat, put: string, lo: nat, hi: nat): (t: string)
    requires lo <= at && at + n <= hi <= |text|
    ensures |t| == hi - lo - n + |put|
  {
    text[lo..at] + put + text[at + n..hi]
  }

  /** The stretch of the file, with m's mutation in place, that holds both m's fragment and the one occurrence
      of e's anchor, and on either side as much more as an anchor of e can reach. */
  function Stretch(text: string, m: Mutant, e: Mutant): string
    requires m.anchor != "" && Count(text, m.anchor) == 1
    requires e.anchor != "" && Count(text, e.anchor) == 1
  {
    CountUnfolds(text, m.anchor);
    CountUnfolds(text, e.anchor);
    var at, home, reach := Find(text, m.anchor).value, Find(text, e.anchor).value, |e.anchor| - 1;
    var lo := Greater(0, Lesser(at, home) - reach);
    var hi := Lesser(|text|, Greater(at + |m.anchor|, home + |e.anchor|) + reach);
    Spliced(text, at, |m.anchor|, m.mutation, lo, hi)
  }

  lemma TooLong(s: string, sub: string, i: nat)
    requires i + |sub| > |s|
    ensures !OccursAt(s, i, sub)
  {
  }

  /** What occurs in the mutated text in front of the mutation occurred in the original, */
  lemma {:induction false} OccursLeft(text: string, at: nat, n: nat, put: string, b: string, i: nat)
    requires at + n <= |text| && i + |b| <= at
    ensures OccursAt(Spliced(text, at, n, put, 0, |text|), i, b) <==> OccursAt(text, i, b)
  {
    hide OccursAt;
    var p, s := text[..at], text[at + n..];
    assert text == p + text[at..] && Spliced(text, at, n, put, 0, |text|) == p + (put + s);
    OccursAhead(p, text[at..], b, i);
    OccursAhead(p, put + s, b, i);
  }

  /** and so did what occurs behind it. */
  lemma {:induction false} OccursRight(text: string, at: nat, n: nat, put: string, b: string, i: nat)
    requires at + n <= i <= |text|
    ensures OccursAt(Spliced(text, at, n, put, 0, |text|), i - n + |put|, b) <==> OccursAt(text, i, b)
  {
    hide OccursAt;
    var p, s := text[..at], text[at + n..];
    assert text == text[..at + n] + s && Spliced(text, at, n, put, 0, |text|) == (p + put) + s;
    OccursBehind(text[..at + n], s, b, i - (at + n));
    OccursBehind(p + put, s, b, i - (at + n));
  }

  lemma {:induction false} SplicedParts(text: string, at: nat, n: nat, put: string, lo: nat, hi: nat)
    requires lo <= at && at + n <= hi <= |text|
    ensures Spliced(text, at, n, put, 0, |text|) == text[..lo] + (Spliced(text, at, n, put, lo, hi) + text[hi..])
  {
    assert text[0..at] == text[..lo] + text[lo..at];
    assert text[at + n..|text|] == text[at + n..hi] + text[hi..];
  }

  lemma {:induction false} SliceOfSlice(text: string, from: nat, to: nat, i: nat, j: nat)
    requires from <= i <= j <= to <= |text|
    ensures text[from..to][i - from..j - from] == text[i..j]
  {
    var inner, outer := text[from..to][i - from..j - from], text[i..j];
    assert forall k :: 0 <= k < j - i ==> inner[k] == text[from..to][i - from + k] == text[i + k] == outer[k];
  }

  /** A splice does not depend on the text outside it. */
  lemma {:induction false} SplicedInside(text: string, at: nat, n: nat, put: string, lo: nat, hi: nat,
                                         from: nat, to: nat)
    requires from <= lo <= at && at + n <= hi <= to <= |text|
    ensures Spliced(text[from..to], at - from, n, put, lo - from, hi - from) == Spliced(text, at, n, put, lo, hi)
  {
    SliceOfSlice(text, from, to, lo, at);
    SliceOfSlice(text, from, to, at + n, hi);
  }

  /** A window around the mutation decides the count, if it reaches as far as an anchor and leaves out no
      occurrence of the original. */
  lemma {:induction false} WindowDecides(text: string, at: nat, n: nat, put: string, b: string, lo: nat, hi: nat)
    requires b != "" && lo <= at && at + n <= hi <= |text|
    requires lo == 0 || lo + |b| - 1 <= at
    requires hi == |text| || hi >= at + n + |b| - 1
    requires forall i: nat :: i < lo ==> !OccursAt(text, i, b)
    requires forall i: nat :: i + |b| > hi ==> !OccursAt(text, i, b)
    ensures Count(Spliced(text, at, n, put, 0, |text|), b) == Count(Spliced(text, at, n, put, lo, hi), b)
  {
    hide OccursAt, Find, Count, Spliced;
    var whole, window := Spliced(text, at, n, put, 0, |text|), Spliced(text, at, n, put, lo, hi);
    var front, back := text[..lo], text[hi..];
    SplicedParts(text, at, n, put, lo, hi);
    forall i: nat | i < |front| ensures !OccursAt(front + (window + back), i, b) {
      OccursLeft(text, at, n, put, b, i);
    }
    CountSkipsFront(front, window + back, b);
    forall i: nat | i + |b| > |window| ensures !OccursAt(window + back, i, b) {
      if i + |b| > |window + back| {
        TooLong(window + back, b, i);
      } else {
        OccursRight(text, at, n, put, b, lo + i + n - |put|);
        OccursBehind(front, window + back, b, i);
      }
    }
    CountSkipsBack(window, back, b);
  }

  /** An anchor counted once starts nowhere before its place, and nowhere behind its end. */
  lemma {:induction false} OneOccurrence(text: string, b: string)
    requires b != "" && Count(text, b) == 1
    ensures Find(text, b).Some? && Find(text, b).value + |b| <= |text|
    ensures forall i: nat :: i < Find(text, b).value ==> !OccursAt(text, i, b)
    ensures forall i: nat :: i >= Find(text, b).value + |b| ==> !OccursAt(text, i, b)
    ensures Count(text[Find(text, b).value + |b|..], b) == 0
  {
    hide OccursAt, Find, Count;
    CountUnfolds(text, b);
    var end := Find(text, b).value + |b|;
    var rest := text[end..];
    CountsNone(rest, b);
    forall i: nat | i < Find(text, b).value ensures !OccursAt(text, i, b) {
      if OccursAt(text, i, b) { FindIsLeftmost(text, b, i); }
    }
    forall i: nat | i >= end ensures !OccursAt(text, i, b) {
      assert text == text[..end] + rest;
      OccursBehind(text[..end], rest, b, i - end);
    }
  }

  lemma {:induction false} OnlyTheStretchCounts(text: string, m: Mutant, e: Mutant)
    requires m.anchor != "" && Count(text, m.anchor) == 1
    requires e.anchor != "" && Count(text, e.anchor) == 1
    ensures Count(Replace(text, m.anchor, m.mutation), e.anchor) == Count(Stretch(text, m, e), e.anchor)
  {
    hide Find, Count, Replace;
    var a, b, put := m.anchor, e.anchor, m.mutation;
    ReplaceOnce(text, a, put);
    CountUnfolds(text, a);
    CountUnfolds(text, b);
    var at, home := Find(text, a).value, Find(text, b).value;
    var lo := Greater(0, Lesser(at, home) - (|b| - 1));
    var hi := Lesser(|text|, Greater(at + |a|, home + |b|) + |b| - 1);
    assert text[0..at] == text[..at] && text[at + |a|..|text|] == text[at + |a|..];
    assert Replace(text, a, put) == Spliced(text, at, |a|, put, 0, |text|);
    assert Stretch(text, m, e) == Spliced(text, at, |a|, put, lo, hi);
    hide Spliced, Stretch;
    OneOccurrence(text, b);
    WindowDecides(text, at, |a|, put, b, lo, hi);
  }

  /** Entry `e` stays silent about the mutation `m` in a file where both anchors stood once. */
  predicate Missed(text: string, m: Mutant, e: Mutant)
    requires Count(text, m.anchor) == 1 && Count(text, e.anchor) == 1
  {
    if m.anchor == "" || e.anchor == "" then m.mutation == ""
    else Count(Stretch(text, m, e), e.anchor) == 1
  }

  /** An empty anchor stands once only in an empty file, in which no other anchor does. */
  lemma {:induction false} EmptyAnchors(text: string, a: string, b: string)
    requires Count(text, a) == 1 && Count(text, b) == 1 && (a == "" || b == "")
    ensures text == "" && a == "" && b == ""
  {
    if a != "" { CountUnfolds(text, a); }
    if b != "" { CountUnfolds(text, b); }
  }

  /** One entry of the table, about its own mutation or another one of its file. */
  lemma {:induction false} EntryIsSilentIff(original: Tree, m: Mutant, e: Mutant)
    requires Usable(original, m) && Usable(original, e) && m.path == e.path
    ensures Anchored(Mutated(original, m), e) <==> Missed(original[m.path], m, e)
  {
    var text := original[m.path];
    if m.anchor == "" || e.anchor == "" {
      EmptyAnchors(text, m.anchor, e.anchor);
      assert Replace(text, m.anchor, m.mutation) == m.mutation;
      assert Count(m.mutation, "") == |m.mutation| + 1;
    } else {
      OnlyTheStretchCounts(text, m, e);
    }
  }

  /** The mutation with `reach` characters of the file on either side. */
  function Seam(text: string, m: Mutant, reach: nat): string
    requires m.anchor != "" && Count(text, m.anchor) == 1
  {
    CountUnfolds(text, m.anchor);
    var at := Find(text, m.anchor).value;
    Spliced(text, at, |m.anchor|, m.mutation, Greater(0, at - reach), Lesser(|text|, at + |m.anchor| + reach))
  }

  /** The two fragments lie too far apart for an anchor of e to touch both its own place and the mutation. */
  predicate FarApart(text: string, m: Mutant, e: Mutant)
    requires m.anchor != "" && Count(text, m.anchor) == 1
    requires e.anchor != "" && Count(text, e.anchor) == 1
  {
    CountUnfolds(text, m.anchor);
    CountUnfolds(text, e.anchor);
    var at, home, reach := Find(text, m.anchor).value, Find(text, e.anchor).value, |e.anchor| - 1;
    home + |e.anchor| + reach <= at || at + |m.anchor| + reach <= home
  }

  /** A mutation behind the first occurrence of `b` leaves it the first, */
  lemma {:induction false} FirstStays(text: string, at: nat, n: nat, put: string, b: string, home: nat)
    requires b != "" && at + n <= |text| && home + |b| <= at && OccursAt(text, home, b)
    requires forall i: nat :: i < home ==> !OccursAt(text, i, b)
    ensures var whole := Spliced(text, at, n, put, 0, |text|);
            home + |b| <= |whole| && Count(whole, b) == 1 + Count(whole[home + |b|..], b)
  {
    hide OccursAt, Find, Count, Spliced;
    var whole := Spliced(text, at, n, put, 0, |text|);
    forall i: nat | i < home ensures !OccursAt(whole, i, b) {
      OccursLeft(text, at, n, put, b, i);
    }
    OccursLeft(text, at, n, put, b, home);
    FindIs(whole, b, home);
    CountUnfolds(whole, b);
  }

  /** and what follows is the rest with the mutation in it. */
  lemma {:induction false} SplicedRest(text: string, at: nat, n: nat, put: string, end: nat)
    requires end <= at && at + n <= |text|
    ensures end <= |Spliced(text, at, n, put, 0, |text|)|
    ensures Spliced(text, at, n, put, 0, |text|)[end..] == Spliced(text[end..], at - end, n, put, 0, |text| - end)
  {
    hide Spliced;
    assert text[end..] == text[end..|text|];
    SplicedParts(text, at, n, put, end, |text|);
    SplicedInside(text, at, n, put, end, |text|, end, |text|);
  }

  /** Behind the place of e: the count of the whole is one, and what the seam adds. */
  lemma {:induction false} SeamBehind(text: string, at: nat, n: nat, put: string, b: string, home: nat,
                                      lo: nat, hi: nat)
    requires b != "" && Count(text, b) == 1 && Find(text, b) == Some(home)
    requires home + |b| <= lo <= at && at + n <= hi <= |text|
    requires lo + |b| - 1 <= at && (hi == |text| || hi >= at + n + |b| - 1)
    ensures Count(Spliced(text, at, n, put, 0, |text|), b) == 1 + Count(Spliced(text, at, n, put, lo, hi), b)
  {
    hide OccursAt, Find, Count;
    OneOccurrence(text, b);
    hide Spliced;
    var end := home + |b|;
    var rest := text[end..];
    FindOccurs(text, b);
    FirstStays(text, at, n, put, b, home);
    SplicedRest(text, at, n, put, end);
    CountsNone(rest, b);
    WindowDecides(rest, at - end, n, put, b, lo - end, hi - end);
    assert rest == text[end..|text|];
    SplicedInside(text, at, n, put, lo, hi, end, |text|);
  }

  /** In front of the occurrence of `b` there is no other, nor any across its start. */
  lemma {:induction false} NothingAhead(text: string, at: nat, n: nat, put: string, b: string, home: nat)
    requires b != "" && at + n + |b| - 1 <= home <= |text|
    requires forall i: nat :: i < home ==> !OccursAt(text, i, b)
    ensures forall i: nat :: !OccursAt(text[..home], i, b)
    ensures var cut := home - n + |put|;
            forall i: nat :: i < cut < i + |b| ==> !OccursAt(Spliced(text, at, n, put, 0, |text|), i, b)
  {
    hide OccursAt, Spliced;
    var cut := home - n + |put|;
    forall i: nat ensures !OccursAt(text[..home], i, b) {
      assert text == text[..home] + text[home..];
      if i + |b| > home { TooLong(text[..home], b, i); } else { OccursAhead(text[..home], text[home..], b, i); }
    }
    forall i: nat | i < cut < i + |b| ensures !OccursAt(Spliced(text, at, n, put, 0, |text|), i, b) {
      OccursRight(text, at, n, put, b, i + n - |put|);
    }
  }

  /** And in front of it. */
  lemma {:induction false} SeamAhead(text: string, at: nat, n: nat, put: string, b: string, home: nat,
                                     lo: nat, hi: nat)
    requires b != "" && Count(text, b) == 1 && Find(text, b) == Some(home)
    requires lo <= at && at + n <= hi <= home
    requires (lo == 0 || lo + |b| - 1 <= at) && hi >= at + n + |b| - 1
    ensures Count(Spliced(text, at, n, put, 0, |text|), b) == 1 + Count(Spliced(text, at, n, put, lo, hi), b)
  {
    hide OccursAt, Find, Count;
    OneOccurrence(text, b);
    var whole, front := Spliced(text, at, n, put, 0, |text|), text[..home];
    var x, y := Spliced(front, at, n, put, 0, home), text[home..];
    hide Spliced;
    assert front == text[0..home];
    SplicedParts(text, at, n, put, 0, home);
    SplicedInside(text, at, n, put, 0, home, 0, home);
    assert whole == x + y;
    NothingAhead(text, at, n, put, b, home);
    CountSplits(x, y, b);
    WindowDecides(front, at, n, put, b, lo, hi);
    SplicedInside(text, at, n, put, lo, hi, 0, home);
    assert text == front + y;
    CountSkipsFront(front, y, b);
  }

  /** Far from e's own place, e misses the mutation exactly when the seam of m does not hold e's anchor. */
  lemma {:induction false} FarEntryIsSilentIff(text: string, m: Mutant, e: Mutant)
    requires m.anchor != "" && Count(text, m.anchor) == 1
    requires e.anchor != "" && Count(text, e.anchor) == 1 && FarApart(text, m, e)
    ensures Missed(text, m, e) <==> Count(Seam(text, m, |e.anchor| - 1), e.anchor) == 0
  {
    hide Find, Count, Replace, Stretch;
    var a, b, put := m.anchor, e.anchor, m.mutation;
    OneOccurrence(text, a);
    OneOccurrence(text, b);
    var at, home, reach := Find(text, a).value, Find(text, b).value, |b| - 1;
    ReplaceOnce(text, a, put);
    OnlyTheStretchCounts(text, m, e);
    assert Replace(text, a, put) == Spliced(text, at, |a|, put, 0, |text|) by {
      assert text[0..at] == text[..at] && text[at + |a|..|text|] == text[at + |a|..];
    }
    var lo, hi := Greater(0, at - reach), Lesser(|text|, at + |a| + reach);
    if home + |b| + reach <= at {
      SeamBehind(text, at, |a|, put, b, home, lo, hi);
    } else {
      SeamAhead(text, at, |a|, put, b, home, lo, hi);
    }
  }

  lemma {:induction false} OnlyItsFileChanges(original: Tree, m: Mutant)
    requires m.path in original
    ensures original.Keys == Mutated(original, m).Keys
    ensures forall p :: p in original && p != m.path ==> Mutated(original, m)[p] == original[p]
  {
  }

  /** The whole check: with a table whose anchors all stood once, a mutation left in its file goes unreported
      exactly when every entry for that file misses it. Entries for other files have nothing to say. */
  lemma {:induction false} LeftoverIsMissedIff(original: Tree, mutants: seq<Mutant>, k: nat)
    requires k < |mutants| && forall i :: 0 <= i < |mutants| ==> mutants[i].path in original
    requires AllAnchored(original, mutants)
    ensures AllAnchored(Mutated(original, mutants[k]), mutants)
            <==> forall i :: 0 <= i < |mutants| && mutants[i].path == mutants[k].path
                             ==> Missed(original[mutants[k].path], mutants[k], mutants[i])
  {
    hide Missed, Replace, Count, Mutated;
    var m := mutants[k];
    OnlyItsFileChanges(original, m);
    forall i | 0 <= i < |mutants|
      ensures Anchored(Mutated(original, m), mutants[i])
              <==> (mutants[i].path == m.path ==> Missed(original[m.path], m, mutants[i]))
    {
      if mutants[i].path == m.path { EntryIsSilentIff(original, m, mutants[i]); }
    }
  }

  /** A clean answer does not prove a clean tree: where its own entry is the only one for the file, a mutation
      that contains its anchor once passes the check while it is still there. */
  lemma CleanIsNotUnmutated()
    ensures var m := Mutant("f", "x", "xy", ToBeKilled);
            var original: Tree := map["f" := "x"];
            Usable(original, m) && Mutated(original, m) != original && Anchored(Mutated(original, m), m)
            && AllAnchored(Mutated(original, m), [m])
  {
    var m := Mutant("f", "x", "xy", ToBeKilled);
    assert "x"[..1] == "x" && "x"[1..] == "";
    assert Find("x", "x") == Some(0) && Count("x", "x") == 1;
    assert Replace("x", "x", "xy") == "xy";
    assert "xy"[..1] == "x" && "xy"[1..] == "y";
    assert "y"[..1] == "y" && "y"[1..] == "" && "y"[0] != "x"[0];
    assert Find("", "x") == None && Find("y", "x") == None;
    assert Find("xy", "x") == Some(0) && Count("xy", "x") == 1;
  }

  /** One entry can be silent about its own mutation and another one report it, as an anchor that has rotted. */
  lemma OtherEntryReports()
    ensures var m, e := Mutant("f", "x", "xy", ToBeKilled), Mutant("f", "xz", "q", ToBeKilled);
            var original: Tree := map["f" := "xz"];
            && AllAnchored(original, [m, e])
            && Anchored(Mutated(original, m), m) && !Anchored(Mutated(original, m), e)
            && Mutated(original, m)["f"] == "xyz" && !Contains("xyz", "q")
  {
    hide Find, Count, Replace, OccursAt;
    CountAtStart("xz", "x");
    CountAtStart("xz", "xz");
    CountAtStart("xyz", "x");
    ReplaceOnce("xz", "x", "xy");
    assert "xz"[..0] + "xy" + "xz"[1..] == "xyz";
    CountNowhere("xyz", "xz");
    NotContained("xyz", "q");
  }
}
