/** Which move and which orphan flag a mount finds after a run of filesystem steps. */
module GlobalRuns {
  import opened GlobalState

  /** No commit or staged compaction: the committed state stays. */
  predicate Uncommitted(run: seq<Step>) {
    forall i :: 0 <= i < |run| ==> !run[i].Commit? && !(run[i].Stage? && !run[i].relocated)
  }

  lemma {:induction false} RunConcat(s: Fs, a: seq<Step>, b: seq<Step>)
    requires Inv(s) && LegalRun(s, a + b)
    ensures LegalRun(s, a) && LegalRun(After(s, a), b) && After(s, a + b) == After(After(s, a), b)
    decreases |a|
  {
    if a == [] {
      assert a + b == b;
    } else {
      StepInv(s, a[0]);
      assert (a + b)[1..] == a[1..] + b;
      RunConcat(Next(s, a[0]), a[1..], b);
    }
  }

  lemma {:induction false} CommittedStays(s: Fs, run: seq<Step>)
    requires Inv(s) && LegalRun(s, run) && Uncommitted(run)
    ensures After(s, run).gdisk == s.gdisk
    decreases |run|
  {
    if run != [] {
      StepInv(s, run[0]);
      CommittedStays(Next(s, run[0]), run[1..]);
    }
  }

  predicate NoMovePrepped(run: seq<Step>) {
    forall i :: 0 <= i < |run| ==> !run[i].PrepMove?
  }

  /** The state but for the orphan flag. */
  function Rest(g: Delta): Delta {
    g - {ORPHAN_BIT}
  }

  lemma {:induction false} RestStays(s: Fs, run: seq<Step>)
    requires Inv(s) && LegalRun(s, run) && NoMovePrepped(run)
    ensures Rest(After(s, run).gstate.bits) == Rest(s.gstate.bits)
    decreases |run|
  {
    if run != [] {
      StepInv(s, run[0]);
      RestStays(Next(s, run[0]), run[1..]);
    }
  }

  /** The orphans counted by a run. */
  function Orphans(run: seq<Step>, n: int): int {
    if run == [] then n else Orphans(run[1..], if run[0].PrepOrphans? then n + run[0].orphans else n)
  }

  /** Whether the superblock is still to be rewritten. */
  function Outdated(run: seq<Step>, needs: bool): bool {
    if run == [] then needs else Outdated(run[1..], if run[0].PrepSuperblock? then run[0].needs else needs)
  }

  lemma {:induction false} CountsAfter(s: Fs, run: seq<Step>)
    requires Inv(s) && LegalRun(s, run)
    ensures After(s, run).gstate.orphans == Orphans(run, s.gstate.orphans)
    ensures After(s, run).gstate.needsSuperblock == Outdated(run, s.gstate.needsSuperblock)
    decreases |run|
  {
    if run != [] {
      StepInv(s, run[0]);
      CountsAfter(Next(s, run[0]), run[1..]);
    }
  }

  predicate NoOrphansPrepped(run: seq<Step>) {
    forall i :: 0 <= i < |run| ==> !run[i].PrepOrphans?
  }

  lemma {:induction false} FlagStays(s: Fs, run: seq<Step>)
    requires Inv(s) && LegalRun(s, run) && NoOrphansPrepped(run)
    ensures ORPHAN_BIT in After(s, run).gstate.bits <==> ORPHAN_BIT in s.gstate.bits
    decreases |run|
  {
    if run != [] {
      StepInv(s, run[0]);
      if run[0].PrepMove? { PreppedMove(run[0].move, s.gstate.bits); }
      FlagStays(Next(s, run[0]), run[1..]);
    }
  }

  /** A commit, and what follows up to the cut. */
  lemma CommittedIs(s: Fs, before: seq<Step>, commit: Step, behind: seq<Step>)
    requires Inv(s) && LegalRun(s, before + [commit] + behind) && commit.Commit? && Uncommitted(behind)
    ensures LegalRun(s, before) && After(s, before + [commit] + behind).gdisk == After(s, before).gstate
  {
    RunConcat(s, before + [commit], behind);
    RunConcat(s, before, [commit]);
    CommittedStays(After(s, before + [commit]), behind);
  }

  /** A finished run: nothing waits to be linked and nothing was lost. */
  ghost predicate Settled(s: Fs, run: seq<Step>)
    requires Inv(s) && LegalRun(s, run)
  {
    After(s, run).waiting == map[] && After(s, run).lost == {}
  }

  /** Whatever else a run does, the move a mount finds is the one prepared last before
      the last commit, by its id and pair; none if that cleared it. */
  lemma MoveRecovered(s: Fs, before: seq<Step>, m: Move, between: seq<Step>, commit: Step, behind: seq<Step>)
    requires Inv(s) && LegalRun(s, before + [PrepMove(m)] + between + [commit] + behind)
    requires NoMovePrepped(between) && commit.Commit? && Uncommitted(behind)
    requires Settled(s, before + [PrepMove(m)] + between + [commit] + behind)
    ensures MoveFound(Shown(After(s, before + [PrepMove(m)] + between + [commit] + behind))) == m
  {
    var run := before + [PrepMove(m)] + between + [commit] + behind;
    CommittedIs(s, before + [PrepMove(m)] + between, commit, behind);
    SettledIff(s, run);
    RunConcat(s, before + [PrepMove(m)], between);
    RunConcat(s, before, [PrepMove(m)]);
    var p := After(s, before);
    PreppedMove(m, p.gstate.bits);
    RestStays(After(s, before + [PrepMove(m)]), between);
    MoveReadsBack(m, Shown(After(s, run)));
  }

  /** With no move prepared before the last commit, it is the one of the start. */
  lemma MoveKept(s: Fs, before: seq<Step>, commit: Step, behind: seq<Step>)
    requires Inv(s) && LegalRun(s, before + [commit] + behind)
    requires NoMovePrepped(before) && commit.Commit? && Uncommitted(behind)
    requires Settled(s, before + [commit] + behind)
    ensures MoveFound(Shown(After(s, before + [commit] + behind))) == MoveFound(s.gstate.bits)
  {
    CommittedIs(s, before, commit, behind);
    SettledIff(s, before + [commit] + behind);
    RestStays(s, before);
    SameMove(s.gstate.bits, Shown(After(s, before + [commit] + behind)));
  }

  /** And the orphan flag is set if and only if orphans, or an old superblock, were
      left when the count was last changed before the last commit. */
  lemma OrphansRecovered(s: Fs, before: seq<Step>, n: int, between: seq<Step>, commit: Step, behind: seq<Step>)
    requires Inv(s) && LegalRun(s, before + [PrepOrphans(n)] + between + [commit] + behind)
    requires NoOrphansPrepped(between) && commit.Commit? && Uncommitted(behind)
    requires Settled(s, before + [PrepOrphans(n)] + between + [commit] + behind)
    ensures ORPHAN_BIT in Shown(After(s, before + [PrepOrphans(n)] + between + [commit] + behind)) <==>
            Orphans(before, s.gstate.orphans) + n != 0 || Outdated(before, s.gstate.needsSuperblock)
  {
    var run := before + [PrepOrphans(n)] + between + [commit] + behind;
    CommittedIs(s, before + [PrepOrphans(n)] + between, commit, behind);
    SettledIff(s, run);
    RunConcat(s, before + [PrepOrphans(n)], between);
    RunConcat(s, before, [PrepOrphans(n)]);
    CountsAfter(s, before);
    FlagStays(After(s, before + [PrepOrphans(n)]), between);
  }
}
