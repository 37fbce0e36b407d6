/**
 * Posting while a period's status or an account's postability changes (`periods.ts`, `chart.ts`,
 * `journal.ts`), at READ COMMITTED. The guards read rows that no lock holds, so what they saw may no
 * longer be so when their transaction commits. One period, one account, any number of callers.
 */
module ConcurrentClosing {
  import opened Ledger

  /**
   * A poster has resolved its line, then read the period and taken its flag, then passed the trigger
   * that reads the period again; a closer has read the status it replaces; a demoter has found the
   * account without lines.
   */
  datatype Caller =
    | Idle
    | Resolved
    | Checked(flag: bool)
    | Guarded(flag: bool)
    | Changing(target: PeriodStatus)
    | Demoting
    | Refused
    | Done

  /** `filed` holds, per committed entry of the period on the account, whether it is flagged backdated. */
  datatype System = System(status: PeriodStatus, postable: bool, filed: seq<bool>, callers: seq<Caller>)

  datatype Action =
    | Resolve
    | Check(allowBackdated: bool)
    | Guard
    | CommitPost
    | ReadStatus(target: PeriodStatus)
    | CommitStatus
    | LookForLines
    | CommitDemotion

  predicate HardClosed(status: PeriodStatus) {
    status == Closed || status == Locked
  }

  /** The caller's next state; an action that does not fit it changes nothing. */
  function Moved(s: System, c: Caller, a: Action): Caller {
    match a
    case Resolve => if !c.Idle? then c else if s.postable then Resolved else Refused
    case Check(allow) =>
      if !c.Resolved? then c
      else (
        match Accepts(s.status, allow)
        case Ok(flag) => Checked(flag)
        case Err(_) => Refused)
    case Guard =>
      if !c.Checked? then c
      else if HardClosed(s.status) || (s.status == SoftClosed && !c.flag) then Refused
      else Guarded(c.flag)
    case CommitPost => if c.Guarded? then Done else c
    case ReadStatus(target) =>
      if !c.Idle? then c
      else if s.status == target then Done
      else if s.status == Locked then Refused
      else Changing(target)
    case CommitStatus => if c.Changing? then Done else c
    case LookForLines => if !c.Idle? then c else if s.filed == [] then Demoting else Refused
    case CommitDemotion => if c.Demoting? then Done else c
  }

  function Step(s: System, p: nat, a: Action): System {
    if p >= |s.callers| then s
    else
      var c := s.callers[p];
      System(if a.CommitStatus? && c.Changing? then c.target else s.status,
             s.postable && !(a.CommitDemotion? && c.Demoting?),
             if a.CommitPost? && c.Guarded? then s.filed + [c.flag] else s.filed,
             s.callers[p := Moved(s, c, a)])
  }

  function Run(s: System, steps: seq<(nat, Action)>): System {
    if steps == [] then s
    else var k := |steps| - 1; Step(Run(s, steps[..k]), steps[k].0, steps[k].1)
  }

  /** The status is `status` in every state of the run. */
  predicate Held(s: System, steps: seq<(nat, Action)>, status: PeriodStatus) {
    Run(s, steps).status == status && (steps == [] || Held(s, steps[..|steps| - 1], status))
  }

  lemma OneStep(s: System, p: nat, a: Action)
    ensures Run(s, [(p, a)]) == Step(s, p, a)
    ensures forall status :: Held(s, [(p, a)], status) <==> s.status == status && Step(s, p, a).status == status
  {
    assert [(p, a)][..0] == [];
    assert Run(s, []) == s;
    assert forall status :: Held(s, [], status) <==> s.status == status;
  }

  // ----- Alone -----

  /** A poster that nobody disturbs files its entry exactly when the account and the period take it, flagged when soft-closed. */
  lemma PosterAlone(s: System, p: nat, allow: bool)
    requires p < |s.callers| && s.callers[p].Idle?
    ensures var t := Step(Step(Step(Step(s, p, Resolve), p, Check(allow)), p, Guard), p, CommitPost);
            var takes := s.postable && (s.status == Open || (s.status == SoftClosed && allow));
            && t.status == s.status && t.postable == s.postable
            && t.filed == (if takes then s.filed + [s.status == SoftClosed] else s.filed)
            && t.callers[p] == (if takes then Done else Refused)
  {
  }

  /** A closer alone moves the status unless it is locked; a demoter alone demotes unless there are lines. */
  lemma ChangersAlone(s: System, p: nat, target: PeriodStatus)
    requires p < |s.callers| && s.callers[p].Idle?
    ensures var t := Step(Step(s, p, ReadStatus(target)), p, CommitStatus);
            t.status == (if s.status == Locked then Locked else target) && t.postable == s.postable && t.filed == s.filed
    ensures var t := Step(Step(s, p, LookForLines), p, CommitDemotion);
            t.status == s.status && t.postable == (s.postable && s.filed != []) && t.filed == s.filed
  {
  }

  // ----- Closing -----

  predicate PastGuard(c: Caller) {
    c.Guarded?
  }

  predicate NonePast(s: System) {
    forall q :: 0 <= q < |s.callers| ==> !PastGuard(s.callers[q])
  }

  lemma {:induction false} ClosedStaysEmpty(s: System, steps: seq<(nat, Action)>, status: PeriodStatus)
    requires HardClosed(status) && NonePast(s) && Held(s, steps, status)
    ensures NonePast(Run(s, steps)) && Run(s, steps).filed == s.filed
  {
    if steps != [] {
      ClosedStaysEmpty(s, steps[..|steps| - 1], status);
    }
  }

  /**
   * Closing freezes a period exactly when no poster is past the trigger at that moment: then nothing
   * is filed while it stays closed, and otherwise the next commit files into it.
   */
  lemma ClosingFreezesExactly(s: System)
    requires HardClosed(s.status)
    ensures (forall steps: seq<(nat, Action)> :: Held(s, steps, s.status) ==> Run(s, steps).filed == s.filed) <==> NonePast(s)
  {
    if NonePast(s) {
      forall steps: seq<(nat, Action)> | Held(s, steps, s.status) ensures Run(s, steps).filed == s.filed {
        ClosedStaysEmpty(s, steps, s.status);
      }
    } else {
      var p :| 0 <= p < |s.callers| && PastGuard(s.callers[p]);
      OneStep(s, p, CommitPost);
      assert Held(s, [(p, CommitPost)], s.status);
    }
  }

  predicate PastUnflagged(c: Caller) {
    c.Guarded? && !c.flag
  }

  predicate NoneUnflagged(s: System) {
    forall q :: 0 <= q < |s.callers| ==> !PastUnflagged(s.callers[q])
  }

  /** What was filed since is flagged. */
  predicate FlaggedSince(before: seq<bool>, after: seq<bool>) {
    |before| <= |after| && forall i :: |before| <= i < |after| ==> after[i]
  }

  lemma {:induction false} SoftClosedStaysFlagged(s: System, steps: seq<(nat, Action)>)
    requires NoneUnflagged(s) && Held(s, steps, SoftClosed)
    ensures NoneUnflagged(Run(s, steps)) && FlaggedSince(s.filed, Run(s, steps).filed)
  {
    if steps != [] {
      SoftClosedStaysFlagged(s, steps[..|steps| - 1]);
    }
  }

  /** A soft close flags every later entry exactly when no unflagged poster is past the trigger. */
  lemma SoftClosingFlagsExactly(s: System)
    requires s.status == SoftClosed
    ensures (forall steps: seq<(nat, Action)> :: Held(s, steps, SoftClosed) ==> FlaggedSince(s.filed, Run(s, steps).filed))
            <==> NoneUnflagged(s)
  {
    if NoneUnflagged(s) {
      forall steps: seq<(nat, Action)> | Held(s, steps, SoftClosed) ensures FlaggedSince(s.filed, Run(s, steps).filed) {
        SoftClosedStaysFlagged(s, steps);
      }
    } else {
      var p :| 0 <= p < |s.callers| && PastUnflagged(s.callers[p]);
      OneStep(s, p, CommitPost);
      assert Held(s, [(p, CommitPost)], SoftClosed);
      assert !Run(s, [(p, CommitPost)]).filed[|s.filed|];
    }
  }

  // ----- Locking -----

  predicate Reopens(c: Caller) {
    c.Changing? && c.target != Locked
  }

  predicate NoneReopens(s: System) {
    forall q :: 0 <= q < |s.callers| ==> !Reopens(s.callers[q])
  }

  lemma {:induction false} LockedStays(s: System, steps: seq<(nat, Action)>)
    requires s.status == Locked && NoneReopens(s)
    ensures Run(s, steps).status == Locked && NoneReopens(Run(s, steps))
  {
    if steps != [] {
      LockedStays(s, steps[..|steps| - 1]);
    }
  }

  /** A lock is for ever exactly when no other status change had read the period before it was locked. */
  lemma LockingLastsExactly(s: System)
    requires s.status == Locked
    ensures (forall steps: seq<(nat, Action)> :: Run(s, steps).status == Locked) <==> NoneReopens(s)
  {
    if NoneReopens(s) {
      forall steps: seq<(nat, Action)> ensures Run(s, steps).status == Locked {
        LockedStays(s, steps);
      }
    } else {
      var p :| 0 <= p < |s.callers| && Reopens(s.callers[p]);
      OneStep(s, p, CommitStatus);
    }
  }

  // ----- Postability -----

  /** The statements' premise: an account with lines is postable. */
  predicate Sound(s: System) {
    s.postable || s.filed == []
  }

  predicate Posting(c: Caller) {
    c.Resolved? || c.Checked? || c.Guarded?
  }

  /** No demotion and no posting are in flight together. */
  predicate Apart(s: System) {
    !((exists q :: 0 <= q < |s.callers| && s.callers[q].Demoting?) && (exists q :: 0 <= q < |s.callers| && Posting(s.callers[q])))
  }

  /** What posters and demoters in flight saw still holds. */
  predicate StillSo(s: System) {
    && (forall q :: 0 <= q < |s.callers| && Posting(s.callers[q]) ==> s.postable)
    && (forall q :: 0 <= q < |s.callers| && s.callers[q].Demoting? ==> s.filed == [])
  }

  predicate ApartThroughout(s: System, steps: seq<(nat, Action)>) {
    Apart(Run(s, steps)) && (steps == [] || ApartThroughout(s, steps[..|steps| - 1]))
  }

  /** Postability holds over every run in which they are kept apart. */
  lemma {:induction false} ApartStaysSound(s: System, steps: seq<(nat, Action)>)
    requires Sound(s) && StillSo(s) && ApartThroughout(s, steps)
    ensures Sound(Run(s, steps)) && StillSo(Run(s, steps))
  {
    if steps != [] {
      var k := |steps| - 1;
      ApartStaysSound(s, steps[..k]);
      ApartBefore(s, steps);
      StepStaysSound(Run(s, steps[..k]), steps[k].0, steps[k].1);
    }
  }

  lemma ApartBefore(s: System, steps: seq<(nat, Action)>)
    requires steps != [] && ApartThroughout(s, steps)
    ensures Apart(Run(s, steps[..|steps| - 1]))
  {
  }

  lemma StepStaysSound(s: System, p: nat, a: Action)
    requires Sound(s) && StillSo(s) && Apart(s)
    ensures Sound(Step(s, p, a)) && StillSo(Step(s, p, a))
  {
    if p < |s.callers| {
      var c, t := s.callers[p], Step(s, p, a);
      if a.CommitPost? && c.Guarded? {
        assert Posting(c);
        forall q | 0 <= q < |t.callers| ensures !t.callers[q].Demoting? {
          assert q != p ==> t.callers[q] == s.callers[q];
        }
      } else if a.CommitDemotion? && c.Demoting? {
        forall q | 0 <= q < |t.callers| ensures !Posting(t.callers[q]) {
          assert q != p ==> t.callers[q] == s.callers[q];
        }
      } else {
        forall q | 0 <= q < |t.callers| && Posting(t.callers[q]) ensures t.postable {
          assert q != p ==> t.callers[q] == s.callers[q];
        }
      }
    }
  }

  /** Steps that start no new call. */
  predicate NoNewCalls(steps: seq<(nat, Action)>) {
    forall i :: 0 <= i < |steps| ==> !StartsCall(steps[i].1)
  }

  predicate StartsCall(a: Action) {
    a.Resolve? || a.ReadStatus? || a.LookForLines?
  }

  /** The period has the status, or a change under way gives it. */
  predicate MayBe(s: System, status: PeriodStatus) {
    s.status == status || exists q :: 0 <= q < |s.callers| && s.callers[q] == Changing(status)
  }

  /** A poster that can still get past the trigger. */
  predicate CanPass(s: System, c: Caller) {
    match c
    case Resolved => MayBe(s, Open) || MayBe(s, SoftClosed)
    case Checked(flag) => MayBe(s, Open) || (flag && MayBe(s, SoftClosed))
    case Guarded(_) => true
    case _ => false
  }

  predicate SomePasses(s: System) {
    exists q :: 0 <= q < |s.callers| && CanPass(s, s.callers[q])
  }

  predicate SomeDemotes(s: System) {
    exists q :: 0 <= q < |s.callers| && s.callers[q].Demoting?
  }

  /**
   * A poster that can still get past the trigger, with a demoter in flight or the account demoted
   * already; or a demoter in flight with lines filed since it looked.
   */
  predicate AtRisk(s: System) {
    (SomePasses(s) && (SomeDemotes(s) || !s.postable)) || (SomeDemotes(s) && s.filed != [])
  }

  /** Statuses run out, and no caller gets ahead of what it could do before. */
  lemma NothingNewPasses(s: System, p: nat, a: Action)
    requires !StartsCall(a)
    ensures var t := Step(s, p, a);
            && |t.callers| == |s.callers|
            && (forall status :: MayBe(t, status) ==> MayBe(s, status))
            && (forall q :: 0 <= q < |s.callers| && CanPass(t, t.callers[q]) ==> CanPass(s, s.callers[q]))
            && (forall q :: 0 <= q < |s.callers| && t.callers[q].Demoting? ==> s.callers[q].Demoting?)
  {
    var t := Step(s, p, a);
    forall status | MayBe(t, status) ensures MayBe(s, status) {
      if t.status == status {
        assert t.status == s.status || s.callers[p] == Changing(status);
      } else {
        var q :| 0 <= q < |t.callers| && t.callers[q] == Changing(status);
        assert s.callers[q] == Changing(status);
      }
    }
  }

  lemma StepKeepsClear(s: System, p: nat, a: Action)
    requires Sound(s) && !AtRisk(s) && !StartsCall(a)
    ensures Sound(Step(s, p, a)) && !AtRisk(Step(s, p, a))
  {
    hide CanPass, MayBe;
    NothingNewPasses(s, p, a);
    GuardedPasses(s);
  }

  lemma GuardedPasses(s: System)
    ensures forall q :: 0 <= q < |s.callers| && s.callers[q].Guarded? ==> CanPass(s, s.callers[q])
  {
  }

  lemma {:induction false} RunKeepsClear(s: System, steps: seq<(nat, Action)>)
    requires Sound(s) && !AtRisk(s) && NoNewCalls(steps)
    ensures Sound(Run(s, steps)) && !AtRisk(Run(s, steps))
  {
    hide Sound, AtRisk, Step;
    if steps != [] {
      var k := |steps| - 1;
      RunKeepsClear(s, steps[..k]);
      StepKeepsClear(Run(s, steps[..k]), steps[k].0, steps[k].1);
    }
  }

  /** A step of caller `p` alone. */
  ghost predicate OnlyMoves(s: System, t: System, p: nat) {
    && |t.callers| == |s.callers| && t.postable == s.postable
    && forall q :: 0 <= q < |s.callers| && q != p && !s.callers[q].Changing? ==> t.callers[q] == s.callers[q]
  }

  lemma Becomes(s: System, status: PeriodStatus) returns (steps: seq<(nat, Action)>)
    requires MayBe(s, status)
    ensures NoNewCalls(steps) && Run(s, steps).status == status && Run(s, steps).filed == s.filed
    ensures OnlyMoves(s, Run(s, steps), |s.callers|)
  {
    if s.status == status {
      steps := [];
    } else {
      var q :| 0 <= q < |s.callers| && s.callers[q] == Changing(status);
      steps := [(q, CommitStatus)];
      OneStep(s, q, CommitStatus);
    }
  }

  lemma GuardedFiles(s: System, first: seq<(nat, Action)>, p: nat) returns (steps: seq<(nat, Action)>)
    requires NoNewCalls(first) && OnlyMoves(s, Run(s, first), p) && p < |s.callers| && Run(s, first).callers[p].Guarded?
    ensures NoNewCalls(steps) && OnlyMoves(s, Run(s, steps), p) && Run(s, steps).filed != []
  {
    hide Run;
    steps := first + [(p, CommitPost)];
    RunSnoc(s, first, p, CommitPost);
  }

  lemma CheckedFiles(s: System, first: seq<(nat, Action)>, p: nat) returns (steps: seq<(nat, Action)>)
    requires NoNewCalls(first) && OnlyMoves(s, Run(s, first), p) && p < |s.callers| && Run(s, first).callers[p].Checked?
    requires Run(s, first).status == Open || (Run(s, first).status == SoftClosed && Run(s, first).callers[p].flag)
    ensures NoNewCalls(steps) && OnlyMoves(s, Run(s, steps), p) && Run(s, steps).filed != []
  {
    hide Run;
    RunSnoc(s, first, p, Guard);
    steps := GuardedFiles(s, first + [(p, Guard)], p);
  }

  lemma ResolvedFiles(s: System, first: seq<(nat, Action)>, p: nat) returns (steps: seq<(nat, Action)>)
    requires NoNewCalls(first) && OnlyMoves(s, Run(s, first), p) && p < |s.callers| && Run(s, first).callers[p].Resolved?
    requires Run(s, first).status == Open || Run(s, first).status == SoftClosed
    ensures NoNewCalls(steps) && OnlyMoves(s, Run(s, steps), p) && Run(s, steps).filed != []
  {
    hide Run;
    RunSnoc(s, first, p, Check(true));
    steps := CheckedFiles(s, first + [(p, Check(true))], p);
  }

  /** Such a poster does get to file its entry, while demoters stay where they are. */
  lemma PasserFiles(s: System, p: nat) returns (steps: seq<(nat, Action)>)
    requires p < |s.callers| && CanPass(s, s.callers[p])
    ensures NoNewCalls(steps) && OnlyMoves(s, Run(s, steps), p) && Run(s, steps).filed != []
  {
    hide Run, MayBe, Step;
    match s.callers[p]
    case Resolved =>
      var first := Becomes(s, if MayBe(s, Open) then Open else SoftClosed);
      steps := ResolvedFiles(s, first, p);
    case Checked(flag) =>
      var first := Becomes(s, if MayBe(s, Open) then Open else SoftClosed);
      steps := CheckedFiles(s, first, p);
    case Guarded(flag) =>
      NoSteps(s);
      steps := GuardedFiles(s, [], p);
  }

  lemma NoSteps(s: System)
    ensures Run(s, []) == s
  {
  }

  lemma AtRiskBreaks(s: System) returns (steps: seq<(nat, Action)>)
    requires AtRisk(s)
    ensures NoNewCalls(steps) && !Sound(Run(s, steps))
  {
    hide Run, CanPass;
    if SomeDemotes(s) && s.filed != [] {
      var q :| 0 <= q < |s.callers| && s.callers[q].Demoting?;
      steps := [(q, CommitDemotion)];
      OneStep(s, q, CommitDemotion);
    } else {
      var p :| 0 <= p < |s.callers| && CanPass(s, s.callers[p]);
      steps := PasserFiles(s, p);
      if s.postable {
        var q :| 0 <= q < |s.callers| && s.callers[q].Demoting?;
        NoDemoterPasses(s);
        RunSnoc(s, steps, q, CommitDemotion);
        steps := steps + [(q, CommitDemotion)];
      }
    }
  }

  lemma NoDemoterPasses(s: System)
    ensures forall c: Caller :: CanPass(s, c) ==> !c.Demoting?
  {
  }

  /**
   * From any sound state, the calls under way keep the account's lines on a postable account, whatever
   * steps they take, exactly when the state is not at risk.
   */
  lemma PostabilityExactly(s: System)
    requires Sound(s)
    ensures (forall steps: seq<(nat, Action)> :: NoNewCalls(steps) ==> Sound(Run(s, steps))) <==> !AtRisk(s)
  {
    hide Sound, AtRisk, Run;
    if AtRisk(s) {
      var steps := AtRiskBreaks(s);
    } else {
      forall steps: seq<(nat, Action)> | NoNewCalls(steps) ensures Sound(Run(s, steps)) {
        RunKeepsClear(s, steps);
      }
    }
  }

  lemma RunSnoc(s: System, steps: seq<(nat, Action)>, p: nat, a: Action)
    ensures Run(s, steps + [(p, a)]) == Step(Run(s, steps), p, a)
  {
    assert (steps + [(p, a)])[..|steps|] == steps;
  }

  // ----- The bad moments are reachable -----

  /** An open period, a postable account, two callers. */
  function Initial(): System {
    System(Open, true, [], [Idle, Idle])
  }

  function PostingSteps(): seq<(nat, Action)> {
    [(0, Resolve), (0, Check(false)), (0, Guard)]
  }

  lemma PosterPastGuard()
    ensures Run(Initial(), PostingSteps()) == Initial().(callers := [Guarded(false), Idle])
  {
    OneStep(Initial(), 0, Resolve);
    RunSnoc(Initial(), [(0, Resolve)], 0, Check(false));
    RunSnoc(Initial(), [(0, Resolve), (0, Check(false))], 0, Guard);
    assert Initial().callers[0 := Resolved] == [Resolved, Idle];
    assert [Resolved, Idle][0 := Checked(false)] == [Checked(false), Idle];
    assert [Checked(false), Idle][0 := Guarded(false)] == [Guarded(false), Idle];
  }

  /**
   * A period closed, soft or hard, while a poster is past the trigger; an account about to be demoted
   * while one is, or has only resolved its line.
   */
  lemma BadMomentsReachable(target: PeriodStatus)
    requires target != Open
    ensures var closing := PostingSteps() + [(1, ReadStatus(target))] + [(1, CommitStatus)];
            Run(Initial(), closing) == System(target, true, [], [Guarded(false), Done])
    ensures var demoting := PostingSteps() + [(1, LookForLines)];
            AtRisk(Run(Initial(), demoting)) && Sound(Run(Initial(), demoting)) && StillSo(Run(Initial(), demoting))
    ensures var early := [(0, Resolve)] + [(1, LookForLines)];
            && Run(Initial(), early) == Initial().(callers := [Resolved, Demoting])
            && AtRisk(Run(Initial(), early)) && Sound(Run(Initial(), early))
  {
    hide Run, AtRisk, Sound, StillSo;
    PosterPastGuard();
    var past := Run(Initial(), PostingSteps());
    RunSnoc(Initial(), PostingSteps(), 1, ReadStatus(target));
    RunSnoc(Initial(), PostingSteps() + [(1, ReadStatus(target))], 1, CommitStatus);
    assert past.callers[1 := Changing(target)] == [Guarded(false), Changing(target)];
    assert [Guarded(false), Changing(target)][1 := Done] == [Guarded(false), Done];
    LateMoment();
    EarlyMoment();
  }

  lemma LateMoment()
    ensures var demoting := PostingSteps() + [(1, LookForLines)];
            AtRisk(Run(Initial(), demoting)) && Sound(Run(Initial(), demoting)) && StillSo(Run(Initial(), demoting))
  {
    PosterPastGuard();
    RunSnoc(Initial(), PostingSteps(), 1, LookForLines);
    var demoted := Run(Initial(), PostingSteps() + [(1, LookForLines)]);
    assert demoted.callers == [Guarded(false), Demoting];
    assert CanPass(demoted, demoted.callers[0]) && demoted.callers[1].Demoting?;
  }

  lemma EarlyMoment()
    ensures var early := [(0, Resolve)] + [(1, LookForLines)];
            && Run(Initial(), early) == Initial().(callers := [Resolved, Demoting])
            && AtRisk(Run(Initial(), early)) && Sound(Run(Initial(), early))
  {
    OneStep(Initial(), 0, Resolve);
    RunSnoc(Initial(), [(0, Resolve)], 1, LookForLines);
    assert Initial().callers[0 := Resolved] == [Resolved, Idle];
    assert [Resolved, Idle][1 := Demoting] == [Resolved, Demoting];
    var s := Run(Initial(), [(0, Resolve)] + [(1, LookForLines)]);
    assert MayBe(s, Open) && CanPass(s, s.callers[0]) && s.callers[1].Demoting?;
  }

  /** A period locked by one caller while another, who read it open, is about to close it: it ends merely closed. */
  lemma LockUndone()
    ensures Run(Initial(), [(0, ReadStatus(Closed))] + [(1, ReadStatus(Locked))] + [(1, CommitStatus)]).status == Locked
    ensures Run(Initial(), [(0, ReadStatus(Closed))] + [(1, ReadStatus(Locked))] + [(1, CommitStatus)] + [(0, CommitStatus)]).status == Closed
  {
    var one := [(0, ReadStatus(Closed))];
    OneStep(Initial(), 0, ReadStatus(Closed));
    RunSnoc(Initial(), one, 1, ReadStatus(Locked));
    RunSnoc(Initial(), one + [(1, ReadStatus(Locked))], 1, CommitStatus);
    RunSnoc(Initial(), one + [(1, ReadStatus(Locked))] + [(1, CommitStatus)], 0, CommitStatus);
  }
}
