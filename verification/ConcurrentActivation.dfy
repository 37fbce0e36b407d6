/**
 * Activating versions of one rule at the same time (`posting-rules.ts`), at READ COMMITTED. The
 * version is read before the transaction; the first update takes the active rows it saw, waiting for
 * those another transaction holds and then looking again at those rows only; no unique index limits
 * the active versions. Any number of callers.
 */
module ConcurrentActivation {
  import opened Prelude
  import opened PostingRules

  /**
   * A caller has read its version's status (`Loaded`), taken the first update's snapshot (`Looked`),
   * superseded what was still active of it (`Swept`: these rows are held until it commits).
   */
  datatype Caller =
    | Idle
    | Loaded(version: nat)
    | Looked(version: nat, seen: set<nat>)
    | Swept(version: nat, swept: set<nat>)
    | Refused
    | Done

  /** The committed rows of one rule. */
  datatype System = System(versions: seq<VersionStatus>, current: Option<nat>, callers: seq<Caller>)

  datatype Action = Load(version: nat) | Look | Sweep | Finish | Abort

  predicate IsActive(s: System, v: nat) {
    v < |s.versions| && s.versions[v] == ActiveVersion
  }

  function ActiveBut(s: System, v: nat): set<nat> {
    set i | 0 <= i < |s.versions| && s.versions[i] == ActiveVersion && i != v
  }

  /** Another caller's transaction holds the row. */
  predicate HeldByOther(s: System, p: nat, v: nat) {
    exists q :: 0 <= q < |s.callers| && q != p && s.callers[q].Swept? && v in s.callers[q].swept
  }

  /** The rows when a caller commits: what it swept is superseded, its version active. */
  function Committed(versions: seq<VersionStatus>, v: nat, swept: set<nat>): seq<VersionStatus> {
    seq(|versions|, i requires 0 <= i < |versions| =>
      if i == v then ActiveVersion else if i in swept then Superseded else versions[i])
  }

  /** One action of caller `p`; one that does not fit it, or has to wait, changes nothing. */
  function Step(s: System, p: nat, a: Action): System {
    if p >= |s.callers| then s
    else
      var c := s.callers[p];
      match a
      case Load(v) =>
        if !c.Idle? then s
        else if v >= |s.versions| || s.versions[v] == Superseded then s.(callers := s.callers[p := Refused])
        else s.(callers := s.callers[p := Loaded(v)])
      case Look =>
        if !c.Loaded? then s else s.(callers := s.callers[p := Looked(c.version, ActiveBut(s, c.version))])
      case Sweep =>
        if !c.Looked? || (exists i :: i in c.seen && HeldByOther(s, p, i)) then s
        else s.(callers := s.callers[p := Swept(c.version, set i | i in c.seen && IsActive(s, i))])
      case Finish =>
        if !c.Swept? || HeldByOther(s, p, c.version) then s
        else System(Committed(s.versions, c.version, c.swept), Some(c.version), s.callers[p := Done])
      case Abort => if c.Idle? || c.Done? then s else s.(callers := s.callers[p := Refused])
  }

  function Run(s: System, steps: seq<(nat, Action)>): System {
    if steps == [] then s
    else var k := |steps| - 1; Step(Run(s, steps[..k]), steps[k].0, steps[k].1)
  }

  lemma RunSnoc(s: System, steps: seq<(nat, Action)>, p: nat, a: Action)
    ensures Run(s, steps + [(p, a)]) == Step(Run(s, steps), p, a)
  {
    assert (steps + [(p, a)])[..|steps|] == steps;
  }

  lemma OneStep(s: System, p: nat, a: Action)
    ensures Run(s, [(p, a)]) == Step(s, p, a)
  {
    assert [(p, a)][..0] == [];
    assert Run(s, []) == s;
  }

  // ----- Alone, it is the activation of the sequential model -----

  function Statuses(versions: seq<Version>): seq<VersionStatus> {
    seq(|versions|, i requires 0 <= i < |versions| => versions[i].status)
  }

  /** A caller that runs all its steps undisturbed makes the change of `ActivateVersion`, or is refused as it is. */
  lemma AloneIsSequential(t: Store, s: System, p: nat, v: nat)
    requires |t.rules| == 1 && forall i :: 0 <= i < |t.versions| ==> t.versions[i].rule == 0
    requires s.versions == Statuses(t.versions) && p < |s.callers| && s.callers[p].Idle?
    requires forall q :: 0 <= q < |s.callers| ==> !s.callers[q].Swept?
    ensures var after := Step(Step(Step(Step(s, p, Load(v)), p, Look), p, Sweep), p, Finish);
            var decided := Decide(t, ActivateVersion(v));
            && (decided.Ok? <==> after.callers[p].Done?)
            && after.versions == Statuses(if decided.Ok? then decided.value.versions else t.versions)
            && (decided.Ok? ==> after.current == decided.value.rules[0].current)
  {
    var loaded := Step(s, p, Load(v));
    if v < |t.versions| && t.versions[v].status != Superseded {
      assert loaded == s.(callers := s.callers[p := Loaded(v)]);
      UndisturbedCommits(loaded, p, v);
      assert Committed(s.versions, v, ActiveBut(s, v)) == Statuses(Activate(t, v).versions);
    } else {
      assert loaded.callers[p] == Refused;
      assert Step(Step(Step(loaded, p, Look), p, Sweep), p, Finish) == loaded;
    }
  }

  lemma Sweeps(s: System, p: nat, v: nat, seen: set<nat>, swept: set<nat>)
    requires p < |s.callers| && s.callers[p] == Looked(v, seen)
    requires forall q :: 0 <= q < |s.callers| ==> !s.callers[q].Swept?
    requires forall i :: i in swept <==> i in seen && IsActive(s, i)
    ensures Step(s, p, Sweep) == s.(callers := s.callers[p := Swept(v, swept)])
  {
    assert (set i | i in s.callers[p].seen && IsActive(s, i)) == swept;
  }

  lemma UndisturbedCommits(s: System, p: nat, v: nat)
    requires p < |s.callers| && s.callers[p] == Loaded(v)
    requires forall q :: 0 <= q < |s.callers| && q != p ==> !s.callers[q].Swept?
    ensures Step(Step(Step(s, p, Look), p, Sweep), p, Finish)
            == System(Committed(s.versions, v, ActiveBut(s, v)), Some(v), s.callers[p := Done])
  {
    var seen := ActiveBut(s, v);
    var looked := s.(callers := s.callers[p := Looked(v, seen)]);
    assert looked == Step(s, p, Look);
    Sweeps(looked, p, v, seen, seen);
    var swept := s.(callers := s.callers[p := Swept(v, seen)]);
    assert looked.callers[p := Swept(v, seen)] == swept.callers;
    assert s.callers[p := Swept(v, seen)][p := Done] == s.callers[p := Done];
  }

  // ----- One active version -----

  ghost predicate OneActive(s: System) {
    forall v, w :: 0 <= v < w < |s.versions| && s.versions[v] == ActiveVersion ==> s.versions[w] != ActiveVersion
  }

  /** A caller that has read a version and not yet ended. */
  predicate Aiming(c: Caller) {
    c.Loaded? || c.Looked? || c.Swept?
  }

  predicate ShareNoRow(c: Caller, d: Caller) {
    c.Swept? && d.Swept? ==> c.swept !! d.swept
  }

  /** A caller's rows are not its own version, and those it holds are active. */
  predicate CallerOk(s: System, c: Caller) {
    && (Aiming(c) ==> c.version < |s.versions|)
    && (c.Looked? ==> c.version !in c.seen)
    && (c.Swept? ==> c.version !in c.swept && forall i :: i in c.swept ==> IsActive(s, i))
  }

  /** So it is in every reachable state, and no row is held twice. */
  ghost predicate HoldsOk(s: System) {
    && (forall q :: 0 <= q < |s.callers| ==> CallerOk(s, s.callers[q]))
    && (forall q, r :: 0 <= q < r < |s.callers| ==> ShareNoRow(s.callers[q], s.callers[r]))
  }

  lemma StepKeepsHolds(s: System, p: nat, a: Action)
    requires HoldsOk(s)
    ensures HoldsOk(Step(s, p, a))
  {
    var t := Step(s, p, a);
    if t != s {
      forall q | 0 <= q < |t.callers| ensures CallerOk(t, t.callers[q]) {
        assert CallerOk(s, s.callers[q]) && CallerOk(s, s.callers[p]);
        if q != p && a == Finish && s.callers[q].Swept? {
          OthersRowsStay(s, p, q);
        }
      }
      forall q, r | 0 <= q < r < |t.callers| ensures ShareNoRow(t.callers[q], t.callers[r]) {
        assert ShareNoRow(s.callers[q], s.callers[r]);
      }
    }
  }

  lemma OthersRowsStay(s: System, p: nat, q: nat)
    requires HoldsOk(s) && p < |s.callers| && q < |s.callers| && p != q && Step(s, p, Finish) != s && s.callers[q].Swept?
    ensures forall i :: i in s.callers[q].swept ==> IsActive(Step(s, p, Finish), i)
  {
    assert CallerOk(s, s.callers[q]);
    assert ShareNoRow(s.callers[if p < q then p else q], s.callers[if p < q then q else p]);
  }

  lemma {:induction false} RunKeepsHolds(s: System, steps: seq<(nat, Action)>)
    requires HoldsOk(s)
    ensures HoldsOk(Run(s, steps))
  {
    hide HoldsOk, Step;
    if steps != [] {
      var k := |steps| - 1;
      RunKeepsHolds(s, steps[..k]);
      StepKeepsHolds(Run(s, steps[..k]), steps[k].0, steps[k].1);
    }
  }

  /** With no call under way. */
  lemma NothingHeld(s: System)
    requires forall q :: 0 <= q < |s.callers| ==> s.callers[q].Idle?
    ensures HoldsOk(s)
  {
  }

  // ----- Exactly when the calls under way keep it -----

  /** The caller, if it has looked, has the version among the rows it means to supersede. */
  predicate Saw(c: Caller, i: nat) {
    (c.Looked? ==> i in c.seen) && (c.Swept? ==> i in c.swept)
  }

  /** A caller that has looked, or has swept, has seen whatever is active besides its own version. */
  ghost predicate UpToDate(s: System) {
    forall q, i :: 0 <= q < |s.callers| && Aiming(s.callers[q]) && IsActive(s, i) && i != s.callers[q].version
      ==> Saw(s.callers[q], i)
  }

  /** All callers that have read a version have read the same one. */
  ghost predicate OneTarget(s: System) {
    forall q, r :: 0 <= q < |s.callers| && 0 <= r < |s.callers| && Aiming(s.callers[q]) && Aiming(s.callers[r])
      ==> s.callers[q].version == s.callers[r].version
  }

  /** Steps that start no new call. */
  predicate NoLoads(steps: seq<(nat, Action)>) {
    forall i :: 0 <= i < |steps| ==> !steps[i].1.Load?
  }

  lemma StepKeepsOne(s: System, p: nat, a: Action)
    requires OneActive(s) && UpToDate(s) && OneTarget(s) && !a.Load?
    ensures var t := Step(s, p, a); OneActive(t) && UpToDate(t) && OneTarget(t)
  {
    var t := Step(s, p, a);
    forall q | 0 <= q < |t.callers| && Aiming(t.callers[q])
      ensures Aiming(s.callers[q]) && t.callers[q].version == s.callers[q].version && (q != p ==> t.callers[q] == s.callers[q])
    {
    }
    if p < |s.callers| && t != s && a == Finish {
      var mine := s.callers[p].version;
      forall i: nat | IsActive(t, i) ensures i == mine {
        assert IsActive(s, i) && i != mine ==> Saw(s.callers[p], i);
      }
      forall v, w | 0 <= v < w < |t.versions| && t.versions[v] == ActiveVersion ensures t.versions[w] != ActiveVersion {
        assert IsActive(t, v) && (IsActive(t, w) ==> w == mine);
      }
    } else {
      SameRows(s, t);
      forall q, i | 0 <= q < |t.callers| && Aiming(t.callers[q]) && IsActive(t, i) && i != t.callers[q].version
        ensures Saw(t.callers[q], i)
      {
        assert IsActive(s, i) && Saw(s.callers[q], i);
      }
    }
  }

  lemma {:induction false} RunKeepsOne(s: System, steps: seq<(nat, Action)>)
    requires OneActive(s) && UpToDate(s) && OneTarget(s) && NoLoads(steps)
    ensures var t := Run(s, steps); OneActive(t) && UpToDate(t) && OneTarget(t)
  {
    hide OneActive, UpToDate, OneTarget, Step;
    if steps != [] {
      var k := |steps| - 1;
      RunKeepsOne(s, steps[..k]);
      StepKeepsOne(Run(s, steps[..k]), steps[k].0, steps[k].1);
    }
  }

  /** Some run that starts no new call ends with two active versions. */
  ghost predicate CanBreak(s: System) {
    exists steps: seq<(nat, Action)> :: NoLoads(steps) && !OneActive(Run(s, steps))
  }

  lemma {:induction false} RunConcat(s: System, first: seq<(nat, Action)>, rest: seq<(nat, Action)>)
    ensures Run(s, first + rest) == Run(Run(s, first), rest)
  {
    hide Step;
    if rest == [] {
      assert first + rest == first;
    } else {
      var k := |rest| - 1;
      RunConcat(s, first, rest[..k]);
      assert (first + rest)[..|first| + k] == first + rest[..k];
    }
  }

  lemma BreaksLater(s: System, first: seq<(nat, Action)>)
    requires NoLoads(first) && CanBreak(Run(s, first))
    ensures CanBreak(s)
  {
    hide OneActive, Run;
    var rest: seq<(nat, Action)> :| NoLoads(rest) && !OneActive(Run(Run(s, first), rest));
    RunConcat(s, first, rest);
    assert NoLoads(first + rest);
  }

  lemma BreaksAfter(s: System, p: nat, a: Action)
    requires !a.Load? && CanBreak(Step(s, p, a))
    ensures CanBreak(s)
  {
    hide Step, Run, OneActive;
    OneStep(s, p, a);
    BreaksLater(s, [(p, a)]);
  }

  lemma Broken(s: System, v: nat, w: nat)
    requires v != w && IsActive(s, v) && IsActive(s, w)
    ensures CanBreak(s)
  {
    NoSteps(s);
    assert !OneActive(Run(s, []));
  }

  lemma OnlyActiveIsHeld(s: System, p: nat, v: nat)
    requires HoldsOk(s) && !IsActive(s, v)
    ensures !HeldByOther(s, p, v)
  {
  }

  /** A caller that has swept and missed an active version leaves two. */
  lemma StaleFinishBreaks(s: System, p: nat, i: nat)
    requires OneActive(s) && HoldsOk(s) && p < |s.callers| && s.callers[p].Swept?
    requires IsActive(s, i) && i !in s.callers[p].swept && i != s.callers[p].version
    ensures CanBreak(s)
  {
    var v := s.callers[p].version;
    assert CallerOk(s, s.callers[p]);
    assert !IsActive(s, v);
    OnlyActiveIsHeld(s, p, v);
    Broken(Step(s, p, Finish), i, v);
    BreaksAfter(s, p, Finish);
  }

  /** What the first update takes of its snapshot, when nobody holds any of it. */
  lemma SweepsFreely(s: System, p: nat)
    requires p < |s.callers| && s.callers[p].Looked? && forall i: nat :: i in s.callers[p].seen ==> !HeldByOther(s, p, i)
    ensures Step(s, p, Sweep)
            == s.(callers := s.callers[p := Swept(s.callers[p].version, set i | i in s.callers[p].seen && IsActive(s, i))])
  {
  }

  // ----- One or two callers left -----

  /** Nobody but the two is under way. */
  ghost predicate OnlyThey(s: System, p: nat, q: nat) {
    && p < |s.callers| && q < |s.callers|
    && forall r :: 0 <= r < |s.callers| && r != p && r != q ==> !Aiming(s.callers[r])
  }

  /** No snapshot holds two versions. */
  ghost predicate SeenOne(s: System) {
    forall q, i, j :: 0 <= q < |s.callers| && s.callers[q].Looked? && i in s.callers[q].seen && j in s.callers[q].seen ==> i == j
  }

  /** A caller that missed an active version, alone. */
  lemma StaleBreaks(s: System, p: nat, i: nat)
    requires OneActive(s) && HoldsOk(s) && OnlyThey(s, p, p) && Aiming(s.callers[p])
    requires IsActive(s, i) && i != s.callers[p].version && !Saw(s.callers[p], i)
    ensures CanBreak(s)
  {
    if s.callers[p].Swept? {
      StaleFinishBreaks(s, p, i);
    } else {
      SweepsFreely(s, p);
      var t := Step(s, p, Sweep);
      StepKeepsHolds(s, p, Sweep);
      SameRows(s, t);
      assert t.callers[p].Swept? && i !in t.callers[p].swept;
      StaleFinishBreaks(t, p, i);
      BreaksAfter(s, p, Sweep);
    }
  }

  /** Two that have swept: the one whose version the other does not hold commits first. */
  lemma TwoSweptBreak(s: System, p: nat, q: nat)
    requires OneActive(s) && HoldsOk(s) && UpToDate(s) && OnlyThey(s, p, q) && p != q
    requires s.callers[p].Swept? && s.callers[q].Swept? && s.callers[p].version != s.callers[q].version
    requires s.callers[p].version !in s.callers[q].swept
    ensures CanBreak(s)
  {
    var v, w := s.callers[p].version, s.callers[q].version;
    assert CallerOk(s, s.callers[p]) && CallerOk(s, s.callers[q]);
    var t := Step(s, p, Finish);
    assert !HeldByOther(s, p, v);
    assert t.callers[q] == s.callers[q] && IsActive(t, v);
    forall r | 0 <= r < |t.callers| && r != q ensures !t.callers[r].Swept? {
    }
    var u := Step(t, q, Finish);
    assert u.versions[v] == ActiveVersion && u.versions[w] == ActiveVersion;
    Broken(u, v, w);
    BreaksAfter(t, q, Finish);
    BreaksAfter(s, p, Finish);
  }

  lemma BothSweptBreak(s: System, p: nat, q: nat)
    requires OneActive(s) && HoldsOk(s) && UpToDate(s) && OnlyThey(s, p, q) && p != q
    requires s.callers[p].Swept? && s.callers[q].Swept? && s.callers[p].version != s.callers[q].version
    ensures CanBreak(s)
  {
    assert CallerOk(s, s.callers[p]) && CallerOk(s, s.callers[q]);
    if s.callers[p].version !in s.callers[q].swept {
      TwoSweptBreak(s, p, q);
    } else {
      assert IsActive(s, s.callers[p].version);
      assert s.callers[q].version !in s.callers[p].swept;
      TwoSweptBreak(s, q, p);
    }
  }

  /** One has swept, the other has looked: it sweeps too, or waits, and then finds its one row superseded. */
  lemma SweptAndLookedBreak(s: System, p: nat, q: nat)
    requires OneActive(s) && HoldsOk(s) && UpToDate(s) && OneTargetFails(s, p, q) && SeenOne(s)
    requires s.callers[p].Swept? && s.callers[q].Looked?
    ensures CanBreak(s)
  {
    assert CallerOk(s, s.callers[p]) && CallerOk(s, s.callers[q]);
    if forall i: nat :: i in s.callers[q].seen ==> !HeldByOther(s, q, i) {
      SweepsFreely(s, q);
      StepKeepsHolds(s, q, Sweep);
      var t := Step(s, q, Sweep);
      SameRows(s, t);
      SweepKeepsUpToDate(s, q);
      BothSweptBreak(t, p, q);
      BreaksAfter(s, q, Sweep);
    } else {
      WaitedSweepBreaks(s, p, q);
    }
  }

  /** The two are the only ones under way, with different versions. */
  ghost predicate OneTargetFails(s: System, p: nat, q: nat) {
    && OnlyThey(s, p, q) && p != q && Aiming(s.callers[p]) && Aiming(s.callers[q])
    && s.callers[p].version != s.callers[q].version
  }

  lemma SweepKeepsUpToDate(s: System, q: nat)
    requires UpToDate(s)
    ensures UpToDate(Step(s, q, Sweep))
  {
    var t := Step(s, q, Sweep);
    if t != s {
      SameRows(s, t);
      forall r, i | 0 <= r < |t.callers| && Aiming(t.callers[r]) && IsActive(t, i) && i != t.callers[r].version
        ensures Saw(t.callers[r], i)
      {
        assert IsActive(s, i) && Saw(s.callers[r], i);
      }
    }
  }

  /** The other holds its one row: that caller commits, and the row is no longer active. */
  lemma WaitedSweepBreaks(s: System, p: nat, q: nat)
    requires OneActive(s) && HoldsOk(s) && OneTargetFails(s, p, q) && SeenOne(s)
    requires s.callers[p].Swept? && s.callers[q].Looked? && exists i: nat :: i in s.callers[q].seen && HeldByOther(s, q, i)
    ensures CanBreak(s)
  {
    var v, w := s.callers[p].version, s.callers[q].version;
    assert CallerOk(s, s.callers[p]) && CallerOk(s, s.callers[q]);
    var i: nat :| i in s.callers[q].seen && HeldByOther(s, q, i);
    assert i in s.callers[p].swept && i != v;
    assert !HeldByOther(s, p, v);
    var t := Step(s, p, Finish);
    assert t.callers[q] == s.callers[q] && IsActive(t, v) && !IsActive(t, i) && !Aiming(t.callers[p]);
    assert forall r :: 0 <= r < |t.callers| && r != q ==> !Aiming(t.callers[r]);
    SweepsFreely(t, q);
    var u := Step(t, q, Sweep);
    assert u.callers[q] == Swept(w, set j | j in t.callers[q].seen && IsActive(t, j));
    assert v !in u.callers[q].swept;
    var x := Step(u, q, Finish);
    assert !HeldByOther(u, q, w);
    assert x.versions[v] == ActiveVersion && x.versions[w] == ActiveVersion;
    Broken(x, v, w);
    BreaksAfter(u, q, Finish);
    BreaksAfter(t, q, Sweep);
    BreaksAfter(s, p, Finish);
  }

  /** Both have looked: one sweeps. */
  lemma BothLookedBreak(s: System, p: nat, q: nat)
    requires OneActive(s) && HoldsOk(s) && UpToDate(s) && OneTargetFails(s, p, q) && SeenOne(s)
    requires s.callers[p].Looked? && s.callers[q].Looked?
    ensures CanBreak(s)
  {
    SweepsFreely(s, p);
    StepKeepsHolds(s, p, Sweep);
    SweepKeepsUpToDate(s, p);
    var t := Step(s, p, Sweep);
    SameRows(s, t);
    SweptAndLookedBreak(t, p, q);
    BreaksAfter(s, p, Sweep);
  }

  lemma PastLookingBreak(s: System, p: nat, q: nat)
    requires OneActive(s) && HoldsOk(s) && UpToDate(s) && OneTargetFails(s, p, q) && SeenOne(s)
    requires !s.callers[p].Loaded? && !s.callers[q].Loaded?
    ensures CanBreak(s)
  {
    if s.callers[p].Looked? && s.callers[q].Looked? {
      BothLookedBreak(s, p, q);
    } else if s.callers[p].Looked? {
      SweptAndLookedBreak(s, q, p);
    } else if s.callers[q].Looked? {
      SweptAndLookedBreak(s, p, q);
    } else {
      BothSweptBreak(s, p, q);
    }
  }

  lemma Looks(s: System, p: nat)
    requires OneActive(s) && HoldsOk(s) && UpToDate(s) && SeenOne(s)
    ensures var t := Step(s, p, Look); OneActive(t) && HoldsOk(t) && UpToDate(t) && SeenOne(t)
    ensures p < |s.callers| && s.callers[p].Loaded? ==> Step(s, p, Look).callers[p].Looked?
  {
    var t := Step(s, p, Look);
    StepKeepsHolds(s, p, Look);
    SameRows(s, t);
    forall r, i | 0 <= r < |t.callers| && Aiming(t.callers[r]) && IsActive(t, i) && i != t.callers[r].version
      ensures Saw(t.callers[r], i)
    {
      assert IsActive(s, i) && (r != p ==> Saw(s.callers[r], i));
    }
  }

  /** Two callers with different versions, whatever they have done so far. */
  lemma TwoTargetsBreak(s: System, p: nat, q: nat)
    requires OneActive(s) && HoldsOk(s) && UpToDate(s) && OneTargetFails(s, p, q) && SeenOne(s)
    ensures CanBreak(s)
  {
    hide OneActive, HoldsOk, UpToDate, SeenOne;
    Looks(s, p);
    var t := Step(s, p, Look);
    Looks(t, q);
    var u := Step(t, q, Look);
    assert OneTargetFails(u, p, q);
    PastLookingBreak(u, p, q);
    BreaksAfter(t, q, Look);
    BreaksAfter(s, p, Look);
  }

  // ----- The others abort -----

  /** Of the first `n` callers, all but two abort. */
  function OthersAbort(p: nat, q: nat, n: nat): seq<(nat, Action)> {
    if n == 0 then [] else OthersAbort(p, q, n - 1) + if n - 1 == p || n - 1 == q then [] else [(n - 1, Abort)]
  }

  lemma Aborts(s: System, p: nat)
    requires p < |s.callers|
    ensures var t := Step(s, p, Abort);
            && t.versions == s.versions && |t.callers| == |s.callers| && !Aiming(t.callers[p])
            && forall q :: 0 <= q < |s.callers| && q != p ==> t.callers[q] == s.callers[q]
  {
  }

  lemma {:induction false} OthersAborted(s: System, p: nat, q: nat, n: nat)
    requires p < |s.callers| && q < |s.callers| && n <= |s.callers|
    ensures var t := Run(s, OthersAbort(p, q, n));
            && NoLoads(OthersAbort(p, q, n)) && t.versions == s.versions && |t.callers| == |s.callers|
            && (forall r :: 0 <= r < |s.callers| && (r >= n || r == p || r == q) ==> t.callers[r] == s.callers[r])
            && forall r :: 0 <= r < n && r != p && r != q ==> !Aiming(t.callers[r])
  {
    hide Step, Run;
    if n == 0 {
      NoSteps(s);
    } else {
      OthersAborted(s, p, q, n - 1);
      if n - 1 == p || n - 1 == q {
        assert OthersAbort(p, q, n - 1) + [] == OthersAbort(p, q, n - 1);
      } else {
        RunSnoc(s, OthersAbort(p, q, n - 1), n - 1, Abort);
        Aborts(Run(s, OthersAbort(p, q, n - 1)), n - 1);
      }
    }
  }

  lemma NoSteps(s: System)
    ensures Run(s, []) == s
  {
  }

  /** With the others gone, what was known of the two is still so. */
  lemma TwoLeft(s: System, p: nat, q: nat) returns (t: System)
    requires OneActive(s) && HoldsOk(s) && SeenOne(s) && p < |s.callers| && q < |s.callers|
    ensures OneActive(t) && HoldsOk(t) && SeenOne(t) && OnlyThey(t, p, q) && (UpToDate(s) ==> UpToDate(t))
    ensures t.versions == s.versions && t.callers[p] == s.callers[p] && t.callers[q] == s.callers[q]
    ensures CanBreak(t) ==> CanBreak(s)
  {
    hide Step, Run, CanBreak, HoldsOk;
    var clear := OthersAbort(p, q, |s.callers|);
    OthersAborted(s, p, q, |s.callers|);
    RunKeepsHolds(s, clear);
    t := Run(s, clear);
    SameRows(s, t);
    if CanBreak(t) {
      BreaksLater(s, clear);
    }
  }

  // ----- Over histories -----

  ghost predicate OneActiveThroughout(s: System, steps: seq<(nat, Action)>) {
    OneActive(Run(s, steps)) && (steps == [] || OneActiveThroughout(s, steps[..|steps| - 1]))
  }

  lemma StepKeepsSeen(s: System, p: nat, a: Action)
    requires OneActive(s) && SeenOne(s)
    ensures SeenOne(Step(s, p, a))
  {
  }

  lemma {:induction false} RunKeepsSeen(s: System, steps: seq<(nat, Action)>)
    requires SeenOne(s) && OneActiveThroughout(s, steps)
    ensures SeenOne(Run(s, steps)) && OneActive(Run(s, steps))
  {
    hide SeenOne, OneActive, Step;
    if steps != [] {
      var k := |steps| - 1;
      assert OneActiveThroughout(s, steps[..k]);
      RunKeepsSeen(s, steps[..k]);
      StepKeepsSeen(Run(s, steps[..k]), steps[k].0, steps[k].1);
    }
  }

  /**
   * As long as the rule never had two active versions: the calls under way leave at most one, whatever
   * steps they take, exactly when each that has looked or swept has seen whatever else is active and
   * all that have read a version have read the same one.
   */
  lemma OneActiveExactly(start: System, before: seq<(nat, Action)>)
    requires forall q :: 0 <= q < |start.callers| ==> start.callers[q].Idle?
    requires OneActiveThroughout(start, before)
    ensures var s := Run(start, before);
            (forall steps: seq<(nat, Action)> :: NoLoads(steps) ==> OneActive(Run(s, steps)))
            <==> UpToDate(s) && OneTarget(s)
  {
    hide OneActive, HoldsOk, Step, Run, UpToDate, OneTarget;
    NothingHeld(start);
    RunKeepsHolds(start, before);
    RunKeepsSeen(start, before);
    UnderWayExactly(Run(start, before));
  }

  lemma UnderWayExactly(s: System)
    requires OneActive(s) && HoldsOk(s) && SeenOne(s)
    ensures (forall steps: seq<(nat, Action)> :: NoLoads(steps) ==> OneActive(Run(s, steps)))
            <==> UpToDate(s) && OneTarget(s)
  {
    hide OneActive, HoldsOk, SeenOne, Step, Run, Saw;
    if UpToDate(s) && OneTarget(s) {
      forall steps: seq<(nat, Action)> | NoLoads(steps) ensures OneActive(Run(s, steps)) {
        RunKeepsOne(s, steps);
      }
    } else if !UpToDate(s) {
      var p, i :| 0 <= p < |s.callers| && Aiming(s.callers[p]) && IsActive(s, i) && i != s.callers[p].version && !Saw(s.callers[p], i);
      var t := TwoLeft(s, p, p);
      StaleBreaks(t, p, i);
    } else {
      var p, q :| 0 <= p < |s.callers| && 0 <= q < |s.callers| && Aiming(s.callers[p]) && Aiming(s.callers[q])
                  && s.callers[p].version != s.callers[q].version;
      var t := TwoLeft(s, p, q);
      TwoTargetsBreak(t, p, q);
    }
  }

  // ----- Kept apart -----

  predicate UnderWay(c: Caller) {
    c.Looked? || c.Swept?
  }

  /** At most one transaction is open. */
  ghost predicate Apart(s: System) {
    forall p, q :: 0 <= p < q < |s.callers| && UnderWay(s.callers[p]) ==> !UnderWay(s.callers[q])
  }

  ghost predicate ApartThroughout(s: System, steps: seq<(nat, Action)>) {
    Apart(Run(s, steps)) && (steps == [] || ApartThroughout(s, steps[..|steps| - 1]))
  }

  /** The rule points at its only active version, and an open transaction has seen what is active. */
  ghost predicate CurrentIsActive(s: System) {
    && OneActive(s)
    && (forall v: nat :: IsActive(s, v) <==> s.current == Some(v))
    && (forall q :: 0 <= q < |s.callers| && (s.callers[q].Loaded? || UnderWay(s.callers[q])) ==> s.callers[q].version < |s.versions|)
    && (forall q :: 0 <= q < |s.callers| && s.callers[q].Looked? ==> s.callers[q].seen == ActiveBut(s, s.callers[q].version))
    && (forall q :: 0 <= q < |s.callers| && s.callers[q].Swept? ==> s.callers[q].swept == ActiveBut(s, s.callers[q].version))
  }

  lemma StepKeepsCurrent(s: System, p: nat, a: Action)
    requires CurrentIsActive(s) && Apart(s)
    ensures CurrentIsActive(Step(s, p, a))
  {
    var t := Step(s, p, a);
    if p < |s.callers| && t != s {
      var c := s.callers[p];
      match a
      case Finish =>
        forall i: nat ensures IsActive(t, i) <==> i == c.version {
          assert IsActive(s, i) && i != c.version ==> i in ActiveBut(s, c.version);
        }
        forall q | 0 <= q < |t.callers| ensures !UnderWay(t.callers[q]) {
          assert q != p ==> t.callers[q] == s.callers[q];
        }
      case Sweep =>
        assert (set i | i in c.seen && IsActive(s, i)) == ActiveBut(s, c.version);
        SameRows(s, t);
      case _ => SameRows(s, t);
    }
  }

  lemma SameRows(s: System, t: System)
    requires s.versions == t.versions
    ensures forall v: nat :: (IsActive(s, v) <==> IsActive(t, v)) && ActiveBut(s, v) == ActiveBut(t, v)
    ensures OneActive(s) <==> OneActive(t)
  {
  }

  /** Over every run that keeps the transactions apart, the rule has one active version and points at it. */
  lemma {:induction false} ApartKeepsOne(s: System, steps: seq<(nat, Action)>)
    requires CurrentIsActive(s) && ApartThroughout(s, steps)
    ensures CurrentIsActive(Run(s, steps))
  {
    hide CurrentIsActive, Apart, Step;
    if steps != [] {
      var k := |steps| - 1;
      ApartKeepsOne(s, steps[..k]);
      ApartBefore(s, steps);
      StepKeepsCurrent(Run(s, steps[..k]), steps[k].0, steps[k].1);
    }
  }

  lemma ApartBefore(s: System, steps: seq<(nat, Action)>)
    requires steps != [] && ApartThroughout(s, steps)
    ensures Apart(Run(s, steps[..|steps| - 1]))
  {
    hide Apart;
  }

  // ----- Superseded for good -----

  predicate Aims(c: Caller, v: nat) {
    Aiming(c) && c.version == v
  }

  predicate NoneAims(s: System, v: nat) {
    forall q :: 0 <= q < |s.callers| ==> !Aims(s.callers[q], v)
  }

  predicate Retired(s: System, v: nat) {
    v < |s.versions| && s.versions[v] == Superseded
  }

  lemma {:induction false} RetiredStays(s: System, v: nat, steps: seq<(nat, Action)>)
    requires Retired(s, v) && NoneAims(s, v)
    ensures Retired(Run(s, steps), v) && NoneAims(Run(s, steps), v)
  {
    if steps != [] {
      var k := |steps| - 1;
      RetiredStays(s, v, steps[..k]);
      StepKeepsRetired(Run(s, steps[..k]), v, steps[k].0, steps[k].1);
    }
  }

  lemma StepKeepsRetired(s: System, v: nat, p: nat, a: Action)
    requires Retired(s, v) && NoneAims(s, v)
    ensures Retired(Step(s, p, a), v) && NoneAims(Step(s, p, a), v)
  {
    var t := Step(s, p, a);
    forall q | 0 <= q < |t.callers| ensures !Aims(t.callers[q], v) {
      assert !Aims(s.callers[q], v);
    }
  }

  /** A caller that nobody holds up brings its version back. */
  lemma UnhinderedReturns(s: System, v: nat, p: nat)
    requires Retired(s, v) && p < |s.callers| && Aims(s.callers[p], v)
    requires forall q :: 0 <= q < |s.callers| && q != p ==> !s.callers[q].Swept?
    ensures !Retired(Step(Step(Step(s, p, Look), p, Sweep), p, Finish), v)
  {
    var looked := Step(s, p, Look);
    assert looked.versions == s.versions && (looked.callers[p].Looked? || looked.callers[p].Swept?) && looked.callers[p].version == v;
    NobodyHolds(s, looked, p);
    var swept := Step(looked, p, Sweep);
    assert swept.versions == s.versions && swept.callers[p].Swept? && swept.callers[p].version == v;
    NobodyHolds(looked, swept, p);
  }

  lemma AimedReturns(s: System, v: nat, p: nat)
    requires Retired(s, v) && p < |s.callers| && Aims(s.callers[p], v)
    ensures exists steps: seq<(nat, Action)> :: !Retired(Run(s, steps), v)
  {
    hide Step, Run;
    var clear := OthersAbort(p, p, |s.callers|);
    OthersAborted(s, p, p, |s.callers|);
    UnhinderedReturns(Run(s, clear), v, p);
    RunSnoc(s, clear, p, Look);
    RunSnoc(s, clear + [(p, Look)], p, Sweep);
    RunSnoc(s, clear + [(p, Look)] + [(p, Sweep)], p, Finish);
    assert !Retired(Run(s, clear + [(p, Look)] + [(p, Sweep)] + [(p, Finish)]), v);
  }

  lemma NobodyHolds(s: System, t: System, p: nat)
    requires |t.callers| == |s.callers| && forall q :: 0 <= q < |s.callers| && q != p ==> t.callers[q] == s.callers[q]
    requires forall q :: 0 <= q < |s.callers| && q != p ==> !s.callers[q].Swept?
    ensures forall i: nat :: !HeldByOther(s, p, i) && !HeldByOther(t, p, i)
  {
  }

  /** A superseded version stays superseded for ever exactly when no caller had read it before it was superseded. */
  lemma SupersededLastsExactly(s: System, v: nat)
    requires Retired(s, v)
    ensures (forall steps: seq<(nat, Action)> :: Retired(Run(s, steps), v)) <==> NoneAims(s, v)
  {
    if NoneAims(s, v) {
      forall steps: seq<(nat, Action)> ensures Retired(Run(s, steps), v) {
        RetiredStays(s, v, steps);
      }
    } else {
      var p :| 0 <= p < |s.callers| && Aims(s.callers[p], v);
      AimedReturns(s, v, p);
    }
  }

  // ----- Both failures are reachable -----

  /** Version 0 is active, versions 1 and 2 are drafts; two callers. */
  function Initial(): System {
    System([ActiveVersion, DraftVersion, DraftVersion], Some(0), [Idle, Idle])
  }

  /** Both have read and looked. */
  function BothLooked(): System {
    Initial().(callers := [Looked(1, {0}), Looked(2, {0})])
  }

  lemma BothLook()
    ensures Run(Initial(), [(0, Load(1))] + [(1, Load(2))] + [(0, Look)] + [(1, Look)]) == BothLooked()
  {
    hide Run;
    var s := Initial();
    var loaded := s.(callers := [Loaded(1), Loaded(2)]);
    OneStep(s, 0, Load(1));
    RunSnoc(s, [(0, Load(1))], 1, Load(2));
    RunSnoc(s, [(0, Load(1))] + [(1, Load(2))], 0, Look);
    RunSnoc(s, [(0, Load(1))] + [(1, Load(2))] + [(0, Look)], 1, Look);
    assert Step(Step(s, 0, Load(1)), 1, Load(2)) == loaded;
    assert ActiveBut(loaded, 1) == {0};
    var one := loaded.(callers := [Looked(1, {0}), Loaded(2)]);
    assert Step(loaded, 0, Look) == one;
    assert ActiveBut(one, 2) == {0};
  }

  /** The first commits; the second, which had to wait for version 0, never sees version 1. */
  lemma BothFinish()
    ensures Step(Step(Step(Step(BothLooked(), 0, Sweep), 0, Finish), 1, Sweep), 1, Finish)
            == System([Superseded, ActiveVersion, ActiveVersion], Some(2), [Done, Done])
  {
    var s := BothLooked();
    Sweeps(s, 0, 1, {0}, {0});
    var one := s.(callers := [Swept(1, {0}), Looked(2, {0})]);
    assert s.callers[0 := Swept(1, {0})] == one.callers;
    var two := System([Superseded, ActiveVersion, DraftVersion], Some(1), [Done, Looked(2, {0})]);
    assert Committed(s.versions, 1, {0}) == two.versions;
    assert Step(one, 0, Finish) == two;
    Sweeps(two, 1, 2, {0}, {});
    assert two.callers[1 := Swept(2, {})] == [Done, Swept(2, {})];
    var three := two.(callers := [Done, Swept(2, {})]);
    assert Committed(two.versions, 2, {}) == [Superseded, ActiveVersion, ActiveVersion];
    assert Step(three, 1, Finish) == System([Superseded, ActiveVersion, ActiveVersion], Some(2), [Done, Done]);
  }

  /**
   * So a run from an ordinary state ends with two active versions of the rule. It passes through a state
   * with one, which the condition above already tells from a safe one.
   */
  lemma TwoActive()
    ensures CurrentIsActive(Initial()) && OneActive(BothLooked()) && !OneTarget(BothLooked())
    ensures var both := [(0, Load(1))] + [(1, Load(2))] + [(0, Look)] + [(1, Look)];
            var race := both + [(0, Sweep)] + [(0, Finish)] + [(1, Sweep)] + [(1, Finish)];
            && Run(Initial(), race).versions == [Superseded, ActiveVersion, ActiveVersion]
            && Run(Initial(), race).current == Some(2)
  {
    hide Run, Step;
    var looked := BothLooked();
    assert Aiming(looked.callers[0]) && Aiming(looked.callers[1]) && looked.callers[0].version != looked.callers[1].version;
    var both := [(0, Load(1))] + [(1, Load(2))] + [(0, Look)] + [(1, Look)];
    BothLook();
    BothFinish();
    RunSnoc(Initial(), both, 0, Sweep);
    RunSnoc(Initial(), both + [(0, Sweep)], 0, Finish);
    RunSnoc(Initial(), both + [(0, Sweep)] + [(0, Finish)], 1, Sweep);
    RunSnoc(Initial(), both + [(0, Sweep)] + [(0, Finish)] + [(1, Sweep)], 1, Finish);
  }

  /** Version 0, active, has been read for activation; version 1 is activated meanwhile. */
  lemma SupersededReturns()
    ensures var meanwhile := [(0, Load(0))] + [(1, Load(1))] + [(1, Look)] + [(1, Sweep)] + [(1, Finish)];
            && Retired(Run(Initial(), meanwhile), 0)
            && exists steps: seq<(nat, Action)> :: !Retired(Run(Run(Initial(), meanwhile), steps), 0)
  {
    hide Run;
    var s := Initial();
    var meanwhile := [(0, Load(0))] + [(1, Load(1))] + [(1, Look)] + [(1, Sweep)] + [(1, Finish)];
    var loaded := s.(callers := [Loaded(0), Loaded(1)]);
    OneStep(s, 0, Load(0));
    RunSnoc(s, [(0, Load(0))], 1, Load(1));
    RunSnoc(s, [(0, Load(0))] + [(1, Load(1))], 1, Look);
    RunSnoc(s, [(0, Load(0))] + [(1, Load(1))] + [(1, Look)], 1, Sweep);
    RunSnoc(s, [(0, Load(0))] + [(1, Load(1))] + [(1, Look)] + [(1, Sweep)], 1, Finish);
    assert Step(Step(s, 0, Load(0)), 1, Load(1)) == loaded;
    UndisturbedCommits(loaded, 1, 1);
    assert ActiveBut(loaded, 1) == {0};
    var t := Run(s, meanwhile);
    assert Retired(t, 0) && Aims(t.callers[0], 0);
    AimedReturns(t, 0, 0);
  }
}
