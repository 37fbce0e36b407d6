/**
 * Linking related entities at the same time (`books.ts`), at READ COMMITTED: both checks of
 * `linkEntity` read links that were committed when it looked; at the insert only the exclusion
 * constraint looks again, and it compares links of one entity. Any number of callers.
 */
module ConcurrentLinking {
  import opened Prelude
  import opened Calendar
  import opened BookLinks

  datatype Caller = Waiting | Checked(link: Link) | Refused | Inserted

  datatype System = System(store: Store, callers: seq<Caller>)

  datatype Action = Check(link: Link) | Insert

  /** All of `linkEntity` but the constraint, which is its last objection. */
  ghost predicate Passes(s: Store, depth: seq<nat>, l: Link)
    requires Acyclic(s.parents, depth)
  {
    DecideLink(s, depth, l).Ok? || DecideLink(s, depth, l) == Err(Conflict)
  }

  predicate Fits(s: Store, l: Link) {
    !l.primary || !Excludes(s.links, |s.links|, l.entity, l.from, l.to)
  }

  ghost function Step(s: System, depth: seq<nat>, p: nat, a: Action): (t: System)
    requires Acyclic(s.store.parents, depth)
    ensures t.store.parents == s.store.parents && |t.callers| == |s.callers|
  {
    if p >= |s.callers| then s
    else
      match a
      case Check(l) =>
        if !s.callers[p].Waiting? then s
        else s.(callers := s.callers[p := if Passes(s.store, depth, l) then Checked(l) else Refused])
      case Insert =>
        if !s.callers[p].Checked? then s
        else if !Fits(s.store, s.callers[p].link) then s.(callers := s.callers[p := Refused])
        else System(s.store.(links := s.store.links + [s.callers[p].link]), s.callers[p := Inserted])
  }

  ghost function Run(s: System, depth: seq<nat>, steps: seq<(nat, Action)>): (t: System)
    requires Acyclic(s.store.parents, depth)
    ensures t.store.parents == s.store.parents && |t.callers| == |s.callers|
  {
    if steps == [] then s
    else var k := |steps| - 1; Step(Run(s, depth, steps[..k]), depth, steps[k].0, steps[k].1)
  }

  lemma RunSnoc(s: System, depth: seq<nat>, steps: seq<(nat, Action)>, p: nat, a: Action)
    requires Acyclic(s.store.parents, depth)
    ensures Run(s, depth, steps + [(p, a)]) == Step(Run(s, depth, steps), depth, p, a)
  {
    assert (steps + [(p, a)])[..|steps|] == steps;
  }

  lemma OneStep(s: System, depth: seq<nat>, p: nat, a: Action)
    requires Acyclic(s.store.parents, depth)
    ensures Run(s, depth, [(p, a)]) == Step(s, depth, p, a)
  {
    assert [(p, a)][..0] == [];
    assert Run(s, depth, []) == s;
  }

  /** A caller that checks and inserts undisturbed does what `linkEntity` decides. */
  lemma AloneIsSequential(s: System, depth: seq<nat>, p: nat, l: Link)
    requires Acyclic(s.store.parents, depth) && p < |s.callers| && s.callers[p].Waiting?
    ensures var after := Step(Step(s, depth, p, Check(l)), depth, p, Insert);
            after.store == if DecideLink(s.store, depth, l).Ok? then DecideLink(s.store, depth, l).value else s.store
  {
    hide Acyclic, ParentRoute, DescendantConflicts, Excludes;
  }

  // ----- What is under way -----

  /** A checked link that can still be inserted. */
  predicate Pending(s: System, q: nat) {
    q < |s.callers| && s.callers[q].Checked? && Fits(s.store, s.callers[q].link)
  }

  ghost predicate ClashesBelow(s: System, depth: seq<nat>, q: nat, i: nat)
    requires Acyclic(s.store.parents, depth)
  {
    Pending(s, q) && i < |s.store.links| && Clash(s.store.parents, depth, s.store.links[i], s.callers[q].link)
  }

  /** Two pending links of different entities clash. */
  ghost predicate ClashTogether(s: System, depth: seq<nat>, q: nat, r: nat)
    requires Acyclic(s.store.parents, depth)
  {
    && Pending(s, q) && Pending(s, r) && s.callers[q].link.entity != s.callers[r].link.entity
    && Clash(s.store.parents, depth, s.callers[q].link, s.callers[r].link)
  }

  ghost predicate NoneClashes(s: System, depth: seq<nat>)
    requires Acyclic(s.store.parents, depth)
  {
    && (forall q: nat, i: nat :: !ClashesBelow(s, depth, q, i))
    && (forall q: nat, r: nat :: !ClashTogether(s, depth, q, r))
  }

  predicate OnlyInserts(steps: seq<(nat, Action)>) {
    forall i :: 0 <= i < |steps| ==> steps[i].1 == Insert
  }

  lemma InsertIs(s: System, depth: seq<nat>, p: nat)
    requires Acyclic(s.store.parents, depth) && Pending(s, p)
    ensures Step(s, depth, p, Insert) == System(s.store.(links := s.store.links + [s.callers[p].link]), s.callers[p := Inserted])
  {
    hide Acyclic, Excludes;
  }

  /** What fits after an insert fitted before, and does not clash with it on the same entity. */
  lemma PendingBefore(s: System, depth: seq<nat>, p: nat, q: nat)
    requires Acyclic(s.store.parents, depth) && Pending(s, p) && Pending(Step(s, depth, p, Insert), q)
    ensures Pending(s, q) && q != p && Step(s, depth, p, Insert).callers[q] == s.callers[q]
    ensures s.callers[p].link.entity == s.callers[q].link.entity
            ==> !Clash(s.store.parents, depth, s.callers[p].link, s.callers[q].link)
  {
    hide Acyclic, Related;
    InsertIs(s, depth, p);
    var t := Step(s, depth, p, Insert);
    var mine, l := s.callers[p].link, t.callers[q].link;
    assert t.store.links[|s.store.links|] == mine;
    forall i | 0 <= i < |s.store.links| ensures t.store.links[i] == s.store.links[i] {
    }
  }

  lemma InsertKeepsRollUp(s: System, depth: seq<nat>, p: nat)
    requires Acyclic(s.store.parents, depth) && RollUp(s.store, depth) && NoneClashes(s, depth) && Pending(s, p)
    ensures RollUp(Step(s, depth, p, Insert).store, depth)
  {
    hide Acyclic, Clash, Pending;
    InsertIs(s, depth, p);
    var l, t := s.callers[p].link, Step(s, depth, p, Insert);
    forall i, j | 0 <= i < |t.store.links| && 0 <= j < |t.store.links|
      ensures !Clash(t.store.parents, depth, t.store.links[i], t.store.links[j])
    {
      OwnBook(t.store.parents, depth, l);
      if i < |s.store.links| {
        assert !ClashesBelow(s, depth, p, i);
      }
      if j < |s.store.links| {
        assert !ClashesBelow(s, depth, p, j);
        ClashBothWays(t.store.parents, depth, t.store.links[i], t.store.links[j]);
      }
    }
  }

  lemma OwnBook(parents: seq<Option<nat>>, depth: seq<nat>, l: Link)
    requires Acyclic(parents, depth)
    ensures !Clash(parents, depth, l, l)
  {
  }

  lemma ClashBothWays(parents: seq<Option<nat>>, depth: seq<nat>, k: Link, l: Link)
    requires Acyclic(parents, depth)
    ensures Clash(parents, depth, k, l) <==> Clash(parents, depth, l, k)
  {
  }

  lemma InsertKeepsApart(s: System, depth: seq<nat>, p: nat)
    requires Acyclic(s.store.parents, depth) && NoneClashes(s, depth) && Pending(s, p)
    ensures NoneClashes(Step(s, depth, p, Insert), depth)
  {
    hide Acyclic, Clash, Pending;
    InsertIs(s, depth, p);
    var t := Step(s, depth, p, Insert);
    forall q: nat, i: nat ensures !ClashesBelow(t, depth, q, i) {
      if Pending(t, q) && i < |t.store.links| {
        PendingBefore(s, depth, p, q);
        assert !ClashesBelow(s, depth, q, i) && !ClashTogether(s, depth, p, q);
      }
    }
    forall q: nat, r: nat ensures !ClashTogether(t, depth, q, r) {
      if Pending(t, q) && Pending(t, r) {
        PendingBefore(s, depth, p, q);
        PendingBefore(s, depth, p, r);
        assert !ClashTogether(s, depth, q, r);
      }
    }
  }

  /** An insert that is refused, or is none, changes no link and makes nothing pending. */
  lemma RefusedKeeps(s: System, depth: seq<nat>, p: nat)
    requires Acyclic(s.store.parents, depth) && NoneClashes(s, depth) && !Pending(s, p)
    ensures var t := Step(s, depth, p, Insert); t.store == s.store && NoneClashes(t, depth)
  {
    hide Acyclic, Clash, Fits;
    var t := Step(s, depth, p, Insert);
    forall q: nat | Pending(t, q) ensures Pending(s, q) && t.callers[q] == s.callers[q] {
    }
    forall q: nat, i: nat ensures !ClashesBelow(t, depth, q, i) {
      assert !ClashesBelow(s, depth, q, i);
    }
    forall q: nat, r: nat ensures !ClashTogether(t, depth, q, r) {
      assert !ClashTogether(s, depth, q, r);
    }
  }

  lemma InsertStepKeeps(s: System, depth: seq<nat>, p: nat)
    requires Acyclic(s.store.parents, depth) && RollUp(s.store, depth) && NoneClashes(s, depth)
    ensures var t := Step(s, depth, p, Insert); RollUp(t.store, depth) && NoneClashes(t, depth)
  {
    hide Acyclic, RollUp, NoneClashes, Step, Pending;
    if Pending(s, p) {
      InsertKeepsRollUp(s, depth, p);
      InsertKeepsApart(s, depth, p);
    } else {
      RefusedKeeps(s, depth, p);
    }
  }

  lemma {:induction false} InsertsKeepRollUp(s: System, depth: seq<nat>, steps: seq<(nat, Action)>)
    requires Acyclic(s.store.parents, depth) && RollUp(s.store, depth) && NoneClashes(s, depth) && OnlyInserts(steps)
    ensures RollUp(Run(s, depth, steps).store, depth) && NoneClashes(Run(s, depth, steps), depth)
  {
    hide Acyclic, RollUp, NoneClashes, Step;
    if steps != [] {
      var k := |steps| - 1;
      InsertsKeepRollUp(s, depth, steps[..k]);
      InsertStepKeeps(Run(s, depth, steps[..k]), depth, steps[k].0);
    }
  }

  lemma ClashBelowBreaks(s: System, depth: seq<nat>, q: nat, i: nat)
    requires Acyclic(s.store.parents, depth) && ClashesBelow(s, depth, q, i)
    ensures !RollUp(Run(s, depth, [(q, Insert)]).store, depth)
  {
    hide Acyclic, Clash;
    InsertIs(s, depth, q);
    OneStep(s, depth, q, Insert);
    var t := Step(s, depth, q, Insert).store;
    assert Clash(t.parents, depth, t.links[i], t.links[|s.store.links|]);
  }

  lemma ClashTogetherBreaks(s: System, depth: seq<nat>, q: nat, r: nat)
    requires Acyclic(s.store.parents, depth) && ClashTogether(s, depth, q, r)
    ensures !RollUp(Run(s, depth, [(q, Insert)] + [(r, Insert)]).store, depth)
  {
    hide Acyclic, Clash;
    InsertIs(s, depth, q);
    OneStep(s, depth, q, Insert);
    RunSnoc(s, depth, [(q, Insert)], r, Insert);
    var t := Step(s, depth, q, Insert);
    StillFits(s.store, s.callers[q].link, s.callers[r].link);
    assert t.callers[r] == s.callers[r] && Pending(t, r);
    InsertIs(t, depth, r);
    var u := Step(t, depth, r, Insert).store;
    var n := |s.store.links|;
    assert u.links[n] == s.callers[q].link && u.links[n + 1] == s.callers[r].link;
    assert Clash(u.parents, depth, u.links[n], u.links[n + 1]);
  }

  lemma StillFits(s: Store, k: Link, l: Link)
    requires Fits(s, l) && k.entity != l.entity
    ensures Fits(s.(links := s.links + [k]), l)
  {
    var t := s.links + [k];
    forall i | 0 <= i < |t| && t[i].primary && t[i].entity == l.entity ensures i < |s.links| && t[i] == s.links[i] {
    }
  }

  /**
   * The calls that have made their checks keep roll-up, in whatever order they insert, exactly when no
   * link still insertable clashes with a committed one and no two of them, of different entities, clash.
   */
  lemma InsertsExactly(s: System, depth: seq<nat>)
    requires Acyclic(s.store.parents, depth) && RollUp(s.store, depth)
    ensures (forall steps: seq<(nat, Action)> :: OnlyInserts(steps) ==> RollUp(Run(s, depth, steps).store, depth))
            <==> NoneClashes(s, depth)
  {
    hide Acyclic, RollUp, ClashesBelow, ClashTogether, Step, Run;
    if NoneClashes(s, depth) {
      forall steps: seq<(nat, Action)> | OnlyInserts(steps) ensures RollUp(Run(s, depth, steps).store, depth) {
        InsertsKeepRollUp(s, depth, steps);
      }
    } else if exists q: nat, i: nat :: ClashesBelow(s, depth, q, i) {
      var q: nat, i: nat :| ClashesBelow(s, depth, q, i);
      ClashBelowBreaks(s, depth, q, i);
      assert OnlyInserts([(q, Insert)]);
    } else {
      var q: nat, r: nat :| ClashTogether(s, depth, q, r);
      ClashTogetherBreaks(s, depth, q, r);
      assert OnlyInserts([(q, Insert)] + [(r, Insert)]);
    }
  }

  // ----- Whole runs -----

  /**
   * A link is checked only when no ancestor's committed link to another book starts within its dates,
   * and no link under way on a related entity clashes with it.
   */
  ghost predicate InTurn(s: System, depth: seq<nat>, a: Action)
    requires Acyclic(s.store.parents, depth)
  {
    a.Check? && a.link.primary && a.link.entity < |s.store.parents| ==>
      && (forall i: nat :: !LateAncestor(s.store, depth, a.link, i))
      && (forall q :: 0 <= q < |s.callers| && s.callers[q].Checked? ==>
            !Clash(s.store.parents, depth, s.callers[q].link, a.link))
  }

  ghost predicate InTurnThroughout(s: System, depth: seq<nat>, steps: seq<(nat, Action)>)
    requires Acyclic(s.store.parents, depth)
  {
    steps == []
    || (InTurnThroughout(s, depth, steps[..|steps| - 1]) && InTurn(Run(s, depth, steps[..|steps| - 1]), depth, steps[|steps| - 1].1))
  }

  ghost predicate CheckedOk(s: System) {
    forall q :: 0 <= q < |s.callers| && s.callers[q].Checked?
      ==> s.callers[q].link.entity < |s.store.parents| && Reaches(s.callers[q].link.to, s.callers[q].link.from)
  }

  ghost predicate Sound(s: System, depth: seq<nat>)
    requires Acyclic(s.store.parents, depth)
  {
    LinksOk(s.store) && CheckedOk(s) && RollUp(s.store, depth) && NoneClashes(s, depth)
  }

  lemma InsertKeepsLinks(s: System, depth: seq<nat>, p: nat)
    requires Acyclic(s.store.parents, depth) && LinksOk(s.store) && CheckedOk(s)
    ensures LinksOk(Step(s, depth, p, Insert).store) && CheckedOk(Step(s, depth, p, Insert))
  {
    hide Acyclic, Rank;
    var t := Step(s, depth, p, Insert);
    if Pending(s, p) {
      InsertIs(s, depth, p);
    }
  }

  /** A link that passed in turn clashes with nothing committed. */
  lemma PassedIsClear(s: Store, depth: seq<nat>, l: Link, i: nat)
    requires Acyclic(s.parents, depth) && LinksOk(s) && RollUp(s, depth) && Passes(s, depth, l) && Fits(s, l) && i < |s.links|
    requires l.primary ==> forall j: nat :: !LateAncestor(s, depth, l, j)
    ensures !Clash(s.parents, depth, s.links[i], l)
  {
    hide Acyclic, RollUp, LinksOk, LateAncestor, Related, Route, DescendantConflicts;
    if l.primary && Clash(s.parents, depth, s.links[i], l) {
      OnlyLateAncestorsClash(s, depth, l, i);
      assert false;
    }
  }

  lemma PassedIsOk(s: Store, depth: seq<nat>, l: Link)
    requires Acyclic(s.parents, depth) && Passes(s, depth, l)
    ensures l.entity < |s.parents| && Reaches(l.to, l.from)
  {
  }

  lemma CheckKeepsApart(s: System, depth: seq<nat>, p: nat, l: Link)
    requires Acyclic(s.store.parents, depth) && Sound(s, depth) && InTurn(s, depth, Check(l))
    requires p < |s.callers| && s.callers[p].Waiting? && Passes(s.store, depth, l)
    ensures NoneClashes(Step(s, depth, p, Check(l)), depth)
  {
    hide Acyclic, LinksOk, RollUp, Clash, Fits, Passes, LateAncestor;
    var t := Step(s, depth, p, Check(l));
    PassedIsOk(s.store, depth, l);
    forall q: nat, i: nat ensures !ClashesBelow(t, depth, q, i) {
      if q == p && Pending(t, q) && i < |s.store.links| {
        PassedIsClear(s.store, depth, l, i);
      } else {
        assert !ClashesBelow(s, depth, q, i);
      }
    }
    forall q: nat, r: nat ensures !ClashTogether(t, depth, q, r) {
      if Pending(t, q) && Pending(t, r) {
        PrimaryOnly(s.store.parents, depth, t.callers[q].link, t.callers[r].link);
        ClashBothWays(s.store.parents, depth, t.callers[q].link, t.callers[r].link);
        if q != p && r != p {
          assert !ClashTogether(s, depth, q, r);
        }
      }
    }
  }

  lemma PrimaryOnly(parents: seq<Option<nat>>, depth: seq<nat>, k: Link, l: Link)
    requires Acyclic(parents, depth)
    ensures Clash(parents, depth, k, l) ==> k.primary && l.primary
  {
  }

  lemma StepKeepsSound(s: System, depth: seq<nat>, p: nat, a: Action)
    requires Acyclic(s.store.parents, depth) && Sound(s, depth) && InTurn(s, depth, a)
    ensures Sound(Step(s, depth, p, a), depth)
  {
    hide Acyclic, LinksOk, RollUp, NoneClashes, Passes;
    match a
    case Insert =>
      InsertKeepsLinks(s, depth, p);
      InsertStepKeeps(s, depth, p);
    case Check(l) =>
      if p < |s.callers| && s.callers[p].Waiting? {
        if Passes(s.store, depth, l) {
          PassedIsOk(s.store, depth, l);
          CheckKeepsApart(s, depth, p, l);
        } else {
          RefusedCheck(s, depth, p, l);
        }
      }
  }

  lemma RefusedCheck(s: System, depth: seq<nat>, p: nat, l: Link)
    requires Acyclic(s.store.parents, depth) && NoneClashes(s, depth) && p < |s.callers| && !Passes(s.store, depth, l)
    ensures NoneClashes(Step(s, depth, p, Check(l)), depth)
  {
    hide Acyclic, Clash, Fits, Passes;
    var t := Step(s, depth, p, Check(l));
    forall q: nat, i: nat ensures !ClashesBelow(t, depth, q, i) {
      assert !ClashesBelow(s, depth, q, i);
    }
    forall q: nat, r: nat ensures !ClashTogether(t, depth, q, r) {
      assert !ClashTogether(s, depth, q, r);
    }
  }

  /** Roll-up over every interleaving in which related links take turns, from any sound state. */
  lemma {:induction false} TakingTurnsKeepsRollUp(s: System, depth: seq<nat>, steps: seq<(nat, Action)>)
    requires Acyclic(s.store.parents, depth) && Sound(s, depth) && InTurnThroughout(s, depth, steps)
    ensures Sound(Run(s, depth, steps), depth)
  {
    hide Acyclic, Sound, Step, InTurn;
    if steps != [] {
      var k := |steps| - 1;
      TakingTurnsKeepsRollUp(s, depth, steps[..k]);
      StepKeepsSound(Run(s, depth, steps[..k]), depth, steps[k].0, steps[k].1);
    }
  }

  /** Nobody under way, nothing linked. */
  lemma StartIsSound(s: System, depth: seq<nat>)
    requires Acyclic(s.store.parents, depth) && s.store.links == [] && forall q :: 0 <= q < |s.callers| ==> s.callers[q].Waiting?
    ensures Sound(s, depth)
  {
  }

  // ----- Parent and child at once -----

  function Both(): System {
    System(Example(), [Waiting, Waiting])
  }

  /** A company and its part, linked to different books from the same day: neither call sees the other. */
  lemma BothAtOnceBreaks(depth: seq<nat>)
    requires depth == [0, 1]
    ensures Acyclic(Example().parents, depth) && Sound(Both(), depth)
    ensures var company, part := CompanyFrom(Date(2026, 1, 1), None), PartFrom(Date(2026, 1, 1));
            var steps := [(0, Check(company))] + [(1, Check(part))] + [(0, Insert)] + [(1, Insert)];
            Run(Both(), depth, steps).store == Example().(links := [company, part]) && !RollUp(Run(Both(), depth, steps).store, depth)
  {
    hide Run, Step, Passes;
    PartIsInside(depth);
    StartIsSound(Both(), depth);
    var company, part := CompanyFrom(Date(2026, 1, 1), None), PartFrom(Date(2026, 1, 1));
    var checks := [(0, Check(company))] + [(1, Check(part))];
    OneStep(Both(), depth, 0, Check(company));
    RunSnoc(Both(), depth, [(0, Check(company))], 1, Check(part));
    RunSnoc(Both(), depth, checks, 0, Insert);
    RunSnoc(Both(), depth, checks + [(0, Insert)], 1, Insert);
    BothPass(depth, company, part);
    BothInsert(depth, company, part);
    PartClashes(depth, company, part);
  }

  lemma BothPass(depth: seq<nat>, company: Link, part: Link)
    requires depth == [0, 1] && company == CompanyFrom(Date(2026, 1, 1), None) && part == PartFrom(Date(2026, 1, 1))
    ensures Acyclic(Example().parents, depth)
    ensures Step(Step(Both(), depth, 0, Check(company)), depth, 1, Check(part)) == System(Example(), [Checked(company), Checked(part)])
  {
    hide Rank;
    PartIsInside(depth);
    FirstLinkAccepted(depth, company);
    assert Route(Example(), 0, part.from, MAX_DEPTH).None?;
    assert Both().callers[0 := Checked(company)] == [Checked(company), Waiting];
    assert [Checked(company), Waiting][1 := Checked(part)] == [Checked(company), Checked(part)];
  }

  lemma BothInsert(depth: seq<nat>, company: Link, part: Link)
    requires depth == [0, 1] && company == CompanyFrom(Date(2026, 1, 1), None) && part == PartFrom(Date(2026, 1, 1))
    ensures Acyclic(Example().parents, depth)
    ensures Step(Step(System(Example(), [Checked(company), Checked(part)]), depth, 0, Insert), depth, 1, Insert)
            == System(Example().(links := [company, part]), [Inserted, Inserted])
  {
    hide Rank;
    PartIsInside(depth);
    var s := System(Example(), [Checked(company), Checked(part)]);
    InsertIs(s, depth, 0);
    assert [] + [company] == [company] && s.callers[0 := Inserted] == [Inserted, Checked(part)];
    var t := System(Example().(links := [company]), [Inserted, Checked(part)]);
    InsertIs(t, depth, 1);
    assert [company] + [part] == [company, part] && t.callers[1 := Inserted] == [Inserted, Inserted];
  }
}
