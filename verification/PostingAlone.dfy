/**
 * The interleaved transactions against the sequential ones: a call that runs all its steps undisturbed leaves the
 * rows, and answers, as the journal's own decision says.
 */
module PostingAlone {
  import P = Prelude
  import opened Facts
  import L = Ledger
  import Calendar
  import LI = LedgerInvariants
  import J = JournalAnswers
  import opened ConcurrentPosting

  // ----- The journal's rows as the interleaved calls see them -----

  function StateOf(e: L.Entry): State {
    if e.status == L.Draft then Drafted else if e.status == L.Void then Voided else Filed
  }

  /** A number counts for filed entries only. */
  predicate Shows(e: L.Entry, r: Row) {
    && r.book == e.book && r.key == e.header.key && r.state == StateOf(e) && r.reversed == (e.status == L.Reversed)
    && r.reverses == e.reverses && (r.state == Filed ==> e.number == P.Some(r.number))
  }

  ghost predicate Matches(db: L.Db, s: System) {
    && |s.rows| == |db.entries| && (forall i :: 0 <= i < |s.rows| ==> Shows(db.entries[i], s.rows[i]))
    && |s.next| == |db.books| && forall b :: 0 <= b < |s.next| ==> s.next[b] == db.books[b].nextNumber
  }

  /** Nobody but caller `p` holds anything. */
  ghost predicate Quiet(s: System, p: nat) {
    p < |s.callers| && forall q :: 0 <= q < |s.callers| && q != p ==> !s.callers[q].Holding? && !s.callers[q].Inserted?
  }

  /** The four steps after the call has begun. */
  function Through(s: System, p: nat): System {
    Step(Step(Step(Step(s, p, Probe), p, Lock), p, Insert), p, Commit)
  }

  /** The call ended with the decision's answer, over the decision's rows. */
  ghost predicate EndsAs(t: System, p: nat, o: L.Outcome, after: L.Db) {
    p < |t.callers| && t.callers[p].Done? && t.callers[p].result == Returned(o.id, o.reused) && Matches(after, t)
  }

  ghost predicate Fails(s: System, t: System, p: nat) {
    p < |t.callers| && t.callers[p].Done? && t.callers[p].result == Failed && t.rows == s.rows && t.next == s.next
  }

  // ----- The steps of one caller -----

  /** An early end is the end. */
  lemma EndsEarly(s: System, p: nat, job: Job)
    requires p < |s.callers| && s.callers[p] == Started(job) && Probing(s.rows, job).Done?
    ensures Through(s, p).rows == s.rows && Through(s, p).next == s.next
    ensures p < |Through(s, p).callers| && Through(s, p).callers[p] == Probing(s.rows, job)
  {
    hide Probing, Writing, LockFree, Refuses, Written;
    var t := s.(callers := s.callers[p := Probing(s.rows, job)]);
    assert Step(s, p, Probe) == t;
    assert t.callers[p := t.callers[p]] == t.callers;
  }

  /** Past the first read: the number, the write and the commit, or a refusal. */
  lemma RunsOn(s: System, p: nat, job: Job)
    requires Quiet(s, p) && s.callers[p] == Started(job) && Probing(s.rows, job) == Probed(job) && job.book < |s.next|
    requires Numbers(job) ==> s.next[job.book] <= P.MAX_SAFE_INTEGER
    ensures var t := Through(s, p);
            var number := if Numbers(job) then s.next[job.book] else 0;
            var blocked := if Target(job).Some? then !IsDraft(s.rows, Target(job).value) else FindKey(s.rows, job.key).Some?;
            && |t.callers| == |s.callers|
            && (!blocked && !Refuses(s, job) ==>
                  && t.callers[p] == Done(job, Returned(if Target(job).Some? then Target(job).value else |s.rows|, false))
                  && t.rows == Written(s.rows, job, number)
                  && t.next == if Numbers(job) then s.next[job.book := s.next[job.book] + 1] else s.next)
            && (blocked || Refuses(s, job) ==> t.rows == s.rows && t.next == s.next)
            && (blocked && (Target(job).Some? || job.reverses.Some? || job.draft.MakeDraft?) ==> t.callers[p] == Done(job, Failed))
            && (!blocked && Refuses(s, job) ==> t.callers[p] == Done(job, Failed))
  {
    hide Probing, Written;
    var number := if Numbers(job) then s.next[job.book] else 0;
    var probed := s.(callers := s.callers[p := Probed(job)]);
    assert Step(s, p, Probe) == probed;
    OthersHoldNothing(s, probed, p);
    var holding := s.(callers := s.callers[p := Holding(job, number)]);
    Locks(probed, p, job, number, holding);
    OthersHoldNothing(s, holding, p);
    Inserts(holding, p, job, number);
  }

  lemma OthersHoldNothing(s: System, t: System, p: nat)
    requires Quiet(s, p) && |t.callers| == |s.callers| && forall q :: 0 <= q < |s.callers| && q != p ==> t.callers[q] == s.callers[q]
    ensures Quiet(t, p)
  {
  }

  lemma Locks(s: System, p: nat, job: Job, number: nat, t: System)
    requires Quiet(s, p) && s.callers[p] == Probed(job) && job.book < |s.next| && (Numbers(job) ==> s.next[job.book] <= P.MAX_SAFE_INTEGER)
    requires number == (if Numbers(job) then s.next[job.book] else 0) && t == s.(callers := s.callers[p := Holding(job, number)])
    ensures Step(s, p, Lock) == t
  {
  }

  lemma Inserts(s: System, p: nat, job: Job, number: nat)
    requires Quiet(s, p) && s.callers[p] == Holding(job, number) && job.book < |s.next|
    ensures var t := Step(Step(s, p, Insert), p, Commit);
            var blocked := if Target(job).Some? then !IsDraft(s.rows, Target(job).value) else FindKey(s.rows, job.key).Some?;
            && |t.callers| == |s.callers|
            && (!blocked && !Refuses(s, job) ==>
                  && t.callers[p] == Done(job, Returned(if Target(job).Some? then Target(job).value else |s.rows|, false))
                  && t.rows == Written(s.rows, job, number)
                  && t.next == if Numbers(job) then s.next[job.book := s.next[job.book] + 1] else s.next)
            && (blocked || Refuses(s, job) ==> t.rows == s.rows && t.next == s.next)
            && (blocked && (Target(job).Some? || job.reverses.Some? || job.draft.MakeDraft?) ==> t.callers[p] == Done(job, Failed))
            && (!blocked && Refuses(s, job) ==> t.callers[p] == Done(job, Failed))
  {
    hide Written, FindKey, IsDraft, Refuses;
    var blocked := if Target(job).Some? then !IsDraft(s.rows, Target(job).value) else FindKey(s.rows, job.key).Some?;
    NothingWaits(s, p, job);
    var inserted := Step(s, p, Insert);
    if !blocked {
      assert inserted == s.(callers := s.callers[p := Inserted(job, number)]);
      SameRefusal(s, inserted, job);
    }
  }

  lemma SameRefusal(s: System, t: System, job: Job)
    requires s.rows == t.rows
    ensures Refuses(s, job) == Refuses(t, job)
  {
  }

  lemma NothingWaits(s: System, p: nat, job: Job)
    requires Quiet(s, p) && s.callers[p].Holding?
    ensures KeyFree(s, job.key) && forall id: nat :: RowFree(s, id)
  {
  }

  // ----- Lookups agree -----

  lemma KeysAgree(db: L.Db, s: System, key: P.Option<PostingKey>)
    requires Matches(db, s)
    ensures FindKey(s.rows, key).Some? <==> J.KeyTaken(db, key)
    ensures FindKey(s.rows, key).Some? ==> FindKey(s.rows, key).value < |db.entries| && db.entries[FindKey(s.rows, key).value].header.key == key
  {
    assert forall i :: 0 <= i < |s.rows| ==> Shows(db.entries[i], s.rows[i]);
  }

  lemma OneKey(db: L.Db, i: nat, j: nat)
    requires LI.KeysOk(db) && i < |db.entries| && j < |db.entries|
    requires db.entries[i].header.key.Some? && db.entries[i].header.key == db.entries[j].header.key
    ensures i == j
  {
  }

  lemma OneReversal(db: L.Db, i: nat, j: nat)
    requires LI.ReversalsOk(db) && i < |db.entries| && j < |db.entries|
    requires db.entries[i].reverses.Some? && db.entries[i].reverses == db.entries[j].reverses
    ensures i == j
  {
  }

  // ----- The five calls -----

  /** `postEntry`: a decided posting is what the steps leave and return. */
  lemma PostAlone(db: L.Db, s: System, p: nat, input: L.EntryInput, allow: bool)
    requires LI.Inv(db) && Matches(db, s) && Quiet(s, p) && s.callers[p].Idle? && input.book.Some? && input.book.value < |db.books|
    requires L.Decide(db, L.PostEntry(input, allow)).Ok?
    ensures EndsAs(Through(Step(s, p, BeginPost(input.book.value, input.header.key)), p), p,
                   L.Decide(db, L.PostEntry(input, allow)).value, L.Apply(db, L.PostEntry(input, allow)))
  {
    hide LI.Inv, L.Decide, L.Apply, Through, Matches, Quiet, FindKey, J.KeyTaken, L.Commit, J.LinesTake, J.SomePeriodTakes, J.DimensionsGiven;
    SameSize(db, s);
    var job := Job(input.book.value, input.header.key, P.None, NoDraft);
    var begun := Begun(db, s, p, job, BeginPost(input.book.value, input.header.key));
    J.PostAnswers(db, input, allow);
    KeysAgree(db, begun, job.key);
    var r, after := L.Decide(db, L.PostEntry(input, allow)).value, L.Apply(db, L.PostEntry(input, allow));
    if r.reused {
      HasInv(db);
      OneKey(db, r.id, FindKey(begun.rows, job.key).value);
      EndsEarly(begun, p, job);
      StillMatches(db, begun, Through(begun, p));
    } else {
      TakesNumber(db, s, input, allow);
      RunsOn(begun, p, job);
      OneRowMore(db, after, begun, Through(begun, p), job, begun.next[job.book]);
    }
  }

  lemma HasInv(db: L.Db)
    requires LI.Inv(db)
    ensures LI.KeysOk(db) && LI.ReversalsOk(db) && LI.LinesOk(db)
  {
    hide LI.KeysOk, LI.ReversalsOk, LI.LinesOk;
  }

  lemma SameSize(db: L.Db, s: System)
    requires Matches(db, s)
    ensures |s.rows| == |db.entries| && |s.next| == |db.books|
  {
  }

  /** A call that has begun. */
  lemma Begun(db: L.Db, s: System, p: nat, job: Job, a: Action) returns (t: System)
    requires Matches(db, s) && Quiet(s, p) && s.callers[p].Idle? && Moved(s, p, a) == Started(job) && !a.Commit?
    ensures t == Step(s, p, a) && Matches(db, t) && Quiet(t, p) && t.callers[p] == Started(job) && t.rows == s.rows && t.next == s.next
  {
    hide Moved;
    t := Step(s, p, a);
  }

  lemma StillMatches(db: L.Db, s: System, t: System)
    requires Matches(db, s) && t.rows == s.rows && t.next == s.next
    ensures Matches(db, t)
  {
  }

  lemma TakesNumber(db: L.Db, s: System, input: L.EntryInput, allow: bool)
    requires Matches(db, s) && J.PostTakes(db, input, allow)
    ensures input.book.Some? && input.book.value < |s.next| && s.next[input.book.value] <= P.MAX_SAFE_INTEGER
  {
    hide J.LinesTake, J.SomePeriodTakes, J.DimensionsGiven;
  }

  /** One row and one number more on both sides. */
  lemma OneRowMore(db: L.Db, after: L.Db, s: System, t: System, job: Job, number: nat)
    requires Matches(db, s) && J.OneMore(db, after) && J.OnlyCounts(db, after, job.book) && job.book < |s.next| && job.draft.NoDraft? && job.reverses.None?
    requires number == s.next[job.book] && t.rows == Written(s.rows, job, number) && t.next == s.next[job.book := s.next[job.book] + 1]
    requires var e := after.entries[|db.entries|];
             e.book == job.book && e.header.key == job.key && e.reverses == P.None && e.status == L.Posted && e.number == P.Some(db.books[job.book].nextNumber)
    ensures Matches(after, t)
  {
    forall i | 0 <= i < |db.entries| ensures Shows(after.entries[i], t.rows[i]) {
      assert Shows(db.entries[i], s.rows[i]);
    }
  }

  /** `createDraft`: the same; a taken key fails both. */
  lemma DraftAlone(db: L.Db, s: System, p: nat, input: L.EntryInput)
    requires LI.Inv(db) && Matches(db, s) && Quiet(s, p) && s.callers[p].Idle? && input.book.Some? && input.book.value < |db.books|
    ensures var r, begun := L.Decide(db, L.CreateDraft(input)), Step(s, p, BeginDraft(input.book.value, input.header.key));
            && (r.Ok? ==> EndsAs(Through(begun, p), p, r.value, L.Apply(db, L.CreateDraft(input))))
            && (r == P.Err(P.Conflict) ==> Fails(s, Through(begun, p), p))
  {
    hide LI.Inv, L.Decide, L.Apply, Through, Matches, Quiet, FindKey, J.KeyTaken, L.Commit, J.LinesTake, J.FirstRefused, J.AllFiledAs;
    SameSize(db, s);
    var job := Job(input.book.value, input.header.key, P.None, MakeDraft);
    var begun := Begun(db, s, p, job, BeginDraft(input.book.value, input.header.key));
    J.DraftAnswers(db, input);
    KeysAgree(db, begun, job.key);
    RunsOn(begun, p, job);
    var r := L.Decide(db, L.CreateDraft(input));
    if r.Ok? {
      OneDraftMore(db, L.Apply(db, L.CreateDraft(input)), begun, Through(begun, p), job);
    } else if r == P.Err(P.Conflict) {
      ConflictIsKey(db, input);
    }
  }

  /** The only conflict a draft meets in a reachable ledger is its key. */
  lemma ConflictIsKey(db: L.Db, input: L.EntryInput)
    requires LI.Inv(db) && input.book.Some? && input.book.value < |db.books| && L.Decide(db, L.CreateDraft(input)) == P.Err(P.Conflict)
    ensures J.KeyTaken(db, input.header.key)
  {
    hide LI.Inv, L.ResolveLines, L.FindKey;
    if input.header.key.Some? {
      J.KeyFound(db, input.header.key.value);
    }
    if L.LoadBook(db, input.book.value).Ok? {
      ResolutionNeverConflicts(db, input.book.value, input.lines);
    }
  }

  lemma {:induction false} ResolutionNeverConflicts(db: L.Db, book: nat, lines: seq<L.LineInput>)
    requires book < |db.books|
    ensures L.ResolveLines(db, book, lines) != P.Err(P.Conflict)
  {
    if lines != [] {
      ResolutionNeverConflicts(db, book, lines[..|lines| - 1]);
    }
  }

  lemma OneDraftMore(db: L.Db, after: L.Db, s: System, t: System, job: Job)
    requires Matches(db, s) && J.OneMore(db, after) && J.OnlyEntries(db, after) && job.draft.MakeDraft?
    requires t.rows == Written(s.rows, job, 0) && t.next == s.next
    requires var e := after.entries[|db.entries|]; e.book == job.book && e.header.key == job.key && e.reverses == P.None && e.status == L.Draft
    ensures Matches(after, t)
  {
    forall i | 0 <= i < |db.entries| ensures Shows(after.entries[i], t.rows[i]) {
      assert Shows(db.entries[i], s.rows[i]);
    }
  }

  /** `postDraft`: the same; what is no draft fails both. */
  lemma PostDraftAlone(db: L.Db, s: System, p: nat, id: nat, allow: bool)
    requires LI.Inv(db) && Matches(db, s) && Quiet(s, p) && s.callers[p].Idle? && id < |db.entries|
    ensures var r, begun := L.Decide(db, L.PostDraft(id, allow)), Step(s, p, BeginPostDraft(id));
            && (r.Ok? ==> EndsAs(Through(begun, p), p, r.value, L.Apply(db, L.PostDraft(id, allow))))
            && (r == P.Err(P.Immutable) ==> Fails(s, Through(begun, p), p))
  {
    hide LI.Inv, L.Decide, L.Apply, Through, Quiet, L.Commit, J.ZeroSum, J.DimensionsFiled, J.SomePeriodTakes, Shows;
    assert Shows(db.entries[id], s.rows[id]);
    SameBook(db, s, id);
    var job := Job(s.rows[id].book, P.None, P.None, PostDraft(id));
    var begun := Begun(db, s, p, job, BeginPostDraft(id));
    J.PostDraftAnswers(db, id, allow);
    DraftsAgree(db, s, id);
    var r := L.Decide(db, L.PostDraft(id, allow));
    if r.Ok? {
      RunsOn(begun, p, job);
      DraftFiled(db, L.Apply(db, L.PostDraft(id, allow)), begun, Through(begun, p), job, id);
    } else if r == P.Err(P.Immutable) {
      EndsEarly(begun, p, job);
    }
  }

  lemma SameBook(db: L.Db, s: System, id: nat)
    requires Matches(db, s) && id < |db.entries|
    ensures s.rows[id].book == db.entries[id].book
  {
    assert Shows(db.entries[id], s.rows[id]);
  }

  lemma DraftsAgree(db: L.Db, s: System, id: nat)
    requires Matches(db, s) && id < |db.entries|
    ensures IsDraft(s.rows, id) <==> db.entries[id].status == L.Draft
    ensures s.rows[id].state.Voided? <==> db.entries[id].status == L.Void
  {
    assert Shows(db.entries[id], s.rows[id]);
  }

  lemma DraftFiled(db: L.Db, after: L.Db, s: System, t: System, job: Job, id: nat)
    requires Matches(db, s) && id < |db.entries| && job == Job(db.entries[id].book, P.None, P.None, PostDraft(id)) && job.book < |s.next|
    requires J.AllBut(db, after, id) && J.OnlyCounts(db, after, job.book)
    requires t.rows == Written(s.rows, job, s.next[job.book]) && t.next == s.next[job.book := s.next[job.book] + 1]
    requires db.entries[id].status == L.Draft
    requires var e, d := after.entries[id], db.entries[id];
             e.book == d.book && e.header == d.header && e.reverses == d.reverses && e.status == L.Posted && e.number == P.Some(db.books[d.book].nextNumber)
    ensures Matches(after, t)
  {
    forall i | 0 <= i < |db.entries| ensures Shows(after.entries[i], t.rows[i]) {
      assert Shows(db.entries[i], s.rows[i]);
    }
  }

  /** `voidDraft`: the same; what is neither draft nor void fails both. */
  lemma VoidAlone(db: L.Db, s: System, p: nat, id: nat)
    requires LI.Inv(db) && Matches(db, s) && Quiet(s, p) && s.callers[p].Idle? && id < |db.entries|
    ensures var r, begun := L.Decide(db, L.VoidDraft(id)), Step(s, p, BeginVoidDraft(id));
            && (r.Ok? ==> EndsAs(Through(begun, p), p, r.value, L.Apply(db, L.VoidDraft(id))))
            && (r.Err? ==> Fails(s, Through(begun, p), p))
  {
    hide LI.Inv, L.Decide, L.Apply, Through, Quiet, L.Commit, Shows;
    SameBook(db, s, id);
    BookIsThere(db, id);
    var job := Job(s.rows[id].book, P.None, P.None, VoidDraft(id));
    var begun := Begun(db, s, p, job, BeginVoidDraft(id));
    J.VoidAnswers(db, id);
    DraftsAgree(db, s, id);
    var after := L.Apply(db, L.VoidDraft(id));
    if db.entries[id].status == L.Draft {
      RunsOn(begun, p, job);
      DraftVoided(db, after, begun, Through(begun, p), job, id);
    } else {
      EndsEarly(begun, p, job);
      if db.entries[id].status == L.Void {
        VoidStays(db, after, id);
        StillMatches(db, begun, Through(begun, p));
      }
    }
  }

  lemma BookIsThere(db: L.Db, id: nat)
    requires LI.Inv(db) && id < |db.entries|
    ensures db.entries[id].book < |db.books|
  {
    HasInv(db);
    assert LI.LinesFit(db, db.entries[id]);
  }

  lemma VoidStays(db: L.Db, after: L.Db, id: nat)
    requires id < |db.entries| && db.entries[id].status == L.Void && J.AllBut(db, after, id) && J.OnlyEntries(db, after)
    requires after.entries[id] == db.entries[id].(status := L.Void)
    ensures after == db
  {
    assert after.entries == db.entries;
  }

  lemma DraftVoided(db: L.Db, after: L.Db, s: System, t: System, job: Job, id: nat)
    requires Matches(db, s) && id < |db.entries| && job.draft == VoidDraft(id) && db.entries[id].status == L.Draft
    requires J.AllBut(db, after, id) && J.OnlyEntries(db, after) && after.entries[id] == db.entries[id].(status := L.Void)
    requires t.rows == Written(s.rows, job, 0) && t.next == s.next
    ensures Matches(after, t)
  {
    forall i | 0 <= i < |db.entries| ensures Shows(after.entries[i], t.rows[i]) {
      assert Shows(db.entries[i], s.rows[i]);
    }
  }

  /** `reverseEntry`: the same; what may never be reversed fails both. */
  lemma ReverseAlone(db: L.Db, s: System, p: nat, id: nat, date: P.Option<Calendar.Day>, allow: bool)
    requires LI.Inv(db) && Matches(db, s) && Quiet(s, p) && s.callers[p].Idle? && id < |db.entries|
    ensures var r, begun := L.Decide(db, L.ReverseEntry(id, date, allow)), Step(s, p, BeginReverse(id));
            && (r.Ok? ==> EndsAs(Through(begun, p), p, r.value, L.Apply(db, L.ReverseEntry(id, date, allow))))
            && (r == P.Err(P.Immutable) ==> Fails(s, Through(begun, p), p))
  {
    hide LI.Inv, L.Decide, L.Apply, Through, Quiet, L.Commit, Shows, J.SomePeriodTakes, J.DerivedTaken, J.ReversedAs, Probing, Written, FindKey, Matches,
         ReversalJob;
    SameSize(db, s);
    var job := ReversalJob(s.rows, id);
    var begun := Begun(db, s, p, job, BeginReverse(id));
    J.ReverseAnswers(db, id, date, allow);
    var r, after := L.Decide(db, L.ReverseEntry(id, date, allow)), L.Apply(db, L.ReverseEntry(id, date, allow));
    ProbingReversal(db, begun, id, job);
    if r.Ok? {
      if r.value.reused {
        EndsEarly(begun, p, job);
        HasInv(db);
        OneReversal(db, r.value.id, Probing(begun.rows, job).result.row);
        StillMatches(db, begun, Through(begun, p));
      } else {
        NumberThere(db, begun, id);
        DerivedFree(db, begun, id, job);
        RunsOn(begun, p, job);
        OneReversalMore(db, after, begun, Through(begun, p), job, id, date, allow);
      }
    } else if r == P.Err(P.Immutable) {
      EndsEarly(begun, p, job);
    }
  }

  /** What the first read finds of an original. */
  lemma ProbingReversal(db: L.Db, s: System, id: nat, job: Job)
    requires LI.Inv(db) && Matches(db, s) && id < |db.entries| && id < |s.rows| && job == ReversalJob(s.rows, id)
    ensures var probed, o := Probing(s.rows, job), db.entries[id];
            if o.status == L.Draft || o.status == L.Void || o.reverses.Some? then probed == Done(job, Failed)
            else if o.status == L.Posted then probed == Probed(job)
            else && probed.Done? && probed.result.Returned? && probed.result.reused && probed.result.row < |db.entries|
                 && db.entries[probed.result.row].reverses == P.Some(id)
  {
    hide LI.Inv, FindReversal, Matches;
    HasInv(db);
    RowShows(db, s, id);
    var found := FindReversal(s.rows, id);
    if found.Some? {
      RowShows(db, s, found.value);
      NamedIsReversed(db, found.value);
    } else if db.entries[id].status == L.Reversed {
      SomeReversalShows(db, s, id);
    }
  }

  lemma RowShows(db: L.Db, s: System, i: nat)
    requires Matches(db, s) && i < |s.rows|
    ensures i < |db.entries| && Shows(db.entries[i], s.rows[i])
  {
  }

  lemma NamedIsReversed(db: L.Db, j: nat)
    requires LI.ReversalsOk(db) && j < |db.entries| && db.entries[j].reverses.Some?
    ensures var i := db.entries[j].reverses.value; i < |db.entries| && db.entries[i].status == L.Reversed
  {
    assert LI.IsReversal(db.entries, j);
  }

  lemma SomeReversalShows(db: L.Db, s: System, id: nat)
    requires LI.ReversalsOk(db) && Matches(db, s) && id < |db.entries| && db.entries[id].status == L.Reversed
    ensures FindReversal(s.rows, id).Some?
  {
    assert LI.IsReversed(db.entries, id);
    var j :| 0 <= j < |db.entries| && db.entries[j].reverses == P.Some(id);
    RowShows(db, s, j);
  }

  lemma NumberThere(db: L.Db, s: System, id: nat)
    requires Matches(db, s) && id < |db.entries| && J.NumberLeft(db, db.entries[id].book)
    ensures id < |s.rows| && s.rows[id].book < |s.next| && s.next[s.rows[id].book] <= P.MAX_SAFE_INTEGER
  {
    RowShows(db, s, id);
  }

  lemma DerivedFree(db: L.Db, s: System, id: nat, job: Job)
    requires Matches(db, s) && id < |db.entries| && id < |s.rows| && job == ReversalJob(s.rows, id)
    requires db.entries[id].status == L.Posted && !J.DerivedTaken(db, db.entries[id].header.key)
    ensures FindKey(s.rows, job.key).None? && !Refuses(s, job) && job.book == s.rows[id].book && job.draft.NoDraft? && job.reverses == P.Some(id)
  {
    hide FindKey, Matches;
    RowShows(db, s, id);
    KeysAgree(db, s, job.key);
  }

  lemma OneReversalMore(db: L.Db, after: L.Db, s: System, t: System, job: Job, id: nat, date: P.Option<Calendar.Day>, allow: bool)
    requires Matches(db, s) && id < |db.entries| && id < |s.rows| && job == ReversalJob(s.rows, id) && db.entries[id].status == L.Posted
    requires J.ReversedAs(db, after, id, date, allow) && job.book < |s.next|
    requires t.rows == Written(s.rows, job, s.next[job.book]) && t.next == s.next[job.book := s.next[job.book] + 1]
    ensures Matches(after, t)
  {
    hide J.AllMirror, J.PeriodTakes;
    RowShows(db, s, id);
    forall i | 0 <= i < |db.entries| ensures Shows(after.entries[i], t.rows[i]) {
      RowShows(db, s, i);
    }
  }
}
