/**
 * Transactions posting, drafting and reversing at the same time (`journal.ts`), at READ COMMITTED: a
 * first read, the book row locked for its counter, a write that the unique key or another transaction's
 * row may refuse or make wait, then commit or abort; a poster refused by the key reads again. Any number
 * of callers, any interleaving of their steps.
 */
module ConcurrentPosting {
  import opened Prelude
  import opened Facts

  datatype State = Drafted | Filed | Voided

  /** A committed entry. A number means something once the entry is filed. */
  datatype Row = Row(book: nat, number: nat, key: Option<PostingKey>, state: State, reversed: bool, reverses: Option<nat>)

  datatype DraftTask = NoDraft | MakeDraft | PostDraft(id: nat) | VoidDraft(id: nat)

  /** What a call is doing: posting under an optional key, reversing a committed entry, or a draft's task. */
  datatype Job = Job(book: nat, key: Option<PostingKey>, reverses: Option<nat>, draft: DraftTask)

  datatype Result = Returned(row: nat, reused: bool) | Failed

  datatype Caller =
    | Idle
    | Started(job: Job)
    | Probed(job: Job)
    | Holding(job: Job, number: nat)
    | Inserted(job: Job, number: nat)
    | Refused(job: Job)
    | Done(job: Job, result: Result)

  /** `next[b]` is book b's committed counter. */
  datatype System = System(rows: seq<Row>, next: seq<nat>, callers: seq<Caller>)

  datatype Action =
    | BeginPost(book: nat, key: Option<PostingKey>)
    | BeginReverse(original: nat)
    | BeginDraft(book: nat, key: Option<PostingKey>)
    | BeginPostDraft(draft: nat)
    | BeginVoidDraft(draft: nat)
    | Probe
    | Lock
    | Insert
    | Commit
    | Reread
    | Abort

  // ----- Reads -----

  function FindKey(rows: seq<Row>, key: Option<PostingKey>): (r: Option<nat>)
    ensures r.Some? ==> r.value < |rows| && key.Some? && rows[r.value].key == key
    ensures r.None? ==> forall i :: 0 <= i < |rows| && key.Some? ==> rows[i].key != key
  {
    Find(rows, (r: Row) => key.Some? && r.key == key)
  }

  function FindReversal(rows: seq<Row>, original: nat): (r: Option<nat>)
    ensures r.Some? ==> r.value < |rows| && rows[r.value].reverses == Some(original)
    ensures r.None? ==> forall i :: 0 <= i < |rows| ==> rows[i].reverses != Some(original)
  {
    Find(rows, (r: Row) => r.reverses == Some(original))
  }

  /** The call takes an entry number, and for that the book row. */
  predicate Numbers(job: Job) {
    job.draft.NoDraft? || job.draft.PostDraft?
  }

  /** The row lock on a book's counter. */
  predicate Locks(c: Caller, book: nat) {
    (c.Holding? || c.Inserted?) && Numbers(c.job) && c.job.book == book
  }

  /** An uncommitted row under a key. */
  predicate Pending(c: Caller, key: Option<PostingKey>) {
    c.Inserted? && key.Some? && c.job.key == key
  }

  /** The draft row the call updates in place. */
  function Target(job: Job): Option<nat> {
    match job.draft
    case PostDraft(id) => Some(id)
    case VoidDraft(id) => Some(id)
    case _ => None
  }

  predicate Updates(c: Caller, id: nat) {
    c.Inserted? && Target(c.job) == Some(id)
  }

  predicate LockFree(s: System, book: nat) {
    forall q :: 0 <= q < |s.callers| ==> !Locks(s.callers[q], book)
  }

  predicate KeyFree(s: System, key: Option<PostingKey>) {
    forall q :: 0 <= q < |s.callers| ==> !Pending(s.callers[q], key)
  }

  predicate RowFree(s: System, id: nat) {
    forall q :: 0 <= q < |s.callers| ==> !Updates(s.callers[q], id)
  }

  predicate IsDraft(rows: seq<Row>, id: nat) {
    id < |rows| && rows[id].state.Drafted?
  }

  // ----- Steps -----

  function ReversalJob(rows: seq<Row>, original: nat): Job
    requires original < |rows|
  {
    var key := rows[original].key;
    Job(rows[original].book, if key.Some? then Some(RevKey(key.value)) else None, Some(original), NoDraft)
  }

  /** The first read of the transaction: an earlier result, or a row in the wrong state, ends the call. */
  function Probing(rows: seq<Row>, job: Job): Caller {
    match job.draft
    case MakeDraft => Probed(job)
    case PostDraft(id) => if IsDraft(rows, id) then Probed(job) else Done(job, Failed)
    case VoidDraft(id) =>
      if IsDraft(rows, id) then Probed(job)
      else if id < |rows| && rows[id].state.Voided? then Done(job, Returned(id, true))
      else Done(job, Failed)
    case NoDraft =>
      if job.reverses.Some? then
        var original := job.reverses.value;
        if original >= |rows| || !rows[original].state.Filed? || rows[original].reverses.Some? then Done(job, Failed)
        else (
          match FindReversal(rows, original)
          case Some(i) => Done(job, Returned(i, true))
          case None => Probed(job))
      else match FindKey(rows, job.key)
        case Some(i) => Done(job, Returned(i, true))
        case None => Probed(job)
  }

  /** The write: an update of a draft, which the trigger refuses once it is none, or an insert, which the key may refuse. */
  function Writing(s: System, c: Caller): Caller
    requires c.Holding?
  {
    match Target(c.job)
    case Some(id) =>
      if !IsDraft(s.rows, id) then Done(c.job, Failed)
      else if RowFree(s, id) then Inserted(c.job, c.number)
      else c
    case None =>
      if FindKey(s.rows, c.job.key).Some? then
        (if c.job.reverses.Some? || c.job.draft.MakeDraft? then Done(c.job, Failed) else Refused(c.job))
      else if KeyFree(s, c.job.key) then Inserted(c.job, c.number)
      else c
  }

  /** The caller's next state if its action is possible now; it waits otherwise. */
  function Moved(s: System, p: nat, a: Action): Caller
    requires p < |s.callers|
  {
    var c := s.callers[p];
    match a
    case BeginPost(book, key) =>
      if (c.Idle? || c.Done?) && book < |s.next| then Started(Job(book, key, None, NoDraft)) else c
    case BeginReverse(original) =>
      if (c.Idle? || c.Done?) && original < |s.rows| then Started(ReversalJob(s.rows, original)) else c
    case BeginDraft(book, key) =>
      if (c.Idle? || c.Done?) && book < |s.next| then Started(Job(book, key, None, MakeDraft)) else c
    case BeginPostDraft(id) =>
      if (c.Idle? || c.Done?) && id < |s.rows| then Started(Job(s.rows[id].book, None, None, PostDraft(id))) else c
    case BeginVoidDraft(id) =>
      if (c.Idle? || c.Done?) && id < |s.rows| then Started(Job(s.rows[id].book, None, None, VoidDraft(id))) else c
    case Probe => if c.Started? then Probing(s.rows, c.job) else c
    case Lock =>
      if !c.Probed? then c
      else if !Numbers(c.job) then Holding(c.job, 0)
      else if c.job.book >= |s.next| || !LockFree(s, c.job.book) then c
      else if s.next[c.job.book] > MAX_SAFE_INTEGER then Done(c.job, Failed)
      else Holding(c.job, s.next[c.job.book])
    case Insert => if c.Holding? then Writing(s, c) else c
    case Commit =>
      if !c.Inserted? then c
      else if Refuses(s, c.job) then Done(c.job, Failed)
      else Done(c.job, Returned(if Target(c.job).Some? then Target(c.job).value else |s.rows|, false))
    case Reread =>
      if !c.Refused? then c
      else (
        match FindKey(s.rows, c.job.key)
        case Some(i) => Done(c.job, Returned(i, true))
        case None => Done(c.job, Failed))
    case Abort => if c.Idle? || c.Done? then c else Done(c.job, Failed)
  }

  /** The immutability trigger: an entry that is already reversed may not be marked again. */
  predicate Refuses(s: System, job: Job) {
    job.reverses.Some? && (job.reverses.value >= |s.rows| || s.rows[job.reverses.value].reversed)
  }

  predicate Commits(s: System, p: nat, a: Action)
    requires p < |s.callers|
  {
    a.Commit? && s.callers[p].Inserted? && !Refuses(s, s.callers[p].job) && s.callers[p].job.book < |s.next|
  }

  function Marked(rows: seq<Row>, reverses: Option<nat>): seq<Row> {
    if reverses.Some? && reverses.value < |rows| then rows[reverses.value := rows[reverses.value].(reversed := true)] else rows
  }

  /** The rows once the call has committed. */
  function Written(rows: seq<Row>, job: Job, number: nat): seq<Row> {
    match job.draft
    case NoDraft => Marked(rows, job.reverses) + [Row(job.book, number, job.key, Filed, false, job.reverses)]
    case MakeDraft => rows + [Row(job.book, 0, job.key, Drafted, false, None)]
    case PostDraft(id) => if id < |rows| then rows[id := rows[id].(state := Filed, number := number)] else rows
    case VoidDraft(id) => if id < |rows| then rows[id := rows[id].(state := Voided)] else rows
  }

  function Step(s: System, p: nat, a: Action): System {
    if p >= |s.callers| then s
    else
      var moved := s.callers[p := Moved(s, p, a)];
      if Commits(s, p, a) then
        var c := s.callers[p];
        System(Written(s.rows, c.job, c.number),
               if Numbers(c.job) then s.next[c.job.book := s.next[c.job.book] + 1] else s.next, moved)
      else s.(callers := moved)
  }

  function Run(s: System, steps: seq<(nat, Action)>): System {
    if steps == [] then s
    else var k := |steps| - 1; Step(Run(s, steps[..k]), steps[k].0, steps[k].1)
  }

  function Initial(books: nat, callers: nat): System {
    System([], seq(books, i => 1), seq(callers, i => Idle))
  }

  // ----- The invariant -----

  ghost predicate KeysUnique(s: System) {
    forall i, j :: 0 <= i < j < |s.rows| && s.rows[i].key.Some? ==> s.rows[i].key != s.rows[j].key
  }

  /** A pending key is nobody else's, committed or pending. */
  ghost predicate PendingUnique(s: System) {
    && (forall p, i :: 0 <= p < |s.callers| && 0 <= i < |s.rows| ==> !Pending(s.callers[p], s.rows[i].key))
    && (forall p, q | 0 <= p < |s.callers| && 0 <= q < |s.callers| && p != q && s.callers[p].Inserted? :: !Pending(s.callers[q], s.callers[p].job.key))
  }

  /** A caller with the lock on its own book's counter. */
  predicate HasLock(c: Caller) {
    (c.Holding? || c.Inserted?) && Numbers(c.job)
  }

  ghost predicate LocksOk(s: System) {
    && (forall p, q | 0 <= p < q < |s.callers| && HasLock(s.callers[p]) :: !Locks(s.callers[q], s.callers[p].job.book))
    && (forall p | 0 <= p < |s.callers| && HasLock(s.callers[p]) ::
          s.callers[p].job.book < |s.next| && s.callers[p].number == s.next[s.callers[p].job.book])
  }

  predicate SameTarget(c: Caller, d: Caller) {
    c.Inserted? && d.Inserted? && Target(c.job).Some? && Target(c.job) == Target(d.job)
  }

  /** An updated row is a draft of the job's book, and updated by one transaction only. */
  ghost predicate DraftsOk(s: System) {
    && (forall p | 0 <= p < |s.callers| && s.callers[p].Inserted? && Target(s.callers[p].job).Some? ::
          IsDraft(s.rows, Target(s.callers[p].job).value))
    && (forall p, q :: 0 <= p < q < |s.callers| ==> !SameTarget(s.callers[p], s.callers[q]))
  }

  ghost predicate Numbered(r: Row, book: nat, n: nat) {
    r.state.Filed? && r.book == book && r.number == n
  }

  ghost predicate Taken(rows: seq<Row>, book: nat, n: nat) {
    exists i :: 0 <= i < |rows| && Numbered(rows[i], book, n)
  }

  /** Each book's committed numbers are exactly 1 .. next - 1, without a repeat. */
  ghost predicate Gapless(s: System) {
    && (forall i :: 0 <= i < |s.rows| ==> s.rows[i].book < |s.next| && (s.rows[i].state.Filed? ==> 1 <= s.rows[i].number < s.next[s.rows[i].book]))
    && (forall i, j :: 0 <= i < j < |s.rows| && s.rows[i].state.Filed? ==> !Numbered(s.rows[j], s.rows[i].book, s.rows[i].number))
    && (forall b, n: nat :: 0 <= b < |s.next| && 1 <= n < s.next[b] ==> Taken(s.rows, b, n))
    && (forall b :: 0 <= b < |s.next| ==> s.next[b] >= 1)
  }

  ghost predicate IsReversed(rows: seq<Row>, i: nat) {
    exists j :: 0 <= j < |rows| && rows[j].reverses == Some(i)
  }

  /** An entry that reverses another is not reversed, and its original, filed in the same book, is. */
  ghost predicate OriginalsOk(rows: seq<Row>) {
    forall j :: 0 <= j < |rows| && rows[j].reverses.Some? ==>
      && rows[j].reverses.value < |rows| && !rows[j].reversed
      && rows[rows[j].reverses.value].reversed && rows[rows[j].reverses.value].state.Filed?
      && rows[rows[j].reverses.value].book == rows[j].book
  }

  ghost predicate ReversedOnce(rows: seq<Row>) {
    forall i, j :: 0 <= i < j < |rows| && rows[i].reverses.Some? ==> rows[i].reverses != rows[j].reverses
  }

  ghost predicate MarksOk(rows: seq<Row>) {
    forall i :: 0 <= i < |rows| && rows[i].reversed ==> IsReversed(rows, i)
  }

  /** Reversed exactly when one entry names it; no reversal is reversed. */
  ghost predicate ReversalsOk(s: System) {
    OriginalsOk(s.rows) && ReversedOnce(s.rows) && MarksOk(s.rows)
  }

  /** What a caller in flight may rely on, and what a finished one was told. */
  ghost predicate CallerOk(s: System, c: Caller) {
    match c
    case Idle => true
    case Started(job) => JobOk(s, job)
    case Probed(job) => JobOk(s, job) && Reversible(s, job)
    case Holding(job, _) => JobOk(s, job) && Reversible(s, job)
    case Inserted(job, _) => JobOk(s, job) && Reversible(s, job)
    case Refused(job) => job.reverses.None? && job.draft.NoDraft? && job.key.Some? && FindKey(s.rows, job.key).Some?
    case Done(job, result) =>
      result.Returned? ==>
        && result.row < |s.rows|
        && (job.reverses.None? && job.key.Some? ==> s.rows[result.row].key == job.key)
        && (job.reverses.None? && job.key.None? ==> s.rows[result.row].book == job.book)
        && (job.reverses.Some? ==> s.rows[result.row].reverses == job.reverses)
        && (job.draft.PostDraft? ==> result.row == job.draft.id && s.rows[result.row].state.Filed?)
        && (job.draft.VoidDraft? ==> result.row == job.draft.id && s.rows[result.row].state.Voided?)
  }

  ghost predicate JobOk(s: System, job: Job) {
    && job.book < |s.next|
    && (job.reverses.Some? ==> job.reverses.value < |s.rows| && job == ReversalJob(s.rows, job.reverses.value))
    && (Target(job).Some? ==> job.key.None? && Target(job).value < |s.rows| && s.rows[Target(job).value].book == job.book)
  }

  ghost predicate Reversible(s: System, job: Job) {
    job.reverses.Some? && job.reverses.value < |s.rows| ==>
      s.rows[job.reverses.value].reverses.None? && s.rows[job.reverses.value].state.Filed?
  }

  ghost predicate CallersOk(s: System) {
    forall p :: 0 <= p < |s.callers| ==> CallerOk(s, s.callers[p])
  }

  /** The caller was told that it posted the draft. */
  predicate PostedIt(c: Caller, id: nat) {
    c.Done? && c.result.Returned? && c.job.draft == PostDraft(id)
  }

  /** No two callers were told so of one draft. */
  ghost predicate PostedOnce(s: System) {
    forall p, q, id: nat :: 0 <= p < q < |s.callers| && PostedIt(s.callers[p], id) ==> !PostedIt(s.callers[q], id)
  }

  ghost predicate Inv(s: System) {
    KeysUnique(s) && PendingUnique(s) && LocksOk(s) && DraftsOk(s) && Gapless(s) && ReversalsOk(s) && CallersOk(s) && PostedOnce(s)
  }

  // ----- Preservation -----

  /** Rows keep key, book and what they reverse; filed and void ones everything but the mark. */
  ghost predicate RowStays(r: Row, t: Row) {
    && t.key == r.key && t.book == r.book && t.reverses == r.reverses
    && (!r.state.Drafted? ==> t.state == r.state && t.number == r.number)
  }

  lemma RowsStay(s: System, p: nat, a: Action)
    requires DraftsOk(s) && p < |s.callers|
    ensures var t := Step(s, p, a);
            && |t.rows| >= |s.rows| && |t.next| == |s.next|
            && (forall i :: 0 <= i < |s.rows| ==> RowStays(s.rows[i], t.rows[i]))
            && (!Commits(s, p, a) ==> t.rows == s.rows && t.next == s.next)
  {
    hide Moved, Refuses;
  }

  /** A commit that adds a row adds its own; one that updates a draft adds none. */
  lemma CommittedRow(s: System, p: nat, a: Action)
    requires DraftsOk(s) && p < |s.callers| && Commits(s, p, a)
    ensures var t, job := Step(s, p, a), s.callers[p].job;
            if Target(job).Some? then
              && |t.rows| == |s.rows|
              && t.rows[Target(job).value].state == (if job.draft.PostDraft? then Filed else Voided)
              && forall i :: 0 <= i < |s.rows| && i != Target(job).value ==> t.rows[i] == s.rows[i]
            else
              && |t.rows| == |s.rows| + 1
              && t.rows[|s.rows|].key == job.key && t.rows[|s.rows|].book == job.book
              && (job.draft.NoDraft? ==> t.rows[|s.rows|].reverses == job.reverses)
              && (job.draft.MakeDraft? ==> t.rows[|s.rows|].reverses == None)
              && forall i :: 0 <= i < |s.rows| ==> t.rows[i].(reversed := s.rows[i].reversed) == s.rows[i]
  {
    hide Moved, Refuses;
  }

  lemma KeysKept(s: System, p: nat, a: Action)
    requires Inv(s) && p < |s.callers|
    ensures KeysUnique(Step(s, p, a))
  {
    hide Moved, LocksOk, Gapless, ReversalsOk, CallersOk, Refuses, PostedOnce, Step, DraftsOk, Commits;
    RowsStay(s, p, a);
    if Commits(s, p, a) {
      InsertedCommits(s, p, a);
      CommittedRow(s, p, a);
    }
  }

  lemma InsertedCommits(s: System, p: nat, a: Action)
    requires p < |s.callers| && Commits(s, p, a)
    ensures s.callers[p].Inserted? && s.callers[p].job.book < |s.next| && !Refuses(s, s.callers[p].job)
    ensures Step(s, p, a).callers[p].Done?
    ensures Step(s, p, a).callers == s.callers[p := Step(s, p, a).callers[p]]
  {
    hide Refuses, Written;
  }

  lemma PendingKept(s: System, p: nat, a: Action)
    requires Inv(s) && p < |s.callers|
    ensures PendingUnique(Step(s, p, a))
  {
    hide LocksOk, Gapless, ReversalsOk, CallersOk, LockFree, Refuses, KeysUnique, DraftsOk, Commits, Step, Moved, PostedOnce;
    var t := Step(s, p, a);
    RowsStay(s, p, a);
    OthersStay(s, p, a);
    if Commits(s, p, a) {
      InsertedCommits(s, p, a);
      CommittedRow(s, p, a);
    } else if t.callers[p].Inserted? && !s.callers[p].Inserted? {
      InsertedFreely(s, p, a);
    } else if t.callers[p].Inserted? {
      InsertedStays(s, p, a);
    }
  }

  lemma OthersStay(s: System, p: nat, a: Action)
    requires p < |s.callers|
    ensures Step(s, p, a).callers == s.callers[p := Moved(s, p, a)]
  {
    hide Moved, Written, Commits;
  }

  lemma InsertedStays(s: System, p: nat, a: Action)
    requires p < |s.callers| && s.callers[p].Inserted? && Moved(s, p, a).Inserted?
    ensures Moved(s, p, a) == s.callers[p]
  {
    hide Refuses, LockFree, Probing, Writing;
  }

  /** What a write found free. */
  lemma InsertedFreely(s: System, p: nat, a: Action)
    requires CallersOk(s) && p < |s.callers| && Moved(s, p, a).Inserted? && !s.callers[p].Inserted?
    ensures var c, d := s.callers[p], Moved(s, p, a);
            && c.Holding? && d == Inserted(c.job, c.number)
            && (if Target(c.job).Some? then
                  IsDraft(s.rows, Target(c.job).value) && RowFree(s, Target(c.job).value) && c.job.key.None?
                else FindKey(s.rows, c.job.key).None? && KeyFree(s, c.job.key))
  {
    hide Refuses, LockFree, Reversible, ReversalJob;
    assert CallerOk(s, s.callers[p]);
  }

  lemma LocksKept(s: System, p: nat, a: Action)
    requires Inv(s) && p < |s.callers|
    ensures LocksOk(Step(s, p, a))
  {
    hide PendingUnique, KeysUnique, ReversalsOk, CallersOk, KeyFree, Gapless, DraftsOk, PostedOnce, Written, Moved;
    OthersStay(s, p, a);
    LockMoves(s, p, a);
  }

  /** A lock is kept, newly taken when free, or given up. */
  lemma LockMoves(s: System, p: nat, a: Action)
    requires p < |s.callers|
    ensures var c, d := s.callers[p], Moved(s, p, a);
            HasLock(d) ==>
            && !Commits(s, p, a)
            && if HasLock(c) then d.job == c.job && d.number == c.number
               else d.job.book < |s.next| && LockFree(s, d.job.book) && d.number == s.next[d.job.book]
  {
    hide Refuses, LockFree, KeyFree, RowFree;
  }

  lemma DraftsKept(s: System, p: nat, a: Action)
    requires Inv(s) && p < |s.callers|
    ensures DraftsOk(Step(s, p, a))
  {
    hide PendingUnique, KeysUnique, ReversalsOk, CallersOk, LocksOk, KeyFree, Gapless, PostedOnce, Step, Moved, Commits;
    var t := Step(s, p, a);
    OthersStay(s, p, a);
    RowsStay(s, p, a);
    if Commits(s, p, a) {
      InsertedCommits(s, p, a);
      CommittedRow(s, p, a);
      forall q | 0 <= q < |t.callers| && t.callers[q].Inserted? && Target(t.callers[q].job).Some?
        ensures IsDraft(t.rows, Target(t.callers[q].job).value)
      {
        assert q != p && !SameTarget(s.callers[if p < q then p else q], s.callers[if p < q then q else p]);
      }
    } else if t.callers[p].Inserted? && !s.callers[p].Inserted? {
      InsertedFreely(s, p, a);
      forall q | 0 <= q < |t.callers| && q != p ensures !SameTarget(t.callers[q], t.callers[p]) && !SameTarget(t.callers[p], t.callers[q]) {
        assert Target(s.callers[p].job).Some? ==> !Updates(s.callers[q], Target(s.callers[p].job).value);
      }
    } else if t.callers[p].Inserted? {
      InsertedStays(s, p, a);
    }
  }

  lemma NumbersKept(s: System, p: nat, a: Action)
    requires Inv(s) && p < |s.callers|
    ensures Gapless(Step(s, p, a))
  {
    hide PendingUnique, KeysUnique, ReversalsOk, CallersOk, Moved, KeyFree, LockFree, Refuses, PostedOnce;
    var t := Step(s, p, a);
    if Commits(s, p, a) {
      if Numbers(s.callers[p].job) {
        var at := if s.callers[p].job.draft.PostDraft? then s.callers[p].job.draft.id else |s.rows|;
        NumberTaken(s, p, a, at);
      } else {
        NoNumberTaken(s, p, a);
      }
    }
  }

  /** The row at `at` becomes the one with the counter's number. */
  lemma NumberTaken(s: System, p: nat, a: Action, at: nat)
    requires Gapless(s) && DraftsOk(s) && LocksOk(s) && CallersOk(s) && p < |s.callers| && Commits(s, p, a) && Numbers(s.callers[p].job)
    requires at == if s.callers[p].job.draft.PostDraft? then s.callers[p].job.draft.id else |s.rows|
    ensures Gapless(Step(s, p, a))
  {
    hide Moved, Refuses, Written, Taken;
    var t, b := Step(s, p, a), s.callers[p].job.book;
    assert CallerOk(s, s.callers[p]) && HasLock(s.callers[p]);
    WrittenAt(s, p, at);
    forall c, n: nat | 0 <= c < |t.next| && 1 <= n < t.next[c] ensures Taken(t.rows, c, n) {
      if c == b && n == s.next[b] {
        TakenAt(t.rows, at, c, n);
      } else {
        TakenBefore(s, at, t, c, n);
      }
    }
  }

  lemma TakenAt(rows: seq<Row>, i: nat, c: nat, n: nat)
    requires i < |rows| && Numbered(rows[i], c, n)
    ensures Taken(rows, c, n)
  {
  }

  lemma TakenBefore(s: System, at: nat, t: System, c: nat, n: nat)
    requires Gapless(s) && c < |s.next| && 1 <= n < s.next[c] && |t.rows| >= |s.rows|
    requires forall i :: 0 <= i < |s.rows| && i != at ==> t.rows[i].(reversed := s.rows[i].reversed) == s.rows[i]
    requires at < |s.rows| ==> !s.rows[at].state.Filed?
    ensures Taken(t.rows, c, n)
  {
    assert Taken(s.rows, c, n);
    var i :| 0 <= i < |s.rows| && Numbered(s.rows[i], c, n);
    assert Numbered(t.rows[i], c, n);
  }

  lemma WrittenAt(s: System, p: nat, at: nat)
    requires DraftsOk(s) && CallersOk(s) && p < |s.callers| && s.callers[p].Inserted? && Numbers(s.callers[p].job)
    requires at == if s.callers[p].job.draft.PostDraft? then s.callers[p].job.draft.id else |s.rows|
    ensures var c := s.callers[p];
            var rows := Written(s.rows, c.job, c.number);
            && (at < |s.rows| ==> !s.rows[at].state.Filed?)
            && |s.rows| <= |rows| <= |s.rows| + 1 && at < |rows| && (|rows| > |s.rows| ==> at == |s.rows|)
            && rows[at].state == Filed && rows[at].book == c.job.book && rows[at].number == c.number
            && forall i :: 0 <= i < |s.rows| && i != at ==> rows[i].(reversed := s.rows[i].reversed) == s.rows[i]
  {
    hide Reversible;
    assert CallerOk(s, s.callers[p]);
  }

  lemma NoNumberTaken(s: System, p: nat, a: Action)
    requires Gapless(s) && DraftsOk(s) && p < |s.callers| && Commits(s, p, a) && !Numbers(s.callers[p].job)
    ensures Gapless(Step(s, p, a))
  {
    hide Moved, Refuses, Taken;
    var t, at := Step(s, p, a), if s.callers[p].job.draft.VoidDraft? then s.callers[p].job.draft.id else |s.rows|;
    forall c, n: nat | 0 <= c < |t.next| && 1 <= n < t.next[c] ensures Taken(t.rows, c, n) {
      TakenBefore(s, at, t, c, n);
    }
  }

  lemma ReversalsKept(s: System, p: nat, a: Action)
    requires Inv(s) && p < |s.callers|
    ensures ReversalsOk(Step(s, p, a))
  {
    hide PendingUnique, KeysUnique, LocksOk, Gapless, Moved, KeyFree, LockFree, PostedOnce, CallersOk, DraftsOk;
    if Commits(s, p, a) {
      if s.callers[p].job.draft.NoDraft? {
        FilingKeepsReversals(s, p, a);
      } else {
        DraftingKeepsReversals(s, p, a);
      }
    }
  }

  lemma FilingKeepsReversals(s: System, p: nat, a: Action)
    requires ReversalsOk(s) && CallersOk(s) && p < |s.callers| && Commits(s, p, a) && s.callers[p].job.draft.NoDraft?
    ensures ReversalsOk(Step(s, p, a))
  {
    hide Moved, Refuses, CallersOk, Written, Step, OriginalsOk, ReversedOnce, MarksOk;
    FiledRows(s, p, a);
    FilingKeepsOriginals(s.rows, Step(s, p, a).rows, s.callers[p].job, s.callers[p].number);
    FilingKeepsOnce(s.rows, Step(s, p, a).rows, s.callers[p].job, s.callers[p].number);
    FilingKeepsMarks(s.rows, Step(s, p, a).rows, s.callers[p].job, s.callers[p].number);
  }

  /** `after` is the rows with the job's, which reverses an entry that is filed and not yet reversed, or none. */
  ghost predicate Files(rows: seq<Row>, after: seq<Row>, job: Job, number: nat) {
    && |after| == |rows| + 1
    && after[|rows|] == Row(job.book, number, job.key, Filed, false, job.reverses)
    && (forall i :: 0 <= i < |rows| ==> after[i] == rows[i].(reversed := rows[i].reversed || job.reverses == Some(i)))
    && (job.reverses.Some? ==>
          && job.reverses.value < |rows| && !rows[job.reverses.value].reversed
          && rows[job.reverses.value].reverses.None? && rows[job.reverses.value].state.Filed?
          && rows[job.reverses.value].book == job.book)
  }

  lemma FilingKeepsOriginals(rows: seq<Row>, after: seq<Row>, job: Job, number: nat)
    requires OriginalsOk(rows) && Files(rows, after, job, number)
    ensures OriginalsOk(after)
  {
  }

  lemma FilingKeepsOnce(rows: seq<Row>, after: seq<Row>, job: Job, number: nat)
    requires OriginalsOk(rows) && ReversedOnce(rows) && Files(rows, after, job, number)
    ensures ReversedOnce(after)
  {
  }

  lemma FilingKeepsMarks(rows: seq<Row>, after: seq<Row>, job: Job, number: nat)
    requires MarksOk(rows) && Files(rows, after, job, number)
    ensures MarksOk(after)
  {
    forall i | 0 <= i < |after| && after[i].reversed ensures IsReversed(after, i) {
      if job.reverses == Some(i) {
        assert after[|rows|].reverses == Some(i);
      } else {
        assert IsReversed(rows, i);
        var j :| 0 <= j < |rows| && rows[j].reverses == Some(i);
        assert after[j].reverses == Some(i);
      }
    }
  }

  /** The rows after a posting or a reversal: the new one, and the original marked. */
  lemma FiledRows(s: System, p: nat, a: Action)
    requires CallersOk(s) && p < |s.callers| && Commits(s, p, a) && s.callers[p].job.draft.NoDraft?
    ensures Files(s.rows, Step(s, p, a).rows, s.callers[p].job, s.callers[p].number)
  {
    hide Moved;
    assert CallerOk(s, s.callers[p]);
  }

  /** Drafts reverse nothing and are not reversed. */
  lemma DraftingKeepsReversals(s: System, p: nat, a: Action)
    requires ReversalsOk(s) && DraftsOk(s) && p < |s.callers| && Commits(s, p, a) && !s.callers[p].job.draft.NoDraft?
    ensures ReversalsOk(Step(s, p, a))
  {
    hide Moved, Refuses;
    var t := Step(s, p, a);
    assert forall i :: 0 <= i < |s.rows| ==> t.rows[i].reversed == s.rows[i].reversed && t.rows[i].reverses == s.rows[i].reverses
                                              && t.rows[i].book == s.rows[i].book;
    forall i | 0 <= i < |t.rows| && t.rows[i].reversed ensures IsReversed(t.rows, i) {
      assert IsReversed(s.rows, i);
      var j :| 0 <= j < |s.rows| && s.rows[j].reverses == Some(i);
      assert t.rows[j].reverses == Some(i);
    }
  }

  /** Committed rows keep what a caller knows of them, so it stays true. */
  lemma CallerStays(s: System, p: nat, a: Action, c: Caller)
    requires DraftsOk(s) && p < |s.callers| && CallerOk(s, c)
    ensures CallerOk(Step(s, p, a), c)
  {
    hide Moved, Refuses, Commits, Marked, Step, DraftsOk;
    RowsStay(s, p, a);
    var t := Step(s, p, a);
    if c.Refused? {
      var i := FindKey(s.rows, c.job.key).value;
      assert RowStays(s.rows[i], t.rows[i]);
      assert t.rows[i].key == c.job.key;
    } else if c.Done? && c.result.Returned? {
      assert RowStays(s.rows[c.result.row], t.rows[c.result.row]);
    } else if !c.Idle? && !c.Done? {
      JobStays(s, t, c.job);
    }
  }

  lemma JobStays(s: System, t: System, job: Job)
    requires |t.rows| >= |s.rows| && |t.next| == |s.next| && forall i :: 0 <= i < |s.rows| ==> RowStays(s.rows[i], t.rows[i])
    ensures JobOk(s, job) ==> JobOk(t, job)
    ensures JobOk(s, job) && Reversible(s, job) ==> Reversible(t, job)
  {
    assert forall i :: 0 <= i < |s.rows| ==> RowStays(s.rows[i], t.rows[i]);
  }

  lemma MovedOk(s: System, p: nat, a: Action)
    requires Inv(s) && p < |s.callers|
    ensures CallerOk(Step(s, p, a), Moved(s, p, a))
  {
    hide PendingUnique, KeysUnique, ReversalsOk, LocksOk, Gapless, PostedOnce, Step, Moved, Commits, CallerOk;
    RowsStay(s, p, a);
    if Commits(s, p, a) {
      CommitOk(s, p, a);
    } else {
      WaitingOk(s, p, a);
      SameRowsOk(s, Step(s, p, a), Moved(s, p, a));
    }
  }

  lemma SameRowsOk(s: System, t: System, c: Caller)
    requires t.rows == s.rows && t.next == s.next && CallerOk(s, c)
    ensures CallerOk(t, c)
  {
  }

  /** Short of a commit: what the caller has read is so. */
  lemma WaitingOk(s: System, p: nat, a: Action)
    requires CallersOk(s) && Gapless(s) && p < |s.callers| && !Commits(s, p, a)
    ensures CallerOk(s, Moved(s, p, a))
  {
    hide KeyFree, LockFree, RowFree, Refuses, Writing, Probing;
    var c := s.callers[p];
    assert CallerOk(s, c);
    match a
    case Probe =>
      if c.Started? {
        ProbeOk(s, c.job);
      }
    case Insert =>
      if c.Holding? {
        WriteOk(s, c);
      }
    case _ =>
  }

  lemma ProbeOk(s: System, job: Job)
    requires JobOk(s, job)
    ensures CallerOk(s, Probing(s.rows, job))
  {
  }

  lemma WriteOk(s: System, c: Caller)
    requires c.Holding? && CallerOk(s, c)
    ensures CallerOk(s, Writing(s, c))
  {
    hide KeyFree, RowFree;
  }

  lemma CommitOk(s: System, p: nat, a: Action)
    requires DraftsOk(s) && CallersOk(s) && p < |s.callers| && Commits(s, p, a)
    ensures CallerOk(Step(s, p, a), Moved(s, p, a))
  {
    hide Refuses, Step, DraftsOk, CallersOk;
    var c := s.callers[p];
    assert CallerOk(s, c) by { assert CallersOk(s); CallerIsOk(s, p); }
    CommittedRow(s, p, a);
    RowsStay(s, p, a);
    if Target(c.job).Some? {
      assert RowStays(s.rows[Target(c.job).value], Step(s, p, a).rows[Target(c.job).value]);
    }
  }

  lemma CallerIsOk(s: System, p: nat)
    requires CallersOk(s) && p < |s.callers|
    ensures CallerOk(s, s.callers[p])
  {
  }

  lemma CallersKept(s: System, p: nat, a: Action)
    requires Inv(s) && p < |s.callers|
    ensures CallersOk(Step(s, p, a))
  {
    hide PendingUnique, KeysUnique, LocksOk, Gapless, ReversalsOk, CallerOk, Moved, Commits, DraftsOk, PostedOnce, Step;
    var t := Step(s, p, a);
    OthersStay(s, p, a);
    forall q | 0 <= q < |t.callers| ensures CallerOk(t, t.callers[q]) {
      if q == p {
        MovedOk(s, p, a);
      } else {
        CallerStays(s, p, a, s.callers[q]);
      }
    }
  }

  /** A caller is told that it posted a draft by its own commit only, which found a draft. */
  lemma PostedByCommit(s: System, p: nat, a: Action, id: nat)
    requires DraftsOk(s) && CallersOk(s) && p < |s.callers| && PostedIt(Moved(s, p, a), id) && !PostedIt(s.callers[p], id)
    ensures IsDraft(s.rows, id)
  {
    hide KeyFree, LockFree, RowFree, Refuses, Reversible, ReversalJob;
    assert CallerOk(s, s.callers[p]);
  }

  lemma PostedKept(s: System, p: nat, a: Action)
    requires Inv(s) && p < |s.callers|
    ensures PostedOnce(Step(s, p, a))
  {
    hide PendingUnique, KeysUnique, LocksOk, Gapless, ReversalsOk, Moved, Commits, DraftsOk, Step, CallersOk, CallerOk;
    var t := Step(s, p, a);
    OthersStay(s, p, a);
    forall q, id: nat | 0 <= q < |s.callers| && q != p && PostedIt(t.callers[p], id) ensures !PostedIt(t.callers[q], id) {
      if PostedIt(s.callers[p], id) {
        assert !PostedIt(s.callers[q], id);
      } else {
        PostedByCommit(s, p, a, id);
        DraftIsNotPosted(s, q, id);
      }
    }
  }

  lemma DraftIsNotPosted(s: System, q: nat, id: nat)
    requires CallersOk(s) && q < |s.callers| && IsDraft(s.rows, id)
    ensures !PostedIt(s.callers[q], id)
  {
    assert CallerOk(s, s.callers[q]);
  }

  lemma StepKeeps(s: System, p: nat, a: Action)
    requires Inv(s)
    ensures Inv(Step(s, p, a))
  {
    hide KeysUnique, PendingUnique, LocksOk, DraftsOk, Gapless, ReversalsOk, CallersOk, PostedOnce, Moved;
    if p < |s.callers| {
      KeysKept(s, p, a);
      PendingKept(s, p, a);
      LocksKept(s, p, a);
      DraftsKept(s, p, a);
      NumbersKept(s, p, a);
      ReversalsKept(s, p, a);
      CallersKept(s, p, a);
      PostedKept(s, p, a);
    }
  }

  lemma InitialOk(books: nat, callers: nat)
    ensures Inv(Initial(books, callers))
  {
  }

  /** Over every interleaving, from an empty journal. */
  lemma {:induction false} InterleavingsKeep(books: nat, callers: nat, steps: seq<(nat, Action)>)
    ensures Inv(Run(Initial(books, callers), steps))
  {
    hide Inv, Step;
    if steps == [] {
      InitialOk(books, callers);
    } else {
      var k := |steps| - 1;
      InterleavingsKeep(books, callers, steps[..k]);
      StepKeeps(Run(Initial(books, callers), steps[..k]), steps[k].0, steps[k].1);
    }
  }

  // ----- What callers see -----

  /** Two committed entries never share a key. */
  lemma KeysNeverRepeat(books: nat, callers: nat, steps: seq<(nat, Action)>, i: nat, j: nat)
    requires var s := Run(Initial(books, callers), steps);
             i < |s.rows| && j < |s.rows| && s.rows[i].key.Some? && s.rows[i].key == s.rows[j].key
    ensures i == j
  {
    hide Run;
    InterleavingsKeep(books, callers, steps);
  }

  /** A number is used in a book exactly when it is below the book's counter, and once. */
  lemma NumbersAreGapless(books: nat, callers: nat, steps: seq<(nat, Action)>, b: nat, n: nat)
    requires b < |Run(Initial(books, callers), steps).next|
    ensures var s := Run(Initial(books, callers), steps);
            && (Taken(s.rows, b, n) <==> 1 <= n < s.next[b])
            && forall i, j | 0 <= i < |s.rows| && 0 <= j < |s.rows| :: Numbered(s.rows[i], b, n) && Numbered(s.rows[j], b, n) ==> i == j
  {
    hide Run, KeysUnique, PendingUnique, LocksOk, ReversalsOk, CallersOk;
    InterleavingsKeep(books, callers, steps);
  }

  /** A keyed poster that returns, returns the committed entry carrying its key. */
  lemma CallerGetsItsKey(books: nat, callers: nat, steps: seq<(nat, Action)>, p: nat)
    requires var s := Run(Initial(books, callers), steps);
             && p < |s.callers| && s.callers[p].Done? && s.callers[p].result.Returned?
             && s.callers[p].job.reverses.None? && s.callers[p].job.key.Some?
    ensures var s := Run(Initial(books, callers), steps);
            s.callers[p].result.row < |s.rows| && s.rows[s.callers[p].result.row].key == s.callers[p].job.key
  {
    hide Run, KeysUnique, PendingUnique, LocksOk, ReversalsOk, Gapless;
    InterleavingsKeep(books, callers, steps);
    var s := Run(Initial(books, callers), steps);
    assert CallerOk(s, s.callers[p]);
  }

  /** The loser of a race on a key never fails: its second read finds the winner. */
  lemma RereadFinds(books: nat, callers: nat, steps: seq<(nat, Action)>, p: nat)
    requires var s := Run(Initial(books, callers), steps); p < |s.callers| && s.callers[p].Refused?
    ensures var s := Run(Initial(books, callers), steps);
            var moved := Moved(s, p, Reread);
            && moved.Done? && moved.result.Returned? && moved.result.reused
            && moved.result.row < |s.rows| && s.rows[moved.result.row].key == s.callers[p].job.key
  {
    hide Run, KeysUnique, PendingUnique, LocksOk, ReversalsOk, Gapless;
    InterleavingsKeep(books, callers, steps);
    var s := Run(Initial(books, callers), steps);
    assert CallerOk(s, s.callers[p]);
  }

  /**
   * However many callers reverse the same entry at once, one reversal is committed, though for an
   * entry without a key nothing but the trigger on the original stands in the way of a second.
   */
  lemma OneReversalEach(books: nat, callers: nat, steps: seq<(nat, Action)>, i: nat)
    requires i < |Run(Initial(books, callers), steps).rows|
    ensures var rows := Run(Initial(books, callers), steps).rows;
            && (rows[i].reversed <==> IsReversed(rows, i))
            && (rows[i].reverses.Some? ==> !rows[i].reversed)
            && forall j, k | 0 <= j < |rows| && 0 <= k < |rows| :: rows[j].reverses == Some(i) && rows[k].reverses == Some(i) ==> j == k
  {
    hide Run, KeysUnique, PendingUnique, LocksOk, CallersOk, Gapless;
    InterleavingsKeep(books, callers, steps);
  }

  /**
   * However many callers post or void one draft at once: one at most is told that it posted it, none that
   * it voided it as well, and the row is what they were told.
   */
  lemma DraftSettledOnce(books: nat, callers: nat, steps: seq<(nat, Action)>, p: nat, q: nat, id: nat)
    requires var s := Run(Initial(books, callers), steps); p < |s.callers| && q < |s.callers| && PostedIt(s.callers[p], id)
    ensures var s := Run(Initial(books, callers), steps);
            && id < |s.rows| && s.rows[id].state.Filed?
            && (PostedIt(s.callers[q], id) ==> p == q)
            && !(s.callers[q].Done? && s.callers[q].result.Returned? && s.callers[q].job.draft == VoidDraft(id))
  {
    hide Run, KeysUnique, PendingUnique, LocksOk, DraftsOk, ReversalsOk, Gapless;
    InterleavingsKeep(books, callers, steps);
    var s := Run(Initial(books, callers), steps);
    assert CallerOk(s, s.callers[p]) && CallerOk(s, s.callers[q]);
  }

  /** Whatever happens next, a filed entry keeps its number and a void draft stays void. */
  lemma {:induction false} SettledForGood(books: nat, callers: nat, steps: seq<(nat, Action)>, more: seq<(nat, Action)>, i: nat)
    requires i < |Run(Initial(books, callers), steps).rows| && !Run(Initial(books, callers), steps).rows[i].state.Drafted?
    ensures var before, after := Run(Initial(books, callers), steps).rows, Run(Initial(books, callers), steps + more).rows;
            |after| >= |before| && RowStays(before[i], after[i])
  {
    hide Inv, Step;
    if more == [] {
      assert steps + more == steps;
    } else {
      var k := |more| - 1;
      SettledForGood(books, callers, steps, more[..k], i);
      assert (steps + more)[..|steps| + k] == steps + more[..k];
      var s := Run(Initial(books, callers), steps + more[..k]);
      InterleavingsKeep(books, callers, steps + more[..k]);
      RowStaysOnce(s, more[k].0, more[k].1, i);
    }
  }

  lemma RowStaysOnce(s: System, p: nat, a: Action, i: nat)
    requires Inv(s) && i < |s.rows|
    ensures i < |Step(s, p, a).rows| && |Step(s, p, a).rows| >= |s.rows| && RowStays(s.rows[i], Step(s, p, a).rows[i])
  {
    hide Step;
    if p < |s.callers| {
      RowsStay(s, p, a);
    } else {
      NobodyMoves(s, p, a);
    }
  }

  lemma NobodyMoves(s: System, p: nat, a: Action)
    requires p >= |s.callers|
    ensures Step(s, p, a) == s
  {
  }

  // ----- No deadlock -----

  predicate Busy(c: Caller) {
    !c.Idle? && !c.Done?
  }

  /** The action that takes a busy caller forward. */
  function NextAction(c: Caller): Action {
    match c
    case Started(_) => Probe
    case Probed(_) => Lock
    case Holding(_, _) => Insert
    case Inserted(_, _) => Commit
    case Refused(_) => Reread
    case _ => Abort
  }

  predicate CanAdvance(s: System, p: nat) {
    p < |s.callers| && Busy(s.callers[p]) && Moved(s, p, NextAction(s.callers[p])) != s.callers[p]
  }

  lemma InsertedAdvances(s: System, p: nat)
    requires p < |s.callers| && s.callers[p].Inserted?
    ensures CanAdvance(s, p)
  {
  }

  /** A caller waits only for one that holds a lock or a key, and whoever holds a key can commit. */
  lemma SomeoneAdvances(s: System, p: nat) returns (q: nat)
    requires Inv(s) && p < |s.callers| && Busy(s.callers[p])
    ensures CanAdvance(s, q)
  {
    hide KeysUnique, PendingUnique, LocksOk, DraftsOk, PostedOnce, ReversalsOk, Gapless;
    var c := s.callers[p];
    assert CallerOk(s, c);
    q := p;
    if c.Probed? && Numbers(c.job) && !LockFree(s, c.job.book) {
      q :| 0 <= q < |s.callers| && Locks(s.callers[q], c.job.book);
      q := HolderAdvances(s, q);
    } else if c.Holding? {
      q := HolderAdvances(s, p);
    }
  }

  lemma HolderAdvances(s: System, p: nat) returns (q: nat)
    requires p < |s.callers| && (s.callers[p].Holding? || s.callers[p].Inserted?)
    ensures CanAdvance(s, q)
  {
    q := p;
    var c := s.callers[p];
    if c.Inserted? {
      InsertedAdvances(s, p);
    } else if Target(c.job).Some? {
      if IsDraft(s.rows, Target(c.job).value) && !RowFree(s, Target(c.job).value) {
        q :| 0 <= q < |s.callers| && Updates(s.callers[q], Target(c.job).value);
        InsertedAdvances(s, q);
      }
    } else if FindKey(s.rows, c.job.key).None? && !KeyFree(s, c.job.key) {
      q :| 0 <= q < |s.callers| && Pending(s.callers[q], c.job.key);
      InsertedAdvances(s, q);
    }
  }

  /** In every reachable state some unfinished call can take its next step. */
  lemma NeverDeadlocked(books: nat, callers: nat, steps: seq<(nat, Action)>)
    ensures var s := Run(Initial(books, callers), steps);
            (exists p :: 0 <= p < |s.callers| && Busy(s.callers[p])) ==> exists q: nat :: CanAdvance(s, q)
  {
    hide Run, Inv, CanAdvance;
    var s := Run(Initial(books, callers), steps);
    InterleavingsKeep(books, callers, steps);
    if p :| 0 <= p < |s.callers| && Busy(s.callers[p]) {
      var q := SomeoneAdvances(s, p);
    }
  }
}
