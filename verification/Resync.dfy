/**
 * Re-syncing orders beside the journal (`orders.ts`): a sync deletes the order's fees and refunds and
 * inserts what the provider sends under new ids, while evaluations read whatever rows there are.
 */
module Resync {
  import opened Prelude
  import opened Facts
  import opened Ledger
  import opened PostingEngine
  import opened Convergence
  import opened DefaultRules
  import opened ShippedHistory

  // ----- The fee and refund rows -----

  datatype Attachment = Attachment(order: nat, fact: SourceFact)

  /** The rows by id; ids are fresh, and `next` is the next one. */
  datatype Table = Table(rows: map<FactRef, Attachment>, next: nat)

  function Insert(t: Table, order: nat, facts: seq<SourceFact>): Table {
    if facts == [] then t
    else
      var k := |facts| - 1;
      var u := Insert(t, order, facts[..k]);
      var ref := FactRef(facts[k].ref.kind, u.next);
      Table(u.rows[ref := Attachment(order, facts[k].(ref := ref))], u.next + 1)
  }

  function Without(t: Table, order: nat): Table {
    Table(map r | r in t.rows && t.rows[r].order != order :: t.rows[r], t.next)
  }

  /** `rewriteAttachments`: delete the order's rows, insert the provider's. */
  function Rewrite(t: Table, order: nat, facts: seq<SourceFact>): Table {
    Insert(Without(t, order), order, facts)
  }

  // ----- Events -----

  datatype Event = Ledgered(move: Move) | Synced(order: nat, attachments: seq<SourceFact>)

  function TableAfter(events: seq<Event>): Table {
    if events == [] then Table(map[], 0)
    else
      var k := |events| - 1;
      match events[k]
      case Ledgered(_) => TableAfter(events[..k])
      case Synced(order, attachments) => Rewrite(TableAfter(events[..k]), order, attachments)
  }

  function MovesOf(events: seq<Event>): seq<Move> {
    if events == [] then []
    else var k := |events| - 1; MovesOf(events[..k]) + if events[k].Ledgered? then [events[k].move] else []
  }

  predicate Attached(f: FactRef) {
    f.kind == OrderFee || f.kind == OrderRefund
  }

  function Read(t: Table, f: FactRef): Option<SourceFact> {
    if f in t.rows then Some(t.rows[f].fact) else None
  }

  /** A call on a fee or a refund reads the row there is. */
  predicate ReadsRow(t: Table, m: Move) {
    match m
    case Evaluated(ev) => Attached(ev.ref) ==> ev.reading == Read(t, ev.ref)
    case Crashed(ev) => Attached(ev.ref) ==> ev.reading == Read(t, ev.ref)
    case Service(_) => true
  }

  ghost predicate ReadsRows(events: seq<Event>) {
    forall i :: 0 <= i < |events| && events[i].Ledgered? ==> ReadsRow(TableAfter(events[..i]), events[i].move)
  }

  // ----- A deleted row never returns -----

  /** The id was given out, and its row is gone. */
  predicate Gone(t: Table, f: FactRef) {
    f.id < t.next && f !in t.rows
  }

  lemma {:induction false} InsertStaysGone(t: Table, order: nat, facts: seq<SourceFact>, f: FactRef)
    requires Gone(t, f)
    ensures Gone(Insert(t, order, facts), f)
  {
    if facts != [] {
      InsertStaysGone(t, order, facts[..|facts| - 1], f);
    }
  }

  lemma {:induction false} IdsGivenOut(t: Table, order: nat, facts: seq<SourceFact>)
    requires forall r :: r in t.rows ==> r.id < t.next && t.rows[r].fact.ref == r
    ensures var u := Insert(t, order, facts);
            && t.next <= u.next
            && forall r :: r in u.rows ==> r.id < u.next && u.rows[r].fact.ref == r
  {
    if facts != [] {
      IdsGivenOut(t, order, facts[..|facts| - 1]);
    }
  }

  lemma {:induction false} RowsHaveIds(events: seq<Event>)
    ensures var t := TableAfter(events); forall r :: r in t.rows ==> r.id < t.next && t.rows[r].fact.ref == r
  {
    if events != [] {
      var k := |events| - 1;
      RowsHaveIds(events[..k]);
      if events[k].Synced? {
        IdsGivenOut(Without(TableAfter(events[..k]), events[k].order), events[k].order, events[k].attachments);
      }
    }
  }

  /** A sync of its order takes a row away. */
  lemma SyncDeletes(events: seq<Event>, f: FactRef, order: nat, facts: seq<SourceFact>)
    requires f in TableAfter(events).rows && TableAfter(events).rows[f].order == order
    ensures Gone(Rewrite(TableAfter(events), order, facts), f)
  {
    RowsHaveIds(events);
    InsertStaysGone(Without(TableAfter(events), order), order, facts, f);
  }

  lemma {:induction false} GoneForGood(events: seq<Event>, n: nat, f: FactRef)
    requires n <= |events| && Gone(TableAfter(events[..n]), f)
    ensures Gone(TableAfter(events), f)
  {
    if n == |events| {
      assert events[..n] == events;
    } else {
      var k := |events| - 1;
      assert events[..k][..n] == events[..n];
      GoneForGood(events[..k], n, f);
      if events[k].Synced? {
        InsertStaysGone(Without(TableAfter(events[..k]), events[k].order), events[k].order, events[k].attachments, f);
      }
    }
  }

  // ----- A settled row that is deleted -----

  /** No entry of the fact is reversed by hand. */
  predicate HandsOff(db: Db, m: Move, f: FactRef) {
    match m
    case Service(ReverseEntry(id, _, _)) => id < |db.entries| ==> !Mine(db.entries[id], f)
    case _ => true
  }

  function DbBefore(required: set<(nat, nat)>, events: seq<Event>, n: nat): Db
    requires n <= |events|
  {
    Moves(Empty(required), MovesOf(events[..n]))
  }

  ghost predicate UntouchedAt(required: set<(nat, nat)>, events: seq<Event>, j: nat, f: FactRef)
    requires j < |events|
  {
    events[j].Ledgered? ==> Untouched(DbBefore(required, events, j), events[j].move, f)
  }

  /** Event `k` evaluated the fact under its shipped rule and settled on an unspent key. */
  ghost predicate SettledBy(required: set<(nat, nat)>, events: seq<Event>, k: nat, book: nat, fact: SourceFact)
    requires k < |events|
  {
    && events[k].Ledgered? && events[k].move.Evaluated?
    && SettlesOn(DbBefore(required, events, k), events[k].move.ev, book, fact, ShippedVersion(fact))
  }

  /** Event `m` synced the order of the fact's row, which was then there; nothing touched the fact before. */
  ghost predicate DeletedBy(required: set<(nat, nat)>, events: seq<Event>, k: nat, m: nat, f: FactRef)
    requires k < m < |events|
  {
    && events[m].Synced? && f in TableAfter(events[..m]).rows && TableAfter(events[..m]).rows[f].order == events[m].order
    && (forall j :: k < j < m ==> UntouchedAt(required, events, j, f))
    && (forall j :: m < j < |events| && events[j].Ledgered? ==> HandsOff(DbBefore(required, events, j), events[j].move, f))
  }

  lemma DeletedBefore(events: seq<Event>, m: nat, j: nat, f: FactRef)
    requires m < j <= |events| && events[m].Synced?
    requires f in TableAfter(events[..m]).rows && TableAfter(events[..m]).rows[f].order == events[m].order
    ensures Gone(TableAfter(events[..j]), f)
  {
    hide Rewrite, Gone;
    SyncDeletes(events[..m], f, events[m].order, events[m].attachments);
    assert events[..m + 1][..m] == events[..m] && events[..m + 1][m] == events[m];
    assert events[..j][..m + 1] == events[..m + 1];
    GoneForGood(events[..j], m + 1, f);
  }

  /** Every call after the deletion reads nothing, so it leaves the fact alone. */
  lemma DeletedIsUntouched(required: set<(nat, nat)>, events: seq<Event>, k: nat, m: nat, j: nat, f: FactRef)
    requires ReadsRows(events) && Attached(f) && k < m < |events| && DeletedBy(required, events, k, m, f) && k < j < |events|
    ensures UntouchedAt(required, events, j, f)
  {
    hide TableAfter, Moves;
    if j > m && events[j].Ledgered? {
      DeletedBefore(events, m, j, f);
      assert ReadsRow(TableAfter(events[..j]), events[j].move);
    }
  }

  lemma {:induction false} MovesArePrefix(events: seq<Event>, n: nat)
    requires n <= |events|
    ensures MovesOf(events[..n]) <= MovesOf(events)
  {
    if n == |events| {
      assert events[..n] == events;
    } else {
      var k := |events| - 1;
      assert events[..k][..n] == events[..n];
      MovesArePrefix(events[..k], n);
    }
  }

  /** In terms of the moves: no move after the `k`-th event's touches the fact. */
  lemma {:induction false} UntouchedSinceEvent(required: set<(nat, nat)>, events: seq<Event>, k: nat, n: nat, f: FactRef)
    requires k < n <= |events| && events[k].Ledgered? && forall j :: k < j < n ==> UntouchedAt(required, events, j, f)
    ensures UntouchedSince(required, MovesOf(events[..n]), |MovesOf(events[..k])|, f)
  {
    hide Untouched, Moves;
    var i := n - 1;
    assert events[..n][..i] == events[..i] && events[..n][i] == events[i];
    var moves, before := MovesOf(events[..n]), MovesOf(events[..i]);
    if i > k {
      UntouchedSinceEvent(required, events, k, i, f);
      forall j | |MovesOf(events[..k])| < j < |moves| ensures Untouched(Moves(Empty(required), moves[..j]), moves[j], f) {
        if j < |before| {
          assert moves[..j] == before[..j] && moves[j] == before[j];
        } else {
          assert moves[..j] == before && UntouchedAt(required, events, i, f);
        }
      }
    }
  }

  /** An event that settled a fact is a move that did, in the same place. */
  lemma EventIsMove(events: seq<Event>, k: nat)
    requires k < |events| && events[k].Ledgered?
    ensures var i := |MovesOf(events[..k])|; i < |MovesOf(events)| && MovesOf(events)[i] == events[k].move && MovesOf(events)[..i] == MovesOf(events[..k])
  {
    MovesArePrefix(events, k + 1);
    assert events[..k + 1][..k] == events[..k] && events[..k + 1][k] == events[k];
  }

  lemma UntouchedConcludes(required: set<(nat, nat)>, events: seq<Event>, k: nat, book: nat, fact: SourceFact)
    requires k < |events| && SettledBy(required, events, k, book, fact)
    requires HistoryOk(MovesOf(events), fact.ref, book, RuleHistory.Versions(Shipped()))
    requires forall j :: k < j < |events| ==> UntouchedAt(required, events, j, fact.ref)
    ensures Concluded(required, MovesOf(events), |MovesOf(events[..k])|, book, fact)
  {
    hide HistoryOk, SettlesOn, UntouchedSince, UntouchedAt, Moves, ShippedVersion, Shipped, LastEmpty;
    EventIsMove(events, k);
    UntouchedSinceEvent(required, events, k, |events|, fact.ref);
    assert events[..|events|] == events;
  }

  /**
   * A fee or refund was posted, then its order was re-synced, and a row of the result with the same
   * content was posted as well. The old row is gone for good, nothing is ever read of it again, and the
   * journal counts the money twice: whatever else happened, short of reversing the old entry by hand.
   */
  lemma ResyncCountsTwice(required: set<(nat, nat)>, events: seq<Event>, k: nat, m: nat, n: nat, book: nat, fee: SourceFact, id: nat,
                          key: string, account: nat)
    requires ReadsRows(events) && k < m < n < |events| && OrderFact(fee) && fee.ref.kind != Order && id != fee.ref.id
    requires SettledBy(required, events, k, book, fee) && DeletedBy(required, events, k, m, fee.ref)
    requires var copy := fee.(ref := FactRef(fee.ref.kind, id));
             && SettledBy(required, events, n, book, copy)
             && forall j :: n < j < |events| ==> UntouchedAt(required, events, j, copy.ref)
    requires forall f: FactRef :: f == fee.ref || f == FactRef(fee.ref.kind, id)
               ==> HistoryOk(MovesOf(events), f, book, RuleHistory.Versions(Shipped()))
    requires ResolveAccount(Moves(Empty(required), MovesOf(events)), book, BySystemKey(key)) == Some(account)
    ensures Gone(TableAfter(events), fee.ref)
    ensures var copy, db := fee.(ref := FactRef(fee.ref.kind, id)), Moves(Empty(required), MovesOf(events));
            NetOn(db, account)(fee) + NetOn(db, account)(copy) == 2 * EffectOn(key)(fee)
  {
    hide HistoryOk, ReadsRows, SettledBy, UntouchedAt, Moves, ResolveAccount, Concluded, NetOn, EffectOn, Gone, Shipped, OrderFact;
    var copy := fee.(ref := FactRef(fee.ref.kind, id));
    DeletedBefore(events, m, |events|, fee.ref);
    assert events[..|events|] == events;
    FeeIsAttached(fee);
    forall j | k < j < |events| ensures UntouchedAt(required, events, j, fee.ref) {
      DeletedIsUntouched(required, events, k, m, j, fee.ref);
    }
    UntouchedConcludes(required, events, k, book, fee);
    UntouchedConcludes(required, events, n, book, copy);
    CopiesAddUp(required, MovesOf(events), book, fee, id, |MovesOf(events[..k])|, |MovesOf(events[..n])|, key, account);
  }

  lemma FeeIsAttached(fee: SourceFact)
    requires OrderFact(fee) && fee.ref.kind != Order
    ensures Attached(fee.ref)
  {
  }
}
