/**
 * `evaluateFact`: read a fact, then post it, leave it, or reverse and repost it, in separate
 * transactions (`posting-engine.ts`).
 */
module PostingEngine {
  import opened Prelude
  import opened Facts
  import opened Ledger
  import opened Templates

  // ----- The protocol -----

  /**
   * One call: what the reader, the router and the rule resolver answered. `reading` is None for a
   * fact that does not exist, `route` for one no book covers, `rule` for one no rule matches.
   */
  datatype Evaluation = Evaluation(
    ref: FactRef,
    reading: Option<SourceFact>,
    route: Option<nat>,
    rule: Option<ResolvedRule>,
    allowBackdated: bool)

  datatype Reason = FactNotFound | FactIneligible | NoRoute | NoRule | NothingToPost

  datatype Verdict =
    | Unpostable(reason: Reason)
    | PostedNew(entry: nat)
    | Unchanged(entry: nat)
    | Reposted(entry: nat, reversal: nat)
    | Threw(error: Error)

  /** The newest posted, unreversed rule entry of a fact (`existingEntryFor`). */
  predicate Live(e: Entry, f: FactRef) {
    e.header.source == PostingRule && e.header.fact == Some(f) && e.status == Posted && e.reverses.None?
  }

  function ExistingEntry(entries: seq<Entry>, f: FactRef): (r: Option<nat>)
    ensures r.Some? ==> r.value < |entries| && Live(entries[r.value], f)
    ensures r.None? ==> forall i :: 0 <= i < |entries| ==> !Live(entries[i], f)
  {
    if entries == [] then None
    else if Live(entries[|entries| - 1], f) then Some(|entries| - 1)
    else ExistingEntry(entries[..|entries| - 1], f)
  }

  /** The line handed to the journal. A rule line's dimension value is not passed on. */
  function JournalLine(fact: SourceFact, l: BuiltLine): LineInput {
    LineInput(l.account, l.entity, Some(fact.currency), l.amount, map[])
  }

  function JournalLines(fact: SourceFact, built: seq<BuiltLine>): seq<LineInput> {
    seq(|built|, i requires 0 <= i < |built| => JournalLine(fact, built[i]))
  }

  function MintKey(fact: SourceFact, rule: ResolvedRule): PostingKey {
    RuleKey(rule.code, rule.version, fact.ref, FingerprintFact(fact, rule))
  }

  function RuleHeader(fact: SourceFact, rule: ResolvedRule): Header {
    Header(PostingRule, Some(rule.versionId), Some(MintKey(fact, rule)), Some(fact.ref),
           Some(FingerprintFact(fact, rule)))
  }

  function PostInput(fact: SourceFact, rule: ResolvedRule, book: nat, built: seq<BuiltLine>): EntryInput {
    EntryInput(Some(book), fact.date, RuleHeader(fact, rule), JournalLines(fact, built))
  }

  /** `post`: build the lines, then one journal transaction. */
  function Post(db: Db, fact: SourceFact, rule: ResolvedRule, book: nat, allow: bool): Result<Outcome> {
    var built :- BuildLines(fact, rule);
    DecidePost(db, PostInput(fact, rule, book, built), allow)
  }

  predicate UpToDate(e: Entry, fact: SourceFact, rule: ResolvedRule) {
    e.header.fingerprint == Some(FingerprintFact(fact, rule)) && e.header.version == Some(rule.versionId)
  }

  /** What the call does before any repost: the checks that end it early, in order. */
  function Screen(db: Db, ev: Evaluation): Option<Verdict> {
    if ev.route.None? then Some(Unpostable(NoRoute))
    else if ev.route.value >= |db.books| then Some(Threw(NotFound))
    else if !db.books[ev.route.value].active then Some(Unpostable(NoRoute))
    else if ev.rule.None? then Some(Unpostable(NoRule))
    else None
  }

  function Evaluate(db: Db, ev: Evaluation): (Db, Verdict) {
    if ev.reading.None? then (db, Unpostable(FactNotFound))
    else
      var fact := ev.reading.value;
      var existing := ExistingEntry(db.entries, fact.ref);
      if fact.ineligible then
        if existing.None? then (db, Unpostable(FactIneligible))
        else match DecideReverse(db, existing.value, Some(fact.date), ev.allowBackdated)
          case Ok(o) => (Commit(db, o.change), Unpostable(FactIneligible))
          case Err(e) => (db, Threw(e))
      else
        var screened := Screen(db, ev);
        if screened.Some? then (db, screened.value)
        else if existing.Some? then
          if UpToDate(db.entries[existing.value], fact, ev.rule.value) then (db, Unchanged(existing.value))
          else match DecideReverse(db, existing.value, Some(fact.date), ev.allowBackdated)
            case Err(e) => (db, Threw(e))
            case Ok(reversal) => Repost(Commit(db, reversal.change), ev, fact, reversal.id)
        else
          match BuildLines(fact, ev.rule.value)
          case Err(e) => (db, Threw(e))
          case Ok(built) =>
            if |built| < 2 then (db, Unpostable(NothingToPost))
            else
              match Post(db, fact, ev.rule.value, ev.route.value, ev.allowBackdated)
              case Err(e) => (db, Threw(e))
              case Ok(o) => (Commit(db, o.change), if o.reused then Unchanged(o.id) else PostedNew(o.id))
  }

  /** The second transaction of a repost. If it throws, the reversal stays. */
  function Repost(db: Db, ev: Evaluation, fact: SourceFact, reversal: nat): (Db, Verdict)
    requires ev.rule.Some? && ev.route.Some?
  {
    match Post(db, fact, ev.rule.value, ev.route.value, ev.allowBackdated)
    case Err(e) => (db, Threw(e))
    case Ok(o) => (Commit(db, o.change), Reposted(o.id, reversal))
  }

  /** The rows when the process dies right after the first transaction of the call. */
  function CrashAfterReversal(db: Db, ev: Evaluation): Db {
    if ev.reading.None? then db
    else
      var fact := ev.reading.value;
      var existing := ExistingEntry(db.entries, fact.ref);
      if existing.None? then db
      else if !fact.ineligible && (Screen(db, ev).Some? || UpToDate(db.entries[existing.value], fact, ev.rule.value))
      then db
      else match DecideReverse(db, existing.value, Some(fact.date), ev.allowBackdated)
        case Ok(o) => Commit(db, o.change)
        case Err(_) => db
  }

  // ----- Runs of the protocol -----

  datatype Move =
    | Service(op: Op)
    | Evaluated(ev: Evaluation)
    | Crashed(ev: Evaluation)

  function Step(db: Db, m: Move): Db {
    match m
    case Service(op) => Apply(db, op)
    case Evaluated(ev) => Evaluate(db, ev).0
    case Crashed(ev) => CrashAfterReversal(db, ev)
  }

  function Moves(db: Db, moves: seq<Move>): Db {
    if moves == [] then db else Step(Moves(db, moves[..|moves| - 1]), moves[|moves| - 1])
  }
}
