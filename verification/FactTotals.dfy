/**
 * From facts to accounts: when every entry on an account belongs to one of some facts, the account's
 * balance in the trial balance is the sum of what those facts show on it (`ledger-reports.ts`).
 */
module FactTotals {
  import opened Prelude
  import opened Sums
  import opened Facts
  import opened Ledger
  import opened LedgerInvariants
  import opened Statements
  import opened Convergence

  // ----- A fact on an account, whatever the entity -----

  function AccountWeight(f: FactRef, account: nat): Entry -> int {
    (e: Entry) => if Mine(e, f) && InBooks(e) then Total(e.lines, OnAccount(account, Signed())) else 0
  }

  function NetOnAccount(db: Db, account: nat): FactRef -> int {
    (f: FactRef) => Total(db.entries, AccountWeight(f, account))
  }

  /** No entity, then the first `n`. */
  function Entities(n: nat): seq<Option<nat>> {
    if n == 0 then [None] else Entities(n - 1) + [Some(n - 1)]
  }

  predicate EntityBelow(l: Line, n: nat) {
    l.entity.Some? ==> l.entity.value < n
  }

  function LineAt(account: nat): Line -> Option<nat> -> int {
    (l: Line) => (x: Option<nat>) => At(Place(account, x))(l)
  }

  function AtEntity(account: nat): Option<nat> -> Line -> int {
    (x: Option<nat>) => At(Place(account, x))
  }

  function WeightAt(f: FactRef, account: nat): Entry -> Option<nat> -> int {
    (e: Entry) => (x: Option<nat>) => NetWeight(f, Place(account, x))(e)
  }

  function WeightOf(f: FactRef, account: nat): Option<nat> -> Entry -> int {
    (x: Option<nat>) => NetWeight(f, Place(account, x))
  }

  function NetAt(db: Db, f: FactRef, account: nat): Option<nat> -> int {
    (x: Option<nat>) => Convergence.Net(db, f, Place(account, x))
  }

  lemma LineAtPlace(account: nat, l: Line, x: Option<nat>)
    ensures LineAt(account)(l)(x) == if l.entity == x then OnAccount(account, Signed())(l) else 0
  {
    assert LineAt(account)(l)(x) == At(Place(account, x))(l);
  }

  lemma {:induction false} LineOverEntities(account: nat, l: Line, n: nat)
    ensures Total(Entities(n), LineAt(account)(l)) == if EntityBelow(l, n) then OnAccount(account, Signed())(l) else 0
  {
    hide LineAt, OnAccount;
    if n == 0 {
      var none: seq<Option<nat>> := [];
      TotalAppend(none, None, LineAt(account)(l));
      assert none + [None] == Entities(0);
      LineAtPlace(account, l, None);
    } else {
      LineOverEntities(account, l, n - 1);
      var last: Option<nat> := Some(n - 1);
      TotalAppend(Entities(n - 1), last, LineAt(account)(l));
      LineAtPlace(account, l, last);
    }
  }

  lemma LinesOverEntities(account: nat, lines: seq<Line>, n: nat)
    requires forall j :: 0 <= j < |lines| ==> EntityBelow(lines[j], n)
    ensures Total(Entities(n), Inner(lines, AtEntity(account))) == Total(lines, OnAccount(account, Signed()))
  {
    forall j | 0 <= j < |lines|
      ensures Inner(Entities(n), LineAt(account))(lines[j]) == OnAccount(account, Signed())(lines[j])
    {
      LineOverEntities(account, lines[j], n);
    }
    TotalSame(lines, Inner(Entities(n), LineAt(account)), OnAccount(account, Signed()));
    TotalSwap(lines, Entities(n), LineAt(account), AtEntity(account));
  }

  lemma WeightAtPlace(e: Entry, f: FactRef, account: nat, x: Option<nat>)
    ensures WeightAt(f, account)(e)(x) == if Mine(e, f) && InBooks(e) then Total(e.lines, At(Place(account, x))) else 0
    ensures Inner(e.lines, AtEntity(account))(x) == Total(e.lines, At(Place(account, x)))
  {
    assert WeightAt(f, account)(e)(x) == NetWeight(f, Place(account, x))(e);
  }

  lemma EntryOverEntities(e: Entry, f: FactRef, account: nat, n: nat)
    requires forall j :: 0 <= j < |e.lines| ==> EntityBelow(e.lines[j], n)
    ensures Total(Entities(n), WeightAt(f, account)(e)) == AccountWeight(f, account)(e)
  {
    if Mine(e, f) && InBooks(e) {
      LinesOverEntities(account, e.lines, n);
      forall i | 0 <= i < |Entities(n)|
        ensures WeightAt(f, account)(e)(Entities(n)[i]) == Inner(e.lines, AtEntity(account))(Entities(n)[i])
      {
        WeightAtPlace(e, f, account, Entities(n)[i]);
      }
      TotalSame(Entities(n), WeightAt(f, account)(e), Inner(e.lines, AtEntity(account)));
    } else {
      forall i | 0 <= i < |Entities(n)| ensures WeightAt(f, account)(e)(Entities(n)[i]) == 0 {
        WeightAtPlace(e, f, account, Entities(n)[i]);
      }
      TotalZero(Entities(n), WeightAt(f, account)(e));
    }
  }

  /** A fact's net on an account is its net over all entities there are. */
  lemma NetOverEntities(db: Db, f: FactRef, account: nat, n: nat)
    requires forall i, j :: 0 <= i < |db.entries| && 0 <= j < |db.entries[i].lines| ==> EntityBelow(db.entries[i].lines[j], n)
    ensures NetOnAccount(db, account)(f) == Total(Entities(n), NetAt(db, f, account))
  {
    forall i | 0 <= i < |db.entries|
      ensures Inner(Entities(n), WeightAt(f, account))(db.entries[i]) == AccountWeight(f, account)(db.entries[i])
    {
      EntryOverEntities(db.entries[i], f, account, n);
    }
    TotalSame(db.entries, Inner(Entities(n), WeightAt(f, account)), AccountWeight(f, account));
    TotalSwap(db.entries, Entities(n), WeightAt(f, account), WeightOf(f, account));
    TotalSame(Entities(n), Inner(db.entries, WeightOf(f, account)), NetAt(db, f, account));
  }

  lemma {:induction false} LinesHaveBound(lines: seq<Line>) returns (n: nat)
    ensures forall j :: 0 <= j < |lines| ==> EntityBelow(lines[j], n)
  {
    n := 0;
    if lines != [] {
      var k := |lines| - 1;
      n := LinesHaveBound(lines[..k]);
      if lines[k].entity.Some? && lines[k].entity.value >= n {
        n := lines[k].entity.value + 1;
      }
    }
  }

  lemma {:induction false} EntriesHaveBound(entries: seq<Entry>) returns (n: nat)
    ensures forall i, j :: 0 <= i < |entries| && 0 <= j < |entries[i].lines| ==> EntityBelow(entries[i].lines[j], n)
  {
    n := 0;
    if entries != [] {
      var k := |entries| - 1;
      n := EntriesHaveBound(entries[..k]);
      var m := LinesHaveBound(entries[k].lines);
      if m > n {
        n := m;
      }
    }
  }

  lemma {:induction false} EntitiesOnce(n: nat, x: Option<nat>) returns (k: nat)
    requires x.Some? ==> x.value < n
    ensures k < |Entities(n)| && Entities(n)[k] == x
    ensures forall i :: 0 <= i < |Entities(n)| && i != k ==> Entities(n)[i] != x
  {
    EntitiesListed(n);
    if n == 0 {
      k := 0;
    } else if x == Some(n - 1) {
      k := n;
    } else {
      k := EntitiesOnce(n - 1, x);
    }
  }

  lemma {:induction false} EntitiesListed(n: nat)
    ensures |Entities(n)| == n + 1
    ensures forall i :: 0 <= i <= n ==> Entities(n)[i] == if i == 0 then None else Some(i - 1)
  {
    if n > 0 {
      EntitiesListed(n - 1);
    }
  }

  /** A fact that shows something under one entity only shows all of it there. */
  lemma ShownUnderOne(db: Db, f: FactRef, account: nat, x: Option<nat>)
    requires forall y: Option<nat> :: y != x ==> Convergence.Net(db, f, Place(account, y)) == 0
    ensures NetOnAccount(db, account)(f) == Convergence.Net(db, f, Place(account, x))
  {
    hide Convergence.Net;
    var n := EntriesHaveBound(db.entries);
    if x.Some? && x.value >= n {
      n := x.value + 1;
    }
    NetOverEntities(db, f, account, n);
    var k := EntitiesOnce(n, x);
    TotalOnly(Entities(n), k, NetAt(db, f, account));
  }

  // ----- An account and the facts on it -----

  predicate Touches(e: Entry, account: nat) {
    exists j :: 0 <= j < |e.lines| && e.lines[j].account == account
  }

  ghost predicate Distinct(refs: seq<FactRef>) {
    forall i, j :: 0 <= i < j < |refs| ==> refs[i] != refs[j]
  }

  /** Whatever is on the account was posted for one of the facts, or undoes what was. */
  ghost predicate OnlyTheirs(db: Db, account: nat, refs: seq<FactRef>) {
    forall i :: 0 <= i < |db.entries| && InBooks(db.entries[i]) && Touches(db.entries[i], account)
      ==> exists k :: 0 <= k < |refs| && Mine(db.entries[i], refs[k])
  }

  function AllTime(): Window {
    Window(None, None)
  }

  function WeightForRef(account: nat): Entry -> FactRef -> int {
    (e: Entry) => (f: FactRef) => AccountWeight(f, account)(e)
  }

  function WeightByRef(account: nat): FactRef -> Entry -> int {
    (f: FactRef) => AccountWeight(f, account)
  }

  lemma UntouchedIsZero(e: Entry, account: nat)
    requires !Touches(e, account)
    ensures Total(e.lines, OnAccount(account, Signed())) == 0
  {
    TotalZero(e.lines, OnAccount(account, Signed()));
  }

  lemma EntryIsOneFacts(db: Db, book: nat, account: nat, refs: seq<FactRef>, i: nat)
    requires LinesOk(db) && account < |db.accounts| && db.accounts[account].book == book
    requires Distinct(refs) && OnlyTheirs(db, account, refs) && i < |db.entries|
    ensures Total(refs, WeightForRef(account)(db.entries[i]))
            == EntryWeight(book, AllTime(), OnAccount(account, Signed()))(db.entries[i])
  {
    var e := db.entries[i];
    if !InBooks(e) || !Touches(e, account) {
      UntouchedOrOut(e, book, account);
      forall k | 0 <= k < |refs| ensures WeightForRef(account)(e)(refs[k]) == 0 {
        assert AccountWeight(refs[k], account)(e) == 0;
      }
      TotalZero(refs, WeightForRef(account)(e));
    } else {
      assert LinesFit(db, e);
      var j :| 0 <= j < |e.lines| && e.lines[j].account == account;
      assert LineFits(db, e.book, e.lines[j]);
      var k :| 0 <= k < |refs| && Mine(e, refs[k]);
      forall m | 0 <= m < |refs| ensures WeightForRef(account)(e)(refs[m]) == if m == k then Total(e.lines, OnAccount(account, Signed())) else 0 {
        WeightOfRef(e, account, refs[m]);
      }
      TotalOnly(refs, k, WeightForRef(account)(e));
    }
  }

  lemma WeightOfRef(e: Entry, account: nat, f: FactRef)
    ensures WeightForRef(account)(e)(f) == if Mine(e, f) && InBooks(e) then Total(e.lines, OnAccount(account, Signed())) else 0
  {
    assert WeightForRef(account)(e)(f) == AccountWeight(f, account)(e);
  }

  lemma UntouchedOrOut(e: Entry, book: nat, account: nat)
    requires !InBooks(e) || !Touches(e, account)
    ensures EntryWeight(book, AllTime(), OnAccount(account, Signed()))(e) == 0
    ensures forall f: FactRef :: AccountWeight(f, account)(e) == 0
  {
    if !Touches(e, account) {
      UntouchedIsZero(e, account);
    }
  }

  /** So the account's balance is what its facts show on it. */
  lemma AccountIsItsFacts(db: Db, book: nat, account: nat, refs: seq<FactRef>)
    requires LinesOk(db) && account < |db.accounts| && db.accounts[account].book == book
    requires Distinct(refs) && OnlyTheirs(db, account, refs)
    ensures RowAmount(db, book, AllTime(), Signed())(account) == Total(refs, NetOnAccount(db, account))
  {
    hide LinesOk, OnlyTheirs, Distinct;
    var whole := EntryWeight(book, AllTime(), OnAccount(account, Signed()));
    forall i | 0 <= i < |db.entries|
      ensures Inner(refs, WeightForRef(account))(db.entries[i]) == whole(db.entries[i])
    {
      EntryIsOneFacts(db, book, account, refs, i);
    }
    TotalSame(db.entries, Inner(refs, WeightForRef(account)), whole);
    TotalSwap(db.entries, refs, WeightForRef(account), WeightByRef(account));
    TotalSame(refs, Inner(db.entries, WeightByRef(account)), NetOnAccount(db, account));
  }
}
