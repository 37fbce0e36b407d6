/**
 * When a link is accepted, when its end may be moved, and which book a fact is routed to (`books.ts`), said
 * by days and by walking up the hierarchy a given number of steps.
 */
module LinkAnswers {
  import opened Prelude
  import opened Calendar
  import opened BookLinks

  /** The day lies within the dates; an open end reaches every day. */
  ghost predicate Within(from: Date, to: Option<Day>, d: Date) {
    Le(from, d) && (to.Some? ==> Le(d, to.value))
  }

  /** Link `i` is a primary one of entity `e` and in force on the day. */
  ghost predicate InForce(s: Store, i: nat, e: nat, d: Date) {
    i < |s.links| && s.links[i].primary && s.links[i].entity == e && Within(s.links[i].from, s.links[i].to, d)
  }

  ghost predicate NothingInForce(s: Store, e: nat, d: Date) {
    forall i: nat :: !InForce(s, i, e, d)
  }

  /** `a` is reached from `e` in `n` steps up. */
  ghost predicate Up(parents: seq<Option<nat>>, e: nat, n: nat, a: nat)
    decreases n
  {
    if n == 0 then a == e
    else e < |parents| && parents[e].Some? && Up(parents, parents[e].value, n - 1, a)
  }

  /** The first linked entity at or above `e` is `n` steps up, and its link is `i`. */
  ghost predicate NearestUp(s: Store, e: nat, d: Date, n: nat, i: nat) {
    && (exists a: nat :: Up(s.parents, e, n, a) && InForce(s, i, a, d))
    && forall m: nat, a: nat :: m < n && Up(s.parents, e, m, a) ==> NothingInForce(s, a, d)
  }

  ghost predicate NoneUp(s: Store, e: nat, d: Date) {
    forall m: nat, a: nat :: Up(s.parents, e, m, a) ==> NothingInForce(s, a, d)
  }

  // ----- The walk finds the nearest -----

  lemma HereIsFound(s: Store, e: nat, d: Date)
    ensures FindLink(s.links, e, d).Some? ==> InForce(s, FindLink(s.links, e, d).value, e, d)
    ensures FindLink(s.links, e, d).None? <==> NothingInForce(s, e, d)
  {
    var here := FindLink(s.links, e, d);
    if here.None? {
      forall i: nat ensures !InForce(s, i, e, d) {
        if i < |s.links| {
          assert !LinkedOn(s.links[i], e, d);
        }
      }
    }
  }

  lemma {:induction false} WalkIsNearest(s: Store, depth: seq<nat>, e: nat, d: Date, steps: nat)
    requires Acyclic(s.parents, depth) && e < |s.parents| && depth[e] <= steps
    ensures Route(s, e, d, steps).None? <==> NoneUp(s, e, d)
    ensures Route(s, e, d, steps).Some? ==> exists n: nat, i: nat :: NearestUp(s, e, d, n, i) && i < |s.links| && s.links[i].book == Route(s, e, d, steps).value
    decreases depth[e]
  {
    hide FindLink, InForce;
    var here := FindLink(s.links, e, d);
    HereIsFound(s, e, d);
    if here.Some? {
      InForceInside(s, here.value, e, d);
      assert Up(s.parents, e, 0, e);
      assert NearestUp(s, e, d, 0, here.value);
    } else if s.parents[e].Some? {
      var p := s.parents[e].value;
      WalkIsNearest(s, depth, p, d, steps - 1);
      UpFromParent(s, e, d);
    } else {
      UpFromRoot(s, e, d);
    }
  }

  lemma InForceInside(s: Store, i: nat, e: nat, d: Date)
    requires InForce(s, i, e, d)
    ensures i < |s.links| && s.links[i].entity == e
  {
  }

  lemma UpFromRoot(s: Store, e: nat, d: Date)
    requires e < |s.parents| && s.parents[e].None? && NothingInForce(s, e, d)
    ensures NoneUp(s, e, d)
  {
  }

  /** One step up moves the whole picture by one. */
  lemma UpFromParent(s: Store, e: nat, d: Date)
    requires e < |s.parents| && s.parents[e].Some? && NothingInForce(s, e, d)
    ensures NoneUp(s, e, d) <==> NoneUp(s, s.parents[e].value, d)
    ensures forall n: nat, i: nat :: NearestUp(s, s.parents[e].value, d, n, i) ==> NearestUp(s, e, d, n + 1, i)
  {
    hide InForce, NothingInForce;
    var p := s.parents[e].value;
    forall m: nat, a: nat ensures Up(s.parents, e, m + 1, a) <==> Up(s.parents, p, m, a) {
    }
    if NoneUp(s, p, d) {
      forall m: nat, a: nat | Up(s.parents, e, m, a) ensures NothingInForce(s, a, d) {
        if m > 0 {
          assert Up(s.parents, p, m - 1, a);
        }
      }
    }
    forall n: nat, i: nat | NearestUp(s, p, d, n, i) ensures NearestUp(s, e, d, n + 1, i) {
      var a: nat :| Up(s.parents, p, n, a) && InForce(s, i, a, d);
      assert Up(s.parents, e, n + 1, a);
      forall m: nat, b: nat | m < n + 1 && Up(s.parents, e, m, b) ensures NothingInForce(s, b, d) {
        if m > 0 {
          assert Up(s.parents, p, m - 1, b);
        }
      }
    }
  }

  lemma {:induction false} UpIsOne(parents: seq<Option<nat>>, e: nat, n: nat, a: nat, b: nat)
    requires Up(parents, e, n, a) && Up(parents, e, n, b)
    ensures a == b
    decreases n
  {
    if n > 0 {
      UpIsOne(parents, parents[e].value, n - 1, a, b);
    }
  }

  /** At most one primary link of an entity is in force on a day, so there is one nearest. */
  lemma NearestIsOne(s: Store, e: nat, d: Day, n: nat, i: nat, m: nat, j: nat)
    requires LinksOk(s) && NearestUp(s, e, d, n, i) && NearestUp(s, e, d, m, j)
    ensures n == m && i == j
  {
    var a: nat :| Up(s.parents, e, n, a) && InForce(s, i, a, d);
    var b: nat :| Up(s.parents, e, m, b) && InForce(s, j, b, d);
    assert n == m;
    UpIsOne(s.parents, e, n, a, b);
    InForceIsOne(s, a, d, i, j);
  }

  lemma InForceIsOne(s: Store, e: nat, d: Day, i: nat, j: nat)
    requires LinksOk(s) && InForce(s, i, e, d) && InForce(s, j, e, d)
    ensures i == j
  {
    SharedDayMeets(s.links[i], s.links[j], d);
    assert SameEntityDay(s.links[i], s.links[j]) && SameEntityDay(s.links[j], s.links[i]);
  }

  /** The walk's book is that of the nearest link, whichever it is. */
  lemma RouteIsNearest(s: Store, depth: seq<nat>, e: nat, d: Day)
    requires Acyclic(s.parents, depth) && LinksOk(s) && e < |s.parents|
    ensures Route(s, e, d, MAX_DEPTH).None? <==> NoneUp(s, e, d)
    ensures forall n: nat, i: nat :: NearestUp(s, e, d, n, i) ==> i < |s.links| && Route(s, e, d, MAX_DEPTH) == Some(s.links[i].book)
  {
    hide Route, NoneUp, NearestUp, LinksOk;
    WalkIsNearest(s, depth, e, d, MAX_DEPTH);
    forall n: nat, i: nat | NearestUp(s, e, d, n, i) ensures i < |s.links| && Route(s, e, d, MAX_DEPTH) == Some(s.links[i].book) {
      NearestIsUp(s, e, d, n, i);
      var m: nat, j: nat :| NearestUp(s, e, d, m, j) && j < |s.links| && s.links[j].book == Route(s, e, d, MAX_DEPTH).value;
      NearestIsOne(s, e, d, n, i, m, j);
    }
  }

  lemma NearestIsUp(s: Store, e: nat, d: Date, n: nat, i: nat)
    requires NearestUp(s, e, d, n, i)
    ensures i < |s.links| && !NoneUp(s, e, d)
  {
  }

  // ----- linkEntity -----

  /** No day of the dates has another primary link of the entity. */
  ghost predicate FreeDays(s: Store, skip: nat, e: nat, from: Day, to: Option<Day>) {
    forall d: Day, i: nat :: Within(from, to, d) && i != skip ==> !InForce(s, i, e, d)
  }

  /** No day of the dates has a primary link of an entity below to another book. */
  ghost predicate SameBookBelow(s: Store, e: nat, book: nat, from: Day, to: Option<Day>) {
    forall d: Day, i: nat, below: nat, n: nat ::
      Within(from, to, d) && n >= 1 && Up(s.parents, below, n, e) && InForce(s, i, below, d) ==> s.links[i].book == book
  }

  /** On the day, the nearest link above the entity, if there is one, is to the book. */
  ghost predicate SameBookAbove(s: Store, e: nat, book: nat, on: Day)
    requires e < |s.parents|
  {
    s.parents[e].Some? ==> forall n: nat, i: nat :: NearestUp(s, s.parents[e].value, on, n, i) ==> s.links[i].book == book
  }

  /** What linking needs, for a primary link and for any other. */
  ghost predicate LinkTakes(s: Store, l: Link) {
    && (l.to.Some? ==> Le(l.from, l.to.value))
    && l.book < |s.active| && s.active[l.book] && l.entity < |s.parents|
    && (l.primary ==> && FreeDays(s, |s.links|, l.entity, l.from, l.to) && SameBookBelow(s, l.entity, l.book, l.from, l.to)
                      && SameBookAbove(s, l.entity, l.book, l.from))
  }

  lemma SharedDay(l: Link, from: Day, to: Option<Day>) returns (d: Day)
    requires Meets(l, from, to) && Reaches(l.to, l.from) && Reaches(to, from)
    ensures Within(from, to, d) && Within(l.from, l.to, d)
  {
    d := if Le(from, l.from) then l.from else from;
  }

  lemma DayShared(l: Link, from: Day, to: Option<Day>, d: Day)
    requires Within(from, to, d) && Within(l.from, l.to, d)
    ensures Meets(l, from, to)
  {
  }

  lemma FreeExactly(s: Store, skip: nat, e: nat, from: Day, to: Option<Day>)
    requires LinksOk(s) && Reaches(to, from)
    ensures Excludes(s.links, skip, e, from, to) <==> !FreeDays(s, skip, e, from, to)
  {
    hide Rank, Meets, Within;
    if Excludes(s.links, skip, e, from, to) {
      var i :| 0 <= i < |s.links| && i != skip && s.links[i].primary && s.links[i].entity == e && Meets(s.links[i], from, to);
      var d := SharedDay(s.links[i], from, to);
      assert InForce(s, i, e, d);
    }
    if !FreeDays(s, skip, e, from, to) {
      var d: Day, i: nat :| Within(from, to, d) && i != skip && InForce(s, i, e, d);
      DayShared(s.links[i], from, to, d);
    }
  }

  ghost predicate SomewhereUp(parents: seq<Option<nat>>, e: nat, a: nat) {
    exists n: nat :: n >= 1 && Up(parents, e, n, a)
  }

  lemma UpIsSomewhere(parents: seq<Option<nat>>, e: nat, n: nat, a: nat)
    requires n >= 1 && Up(parents, e, n, a)
    ensures SomewhereUp(parents, e, a)
  {
  }

  lemma {:induction false} AboveIsUp(parents: seq<Option<nat>>, depth: seq<nat>, a: nat, e: nat)
    requires Acyclic(parents, depth) && e < |parents| && a != e
    ensures Above(parents, depth, a, e) <==> SomewhereUp(parents, e, a)
    decreases depth[e]
  {
    if parents[e].Some? {
      var p := parents[e].value;
      if p == a {
        assert Above(parents, depth, a, p);
        assert Up(parents, a, 0, a);
        UpIsSomewhere(parents, e, 1, a);
      } else {
        AboveIsUp(parents, depth, a, p);
        if SomewhereUp(parents, p, a) {
          var n: nat :| n >= 1 && Up(parents, p, n, a);
          UpIsSomewhere(parents, e, n + 1, a);
        }
        if SomewhereUp(parents, e, a) {
          var n: nat :| n >= 1 && Up(parents, e, n, a);
          UpIsSomewhere(parents, p, n - 1, a);
        }
      }
    }
  }

  /** Nobody is above itself. */
  lemma {:induction false} UpGoesUp(parents: seq<Option<nat>>, depth: seq<nat>, e: nat, n: nat, a: nat)
    requires Acyclic(parents, depth) && e < |parents| && Up(parents, e, n, a)
    ensures a < |parents| && depth[a] + n <= depth[e] && (n >= 1 ==> a != e)
    decreases n
  {
    if n > 0 {
      UpGoesUp(parents, depth, parents[e].value, n - 1, a);
    }
  }

  lemma BelowExactly(s: Store, depth: seq<nat>, e: nat, book: nat, from: Day, to: Option<Day>)
    requires Acyclic(s.parents, depth) && LinksOk(s) && Reaches(to, from)
    ensures DescendantConflicts(s, depth, e, book, from, to) <==> !SameBookBelow(s, e, book, from, to)
  {
    hide Rank, Meets, Within, Acyclic, Up, Above;
    if DescendantConflicts(s, depth, e, book, from, to) {
      var i :| 0 <= i < |s.links| && s.links[i].primary && s.links[i].book != book && s.links[i].entity != e
               && s.links[i].entity < |s.parents| && Above(s.parents, depth, e, s.links[i].entity) && Meets(s.links[i], from, to);
      var d := SharedDay(s.links[i], from, to);
      AboveIsUp(s.parents, depth, e, s.links[i].entity);
      assert InForce(s, i, s.links[i].entity, d);
    }
    if !SameBookBelow(s, e, book, from, to) {
      var d: Day, i: nat, below: nat, n: nat :| Within(from, to, d) && n >= 1 && Up(s.parents, below, n, e) && InForce(s, i, below, d)
                                                && s.links[i].book != book;
      UpGoesUp(s.parents, depth, below, n, e);
      UpIsSomewhere(s.parents, below, n, e);
      AboveIsUp(s.parents, depth, e, below);
      DayShared(s.links[i], from, to, d);
      assert s.links[i].primary && s.links[i].book != book && s.links[i].entity == below && Above(s.parents, depth, e, below);
    }
  }

  lemma AboveExactly(s: Store, depth: seq<nat>, e: nat, book: nat, on: Day)
    requires Acyclic(s.parents, depth) && LinksOk(s) && e < |s.parents|
    ensures SameBookAbove(s, e, book, on) <==> ParentRoute(s, e, on).None? || ParentRoute(s, e, on) == Some(book)
  {
    hide Route, NoneUp, NearestUp, LinksOk;
    if s.parents[e].Some? {
      var p := s.parents[e].value;
      assert p < |s.parents|;
      RouteIsNearest(s, depth, p, on);
      if Route(s, p, on, MAX_DEPTH).Some? {
        NearestThere(s, depth, p, on);
      } else {
        NoneNearest(s, p, on);
      }
    }
  }

  lemma NearestThere(s: Store, depth: seq<nat>, e: nat, d: Day)
    requires Acyclic(s.parents, depth) && e < |s.parents| && Route(s, e, d, MAX_DEPTH).Some?
    ensures exists n: nat, i: nat :: NearestUp(s, e, d, n, i) && s.links[i].book == Route(s, e, d, MAX_DEPTH).value
  {
    WalkIsNearest(s, depth, e, d, MAX_DEPTH);
  }

  lemma NoneNearest(s: Store, e: nat, d: Date)
    requires NoneUp(s, e, d)
    ensures forall n: nat, i: nat :: !NearestUp(s, e, d, n, i)
  {
  }

  /** Which refusal comes first. */
  ghost predicate LinkRefused(s: Store, l: Link, error: Error) {
    if l.to.Some? && !Le(l.from, l.to.value) then error == Validation
    else if l.book >= |s.active| then error == NotFound
    else if !s.active[l.book] then error == Validation
    else if l.entity >= |s.parents| then error == NotFound
    else if !SameBookAbove(s, l.entity, l.book, l.from) || !SameBookBelow(s, l.entity, l.book, l.from, l.to) then error == Validation
    else error == Conflict
  }

  /**
   * `linkEntity` succeeds exactly when the dates are in order, the book is there and active, the entity is there,
   * and a primary link shares no day with another of the entity, none with one below to another book, and agrees
   * on its first day with the nearest link above. It then adds that link and changes nothing else.
   */
  lemma LinkAnswers(s: Store, depth: seq<nat>, l: Link)
    requires Acyclic(s.parents, depth) && LinksOk(s)
    ensures var r := DecideLink(s, depth, l);
            && (r.Ok? <==> LinkTakes(s, l))
            && (r.Ok? ==> r.value.active == s.active && r.value.parents == s.parents && r.value.links == s.links + [l])
            && (r.Err? ==> LinkRefused(s, l, r.error))
  {
    hide Acyclic, LinksOk, Rank, FreeDays, SameBookBelow, SameBookAbove, Excludes, DescendantConflicts, ParentRoute;
    if Reaches(l.to, l.from) && l.entity < |s.parents| {
      FreeExactly(s, |s.links|, l.entity, l.from, l.to);
      BelowExactly(s, depth, l.entity, l.book, l.from, l.to);
      AboveExactly(s, depth, l.entity, l.book, l.from);
    }
  }

  /**
   * `endLink` succeeds exactly when the link is there, the end is not before its start, and a primary link shares
   * no day up to the new end with another of its entity. It then sets that end and changes nothing else.
   */
  lemma EndAnswers(s: Store, id: nat, to: Day)
    requires LinksOk(s)
    ensures var r := DecideEnd(s, id, to);
            && (r.Ok? <==> && id < |s.links| && Le(s.links[id].from, to)
                           && (s.links[id].primary ==> FreeDays(s, id, s.links[id].entity, s.links[id].from, Some(to))))
            && (r.Ok? ==> && r.value.active == s.active && r.value.parents == s.parents && |r.value.links| == |s.links|
                          && forall i :: 0 <= i < |s.links| ==> r.value.links[i] == if i == id then s.links[i].(to := Some(to)) else s.links[i])
            && (r.Err? ==> r.error == if id >= |s.links| then NotFound else if !Le(s.links[id].from, to) then Validation else Conflict)
  {
    hide LinksOk, FreeDays, Excludes;
    if id < |s.links| && Le(s.links[id].from, to) {
      FreeExactly(s, id, s.links[id].entity, s.links[id].from, Some(to));
    }
  }

  // ----- Routing -----

  /** `resolveBookForEntity`: the nearest link at or above the entity, else the default. */
  lemma ResolveAnswers(s: Store, depth: seq<nat>, entity: Option<nat>, d: Day, default: Option<nat>)
    requires Acyclic(s.parents, depth) && LinksOk(s) && (entity.Some? ==> entity.value < |s.parents|)
    ensures var r := ResolveBook(s, entity, d, default);
            && (forall n: nat, i: nat :: entity.Some? && NearestUp(s, entity.value, d, n, i) ==>
                  i < |s.links| && r.Some? && r.value.book == s.links[i].book && r.value.source == if n == 0 then EntityLink else ParentEntityLink)
            && (entity.None? || NoneUp(s, entity.value, d) ==>
                  r == if default.Some? then Some(Routing(default.value, InstallationDefault, None)) else None)
            && (entity.Some? ==> NoneUp(s, entity.value, d) || exists n: nat, i: nat :: NearestUp(s, entity.value, d, n, i))
  {
    hide Route, Nearest, NoneUp, NearestUp, LinksOk, Acyclic, Linked, Ancestor;
    if entity.Some? {
      var e := entity.value;
      NearestIsNearest(s, e, d, MAX_DEPTH, 0);
      RouteIsNearest(s, depth, e, d);
      if Route(s, e, d, MAX_DEPTH).Some? {
        NearestThere(s, depth, e, d);
      }
      forall n: nat, i: nat | NearestUp(s, e, d, n, i)
        ensures Nearest(s, e, d, MAX_DEPTH, 0).Some? && (Nearest(s, e, d, MAX_DEPTH, 0).value.depth == 0 <==> n == 0)
      {
        NearestIsUp(s, e, d, n, i);
        DepthIsSteps(s, e, d, n, i);
      }
    }
  }

  /** The walk stops at the entity itself exactly when its own link is the nearest. */
  lemma DepthIsSteps(s: Store, e: nat, d: Day, n: nat, i: nat)
    requires LinksOk(s) && NearestUp(s, e, d, n, i) && Nearest(s, e, d, MAX_DEPTH, 0).Some?
    ensures Nearest(s, e, d, MAX_DEPTH, 0).value.depth == 0 <==> n == 0
  {
    hide LinksOk, InForce;
    HereIsFound(s, e, d);
    assert Up(s.parents, e, 0, e);
    if n == 0 {
      var a: nat :| Up(s.parents, e, 0, a) && InForce(s, i, a, d);
    } else {
      assert NothingInForce(s, e, d);
      DeeperIsDeeper(s, e, d);
    }
  }

  lemma DeeperIsDeeper(s: Store, e: nat, d: Date)
    requires FindLink(s.links, e, d).None? && Nearest(s, e, d, MAX_DEPTH, 0).Some?
    ensures Nearest(s, e, d, MAX_DEPTH, 0).value.depth >= 1
  {
    NearestIsNearest(s, s.parents[e].value, d, MAX_DEPTH - 1, 1);
  }

  // ----- Over runs -----

  /** Links stay in order, and one primary link an entity and day, whatever is linked, ended or archived. */
  lemma {:induction false} RunKeepsLinks(s: Store, depth: seq<nat>, ops: seq<LinkOp>)
    requires Acyclic(s.parents, depth) && LinksOk(s)
    ensures LinksOk(Run(s, depth, ops))
  {
    hide LinksOk, DecideLink, DecideEnd, Acyclic;
    if ops != [] {
      var k := |ops| - 1;
      RunKeepsLinks(s, depth, ops[..k]);
      var t := Run(s, depth, ops[..k]);
      if Decide(t, depth, ops[k]).Ok? {
        match ops[k]
        case LinkEntity(l) => LinkKeepsLinksOk(t, depth, l);
        case EndLink(i, to) => EndKeepsLinksOk(t, i, to);
        case ArchiveBook(b) => ArchivingKeepsLinks(t, b);
      }
    }
  }

  lemma ArchivingKeepsLinks(s: Store, b: nat)
    requires LinksOk(s) && b < |s.active|
    ensures LinksOk(s.(active := s.active[b := false]))
  {
  }
}
