/**
 * Effective-dated links from economic entities to books, and the routing walk over the entity
 * hierarchy (`books.ts`): a child's posting book is its parent's book.
 */
module BookLinks {
  import opened Prelude
  import opened Calendar

  datatype Link = Link(book: nat, entity: nat, primary: bool, from: Day, to: Option<Day>)

  /** `active[b]` is a book's status, `parents[e]` an entity's parent. */
  datatype Store = Store(active: seq<bool>, parents: seq<Option<nat>>, links: seq<Link>)

  const MAX_DEPTH: nat := 32

  /** `depth` witnesses that no entity is its own ancestor and that no chain is longer than the walk. */
  ghost predicate Acyclic(parents: seq<Option<nat>>, depth: seq<nat>) {
    && |depth| == |parents|
    && (forall e :: 0 <= e < |parents| ==> depth[e] <= MAX_DEPTH)
    && (forall e :: 0 <= e < |parents| && parents[e].Some? ==>
          parents[e].value < |parents| && depth[parents[e].value] < depth[e])
  }

  // ----- Dates -----

  /** An open end reaches every day. */
  predicate Reaches(to: Option<Day>, d: Date) {
    to.None? || Le(d, to.value)
  }

  predicate Covers(l: Link, d: Date) {
    Le(l.from, d) && Reaches(l.to, d)
  }

  /** The link's dates and from..to share a day. */
  predicate Meets(l: Link, from: Date, to: Option<Day>) {
    Reaches(to, l.from) && Reaches(l.to, from)
  }

  predicate LinkedOn(l: Link, e: nat, d: Date) {
    l.primary && l.entity == e && Covers(l, d)
  }

  // ----- Routing -----

  /** The primary link of one entity on a day. */
  function FindLink(links: seq<Link>, e: nat, d: Date): (r: Option<nat>)
    ensures r.Some? ==> r.value < |links| && LinkedOn(links[r.value], e, d)
    ensures r.None? ==> forall i :: 0 <= i < |links| ==> !LinkedOn(links[i], e, d)
  {
    Find(links, (l: Link) => LinkedOn(l, e, d))
  }

  /** `routeThroughEntity`: the entity, then at most `steps` ancestors, nearest first. */
  function Route(s: Store, e: nat, d: Date, steps: nat): Option<nat>
    decreases steps
  {
    match FindLink(s.links, e, d)
    case Some(i) => if i < |s.links| then Some(s.links[i].book) else None
    case None =>
      if steps == 0 || e >= |s.parents| || s.parents[e].None? then None
      else Route(s, s.parents[e].value, d, steps - 1)
  }

  /** What the walk returns: the book, how far up it was found, and on whom. */
  datatype Hit = Hit(book: nat, depth: nat, entity: nat)

  function Nearest(s: Store, e: nat, d: Date, steps: nat, walked: nat): Option<Hit>
    decreases steps
  {
    match FindLink(s.links, e, d)
    case Some(i) => if i < |s.links| then Some(Hit(s.links[i].book, walked, e)) else None
    case None =>
      if steps == 0 || e >= |s.parents| || s.parents[e].None? then None
      else Nearest(s, s.parents[e].value, d, steps - 1, walked + 1)
  }

  /** The entity `n` steps up. */
  function Ancestor(parents: seq<Option<nat>>, e: nat, n: nat): Option<nat>
    decreases n
  {
    if n == 0 then Some(e)
    else if e >= |parents| || parents[e].None? then None
    else Ancestor(parents, parents[e].value, n - 1)
  }

  predicate Linked(s: Store, e: Option<nat>, d: Date) {
    e.Some? && FindLink(s.links, e.value, d).Some?
  }

  /** The hit is the first linked entity on the way up, and its book is the route's. */
  lemma {:induction false} NearestIsNearest(s: Store, e: nat, d: Date, steps: nat, walked: nat)
    ensures var hit := Nearest(s, e, d, steps, walked);
            && (hit.Some? <==> Route(s, e, d, steps).Some?)
            && (hit.Some? ==>
                  && walked <= hit.value.depth <= walked + steps && Some(hit.value.book) == Route(s, e, d, steps)
                  && Ancestor(s.parents, e, hit.value.depth - walked) == Some(hit.value.entity)
                  && Linked(s, Some(hit.value.entity), d)
                  && forall n: nat :: n < hit.value.depth - walked ==> !Linked(s, Ancestor(s.parents, e, n), d))
    decreases steps
  {
    if FindLink(s.links, e, d).None? && steps > 0 && e < |s.parents| && s.parents[e].Some? {
      NearestIsNearest(s, s.parents[e].value, d, steps - 1, walked + 1);
      var hit := Nearest(s, e, d, steps, walked);
      if hit.Some? {
        forall n: nat | n < hit.value.depth - walked ensures !Linked(s, Ancestor(s.parents, e, n), d) {
          if n > 0 {
            assert Ancestor(s.parents, e, n) == Ancestor(s.parents, s.parents[e].value, n - 1);
          }
        }
      }
    }
  }

  datatype RoutingSource = EntityLink | ParentEntityLink | InstallationDefault

  /** `via` is the ancestor whose link answered. */
  datatype Routing = Routing(book: nat, source: RoutingSource, via: Option<nat>)

  /** `resolveBookForEntity`: the walk if an entity is given and it finds a link, else the default. */
  function ResolveBook(s: Store, entity: Option<nat>, d: Date, default: Option<nat>): Option<Routing> {
    var hit := if entity.Some? && entity.value < |s.parents| then Nearest(s, entity.value, d, MAX_DEPTH, 0) else None;
    if hit.Some? then
      Some(if hit.value.depth == 0 then Routing(hit.value.book, EntityLink, None)
           else Routing(hit.value.book, ParentEntityLink, Some(hit.value.entity)))
    else if default.Some? then Some(Routing(default.value, InstallationDefault, None))
    else None
  }

  /** `a` is `e` or one of its ancestors. */
  ghost predicate Above(parents: seq<Option<nat>>, depth: seq<nat>, a: nat, e: nat)
    requires Acyclic(parents, depth) && e < |parents|
    decreases depth[e]
  {
    a == e || (parents[e].Some? && Above(parents, depth, a, parents[e].value))
  }

  ghost predicate Related(parents: seq<Option<nat>>, depth: seq<nat>, a: nat, b: nat)
    requires Acyclic(parents, depth) && a < |parents| && b < |parents|
  {
    Above(parents, depth, a, b) || Above(parents, depth, b, a)
  }

  // ----- Writing links -----

  ghost predicate DescendantConflicts(s: Store, depth: seq<nat>, e: nat, book: nat, from: Day, to: Option<Day>)
    requires Acyclic(s.parents, depth)
  {
    exists i :: && 0 <= i < |s.links| && s.links[i].primary && s.links[i].book != book
                && s.links[i].entity != e && s.links[i].entity < |s.parents|
                && Above(s.parents, depth, e, s.links[i].entity) && Meets(s.links[i], from, to)
  }

  /** The exclusion constraint: one primary link per entity and day. */
  predicate Excludes(links: seq<Link>, skip: nat, e: nat, from: Day, to: Option<Day>) {
    exists i :: 0 <= i < |links| && i != skip && links[i].primary && links[i].entity == e && Meets(links[i], from, to)
  }

  /** Upward, the parent's route is asked for the first day only. */
  function ParentRoute(s: Store, e: nat, on: Day): Option<nat>
    requires e < |s.parents|
  {
    if s.parents[e].None? then None else Route(s, s.parents[e].value, on, MAX_DEPTH)
  }

  ghost function DecideLink(s: Store, depth: seq<nat>, l: Link): Result<Store>
    requires Acyclic(s.parents, depth)
  {
    if !Reaches(l.to, l.from) then Err(Validation)
    else if l.book >= |s.active| then Err(NotFound)
    else if !s.active[l.book] then Err(Validation)
    else if l.entity >= |s.parents| then Err(NotFound)
    else if l.primary && ParentRoute(s, l.entity, l.from).Some? && ParentRoute(s, l.entity, l.from) != Some(l.book) then Err(Validation)
    else if l.primary && DescendantConflicts(s, depth, l.entity, l.book, l.from, l.to) then Err(Validation)
    else if l.primary && Excludes(s.links, |s.links|, l.entity, l.from, l.to) then Err(Conflict)
    else Ok(s.(links := s.links + [l]))
  }

  /** `endLink`: the new end may even lie beyond the old one; only the exclusion constraint objects. */
  function DecideEnd(s: Store, i: nat, to: Day): Result<Store> {
    if i >= |s.links| then Err(NotFound)
    else if Lt(to, s.links[i].from) then Err(Validation)
    else if s.links[i].primary && Excludes(s.links, i, s.links[i].entity, s.links[i].from, Some(to)) then Err(Conflict)
    else Ok(s.(links := s.links[i := s.links[i].(to := Some(to))]))
  }

  // ----- The roll-up invariant -----

  /** Links are well-formed and an entity has at most one primary link a day. */
  ghost predicate LinksOk(s: Store) {
    && (forall i :: 0 <= i < |s.links| ==> s.links[i].entity < |s.parents| && Reaches(s.links[i].to, s.links[i].from))
    && (forall i, j :: 0 <= i < j < |s.links| ==> !SameEntityDay(s.links[i], s.links[j]))
  }

  predicate SameEntityDay(k: Link, l: Link) {
    k.primary && l.primary && k.entity == l.entity && Meets(k, l.from, l.to)
  }

  ghost predicate Clash(parents: seq<Option<nat>>, depth: seq<nat>, k: Link, l: Link)
    requires Acyclic(parents, depth)
  {
    && k.primary && l.primary && k.book != l.book && k.entity < |parents| && l.entity < |parents|
    && Related(parents, depth, k.entity, l.entity) && Meets(k, l.from, l.to)
  }

  ghost predicate RollUp(s: Store, depth: seq<nat>)
    requires Acyclic(s.parents, depth)
  {
    forall i, j :: 0 <= i < |s.links| && 0 <= j < |s.links| ==> !Clash(s.parents, depth, s.links[i], s.links[j])
  }

  /** Said by days: on any day, primary-linked entities on one ancestor chain name one book. */
  lemma RollUpByDay(s: Store, depth: seq<nat>)
    requires Acyclic(s.parents, depth) && LinksOk(s)
    ensures RollUp(s, depth)
            <==> forall a, b, i, j, d: Day | 0 <= i < |s.links| && 0 <= j < |s.links| && 0 <= a < |s.parents| && 0 <= b < |s.parents| ::
                   LinkedOn(s.links[i], a, d) && LinkedOn(s.links[j], b, d) && Related(s.parents, depth, a, b)
                   ==> s.links[i].book == s.links[j].book
  {
    hide Related, Rank, Acyclic;
    if RollUp(s, depth) {
      forall a, b, i, j, d: Day
        | 0 <= i < |s.links| && 0 <= j < |s.links| && 0 <= a < |s.parents| && 0 <= b < |s.parents|
          && LinkedOn(s.links[i], a, d) && LinkedOn(s.links[j], b, d) && Related(s.parents, depth, a, b)
        ensures s.links[i].book == s.links[j].book
      {
        SharedDayMeets(s.links[i], s.links[j], d);
        assert !Clash(s.parents, depth, s.links[i], s.links[j]);
      }
    } else {
      var i, j :| 0 <= i < |s.links| && 0 <= j < |s.links| && Clash(s.parents, depth, s.links[i], s.links[j]);
      var d := if Le(s.links[i].from, s.links[j].from) then s.links[j].from else s.links[i].from;
      assert LinkedOn(s.links[i], s.links[i].entity, d) && LinkedOn(s.links[j], s.links[j].entity, d);
    }
  }

  lemma SharedDayMeets(k: Link, l: Link, d: Date)
    requires Covers(k, d) && Covers(l, d)
    ensures Meets(k, l.from, l.to) && Meets(l, k.from, k.to)
  {
  }

  // ----- Routing under the invariant -----

  /** Some primary link of the entity or an ancestor covers the day. */
  ghost predicate LinkedAbove(s: Store, depth: seq<nat>, e: nat, d: Date, i: nat)
    requires Acyclic(s.parents, depth) && e < |s.parents|
  {
    i < |s.links| && s.links[i].primary && Covers(s.links[i], d) && Above(s.parents, depth, s.links[i].entity, e)
  }

  /** The walk finds a link exactly when one is there to find; thirty-two steps are enough. */
  lemma {:induction false} RouteFinds(s: Store, depth: seq<nat>, e: nat, d: Date, steps: nat)
    requires Acyclic(s.parents, depth) && e < |s.parents| && depth[e] <= steps
    ensures Route(s, e, d, steps).Some? <==> exists i: nat :: LinkedAbove(s, depth, e, d, i)
    ensures Route(s, e, d, steps).Some?
            ==> exists i: nat :: LinkedAbove(s, depth, e, d, i) && s.links[i].book == Route(s, e, d, steps).value
    decreases depth[e]
  {
    var here := FindLink(s.links, e, d);
    if here.Some? {
      assert LinkedAbove(s, depth, e, d, here.value);
    } else if s.parents[e].Some? {
      var p := s.parents[e].value;
      RouteFinds(s, depth, p, d, steps - 1);
      forall i: nat ensures LinkedAbove(s, depth, e, d, i) <==> LinkedAbove(s, depth, p, d, i) {
        if i < |s.links| {
          assert !LinkedOn(s.links[i], e, d);
        }
      }
    } else {
      forall i: nat ensures !LinkedAbove(s, depth, e, d, i) {
        if i < |s.links| {
          assert !LinkedOn(s.links[i], e, d);
        }
      }
    }
  }

  /** Two entities on one chain are comparable. */
  lemma {:induction false} ChainIsLinear(parents: seq<Option<nat>>, depth: seq<nat>, a: nat, b: nat, e: nat)
    requires Acyclic(parents, depth) && a < |parents| && b < |parents| && e < |parents|
    requires Above(parents, depth, a, e) && Above(parents, depth, b, e)
    ensures Related(parents, depth, a, b)
    decreases depth[e]
  {
    if a != e && b != e {
      ChainIsLinear(parents, depth, a, b, parents[e].value);
    }
  }

  /** Whichever linked ancestor is asked, the answer is the route's book. */
  lemma RouteIsAnyAncestors(s: Store, depth: seq<nat>, e: nat, d: Day, i: nat)
    requires Acyclic(s.parents, depth) && LinksOk(s) && RollUp(s, depth) && e < |s.parents|
    requires LinkedAbove(s, depth, e, d, i)
    ensures Route(s, e, d, MAX_DEPTH) == Some(s.links[i].book)
  {
    hide Route, Above, Related;
    RouteFinds(s, depth, e, d, MAX_DEPTH);
    var j: nat :| LinkedAbove(s, depth, e, d, j) && s.links[j].book == Route(s, e, d, MAX_DEPTH).value;
    ChainIsLinear(s.parents, depth, s.links[i].entity, s.links[j].entity, e);
    SharedDayMeets(s.links[i], s.links[j], d);
    assert !Clash(s.parents, depth, s.links[i], s.links[j]);
  }

  /** A child's posting book is its parent's book whenever the parent has one. */
  lemma ChildPostsToParentsBook(s: Store, depth: seq<nat>, e: nat, d: Day)
    requires Acyclic(s.parents, depth) && LinksOk(s) && RollUp(s, depth) && e < |s.parents| && s.parents[e].Some?
    requires Route(s, s.parents[e].value, d, MAX_DEPTH).Some?
    ensures Route(s, e, d, MAX_DEPTH) == Route(s, s.parents[e].value, d, MAX_DEPTH)
  {
    hide Route, Related, LinksOk, RollUp;
    var p := s.parents[e].value;
    RouteFinds(s, depth, p, d, MAX_DEPTH);
    var i: nat :| LinkedAbove(s, depth, p, d, i);
    assert LinkedAbove(s, depth, e, d, i);
    RouteIsAnyAncestors(s, depth, p, d, i);
    RouteIsAnyAncestors(s, depth, e, d, i);
  }

  /**
   * Who answers: the entity's own link, else the nearest linked ancestor, named; else the default,
   * also for an entity with no link anywhere.
   */
  lemma ResolveBookExactly(s: Store, depth: seq<nat>, entity: Option<nat>, d: Day, default: Option<nat>)
    requires Acyclic(s.parents, depth) && (entity.Some? ==> entity.value < |s.parents|)
    ensures var r := ResolveBook(s, entity, d, default);
            var own := entity.Some? && exists i :: 0 <= i < |s.links| && LinkedOn(s.links[i], entity.value, d);
            var above := entity.Some? && exists i: nat :: LinkedAbove(s, depth, entity.value, d, i);
            && (r.Some? && r.value.source == EntityLink <==> own)
            && (r.Some? && r.value.source == ParentEntityLink <==> above && !own)
            && (r.Some? && r.value.source == InstallationDefault <==> !above && default.Some?)
            && (r.Some? && r.value.source == InstallationDefault ==> r.value.book == default.value)
            && (r.Some? ==> (r.value.source == ParentEntityLink <==> r.value.via.Some?))
            && (r.Some? && r.value.via.Some? ==>
                  exists n: nat :: && 0 < n && Ancestor(s.parents, entity.value, n) == r.value.via && Linked(s, r.value.via, d)
                                   && forall m: nat :: m < n ==> !Linked(s, Ancestor(s.parents, entity.value, m), d))
  {
    hide Route, LinkedAbove, Nearest;
    if entity.Some? {
      RouteFinds(s, depth, entity.value, d, MAX_DEPTH);
      NearestIsNearest(s, entity.value, d, MAX_DEPTH, 0);
      var here := FindLink(s.links, entity.value, d);
      assert Linked(s, Ancestor(s.parents, entity.value, 0), d) <==> here.Some?;
      if here.Some? {
        OwnLinkIsAbove(s, depth, entity.value, d, here.value);
      }
    }
  }

  lemma OwnLinkIsAbove(s: Store, depth: seq<nat>, e: nat, d: Date, i: nat)
    requires Acyclic(s.parents, depth) && e < |s.parents| && i < |s.links| && LinkedOn(s.links[i], e, d)
    ensures LinkedAbove(s, depth, e, d, i)
  {
  }

  // ----- What one write does to the invariant -----

  lemma LinkKeepsLinksOk(s: Store, depth: seq<nat>, l: Link)
    requires Acyclic(s.parents, depth) && LinksOk(s) && DecideLink(s, depth, l).Ok?
    ensures LinksOk(DecideLink(s, depth, l).value)
  {
    hide Route, Above, DescendantConflicts, Rank;
    var after := DecideLink(s, depth, l).value;
    forall i | 0 <= i < |s.links| ensures !SameEntityDay(s.links[i], l) {
    }
  }

  lemma EndKeepsLinksOk(s: Store, i: nat, to: Day)
    requires LinksOk(s) && DecideEnd(s, i, to).Ok?
    ensures LinksOk(DecideEnd(s, i, to).value)
  {
    var l := s.links[i].(to := Some(to));
    forall j | 0 <= j < |s.links| && j != i ensures !SameEntityDay(s.links[j], l) && !SameEntityDay(l, s.links[j]) {
    }
  }

  /** A primary link of a strict ancestor that starts inside the new link's dates, after its first day. */
  ghost predicate LateAncestor(s: Store, depth: seq<nat>, l: Link, i: nat)
    requires Acyclic(s.parents, depth) && l.entity < |s.parents|
  {
    && i < |s.links| && s.links[i].primary && s.links[i].book != l.book && s.links[i].entity != l.entity
    && Above(s.parents, depth, s.links[i].entity, l.entity)
    && Lt(l.from, s.links[i].from) && Reaches(l.to, s.links[i].from)
  }

  lemma {:induction false} AboveIsInside(parents: seq<Option<nat>>, depth: seq<nat>, a: nat, e: nat)
    requires Acyclic(parents, depth) && e < |parents| && Above(parents, depth, a, e)
    ensures a < |parents| && depth[a] <= depth[e]
    decreases depth[e]
  {
    if a != e {
      AboveIsInside(parents, depth, a, parents[e].value);
    }
  }

  /** The guards rule out every clash but that of a late ancestor. */
  lemma OnlyLateAncestorsClash(s: Store, depth: seq<nat>, l: Link, i: nat)
    requires Acyclic(s.parents, depth) && LinksOk(s) && RollUp(s, depth) && DecideLink(s, depth, l).Ok? && l.primary
    requires i < |s.links| && Clash(s.parents, depth, s.links[i], l)
    ensures LateAncestor(s, depth, l, i)
  {
    hide Route, Rank, RollUp;
    var k := s.links[i];
    if k.entity == l.entity || Above(s.parents, depth, l.entity, k.entity) {
      assert false;
    } else if Le(k.from, l.from) {
      EarlyAncestorRoutes(s, depth, l, i);
      assert false;
    } else {
      NotBefore(k.from, l.from);
    }
  }

  /** A strict ancestor's link that covers the first day is what the upward check finds. */
  lemma EarlyAncestorRoutes(s: Store, depth: seq<nat>, l: Link, i: nat)
    requires Acyclic(s.parents, depth) && LinksOk(s) && RollUp(s, depth) && l.entity < |s.parents|
    requires i < |s.links| && s.links[i].primary && Covers(s.links[i], l.from)
    requires s.links[i].entity != l.entity && Above(s.parents, depth, s.links[i].entity, l.entity)
    ensures ParentRoute(s, l.entity, l.from) == Some(s.links[i].book)
  {
    hide Route, Rank, RollUp, LinksOk;
    assert LinkedAbove(s, depth, s.parents[l.entity].value, l.from, i);
    RouteIsAnyAncestors(s, depth, s.parents[l.entity].value, l.from, i);
  }

  lemma NotBefore(a: Date, b: Date)
    requires !Le(a, b)
    ensures Lt(b, a)
  {
  }

  /**
   * An accepted link keeps the roll-up rule exactly when no ancestor has a link to another book that
   * starts within the new link's dates, because the upward check looks at the first day only.
   */
  lemma LinkKeepsRollUp(s: Store, depth: seq<nat>, l: Link)
    requires Acyclic(s.parents, depth) && LinksOk(s) && RollUp(s, depth) && DecideLink(s, depth, l).Ok?
    ensures RollUp(DecideLink(s, depth, l).value, depth)
            <==> !l.primary || !exists i: nat :: LateAncestor(s, depth, l, i)
  {
    hide Related, Rank, DescendantConflicts, Excludes, Route;
    var after := DecideLink(s, depth, l).value;
    if l.primary && exists i: nat :: LateAncestor(s, depth, l, i) {
      var i: nat :| LateAncestor(s, depth, l, i);
      LateAncestorClashes(s, depth, l, i);
      assert Clash(s.parents, depth, after.links[i], after.links[|s.links|]);
    } else {
      forall i, j | 0 <= i < |after.links| && 0 <= j < |after.links| ensures !Clash(s.parents, depth, after.links[i], after.links[j]) {
        if Clash(s.parents, depth, after.links[i], after.links[j]) {
          ClashSwaps(s.parents, depth, after.links[i], after.links[j]);
          if i < |s.links| && j == |s.links| {
            OnlyLateAncestorsClash(s, depth, l, i);
          } else if j < |s.links| && i == |s.links| {
            OnlyLateAncestorsClash(s, depth, l, j);
          }
        }
      }
    }
  }

  lemma LateAncestorClashes(s: Store, depth: seq<nat>, l: Link, i: nat)
    requires Acyclic(s.parents, depth) && LinksOk(s) && l.primary && l.entity < |s.parents| && LateAncestor(s, depth, l, i)
    ensures Clash(s.parents, depth, s.links[i], l)
  {
  }

  lemma ClashSwaps(parents: seq<Option<nat>>, depth: seq<nat>, k: Link, l: Link)
    requires Acyclic(parents, depth) && Clash(parents, depth, k, l)
    ensures Clash(parents, depth, l, k)
  {
  }

  /** A related entity's link to another book that starts after the old end and not after the new one. */
  ghost predicate StartsBeyond(s: Store, depth: seq<nat>, i: nat, to: Day, j: nat)
    requires Acyclic(s.parents, depth) && i < |s.links|
  {
    var l := s.links[i];
    && j < |s.links| && l.primary && s.links[j].primary && s.links[j].book != l.book
    && l.entity < |s.parents| && s.links[j].entity < |s.parents| && Related(s.parents, depth, s.links[j].entity, l.entity)
    && l.to.Some? && Lt(l.to.value, s.links[j].from) && Le(s.links[j].from, to)
  }

  /**
   * Ending a link keeps the rule exactly when no related entity's link to another book starts after
   * the old end and not after the new one; in particular shortening always does.
   */
  lemma EndKeepsRollUp(s: Store, depth: seq<nat>, i: nat, to: Day)
    requires Acyclic(s.parents, depth) && LinksOk(s) && RollUp(s, depth) && DecideEnd(s, i, to).Ok?
    ensures RollUp(DecideEnd(s, i, to).value, depth) <==> !exists j: nat :: StartsBeyond(s, depth, i, to, j)
    ensures Reaches(s.links[i].to, to) ==> RollUp(DecideEnd(s, i, to).value, depth)
  {
    hide Related, Rank, Excludes, Acyclic, Lt, Le;
    EndClashes(s, depth, i, to);
    forall j: nat | j < |s.links|
      ensures Clash(s.parents, depth, s.links[j], s.links[i].(to := Some(to))) <==> StartsBeyond(s, depth, i, to, j)
    {
      ClashesBeyond(s, depth, i, to, j);
    }
  }

  lemma ClashesBeyond(s: Store, depth: seq<nat>, i: nat, to: Day, j: nat)
    requires Acyclic(s.parents, depth) && LinksOk(s) && RollUp(s, depth) && DecideEnd(s, i, to).Ok? && j < |s.links|
    ensures i < |s.links|
    ensures Clash(s.parents, depth, s.links[j], s.links[i].(to := Some(to))) <==> StartsBeyond(s, depth, i, to, j)
  {
    hide Related, Excludes, Acyclic;
    assert !Clash(s.parents, depth, s.links[j], s.links[i]);
  }

  lemma EndClashes(s: Store, depth: seq<nat>, i: nat, to: Day)
    requires Acyclic(s.parents, depth) && LinksOk(s) && RollUp(s, depth) && DecideEnd(s, i, to).Ok?
    ensures RollUp(DecideEnd(s, i, to).value, depth)
            <==> forall j :: 0 <= j < |s.links| ==> !Clash(s.parents, depth, s.links[j], s.links[i].(to := Some(to)))
    ensures Reaches(s.links[i].to, to) ==> RollUp(DecideEnd(s, i, to).value, depth)
  {
    hide Related, Rank, Excludes;
    var after, l := DecideEnd(s, i, to).value, s.links[i].(to := Some(to));
    forall j, k | 0 <= j < |s.links| && 0 <= k < |s.links| && Clash(s.parents, depth, after.links[j], after.links[k])
      ensures exists m :: 0 <= m < |s.links| && Clash(s.parents, depth, s.links[m], l)
    {
      ClashSwaps(s.parents, depth, after.links[j], after.links[k]);
      assert !Clash(s.parents, depth, s.links[j], s.links[k]);
      if j == i {
        assert Clash(s.parents, depth, s.links[k], l);
      } else {
        assert Clash(s.parents, depth, s.links[j], l);
      }
    }
    forall j | 0 <= j < |s.links| && Clash(s.parents, depth, s.links[j], l)
      ensures !RollUp(after, depth) && !Reaches(s.links[i].to, to)
    {
      assert j != i ==> Clash(s.parents, depth, after.links[j], after.links[i]);
      assert !Clash(s.parents, depth, s.links[j], s.links[i]);
      if Reaches(s.links[i].to, to) {
        ShorterMeetsLess(s.links[j], s.links[i], to);
        assert false;
      }
    }
  }

  lemma ShorterMeetsLess(k: Link, l: Link, to: Day)
    requires Reaches(l.to, to) && Meets(k, l.from, Some(to))
    ensures Meets(k, l.from, l.to)
  {
  }

  // ----- Runs -----

  datatype LinkOp = LinkEntity(link: Link) | EndLink(id: nat, to: Day) | ArchiveBook(book: nat)

  ghost function Decide(s: Store, depth: seq<nat>, op: LinkOp): Result<Store>
    requires Acyclic(s.parents, depth)
  {
    match op
    case LinkEntity(l) => DecideLink(s, depth, l)
    case EndLink(i, to) => DecideEnd(s, i, to)
    case ArchiveBook(b) => if b < |s.active| then Ok(s.(active := s.active[b := false])) else Err(NotFound)
  }

  ghost function Apply(s: Store, depth: seq<nat>, op: LinkOp): (t: Store)
    requires Acyclic(s.parents, depth)
    ensures t.parents == s.parents
  {
    if Decide(s, depth, op).Ok? then Decide(s, depth, op).value else s
  }

  ghost function Run(s: Store, depth: seq<nat>, ops: seq<LinkOp>): (t: Store)
    requires Acyclic(s.parents, depth)
    ensures t.parents == s.parents
  {
    if ops == [] then s else Apply(Run(s, depth, ops[..|ops| - 1]), depth, ops[|ops| - 1])
  }

  /** Primary links are opened in date order, and ending a link never lengthens it. */
  ghost predicate InOrder(s: Store, op: LinkOp) {
    match op
    case LinkEntity(l) => l.primary ==> forall i :: 0 <= i < |s.links| && s.links[i].primary ==> Le(s.links[i].from, l.from)
    case EndLink(i, to) => i < |s.links| ==> Reaches(s.links[i].to, to)
    case ArchiveBook(_) => true
  }

  ghost predicate RunsInOrder(s: Store, depth: seq<nat>, ops: seq<LinkOp>)
    requires Acyclic(s.parents, depth)
  {
    ops == [] || (RunsInOrder(s, depth, ops[..|ops| - 1]) && InOrder(Run(s, depth, ops[..|ops| - 1]), ops[|ops| - 1]))
  }

  lemma StepKeepsRollUp(s: Store, depth: seq<nat>, op: LinkOp)
    requires Acyclic(s.parents, depth) && LinksOk(s) && RollUp(s, depth) && InOrder(s, op)
    ensures LinksOk(Apply(s, depth, op)) && RollUp(Apply(s, depth, op), depth)
  {
    hide LinksOk, DecideLink, DecideEnd, Acyclic, Clash, Rank;
    if Decide(s, depth, op).Ok? {
      match op
      case LinkEntity(l) =>
        LinkKeepsLinksOk(s, depth, l);
        LinkKeepsRollUp(s, depth, l);
        if l.primary {
          NoLateAncestor(s, depth, l);
        }
      case EndLink(i, to) =>
        EndIsInside(s, i, to);
        EndKeepsLinksOk(s, i, to);
        EndKeepsRollUp(s, depth, i, to);
      case ArchiveBook(b) => ArchiveKeeps(s, depth, b);
    }
  }

  lemma EndIsInside(s: Store, i: nat, to: Day)
    requires DecideEnd(s, i, to).Ok?
    ensures i < |s.links|
  {
  }

  lemma NoLateAncestor(s: Store, depth: seq<nat>, l: Link)
    requires Acyclic(s.parents, depth) && DecideLink(s, depth, l).Ok? && l.primary && InOrder(s, LinkEntity(l))
    ensures !exists i: nat :: LateAncestor(s, depth, l, i)
  {
  }

  lemma ArchiveKeeps(s: Store, depth: seq<nat>, b: nat)
    requires Acyclic(s.parents, depth) && LinksOk(s) && RollUp(s, depth) && b < |s.active|
    ensures var t := s.(active := s.active[b := false]); LinksOk(t) && RollUp(t, depth)
  {
  }

  /** Roll-up over every in-order run, from no links at all. */
  lemma {:induction false} RollUpOverRuns(s: Store, depth: seq<nat>, ops: seq<LinkOp>)
    requires Acyclic(s.parents, depth) && s.links == [] && RunsInOrder(s, depth, ops)
    ensures LinksOk(Run(s, depth, ops)) && RollUp(Run(s, depth, ops), depth)
  {
    hide LinksOk, RollUp, Apply, InOrder;
    if ops == [] {
      NoLinks(s, depth);
    } else {
      RollUpOverRuns(s, depth, ops[..|ops| - 1]);
      StepKeepsRollUp(Run(s, depth, ops[..|ops| - 1]), depth, ops[|ops| - 1]);
    }
  }

  lemma NoLinks(s: Store, depth: seq<nat>)
    requires Acyclic(s.parents, depth) && s.links == []
    ensures LinksOk(s) && RollUp(s, depth)
  {
  }

  // ----- Both side conditions are needed -----

  /** A company and one part of it, two books, no links. */
  function Example(): Store {
    Store([true, true], [None, Some(0)], [])
  }

  function CompanyFrom(from: Day, to: Option<Day>): Link {
    Link(0, 0, true, from, to)
  }

  function PartFrom(from: Day): Link {
    Link(1, 1, true, from, None)
  }

  lemma PartIsInside(depth: seq<nat>)
    requires depth == [0, 1]
    ensures Acyclic(Example().parents, depth)
    ensures Above(Example().parents, depth, 0, 1) && !Above(Example().parents, depth, 1, 0)
  {
  }

  lemma FirstLinkAccepted(depth: seq<nat>, l: Link)
    requires depth == [0, 1] && l.primary && l.entity == 0 && l.book == 0 && Reaches(l.to, l.from)
    ensures Acyclic(Example().parents, depth)
    ensures DecideLink(Example(), depth, l) == Ok(Example().(links := [l]))
  {
    PartIsInside(depth);
    assert [] + [l] == [l];
  }

  /** The company's link covers neither the part's first day nor (yet) its dates, so the part's is accepted. */
  lemma PartAccepted(depth: seq<nat>, company: Link, part: Link)
    requires depth == [0, 1] && company.primary && company.entity == 0 && company.book == 0
    requires part.primary && part.entity == 1 && part.book == 1 && part.to.None?
    requires !Covers(company, part.from)
    ensures Acyclic(Example().parents, depth)
    ensures DecideLink(Example().(links := [company]), depth, part) == Ok(Example().(links := [company, part]))
  {
    hide Rank;
    PartIsInside(depth);
    var s := Example().(links := [company]);
    assert FindLink(s.links, 0, part.from).None?;
    assert [company] + [part] == [company, part];
  }

  lemma PartClashes(depth: seq<nat>, company: Link, part: Link)
    requires depth == [0, 1] && company.primary && company.entity == 0 && company.book == 0
    requires part.primary && part.entity == 1 && part.book == 1 && Meets(company, part.from, part.to)
    ensures Acyclic(Example().parents, depth)
    ensures !RollUp(Example().(links := [company, part]), depth)
  {
    hide Rank;
    PartIsInside(depth);
    var s := Example().(links := [company, part]);
    assert Clash(s.parents, depth, s.links[0], s.links[1]);
  }

  /** Back-dating the part's link below the company's slips past both checks. */
  lemma OutOfOrderBreaks(depth: seq<nat>)
    requires depth == [0, 1]
    ensures Acyclic(Example().parents, depth)
    ensures var company, part := CompanyFrom(Date(2026, 6, 1), None), PartFrom(Date(2026, 1, 1));
            var one := DecideLink(Example(), depth, company);
            one.Ok? && one.value.parents == Example().parents
            && var two := DecideLink(one.value, depth, part);
               two.Ok? && two.value.parents == Example().parents && !RollUp(two.value, depth)
  {
    var company, part := CompanyFrom(Date(2026, 6, 1), None), PartFrom(Date(2026, 1, 1));
    FirstLinkAccepted(depth, company);
    PartAccepted(depth, company, part);
    PartClashes(depth, company, part);
  }

  /** Moving the end of a finished link forward, over the part's dates, is not checked at all. */
  lemma LengtheningBreaks(depth: seq<nat>)
    requires depth == [0, 1]
    ensures Acyclic(Example().parents, depth)
    ensures var company, part := CompanyFrom(Date(2026, 1, 1), Some(Date(2026, 3, 31))), PartFrom(Date(2026, 4, 1));
            var s := Example().(links := [company, part]);
            DecideLink(Example(), depth, company) == Ok(Example().(links := [company]))
            && DecideLink(Example().(links := [company]), depth, part) == Ok(s)
            && DecideEnd(s, 0, Date(2026, 12, 31)).Ok?
            && DecideEnd(s, 0, Date(2026, 12, 31)).value.parents == Example().parents
            && !RollUp(DecideEnd(s, 0, Date(2026, 12, 31)).value, depth)
  {
    var company, part := CompanyFrom(Date(2026, 1, 1), Some(Date(2026, 3, 31))), PartFrom(Date(2026, 4, 1));
    var s := Example().(links := [company, part]);
    FirstLinkAccepted(depth, company);
    PartAccepted(depth, company, part);
    var longer := company.(to := Some(Date(2026, 12, 31)));
    assert s.links[0 := longer] == [longer, part];
    PartClashes(depth, longer, part);
  }
}
