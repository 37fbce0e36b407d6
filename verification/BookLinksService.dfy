/** The link writes as they run (`books.ts`): walks over the hierarchy, then one row inserted or updated. */
module BookLinksService {
  import opened Prelude
  import opened Calendar
  import opened BookLinks

  /** The call committed what was decided, or threw and left every row alone. */
  ghost predicate Did(decision: Result<Store>, before: Store, after: Store, r: Result<nat>) {
    match decision
    case Ok(t) => r.Ok? && after == t
    case Err(e) => r == Err(e) && after == before
  }

  class BookLinksService {
    var active: seq<bool>
    const parents: seq<Option<nat>>
    var links: seq<Link>

    function View(): Store
      reads this
    {
      Store(active, parents, links)
    }

    constructor (active: seq<bool>, parents: seq<Option<nat>>)
      ensures View() == Store(active, parents, [])
    {
      this.active, this.parents, this.links := active, parents, [];
    }

    /** The recursive query from a link's entity upward: does it pass `a`? */
    method Passes(a: nat, start: nat, ghost depth: seq<nat>) returns (found: bool)
      requires Acyclic(parents, depth) && start < |parents|
      ensures found <==> Above(parents, depth, a, start)
    {
      var e: nat := start;
      while e != a && parents[e].Some?
        invariant e < |parents|
        invariant Above(parents, depth, a, start) <==> Above(parents, depth, a, e)
        decreases depth[e]
      {
        e := parents[e].value;
      }
      found := e == a;
    }

    /** `conflictingDescendantLink`: over the whole interval, not just its first day. */
    method ConflictingDescendantLink(e: nat, book: nat, from: Day, to: Option<Day>, ghost depth: seq<nat>)
      returns (found: bool)
      requires Acyclic(parents, depth)
      ensures found <==> DescendantConflicts(View(), depth, e, book, from, to)
    {
      hide Rank, Meets, Above;
      for k := 0 to |links|
        invariant !DescendantConflicts(View().(links := links[..k]), depth, e, book, from, to)
      {
        var l := links[k];
        assert links[..k + 1] == links[..k] + [l];
        if l.primary && l.book != book && l.entity != e && l.entity < |parents| && Meets(l, from, to) {
          var below := Passes(e, l.entity, depth);
          if below {
            return true;
          }
        }
      }
      assert links[..|links|] == links;
      found := false;
    }

    /** `routeThroughEntity`: nearest link first, at most thirty-two ancestors up. */
    method RouteThroughEntity(start: nat, on: Date) returns (r: Option<Hit>)
      requires start < |parents|
      ensures r == Nearest(View(), start, on, MAX_DEPTH, 0)
    {
      var e: nat, steps: nat := start, MAX_DEPTH;
      while true
        invariant steps <= MAX_DEPTH
        invariant Nearest(View(), start, on, MAX_DEPTH, 0) == Nearest(View(), e, on, steps, MAX_DEPTH - steps)
        decreases steps
      {
        var here := FindLink(links, e, on);
        if here.Some? {
          return Some(Hit(links[here.value].book, MAX_DEPTH - steps, e));
        }
        if steps == 0 || e >= |parents| || parents[e].None? {
          return None;
        }
        e, steps := parents[e].value, steps - 1;
      }
    }

    method ResolveBookForEntity(entity: Option<nat>, on: Date, default: Option<nat>) returns (r: Option<Routing>)
      ensures r == ResolveBook(View(), entity, on, default)
    {
      hide Nearest;
      if entity.Some? && entity.value < |parents| {
        var hit := RouteThroughEntity(entity.value, on);
        if hit.Some? {
          return Some(if hit.value.depth == 0 then Routing(hit.value.book, EntityLink, None)
                      else Routing(hit.value.book, ParentEntityLink, Some(hit.value.entity)));
        }
      }
      r := if default.Some? then Some(Routing(default.value, InstallationDefault, None)) else None;
    }

    method LinkEntity(l: Link, ghost depth: seq<nat>) returns (r: Result<nat>)
      requires Acyclic(parents, depth)
      modifies this
      ensures old(View()).parents == View().parents
      ensures Did(DecideLink(old(View()), depth, l), old(View()), View(), r)
    {
      hide Rank, Route, Nearest, DescendantConflicts, Acyclic;
      if !Reaches(l.to, l.from) {
        return Err(Validation);
      }
      if l.book >= |active| {
        return Err(NotFound);
      }
      if !active[l.book] {
        return Err(Validation);
      }
      if l.entity >= |parents| {
        return Err(NotFound);
      }
      if l.primary {
        if parents[l.entity].Some? {
          ParentInside(parents, depth, l.entity);
          var route := RouteThroughEntity(parents[l.entity].value, l.from);
          NearestIsNearest(View(), parents[l.entity].value, l.from, MAX_DEPTH, 0);
          if route.Some? && route.value.book != l.book {
            return Err(Validation);
          }
        }
        var split := ConflictingDescendantLink(l.entity, l.book, l.from, l.to, depth);
        if split {
          return Err(Validation);
        }
        if Excludes(links, |links|, l.entity, l.from, l.to) {
          return Err(Conflict);
        }
      }
      links := links + [l];
      r := Ok(|links| - 1);
    }

    method EndLink(i: nat, to: Day) returns (r: Result<nat>)
      modifies this
      ensures Did(DecideEnd(old(View()), i, to), old(View()), View(), r)
    {
      if i >= |links| {
        return Err(NotFound);
      }
      if Lt(to, links[i].from) {
        return Err(Validation);
      }
      if links[i].primary && Excludes(links, i, links[i].entity, links[i].from, Some(to)) {
        return Err(Conflict);
      }
      links := links[i := links[i].(to := Some(to))];
      r := Ok(i);
    }
  }

  lemma ParentInside(parents: seq<Option<nat>>, depth: seq<nat>, e: nat)
    requires Acyclic(parents, depth) && e < |parents| && parents[e].Some?
    ensures parents[e].value < |parents|
  {
  }
}
