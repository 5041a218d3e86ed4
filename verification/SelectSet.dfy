/**
  The select set of a Click router thread (click/lib/selectset.cc): the
  elements waiting for file descriptors to become readable or writable.

  `pollfds` lists the descriptors handed to the system, in any order, and
  `selinfo` is indexed by descriptor; each holds indexes into the other.
  Removal moves the last poll entry into the freed place, also while
  `KillRouter` is walking over the list.  The build without poll() keeps two
  descriptor sets and their maximum besides, and these are modelled too.
*/
module SelectSet {

  // An element is named by `id`; its router never changes.
  datatype Element = Element(id: nat, router: nat)

  datatype Waiter = Nobody | Waits(element: Element)

  datatype Event = Readable | Writable

  // The `events` bits of a poll entry, and the mask of a registration.
  datatype Events = Events(read: bool, write: bool) {

    predicate Has(event: Event) {
      if event.Readable? then read else write
    }

    predicate None() {
      !read && !write
    }

    function Plus(more: Events): Events {
      Events(read || more.read, write || more.write)
    }

    function Minus(event: Event): Events {
      if event.Readable? then this.(read := false) else this.(write := false)
    }
  }

  datatype PollFd = PollFd(fd: int, events: Events)

  datatype SelectorInfo = SelectorInfo(read: Waiter, write: Waiter, pollfd: int) {

    function Waiting(event: Event): Waiter {
      if event.Readable? then read else write
    }

    function Cleared(event: Event): SelectorInfo {
      if event.Readable? then this.(read := Nobody) else this.(write := Nobody)
    }
  }

  const NoSelector: SelectorInfo := SelectorInfo(Nobody, Nobody, -1)

  // ---------------------------------------------------------------------
  // What the two arrays mean

  // The events the system is asked about for descriptor `fd`.
  function Watched(p: seq<PollFd>, s: seq<SelectorInfo>, fd: int): Events {
    if 0 <= fd < |s| && 0 <= s[fd].pollfd < |p| then p[s[fd].pollfd].events else Events(false, false)
  }

  // The element registered for `event` on descriptor `fd`.
  function Registered(s: seq<SelectorInfo>, fd: int, event: Event): Waiter {
    if 0 <= fd < |s| then s[fd].Waiting(event) else Nobody
  }

  predicate EntryLinked(p: seq<PollFd>, s: seq<SelectorInfo>, i: int)
    requires 0 <= i < |p|
  {
    0 <= p[i].fd < |s| && s[p[i].fd].pollfd == i
  }

  predicate InfoLinked(p: seq<PollFd>, s: seq<SelectorInfo>, fd: int)
    requires 0 <= fd < |s|
  {
    -1 <= s[fd].pollfd < |p| && (s[fd].pollfd >= 0 ==> p[s[fd].pollfd].fd == fd)
  }

  // The arrays are inverse to each other.
  ghost predicate Linked(p: seq<PollFd>, s: seq<SelectorInfo>) {
    (forall i :: 0 <= i < |p| ==> EntryLinked(p, s, i)) &&
    (forall fd :: 0 <= fd < |s| ==> InfoLinked(p, s, fd))
  }

  // No entry asks for nothing.
  ghost predicate AllBusy(p: seq<PollFd>) {
    forall i :: 0 <= i < |p| ==> !p[i].events.None()
  }

  // A registration is watched; and what is watched is registered, except for
  // reading from the wake pipe.
  predicate Agrees(p: seq<PollFd>, s: seq<SelectorInfo>, wake: int, fd: int) {
    (Registered(s, fd, Readable).Waits? ==> Watched(p, s, fd).read) &&
    (fd != wake ==> (Watched(p, s, fd).read ==> Registered(s, fd, Readable).Waits?)) &&
    (Watched(p, s, fd).write <==> Registered(s, fd, Writable).Waits?)
  }

  ghost predicate AllAgree(p: seq<PollFd>, s: seq<SelectorInfo>, wake: int) {
    forall fd :: Agrees(p, s, wake, fd)
  }

  // The descriptor sets given to select() say what the poll entries say, for
  // descriptors that fit in such a set.
  ghost predicate SetsAgree(p: seq<PollFd>, s: seq<SelectorInfo>, event: Event, fds: set<int>, limit: int) {
    forall fd :: fd in fds <==> fd < limit && Watched(p, s, fd).Has(event)
  }

  ghost predicate Listed(p: seq<PollFd>, fd: int) {
    exists i :: 0 <= i < |p| && p[i].fd == fd
  }

  // `top` is the largest listed descriptor that fits in a set, or -1.
  ghost predicate IsTop(p: seq<PollFd>, limit: int, top: int) {
    (top == -1 || (top < limit && Listed(p, top))) &&
    (forall fd :: fd < limit && Listed(p, fd) ==> fd <= top)
  }

  // What happens to the registrations of descriptor `fd`, seen from outside.
  ghost predicate OnlyAt(s: seq<SelectorInfo>, t: seq<SelectorInfo>, fd: int) {
    forall f, e :: f != fd ==> Registered(t, f, e) == Registered(s, f, e)
  }

  // The set watches exactly `events` on `fd`, and elsewhere what it did.
  ghost predicate WatchChanged(p: seq<PollFd>, s: seq<SelectorInfo>, q: seq<PollFd>, t: seq<SelectorInfo>, fd: int,
      events: Events) {
    forall f :: Watched(q, t, f) == if f == fd then events else Watched(p, s, f)
  }

  ghost predicate SameRegistered(s: seq<SelectorInfo>, t: seq<SelectorInfo>) {
    forall f, e :: Registered(t, f, e) == Registered(s, f, e)
  }

  // The arrays after `remove_pollfd` dropped entry `pi`: the last entry fills
  // the gap.
  function Dropped(p: seq<PollFd>, pi: nat): seq<PollFd>
    requires pi < |p|
  {
    p[pi := p[|p| - 1]][..|p| - 1]
  }

  // ---------------------------------------------------------------------
  // Each descriptor is listed once

  lemma ListedOnce(p: seq<PollFd>, s: seq<SelectorInfo>, i: nat, j: nat)
    requires Linked(p, s)
    requires i < |p| && j < |p| && p[i].fd == p[j].fd
    ensures i == j
  {
    assert EntryLinked(p, s, i) && EntryLinked(p, s, j);
  }

  // Listed means watched for something.
  lemma ListedWatched(p: seq<PollFd>, s: seq<SelectorInfo>, fd: int)
    requires Linked(p, s) && AllBusy(p)
    ensures Listed(p, fd) <==> !Watched(p, s, fd).None()
  {
    if Listed(p, fd) {
      var i :| 0 <= i < |p| && p[i].fd == fd;
      assert EntryLinked(p, s, i);
    }
    if !Watched(p, s, fd).None() {
      assert InfoLinked(p, s, fd);
      assert p[s[fd].pollfd].fd == fd;
    }
  }

  lemma EntryWatched(p: seq<PollFd>, s: seq<SelectorInfo>, i: nat)
    requires Linked(p, s) && i < |p|
    ensures 0 <= p[i].fd < |s| && s[p[i].fd].pollfd == i
    ensures Watched(p, s, p[i].fd) == p[i].events
  {
    assert EntryLinked(p, s, i);
  }

  lemma InfoEntry(p: seq<PollFd>, s: seq<SelectorInfo>, fd: int)
    requires Linked(p, s) && 0 <= fd < |s| && s[fd].pollfd >= 0
    ensures s[fd].pollfd < |p| && p[s[fd].pollfd].fd == fd
    ensures p[s[fd].pollfd].events == Watched(p, s, fd)
  {
    assert InfoLinked(p, s, fd);
  }

  // ---------------------------------------------------------------------
  // Changing one entry's events

  lemma SetEvents(p: seq<PollFd>, s: seq<SelectorInfo>, pi: nat, events: Events)
    requires Linked(p, s) && pi < |p|
    ensures var q := p[pi := p[pi].(events := events)];
            Linked(q, s) &&
            forall f :: Watched(q, s, f) == if f == p[pi].fd then events else Watched(p, s, f)
  {
    var q := p[pi := p[pi].(events := events)];
    forall i | 0 <= i < |q| ensures EntryLinked(q, s, i) {
      assert EntryLinked(p, s, i);
    }
    forall fd | 0 <= fd < |s| ensures InfoLinked(q, s, fd) {
      assert InfoLinked(p, s, fd);
    }
    forall f ensures Watched(q, s, f) == if f == p[pi].fd then events else Watched(p, s, f) {
      assert EntryLinked(p, s, pi);
      if 0 <= f < |s| {
        assert InfoLinked(p, s, f);
      }
    }
  }

  // Registrations do not matter to the links.
  lemma SameLinks(p: seq<PollFd>, s: seq<SelectorInfo>, t: seq<SelectorInfo>)
    requires Linked(p, s)
    requires |t| == |s| && forall fd :: 0 <= fd < |s| ==> t[fd].pollfd == s[fd].pollfd
    ensures Linked(p, t)
    ensures forall f :: Watched(p, t, f) == Watched(p, s, f)
  {
    forall i | 0 <= i < |p| ensures EntryLinked(p, t, i) {
      assert EntryLinked(p, s, i);
    }
    forall fd | 0 <= fd < |t| ensures InfoLinked(p, t, fd) {
      assert InfoLinked(p, s, fd);
    }
  }

  function Blank(n: nat): (s: seq<SelectorInfo>)
    ensures |s| == n && forall i :: 0 <= i < n ==> s[i] == NoSelector
  {
    seq(n, _ => NoSelector)
  }

  // Growing `selinfo` with blank entries.
  lemma MoreInfo(p: seq<PollFd>, s: seq<SelectorInfo>, n: nat)
    requires Linked(p, s)
    ensures var t := s + Blank(n);
            Linked(p, t) &&
            (forall f :: Watched(p, t, f) == Watched(p, s, f)) &&
            (forall f, e :: Registered(t, f, e) == Registered(s, f, e))
  {
    var t := s + Blank(n);
    forall i | 0 <= i < |p| ensures EntryLinked(p, t, i) {
      assert EntryLinked(p, s, i);
    }
    forall fd | 0 <= fd < |t| ensures InfoLinked(p, t, fd) {
      if fd < |s| {
        assert InfoLinked(p, s, fd);
      }
    }
  }

  // Listing a descriptor that is not yet listed.
  lemma ListNew(p: seq<PollFd>, s: seq<SelectorInfo>, fd: nat, events: Events)
    requires Linked(p, s) && fd < |s| && s[fd].pollfd < 0
    ensures var q := p + [PollFd(fd, events)];
            var t := s[fd := s[fd].(pollfd := |p|)];
            Linked(q, t) &&
            (forall f :: Watched(q, t, f) == if f == fd then events else Watched(p, s, f)) &&
            (forall f, e :: Registered(t, f, e) == Registered(s, f, e))
  {
    var q := p + [PollFd(fd, events)];
    var t := s[fd := s[fd].(pollfd := |p|)];
    forall i | 0 <= i < |q| ensures EntryLinked(q, t, i) {
      if i < |p| {
        assert EntryLinked(p, s, i);
      }
    }
    forall f | 0 <= f < |t| ensures InfoLinked(q, t, f) {
      assert InfoLinked(p, s, f);
    }
    forall f ensures Watched(q, t, f) == if f == fd then events else Watched(p, s, f) {
      if 0 <= f < |s| {
        assert InfoLinked(p, s, f);
      }
    }
  }

  lemma NotWatched(p: seq<PollFd>, s: seq<SelectorInfo>, fd: nat)
    requires fd < |s| && s[fd].pollfd < 0
    ensures Watched(p, s, fd) == Events(false, false)
  {
  }

  // The new index table after entry `pi` is dropped: the source clears the
  // dropped descriptor's index first, then redirects the moved one.
  function Redirected(p: seq<PollFd>, s: seq<SelectorInfo>, pi: nat): seq<SelectorInfo>
    requires Linked(p, s) && pi < |p|
  {
    assert EntryLinked(p, s, pi);
    assert EntryLinked(p, s, |p| - 1);
    var t := s[p[pi].fd := s[p[pi].fd].(pollfd := -1)];
    if pi < |p| - 1 then t[p[|p| - 1].fd := t[p[|p| - 1].fd].(pollfd := pi)] else t
  }

  lemma DropLinks(p: seq<PollFd>, s: seq<SelectorInfo>, pi: nat)
    requires Linked(p, s) && pi < |p|
    ensures Linked(Dropped(p, pi), Redirected(p, s, pi))
  {
    var q, t := Dropped(p, pi), Redirected(p, s, pi);
    assert EntryLinked(p, s, pi);
    assert EntryLinked(p, s, |p| - 1);
    forall i | 0 <= i < |q| ensures EntryLinked(q, t, i) {
      assert EntryLinked(p, s, i);
    }
    forall f | 0 <= f < |t| ensures InfoLinked(q, t, f) {
      assert InfoLinked(p, s, f);
    }
  }

  lemma DropMeaning(p: seq<PollFd>, s: seq<SelectorInfo>, pi: nat)
    requires Linked(p, s) && pi < |p|
    ensures var q, t := Dropped(p, pi), Redirected(p, s, pi);
            |t| == |s| &&
            (forall f :: Watched(q, t, f) == if f == p[pi].fd then Events(false, false) else Watched(p, s, f)) &&
            (forall f, e :: Registered(t, f, e) == Registered(s, f, e))
  {
    var q, t := Dropped(p, pi), Redirected(p, s, pi);
    assert EntryLinked(p, s, pi);
    assert EntryLinked(p, s, |p| - 1);
    forall f ensures Watched(q, t, f) == if f == p[pi].fd then Events(false, false) else Watched(p, s, f) {
      if 0 <= f < |s| {
        assert InfoLinked(p, s, f);
      }
    }
  }

  lemma ListedStep(p: seq<PollFd>, n: nat)
    requires n < |p|
    ensures forall f :: Listed(p[..n + 1], f) <==> Listed(p[..n], f) || f == p[n].fd
  {
    var q, r := p[..n], p[..n + 1];
    forall f ensures Listed(r, f) <==> Listed(q, f) || f == p[n].fd {
      if Listed(r, f) && f != p[n].fd {
        var i :| 0 <= i < |r| && r[i].fd == f;
        assert q[i].fd == f;
      }
      if Listed(q, f) {
        var i :| 0 <= i < |q| && q[i].fd == f;
        assert r[i].fd == f;
      }
      assert r[n] == p[n];
    }
  }

  // Only the entry that gets events had none.
  lemma BusyOnceSet(p: seq<PollFd>, s: seq<SelectorInfo>, pi: nat, events: Events)
    requires Linked(p, s) && pi < |p| && !events.None()
    requires forall i :: 0 <= i < |p| && p[i].fd != p[pi].fd ==> !p[i].events.None()
    ensures AllBusy(p[pi := p[pi].(events := events)])
  {
    var q := p[pi := p[pi].(events := events)];
    forall i | 0 <= i < |q| ensures !q[i].events.None() {
      if i != pi && p[i].fd == p[pi].fd {
        ListedOnce(p, s, i, pi);
      }
    }
  }

  lemma SetBusy(p: seq<PollFd>, pi: nat, events: Events)
    requires AllBusy(p) && pi < |p| && !events.None()
    ensures AllBusy(p[pi := p[pi].(events := events)])
  {
  }

  lemma DropBusy(p: seq<PollFd>, pi: nat)
    requires AllBusy(p) && pi < |p|
    ensures AllBusy(Dropped(p, pi))
  {
  }

  lemma TopStep(p: seq<PollFd>, n: nat, limit: int, top: int)
    requires n < |p| && p[n].fd >= 0
    requires IsTop(p[..n], limit, top)
    ensures IsTop(p[..n + 1], limit, if p[n].fd < limit && p[n].fd > top then p[n].fd else top)
  {
    ListedStep(p, n);
    var r, now := p[..n + 1], if p[n].fd < limit && p[n].fd > top then p[n].fd else top;
    assert now == top || Listed(r, p[n].fd);
    forall fd | fd < limit && Listed(r, fd) ensures fd <= now {
      assert Listed(p[..n], fd) || fd == p[n].fd;
    }
  }

  // The largest descriptor, when only `fd` may have come or gone.
  lemma KeepTop(p: seq<PollFd>, s: seq<SelectorInfo>, q: seq<PollFd>, t: seq<SelectorInfo>,
                fd: int, events: Events, limit: int, top: int)
    requires Linked(p, s) && AllBusy(p) && Linked(q, t) && AllBusy(q)
    requires WatchChanged(p, s, q, t, fd, events)
    requires IsTop(p, limit, top)
    ensures !events.None() && 0 <= fd < limit ==> IsTop(q, limit, if fd > top then fd else top)
    ensures fd >= limit ==> IsTop(q, limit, top)
    ensures events.None() && fd != top ==> IsTop(q, limit, top)
    ensures (events.None() <==> Watched(p, s, fd).None()) ==> IsTop(q, limit, top)
  {
    ListedWatched(p, s, fd);
    forall f ensures Listed(q, f) <==> if f == fd then !events.None() else Listed(p, f) {
      ListedWatched(p, s, f);
      ListedWatched(q, t, f);
    }
  }

  // A descriptor set, when events of `fd` are added.
  lemma SetAdd(p: seq<PollFd>, s: seq<SelectorInfo>, q: seq<PollFd>, t: seq<SelectorInfo>,
               fd: int, added: Events, event: Event, fds: set<int>, limit: int)
    requires WatchChanged(p, s, q, t, fd, Watched(p, s, fd).Plus(added))
    requires SetsAgree(p, s, event, fds, limit)
    ensures SetsAgree(q, t, event, if fd < limit && added.Has(event) then fds + {fd} else fds, limit)
  {
  }

  // A descriptor set, when an event of `fd` is removed.
  lemma SetRemove(p: seq<PollFd>, s: seq<SelectorInfo>, q: seq<PollFd>, t: seq<SelectorInfo>,
                  fd: int, gone: Event, event: Event, fds: set<int>, limit: int)
    requires WatchChanged(p, s, q, t, fd, Watched(p, s, fd).Minus(gone))
    requires SetsAgree(p, s, event, fds, limit)
    ensures SetsAgree(q, t, event, if fd < limit && gone == event then fds - {fd} else fds, limit)
  {
  }

  lemma RemoveSets(p: seq<PollFd>, s: seq<SelectorInfo>, q: seq<PollFd>, t: seq<SelectorInfo>,
                   fd: int, gone: Event, readable: set<int>, writable: set<int>, limit: int)
    requires WatchChanged(p, s, q, t, fd, Watched(p, s, fd).Minus(gone))
    requires SetsAgree(p, s, Readable, readable, limit) && SetsAgree(p, s, Writable, writable, limit)
    ensures SetsAgree(q, t, Readable, if fd < limit && gone.Readable? then readable - {fd} else readable, limit)
    ensures SetsAgree(q, t, Writable, if fd < limit && gone.Writable? then writable - {fd} else writable, limit)
  {
    SetRemove(p, s, q, t, fd, gone, Readable, readable, limit);
    SetRemove(p, s, q, t, fd, gone, Writable, writable, limit);
  }

  // Agreement, when only the registrations and events of `fd` have changed.
  lemma KeepAgree(p: seq<PollFd>, s: seq<SelectorInfo>, q: seq<PollFd>, t: seq<SelectorInfo>,
                  wake: int, fd: int, events: Events)
    requires AllAgree(p, s, wake)
    requires WatchChanged(p, s, q, t, fd, events) && OnlyAt(s, t, fd)
    requires Agrees(q, t, wake, fd)
    ensures AllAgree(q, t, wake)
  {
    forall f ensures Agrees(q, t, wake, f) {
      assert Agrees(p, s, wake, f);
    }
  }


  // ---------------------------------------------------------------------
  // The set

  // Whether `element` may wait for `event` on `fd`: nobody else does.
  predicate Free(s: seq<SelectorInfo>, fd: int, event: Event, element: Element) {
    Registered(s, fd, event) in {Nobody, Waits(element)}
  }

  // The waiter for (`f`, `e`) once the registrations of `router` are gone.
  function Killed(w: Waiter, router: nat): Waiter {
    if w.Waits? && w.element.router == router then Nobody else w
  }

  // Some registrations of `router` are gone, with their events; nothing else
  // has changed.
  predicate PartKilled(p: seq<PollFd>, s: seq<SelectorInfo>, q: seq<PollFd>, t: seq<SelectorInfo>, router: nat,
      fd: int, e: Event) {
    && Registered(t, fd, e) in {Registered(s, fd, e), Killed(Registered(s, fd, e), router)}
    && (Watched(q, t, fd).Has(e) <==> Watched(p, s, fd).Has(e) && Registered(t, fd, e) == Registered(s, fd, e))
  }

  ghost predicate PartlyKilled(p: seq<PollFd>, s: seq<SelectorInfo>, q: seq<PollFd>, t: seq<SelectorInfo>,
      router: nat) {
    forall fd, e :: PartKilled(p, s, q, t, router, fd, e)
  }

  predicate Clean(s: seq<SelectorInfo>, fd: int, router: nat) {
    forall e :: Killed(Registered(s, fd, e), router) == Registered(s, fd, e)
  }

  ghost predicate CleanTo(p: seq<PollFd>, s: seq<SelectorInfo>, n: int, router: nat)
    requires n <= |p|
  {
    forall i :: 0 <= i < n ==> Clean(s, p[i].fd, router)
  }

  // The list after the scan has dealt with entry `pi`: the same descriptors,
  // or the last one in place of this one.
  predicate Advanced(p: seq<PollFd>, q: seq<PollFd>, pi: nat)
    requires pi < |p|
  {
    || q == Dropped(p, pi)
    || (|q| == |p| && forall i :: 0 <= i < |p| ==> q[i].fd == p[i].fd)
  }

  // One step of the scan goes on from what the scan did before.
  lemma KillMore(p: seq<PollFd>, s: seq<SelectorInfo>, q: seq<PollFd>, t: seq<SelectorInfo>,
                 r: seq<PollFd>, u: seq<SelectorInfo>, router: nat)
    requires PartlyKilled(p, s, q, t, router)
    requires PartlyKilled(q, t, r, u, router)
    ensures PartlyKilled(p, s, r, u, router)
  {
    forall fd, e ensures PartKilled(p, s, r, u, router, fd, e) {
      assert PartKilled(p, s, q, t, router, fd, e);
      assert PartKilled(q, t, r, u, router, fd, e);
    }
  }

  lemma NothingKilled(p: seq<PollFd>, s: seq<SelectorInfo>, router: nat)
    ensures PartlyKilled(p, s, p, s, router)
    ensures CleanTo(p, s, 0, router)
  {
  }

  lemma KilledAt(p: seq<PollFd>, s: seq<SelectorInfo>, q: seq<PollFd>, t: seq<SelectorInfo>, router: nat, fd: int,
      e: Event)
    requires PartlyKilled(p, s, q, t, router)
    ensures PartKilled(p, s, q, t, router, fd, e)
  {
  }

  lemma StaysClean(p: seq<PollFd>, s: seq<SelectorInfo>, q: seq<PollFd>, t: seq<SelectorInfo>,
                   pi: nat, router: nat, next: int)
    requires Linked(p, s) && pi < |p| && CleanTo(p, s, pi, router)
    requires PartlyKilled(p, s, q, t, router)
    requires Clean(t, p[pi].fd, router) && Advanced(p, q, pi)
    requires next == if pi < |q| && q[pi].fd != p[pi].fd then pi else pi + 1
    ensures next <= |q| ==> CleanTo(q, t, next, router)
    ensures |q| - next < |p| - pi
    ensures next > |q| ==> pi == |q| && CleanTo(q, t, pi, router)
  {
    forall fd | Clean(s, fd, router) ensures Clean(t, fd, router) {
      forall e ensures Killed(Registered(t, fd, e), router) == Registered(t, fd, e) {
        assert PartKilled(p, s, q, t, router, fd, e);
      }
    }
    if q == Dropped(p, pi) && pi < |q| && q[pi].fd == p[pi].fd {
      ListedOnce(p, s, pi, |p| - 1);
    }
  }

  // Once every entry is clean, no registration of `router` is left.
  lemma AllClean(p: seq<PollFd>, s: seq<SelectorInfo>, wake: int, router: nat, fd: int, e: Event)
    requires Linked(p, s) && AllAgree(p, s, wake)
    requires CleanTo(p, s, |p|, router)
    ensures Killed(Registered(s, fd, e), router) == Registered(s, fd, e)
  {
    assert Agrees(p, s, wake, fd);
    if Watched(p, s, fd).Has(e) {
      InfoEntry(p, s, fd);
      assert Clean(s, p[s[fd].pollfd].fd, router);
    }
  }

  class SelectSet {
    var wake: int
    var pollfds: seq<PollFd>
    var selinfo: seq<SelectorInfo>
    var readSet: set<int>
    var writeSet: set<int>
    var maxSelectFd: int
    const setSize: nat

    ghost predicate Sound()
      reads this
    {
      && Linked(pollfds, selinfo)
      && AllBusy(pollfds)
      && SetsAgree(pollfds, selinfo, Readable, readSet, setSize)
      && SetsAgree(pollfds, selinfo, Writable, writeSet, setSize)
      && IsTop(pollfds, setSize, maxSelectFd)
    }

    ghost predicate Valid()
      reads this
    {
      Sound() && AllAgree(pollfds, selinfo, wake)
    }

    constructor (setSize: nat)
      ensures Valid()
      ensures pollfds == [] && selinfo == [] && wake < 0
    {
      this.setSize := setSize;
      wake, pollfds, selinfo := -1, [], [];
      readSet, writeSet, maxSelectFd := {}, {}, -1;
    }

    /** Makes room for a descriptor and lists it, if need be without events. */
    method ListDescriptor(fd: int)
      requires Linked(pollfds, selinfo) && AllBusy(pollfds) && fd >= 0
      modifies this`pollfds, this`selinfo
      ensures Linked(pollfds, selinfo) && fd < |selinfo| && 0 <= selinfo[fd].pollfd
      ensures SameRegistered(old(selinfo), selinfo)
      ensures forall f :: Watched(pollfds, selinfo, f) == old(Watched(pollfds, selinfo, f))
      ensures forall i :: 0 <= i < |pollfds| && pollfds[i].fd != fd ==> !pollfds[i].events.None()
    {
      hide Linked;
      if fd >= |selinfo| {
        MoreInfo(pollfds, selinfo, fd + 1 - |selinfo|);
        selinfo := selinfo + Blank(fd + 1 - |selinfo|);
      }
      if selinfo[fd].pollfd < 0 {
        ListNew(pollfds, selinfo, fd, Events(false, false));
        NotWatched(pollfds, selinfo, fd);
        selinfo := selinfo[fd := selinfo[fd].(pollfd := |pollfds|)];
        pollfds := pollfds + [PollFd(fd, Events(false, false))];
      }
    }

    method RegisterSelect(fd: int, addRead: bool, addWrite: bool)
      requires Sound()
      requires fd >= 0 && (addRead || addWrite)
      modifies this`pollfds, this`selinfo, this`readSet, this`writeSet, this`maxSelectFd
      ensures Sound()
      ensures fd < |selinfo|
      ensures SameRegistered(old(selinfo), selinfo)
      ensures WatchChanged(old(pollfds), old(selinfo), pollfds, selinfo, fd,
                           old(Watched(pollfds, selinfo, fd)).Plus(Events(addRead, addWrite)))
    {
      hide Linked, SetsAgree, IsTop;
      ListDescriptor(fd);
      var pi := selinfo[fd].pollfd;
      ghost var p, s, added := old(pollfds), old(selinfo), Events(addRead, addWrite);
      ghost var before := pollfds;
      ghost var events := Watched(p, s, fd).Plus(added);
      InfoEntry(pollfds, selinfo, fd);
      assert before[pi].fd == fd && before[pi].events == Watched(p, s, fd);
      SetEvents(pollfds, selinfo, pi, events);
      if addRead {
        pollfds := pollfds[pi := pollfds[pi].(events := pollfds[pi].events.(read := true))];
      }
      if addWrite {
        pollfds := pollfds[pi := pollfds[pi].(events := pollfds[pi].events.(write := true))];
      }
      assert pollfds == before[pi := before[pi].(events := events)];
      assert WatchChanged(p, s, pollfds, selinfo, fd, events);
      BusyOnceSet(before, selinfo, pi, events);
      KeepTop(p, s, pollfds, selinfo, fd, events, setSize, maxSelectFd);
      if fd < setSize {
        if addRead {
          readSet := readSet + {fd};
        }
        if addWrite {
          writeSet := writeSet + {fd};
        }
        if fd > maxSelectFd {
          maxSelectFd := fd;
        }
      }
      SetAdd(p, s, pollfds, selinfo, fd, added, Readable, old(readSet), setSize);
      SetAdd(p, s, pollfds, selinfo, fd, added, Writable, old(writeSet), setSize);
    }

    method AddSelect(fd: int, element: Element, mask: Events) returns (result: int)
      requires Valid()
      modifies this`pollfds, this`selinfo, this`readSet, this`writeSet, this`maxSelectFd
      ensures Valid()
      ensures result == if fd >= 0 && (mask.read ==> old(Free(selinfo, fd, Readable, element)))
                                   && (mask.write ==> old(Free(selinfo, fd, Writable, element)))
                        then 0 else -1
      ensures OnlyAt(old(selinfo), selinfo, fd)
      ensures forall e :: Registered(selinfo, fd, e) ==
                if result == 0 && mask.Has(e) then Waits(element) else old(Registered(selinfo, fd, e))
      ensures forall f, e :: Registered(selinfo, f, e) == old(Registered(selinfo, f, e)) ==>
                Watched(pollfds, selinfo, f).Has(e) == old(Watched(pollfds, selinfo, f).Has(e))
    {
      if fd < 0 {
        return -1;
      }
      if mask.None() {
        return 0;
      }
      var addRead, addWrite := false, false;
      if mask.read {
        if fd >= |selinfo| || selinfo[fd].read.Nobody? {
          addRead := true;
        } else if selinfo[fd].read.element != element {
          return -1;
        }
      }
      if mask.write {
        if fd >= |selinfo| || selinfo[fd].write.Nobody? {
          addWrite := true;
        } else if selinfo[fd].write.element != element {
          return -1;
        }
      }
      if !addRead && !addWrite {
        return 0;
      }
      ghost var p, s := pollfds, selinfo;
      RegisterSelect(fd, addRead, addWrite);
      ghost var t := selinfo;
      if addRead {
        selinfo := selinfo[fd := selinfo[fd].(read := Waits(element))];
      }
      if addWrite {
        selinfo := selinfo[fd := selinfo[fd].(write := Waits(element))];
      }
      SameLinks(pollfds, t, selinfo);
      assert Agrees(p, s, wake, fd);
      assert OnlyAt(s, selinfo, fd);
      KeepAgree(p, s, pollfds, selinfo, wake, fd, Watched(p, s, fd).Plus(Events(addRead, addWrite)));
      return 0;
    }

    // The loop that looks for the largest descriptor again.
    method FindTop() returns (top: int)
      requires Linked(pollfds, selinfo)
      ensures IsTop(pollfds, setSize, top)
    {
      top := -1;
      for pix := 0 to |pollfds|
        invariant IsTop(pollfds[..pix], setSize, top)
      {
        assert EntryLinked(pollfds, selinfo, pix);
        TopStep(pollfds, pix, setSize, top);
        if pollfds[pix].fd < setSize && pollfds[pix].fd > top {
          top := pollfds[pix].fd;
        }
      }
      assert pollfds[..|pollfds|] == pollfds;
    }

    // Taking a whole entry out: the last one moves into its place.
    method DropPollfd(pi: int)
      requires Linked(pollfds, selinfo)
      requires 0 <= pi < |pollfds|
      modifies this`pollfds, this`selinfo
      ensures Linked(pollfds, selinfo)
      ensures |selinfo| == |old(selinfo)| && SameRegistered(old(selinfo), selinfo)
      ensures WatchChanged(old(pollfds), old(selinfo), pollfds, selinfo, old(pollfds)[pi].fd, Events(false, false))
      ensures pollfds == Dropped(old(pollfds), pi)
    {
      hide Linked;
      ghost var q, t := pollfds, selinfo;
      EntryWatched(q, t, pi);
      EntryWatched(q, t, |q| - 1);
      var fd := pollfds[pi].fd;
      pollfds := pollfds[pi := pollfds[|pollfds| - 1]];
      pollfds := pollfds[..|pollfds| - 1];
      selinfo := selinfo[fd := selinfo[fd].(pollfd := -1)];
      if pi < |pollfds| {
        selinfo := selinfo[pollfds[pi].fd := selinfo[pollfds[pi].fd].(pollfd := pi)];
      }
      assert selinfo == Redirected(q, t, pi);
      DropLinks(q, t, pi);
      DropMeaning(q, t, pi);
    }

    method RemovePollfd(pi: int, event: Event)
      requires Sound()
      requires 0 <= pi < |pollfds|
      modifies this`pollfds, this`selinfo, this`readSet, this`writeSet, this`maxSelectFd
      ensures Sound()
      ensures |selinfo| == |old(selinfo)|
      ensures OnlyAt(old(selinfo), selinfo, old(pollfds)[pi].fd)
      ensures forall e :: Registered(selinfo, old(pollfds)[pi].fd, e) ==
                if e == event then Nobody else old(Registered(selinfo, pollfds[pi].fd, e))
      ensures WatchChanged(old(pollfds), old(selinfo), pollfds, selinfo, old(pollfds)[pi].fd,
                           old(pollfds)[pi].events.Minus(event))
      ensures var left := old(pollfds)[pi].events.Minus(event);
              pollfds == if left.None() then Dropped(old(pollfds), pi)
                         else old(pollfds)[pi := old(pollfds)[pi].(events := left)]
    {
      hide Linked, SetsAgree, IsTop, AllBusy;
      var fd := pollfds[pi].fd;
      ghost var p, s, left := pollfds, selinfo, pollfds[pi].events.Minus(event);
      EntryWatched(p, s, pi);
      SetEvents(p, s, pi, left);
      pollfds := pollfds[pi := pollfds[pi].(events := pollfds[pi].events.Minus(event))];
      SameLinks(pollfds, s, s[fd := s[fd].Cleared(event)]);
      selinfo := selinfo[fd := selinfo[fd].Cleared(event)];
      ghost var q, t := pollfds, selinfo;
      assert WatchChanged(p, s, q, t, fd, left);
      if fd < setSize {
        if event.Readable? {
          readSet := readSet - {fd};
        } else {
          writeSet := writeSet - {fd};
        }
      }
      if !pollfds[pi].events.None() {
        SetBusy(p, pi, left);
        RemoveSets(p, s, q, t, fd, event, old(readSet), old(writeSet), setSize);
        KeepTop(p, s, q, t, fd, left, setSize, maxSelectFd);
        return;
      }
      DropPollfd(pi);
      assert pollfds == Dropped(p, pi);
      assert WatchChanged(p, s, pollfds, selinfo, fd, left);
      RemoveSets(p, s, pollfds, selinfo, fd, event, old(readSet), old(writeSet), setSize);
      DropBusy(p, pi);
      KeepTop(p, s, pollfds, selinfo, fd, left, setSize, maxSelectFd);
      if fd == maxSelectFd {
        maxSelectFd := FindTop();
      }
    }

    method RemoveSelect(fd: int, element: Element, mask: Events) returns (result: int)
      requires Valid()
      modifies this`pollfds, this`selinfo, this`readSet, this`writeSet, this`maxSelectFd
      ensures Valid()
      ensures result == if exists e :: mask.Has(e) && old(Registered(selinfo, fd, e)) == Waits(element) then 0 else -1
      ensures OnlyAt(old(selinfo), selinfo, fd)
      ensures forall e :: Registered(selinfo, fd, e) ==
                if mask.Has(e) && old(Registered(selinfo, fd, e)) == Waits(element) then Nobody
                else old(Registered(selinfo, fd, e))
      ensures forall f, e :: Registered(selinfo, f, e) == old(Registered(selinfo, f, e)) ==>
                Watched(pollfds, selinfo, f).Has(e) == old(Watched(pollfds, selinfo, f).Has(e))
    {
      if fd < 0 {
        return -1;
      }
      var removeRead, removeWrite := false, false;
      if mask.read && fd < |selinfo| && selinfo[fd].read == Waits(element) {
        removeRead := true;
      }
      if mask.write && fd < |selinfo| && selinfo[fd].write == Waits(element) {
        removeWrite := true;
      }
      if !removeRead && !removeWrite {
        return -1;
      }
      ghost var p, s := pollfds, selinfo;
      assert Agrees(p, s, wake, fd);
      assert InfoLinked(p, s, fd);
      var pi := selinfo[fd].pollfd;
      if removeRead {
        RemovePollfd(pi, Readable);
      }
      if removeWrite {
        RemovePollfd(pi, Writable);
      }
      assert OnlyAt(s, selinfo, fd);
      KeepAgree(p, s, pollfds, selinfo, wake, fd, Watched(pollfds, selinfo, fd));
      assert exists e :: mask.Has(e) && Registered(s, fd, e) == Waits(element) by {
        assert mask.Has(if removeRead then Readable else Writable);
      }
      return 0;
    }

    method Initialize(pipe: int)
      requires Valid()
      requires wake < 0 ==> pipe >= 0
      modifies this
      ensures Valid() && wake >= 0
      ensures wake == if old(wake) < 0 then pipe else old(wake)
      ensures SameRegistered(old(selinfo), selinfo)
      ensures old(wake) < 0 ==> Watched(pollfds, selinfo, wake).read
    {
      if wake < 0 && pipe >= 0 {
        wake := pipe;
        ghost var p, s := pollfds, selinfo;
        RegisterSelect(pipe, true, false);
        forall fd ensures Agrees(pollfds, selinfo, wake, fd) {
          assert Agrees(p, s, old(wake), fd);
        }
      }
    }

    // What `KillRouter` does at one place of the list.
    method KillAt(pi: int, router: nat)
      requires Valid()
      requires 0 <= pi < |pollfds|
      modifies this`pollfds, this`selinfo, this`readSet, this`writeSet, this`maxSelectFd
      ensures Valid()
      ensures PartlyKilled(old(pollfds), old(selinfo), pollfds, selinfo, router)
      ensures Clean(selinfo, old(pollfds)[pi].fd, router)
      ensures Advanced(old(pollfds), pollfds, pi)
    {
      hide Linked, SetsAgree, IsTop;
      ghost var p, s := pollfds, selinfo;
      var fd := pollfds[pi].fd;
      EntryWatched(p, s, pi);
      assert Agrees(p, s, wake, fd);
      if fd < |selinfo| {
        if selinfo[fd].read.Waits? && selinfo[fd].read.element.router == router {
          RemovePollfd(pi, Readable);
        }
        if selinfo[fd].write.Waits? && selinfo[fd].write.element.router == router {
          RemovePollfd(pi, Writable);
        }
      }
      KeepAgree(p, s, pollfds, selinfo, wake, fd, Watched(pollfds, selinfo, fd));
    }

    method KillRouter(router: nat)
      requires Valid()
      modifies this`pollfds, this`selinfo, this`readSet, this`writeSet, this`maxSelectFd
      ensures Valid()
      ensures forall f, e :: Registered(selinfo, f, e) == Killed(old(Registered(selinfo, f, e)), router)
      ensures forall f, e :: Watched(pollfds, selinfo, f).Has(e) <==>
                old(Watched(pollfds, selinfo, f).Has(e)) &&
                Killed(old(Registered(selinfo, f, e)), router) == old(Registered(selinfo, f, e))
    {
      hide Linked, AllBusy, SetsAgree, IsTop, AllAgree, Advanced, CleanTo, PartlyKilled;
      ghost var p, s := pollfds, selinfo;
      var pi := 0;
      NothingKilled(p, s, router);
      while pi < |pollfds|
        invariant Valid()
        invariant 0 <= pi
        invariant PartlyKilled(p, s, pollfds, selinfo, router)
        invariant pi <= |pollfds| ==> CleanTo(pollfds, selinfo, pi, router)
        invariant pi > |pollfds| ==> CleanTo(pollfds, selinfo, |pollfds|, router)
        decreases |pollfds| - pi
      {
        ghost var q, t, at := pollfds, selinfo, pi;
        var fd := pollfds[pi].fd;
        KillAt(pi, router);
        KillMore(p, s, q, t, pollfds, selinfo, router);
        if pi < |pollfds| && pollfds[pi].fd != fd {
          pi := pi - 1;
        }
        pi := pi + 1;
        StaysClean(q, t, pollfds, selinfo, at, router, pi);
      }
      forall f, e
        ensures Registered(selinfo, f, e) == Killed(Registered(s, f, e), router)
        ensures Watched(pollfds, selinfo, f).Has(e) <==>
          Watched(p, s, f).Has(e) && Killed(Registered(s, f, e), router) == Registered(s, f, e)
      {
        AllClean(pollfds, selinfo, wake, router, f, e);
        KilledAt(p, s, pollfds, selinfo, router, f, e);
      }
    }
  }
}
