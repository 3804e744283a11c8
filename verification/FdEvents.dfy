/** fd_process_polled_events and fd_process_cached_events: callbacks are called, and update entries of new
    file descriptors that turned out inactive are forgotten. */
module FdEvents {
  import opened Counting
  import opened FdState
  import opened FdTable

  predicate Any(ev: Events) { ev.input || ev.output || ev.error || ev.hangup }

  /** What a callback is to process without polling; errors and hang-ups stick. */
  function Pending(ev: Events, input: bool, output: bool): Events {
    Events(input, output, ev.error, ev.hangup)
  }

  /** A new file descriptor met in the update list. */
  function Woken(f: Fd): Fd {
    f.(isNew := false,
       ev := Pending(f.ev, f.r.ready && f.r.active && !f.r.polled, f.w.ready && f.w.active && !f.w.polled))
  }

  /** What a file descriptor was when its turn came, whether its callback was called, and the events it was given. */
  datatype Served = Served(fd: nat, owner: bool, r: Dir, w: Dir, was: Events, called: bool, ev: Events)

  /** The turn of a new file descriptor */
  function Awoken(fd: nat, f: Fd): Served {
    var ev := Woken(f).ev;
    Served(fd, f.owner, f.r, f.w, f.ev, Any(ev), ev)
  }

  function SetFd(v: View, fd: nat, f: Fd): View
    requires fd < |v.fds|
  {
    v.(fds := v.fds[fd := f])
  }

  /** Forgetting that a file descriptor is new, and noting events, keeps everything else. */
  lemma NotedKeeps(v: View, fd: nat, f: Fd)
    requires Inv(v) && fd < |v.fds| && (f == v.fds[fd].(ev := f.ev) || f == v.fds[fd].(ev := f.ev, isNew := false))
    ensures Inv(SetFd(v, fd, f))
  {
    assert FdOk(v.fds[fd], fd, v.kernel);
    OneChanges(v, fd, f);
    hide FdOk, AllOk, UpdtOk, CacheOk, TopOk;
  }

  // ---------------------------------------------------------------------------
  // The same without forgetting

  /** One entry of the update list, read backwards */
  ghost function Visited(v: View, at: nat, ops: seq<Op>): (u: View)
    requires Inv(v) && 0 < at <= |v.updt|
    ensures Inv(u) && |u.fds| == |v.fds| && v.updt <= u.updt
    ensures v.fds[v.updt[at - 1]].isNew ==> Unpolled(u.fds[v.updt[at - 1]])
  {
    var fd := v.updt[at - 1];
    if !v.fds[fd].isNew then v
    else
      var f := Woken(v.fds[fd]);
      NotedKeeps(v, fd, f);
      assert FdOk(v.fds[fd], fd, v.kernel);
      RanKeeps(SetFd(v, fd, f), ops);
      if Awoken(fd, v.fds[fd]).called then Ran(SetFd(v, fd, f), ops) else SetFd(v, fd, f)
  }

  ghost function VisitedAll(v: View, low: nat, at: nat, iocb: nat -> seq<Op>): (u: View)
    requires Inv(v) && at <= |v.updt|
    ensures Inv(u)
    decreases at
  {
    if at <= low then v else VisitedAll(Visited(v, at, iocb(at)), low, at - 1, iocb)
  }

  /** The turns taken by new file descriptors */
  ghost function VisitedLog(v: View, low: nat, at: nat, iocb: nat -> seq<Op>): seq<Served>
    requires Inv(v) && at <= |v.updt|
    decreases at
  {
    if at <= low then []
    else VisitedNow(v, at) + VisitedLog(Visited(v, at, iocb(at)), low, at - 1, iocb)
  }

  ghost function VisitedNow(v: View, at: nat): seq<Served>
    requires Inv(v) && 0 < at <= |v.updt|
  {
    var fd := v.updt[at - 1];
    if v.fds[fd].isNew then [Awoken(fd, v.fds[fd])] else []
  }

  /** The same but for being in the update list. */
  ghost predicate Like(f: Fd, g: Fd) {
    f == g.(updated := f.updated)
  }

  ghost predicate AllLike(a: seq<Fd>, b: seq<Fd>) {
    |a| == |b| && forall x: nat | x < |a| :: Like(a[x], b[x])
  }

  /** v is w less some update entries. */
  ghost predicate Lighter(v: View, w: View) {
    v.cache == w.cache && v.kernel == w.kernel && v.maxfd == w.maxfd && AllLike(v.fds, w.fds)
  }

  lemma AllLikeSet(a: seq<Fd>, b: seq<Fd>, x: nat, f: Fd, g: Fd)
    requires AllLike(a, b) && x < |a| && Like(f, g)
    ensures AllLike(a[x := f], b[x := g])
  {
  }

  lemma LighterUpdated(v: View, w: View, fd: nat)
    requires Lighter(v, w) && fd < |v.fds|
    ensures Lighter(Updated(v, fd), Updated(w, fd))
  {
  }

  lemma LighterChanged(v: View, w: View, fd: nat, r: Dir, s: Dir)
    requires Lighter(v, w) && fd < |v.fds|
    ensures Lighter(Changed(v, fd, r, s), Changed(w, fd, r, s))
  {
    assert Like(v.fds[fd], w.fds[fd]);
    AllLikeSet(v.fds, w.fds, fd, v.fds[fd].(r := r, w := s), w.fds[fd].(r := r, w := s));
    var v', w' := SetFd(v, fd, v.fds[fd].(r := r, w := s)), SetFd(w, fd, w.fds[fd].(r := r, w := s));
    hide AllLike;
    LighterUpdated(v', w', fd);
    hide Lighter, Updated;
  }

  lemma LighterApplied(v: View, w: View, op: Op)
    requires Inv(v) && Inv(w) && Lighter(v, w)
    ensures Lighter(Applied(v, op), Applied(w, op))
  {
    hide Inv, Closed, Opened, Changed;
    assert |v.fds| == |w.fds|;
    if op.fd < |v.fds| {
      var f, g := v.fds[op.fd], w.fds[op.fd];
      assert Like(f, g);
      match op
      case Open(fd) =>
        LighterOpened(v, w, fd);
      case Close(fd) =>
        LighterClosed(v, w, fd);
      case _ =>
        LighterChanged(v, w, op.fd, StateAfter(f, op).0, StateAfter(f, op).1);
      hide Lighter;
    }
  }

  lemma LighterOpened(v: View, w: View, fd: nat)
    requires Lighter(v, w) && fd < |v.fds|
    ensures Lighter(Opened(v, fd), Opened(w, fd))
  {
  }

  lemma LighterClosed(v: View, w: View, fd: nat)
    requires Inv(v) && Inv(w) && Lighter(v, w) && fd < |v.fds|
    ensures Lighter(Closed(v, fd), Closed(w, fd))
  {
    var a, b := Unlinked(v.fds, v.cache, fd), Unlinked(w.fds, w.cache, fd);
    LikeUnlinked(v.fds, w.fds, v.cache, fd);
    assert Like(a[fd], b[fd]);
    hide Inv, UpdtOk, CacheOk, TopOk, FdOk, Unlinked, Shrunk;
    AllLikeSet(a, b, fd, a[fd].(r := IDLE, w := IDLE, owner := false, isNew := false),
                         b[fd].(r := IDLE, w := IDLE, owner := false, isNew := false));
    SameHighest(Closed(v, fd).fds, Closed(w, fd).fds, v.maxfd);
    hide AllLike;
  }

  lemma LikeUnlinked(a: seq<Fd>, b: seq<Fd>, cache: seq<nat>, fd: nat)
    requires CacheOk(a, cache) && CacheOk(b, cache) && AllLike(a, b) && fd < |a|
    ensures Shrunk(a, cache, fd) == Shrunk(b, cache, fd)
    ensures AllLike(Unlinked(a, cache, fd), Unlinked(b, cache, fd))
  {
    var pos := a[fd].cache;
    assert Like(a[fd], b[fd]);
    if 0 < pos < |cache| {
      var moved := cache[|cache| - 1];
      assert moved < |a| && Like(a[moved], b[moved]);
      var a', b' := a[fd := a[fd].(cache := 0)], b[fd := b[fd].(cache := 0)];
      hide CacheOk;
      AllLikeSet(a, b, fd, a[fd].(cache := 0), b[fd].(cache := 0));
      AllLikeSet(a', b', moved, a[moved].(cache := pos), b[moved].(cache := pos));
      hide AllLike;
    }
  }

  lemma {:induction false} SameHighest(a: seq<Fd>, b: seq<Fd>, n: nat)
    requires AllLike(a, b) && n <= |a|
    ensures Highest(a, n) == Highest(b, n)
  {
    if n > 0 {
      assert Like(a[n - 1], b[n - 1]);
      SameHighest(a, b, n - 1);
    }
  }

  lemma {:induction false} LighterRan(v: View, w: View, ops: seq<Op>)
    requires Inv(v) && Inv(w) && Lighter(v, w)
    ensures Lighter(Ran(v, ops), Ran(w, ops))
    decreases |ops|
  {
    hide Inv, Lighter, Applied;
    if ops != [] {
      AppliedKeeps(v, ops[0]);
      AppliedKeeps(w, ops[0]);
      LighterApplied(v, w, ops[0]);
      LighterRan(Applied(v, ops[0]), Applied(w, ops[0]), ops[1..]);
    }
  }

  /** Forgotten entries make no difference once the poller has done its pass. */
  lemma LighterSamePass(v: View, w: View)
    requires Inv(v) && Inv(w) && Lighter(v, w)
    ensures var a, b := SyncAll(v), SyncAll(w);
      && a.kernel == b.kernel && |a.fds| == |b.fds|
      && forall fd: nat | fd < |a.fds| :: a.fds[fd].owner == b.fds[fd].owner
           && a.fds[fd].r == b.fds[fd].r && a.fds[fd].w == b.fds[fd].w
           && (a.fds[fd].cache > 0 <==> b.fds[fd].cache > 0)
  {
    PassIsFullScan(v);
    PassIsFullScan(w);
    var a, b := SyncAll(v), SyncAll(w);
    hide SyncAll, NewPolled, UpdtOk, CacheOk, TopOk;
    forall fd: nat | fd < |a.fds|
      ensures a.fds[fd].r == b.fds[fd].r && a.fds[fd].w == b.fds[fd].w && a.fds[fd].owner == b.fds[fd].owner
      ensures a.fds[fd].cache > 0 <==> b.fds[fd].cache > 0
    {
      assert Like(v.fds[fd], w.fds[fd]);
      assert FdOk(a.fds[fd], fd, a.kernel) && FdOk(b.fds[fd], fd, b.kernel);
    }
    SameKernel(a, b);
  }

  // ---------------------------------------------------------------------------
  // One entry, with forgetting

  predicate CanForget(u: View, at: nat) {
    && 0 < at == |u.updt| && u.updt[at - 1] < |u.fds|
    && !u.fds[u.updt[at - 1]].r.active && !u.fds[u.updt[at - 1]].w.active
  }

  /** The step of the loop: an inactive file descriptor whose entry is the last one is forgotten. */
  ghost function VisitedLight(v: View, at: nat, ops: seq<Op>): (u: View)
    requires Inv(v) && 0 < at <= |v.updt|
  {
    var u := Visited(v, at, ops);
    if v.fds[v.updt[at - 1]].isNew && CanForget(u, at) then Dropped(u) else u
  }

  lemma VisitedLike(v: View, w: View, at: nat, ops: seq<Op>)
    requires Inv(v) && Inv(w) && Lighter(v, w) && 0 < at <= |v.updt| && at <= |w.updt|
    requires v.updt[at - 1] == w.updt[at - 1]
    ensures Lighter(Visited(v, at, ops), Visited(w, at, ops))
  {
    var fd := v.updt[at - 1];
    assert Like(v.fds[fd], w.fds[fd]);
    var f, g := Woken(v.fds[fd]), Woken(w.fds[fd]);
    if v.fds[fd].isNew {
      NotedKeeps(v, fd, f);
      NotedKeeps(w, fd, g);
      AllLikeSet(v.fds, w.fds, fd, f, g);
      LighterRan(SetFd(v, fd, f), SetFd(w, fd, g), ops);
    }
    hide Inv, AllLike;
  }

  lemma LighterDropped(u: View, x: View)
    requires Inv(u) && Lighter(u, x) && u.updt != []
    ensures Lighter(Dropped(u), x)
  {
    var fd := u.updt[|u.updt| - 1];
    assert Like(u.fds[fd], x.fds[fd]);
    AllLikeSet(u.fds, x.fds, fd, u.fds[fd].(updated := false), x.fds[fd]);
    hide Inv, AllLike;
  }

  lemma Prefixes(a: seq<nat>, b: seq<nat>, a': seq<nat>, b': seq<nat>, n: nat)
    requires a <= a' && b <= b' && 0 < n <= |a| && n <= |b| && a[..n] == b[..n]
    ensures a[n - 1] == b[n - 1] && a'[..n - 1] == b'[..n - 1] && a'[n - 1] == a[n - 1]
  {
    assert a[..n][n - 1] == b[..n][n - 1];
    assert a'[..n - 1] == a[..n][..n - 1] && b'[..n - 1] == b[..n][..n - 1];
  }

  lemma ForgottenKeeps(u: View, x: View, at: nat)
    requires Inv(u) && Lighter(u, x) && CanForget(u, at) && Unpolled(u.fds[u.updt[at - 1]])
    requires at <= |x.updt| && u.updt[..at - 1] == x.updt[..at - 1]
    ensures Inv(Dropped(u)) && Lighter(Dropped(u), x) && Dropped(u).updt == x.updt[..at - 1]
  {
    hide Inv, Lighter;
    DroppedKeeps(u);
    LighterDropped(u, x);
  }

  lemma VisitedLightKeeps(v: View, w: View, at: nat, ops: seq<Op>)
    requires Inv(v) && Inv(w) && Lighter(v, w) && 0 < at <= |v.updt| && at <= |w.updt| && v.updt[..at] == w.updt[..at]
    ensures var u, x := VisitedLight(v, at, ops), Visited(w, at, ops);
      Inv(u) && Lighter(u, x) && at - 1 <= |u.updt| && u.updt[..at - 1] == x.updt[..at - 1]
  {
    var u, x := Visited(v, at, ops), Visited(w, at, ops);
    Prefixes(v.updt, w.updt, u.updt, x.updt, at);
    VisitedLike(v, w, at, ops);
    assert v.updt[at - 1] < |v.fds|;
    hide Inv, Lighter, Visited, Dropped;
    if v.fds[v.updt[at - 1]].isNew && CanForget(u, at) {
      ForgottenKeeps(u, x, at);
    }
  }

  /** What the poller reported is ready. */
  ghost function Reported(v: View, fd: nat): (u: View)
    requires Inv(v) && fd < |v.fds|
    ensures Inv(u) && |u.fds| == |v.fds|
  {
    var ev := v.fds[fd].ev;
    RanKeeps(v, ReportedOps(ev, fd));
    Ran(v, ReportedOps(ev, fd))
  }

  function ReportedOps(ev: Events, fd: nat): seq<Op> {
    (if ev.input || ev.hangup || ev.error then [MayRecv(fd)] else [])
    + (if ev.output || ev.error then [MaySend(fd)] else [])
  }

  /** fd_process_polled_events if no update entry was forgotten; iocb(0) is what the callback of fd does, and
      iocb(k) what the one of the file descriptor of the update entry number k does. */
  ghost function Polled(v: View, fd: nat, iocb: nat -> seq<Op>): (u: View)
    requires Inv(v) && fd < |v.fds|
    ensures Inv(u)
  {
    var v1 := Reported(v, fd);
    if v1.fds[fd].cache > 0 || !Any(v1.fds[fd].ev) then v1
    else
      RanKeeps(v1, iocb(0));
      var v2 := Ran(v1, iocb(0));
      VisitedAll(v2, |v1.updt|, |v2.updt|, iocb)
  }

  /** The turns taken in the course of it, that of fd first */
  ghost function PolledLog(v: View, fd: nat, iocb: nat -> seq<Op>): seq<Served>
    requires Inv(v) && fd < |v.fds|
  {
    var v1 := Reported(v, fd);
    var f := v1.fds[fd];
    if f.cache > 0 || !Any(f.ev) then []
    else
      RanKeeps(v1, iocb(0));
      var v2 := Ran(v1, iocb(0));
      [Served(fd, f.owner, f.r, f.w, f.ev, true, f.ev)] + VisitedLog(v2, |v1.updt|, |v2.updt|, iocb)
  }

  lemma LighterSelf(v: View)
    ensures Lighter(v, v)
  {
  }

  method Note(tab: FdTable, fd: nat, f: Fd)
    requires tab.Valid() && fd < tab.fdtab.Length
    requires f == tab.fdtab[fd].(ev := f.ev) || f == tab.fdtab[fd].(ev := f.ev, isNew := false)
    modifies tab.fdtab
    ensures tab.Valid() && tab.V() == SetFd(old(tab.V()), fd, f)
  {
    NotedKeeps(tab.V(), fd, f);
    hide Inv;
    tab.fdtab[fd] := f;
    assert tab.fdtab[..] == old(tab.fdtab[..])[fd := f];
  }

  /** The last update entry is removed. */
  method Forget(tab: FdTable)
    requires tab.Valid() && CanForget(tab.V(), tab.fdNbUpdt) && Unpolled(tab.fdtab[tab.fdUpdt[tab.fdNbUpdt - 1]])
    modifies tab`fdNbUpdt, tab.fdtab
    ensures tab.Valid() && tab.V() == Dropped(old(tab.V()))
  {
    DroppedKeeps(tab.V());
    hide Inv;
    var fd := tab.fdUpdt[tab.fdNbUpdt - 1];
    tab.fdtab[fd] := tab.fdtab[fd].(updated := false);
    tab.fdNbUpdt := tab.fdNbUpdt - 1;
    assert tab.fdtab[..] == old(tab.fdtab[..])[fd := tab.fdtab[fd]];
    assert tab.fdUpdt[..tab.fdNbUpdt] == old(tab.fdUpdt[..tab.fdNbUpdt])[..tab.fdNbUpdt];
  }

  /** A new file descriptor is woken up as soon as it is met. */
  method Visit(tab: FdTable, fd: nat, ghost at: nat, ops: seq<Op>) returns (s: Served)
    requires tab.Valid() && 0 < at <= tab.fdNbUpdt && fd == tab.fdUpdt[at - 1] < tab.fdtab.Length && tab.fdtab[fd].isNew
    modifies tab, tab.fdtab, tab.fdCache, tab.fdUpdt, tab.Bitmaps()
    ensures tab.Valid() && tab.V() == Visited(old(tab.V()), at, ops)
    ensures [s] == VisitedNow(old(tab.V()), at)
  {
    hide Inv, Ran;
    var f := tab.fdtab[fd];
    Note(tab, fd, Woken(f));
    s := Served(fd, f.owner, f.r, f.w, f.ev, false, tab.fdtab[fd].ev);
    if Any(tab.fdtab[fd].ev) {
      tab.Iocb(ops);
      s := s.(called := true);
    }
  }

  /** And it is forgotten if nothing is wanted from it. */
  method VisitEntry(tab: FdTable, at: nat, ops: seq<Op>) returns (served: seq<Served>)
    requires tab.Valid() && 0 < at <= tab.fdNbUpdt
    modifies tab, tab.fdtab, tab.fdCache, tab.fdUpdt, tab.Bitmaps()
    ensures tab.Valid() && tab.V() == VisitedLight(old(tab.V()), at, ops) && served == VisitedNow(old(tab.V()), at)
  {
    var fd := tab.fdUpdt[at - 1];
    assert tab.V().updt[at - 1] == fd && fd < |tab.V().fds|;
    hide Inv, Dropped, Unpolled;
    if !tab.fdtab[fd].isNew {
      return [];
    }
    var s := Visit(tab, fd, at, ops);
    served := [s];
    hide Visited, VisitedNow;
    ForgetIdle(tab, fd, at);
  }

  method ForgetIdle(tab: FdTable, fd: nat, at: nat)
    requires tab.Valid() && 0 < at <= tab.fdNbUpdt && fd == tab.fdUpdt[at - 1] < tab.fdtab.Length
    requires Unpolled(tab.fdtab[fd])
    modifies tab`fdNbUpdt, tab.fdtab
    ensures tab.Valid() && tab.V() == if CanForget(old(tab.V()), at) then Dropped(old(tab.V())) else old(tab.V())
  {
    hide Inv, Unpolled;
    if at == tab.fdNbUpdt && !tab.fdtab[fd].r.active && !tab.fdtab[fd].w.active {
      Forget(tab);
    }
  }

  lemma SameVisit(v: View, w: View, at: nat)
    requires Inv(v) && Inv(w) && Lighter(v, w) && 0 < at <= |v.updt| && at <= |w.updt| && v.updt[..at] == w.updt[..at]
    ensures VisitedNow(v, at) == VisitedNow(w, at)
  {
    var fd := v.updt[at - 1];
    assert v.updt[..at][at - 1] == w.updt[..at][at - 1];
    assert fd < |v.fds| && Like(v.fds[fd], w.fds[fd]);
    hide Inv, Lighter, Awoken;
    SameAwoken(fd, v.fds[fd], w.fds[fd]);
  }

  lemma SameAwoken(fd: nat, f: Fd, g: Fd)
    requires Like(f, g)
    ensures Awoken(fd, f) == Awoken(fd, g)
  {
  }

  /** The entries added by a callback, the last one first */
  method VisitNew(tab: FdTable, oldUpdt: nat, iocb: nat -> seq<Op>) returns (served: seq<Served>)
    requires tab.Valid()
    modifies tab, tab.fdtab, tab.fdCache, tab.fdUpdt, tab.Bitmaps()
    ensures tab.Valid() && Lighter(tab.V(), VisitedAll(old(tab.V()), oldUpdt, old(tab.fdNbUpdt), iocb))
    ensures served == VisitedLog(old(tab.V()), oldUpdt, old(tab.fdNbUpdt), iocb)
  {
    hide Inv, Lighter, VisitedLight, Visited, VisitedNow;
    served := [];
    ghost var w := tab.V();
    LighterSelf(w);
    var newUpdt: nat := tab.fdNbUpdt;
    while newUpdt > oldUpdt
      invariant newUpdt <= tab.fdNbUpdt && tab.Valid() && Inv(w) && Lighter(tab.V(), w)
      invariant newUpdt <= |w.updt| && tab.V().updt[..newUpdt] == w.updt[..newUpdt]
      invariant VisitedAll(w, oldUpdt, newUpdt, iocb) == old(VisitedAll(tab.V(), oldUpdt, tab.fdNbUpdt, iocb))
      invariant served + VisitedLog(w, oldUpdt, newUpdt, iocb) ==
        old(VisitedLog(tab.V(), oldUpdt, tab.fdNbUpdt, iocb))
    {
      VisitedLightKeeps(tab.V(), w, newUpdt, iocb(newUpdt));
      SameVisit(tab.V(), w, newUpdt);
      var more := VisitEntry(tab, newUpdt, iocb(newUpdt));
      served := served + more;
      w := Visited(w, newUpdt, iocb(newUpdt));
      newUpdt := newUpdt - 1;
    }
  }

  /** fd_process_polled_events, called by the poller for an open file descriptor. Forgetting entries makes
      nothing else different from what it would be without. */
  method ProcessPolledEvents(tab: FdTable, fd: nat, iocb: nat -> seq<Op>) returns (served: seq<Served>)
    requires tab.Valid() && fd < tab.fdtab.Length && tab.fdtab[fd].owner
    modifies tab, tab.fdtab, tab.fdCache, tab.fdUpdt, tab.Bitmaps()
    ensures tab.Valid() && Lighter(tab.V(), Polled(old(tab.V()), fd, iocb))
    ensures served == PolledLog(old(tab.V()), fd, iocb)
  {
    hide Inv, Lighter, Ran, ReportedOps;
    // fd_may_recv and fd_may_send, as the events ask
    tab.Iocb(ReportedOps(tab.fdtab[fd].ev, fd));
    LighterSelf(tab.V());
    if tab.fdtab[fd].cache > 0 || !Any(tab.fdtab[fd].ev) {
      return [];
    }
    var oldUpdt := tab.fdNbUpdt;
    var f := tab.fdtab[fd];
    tab.Iocb(iocb(0));
    served := VisitNew(tab, oldUpdt, iocb);
    served := [Served(fd, f.owner, f.r, f.w, f.ev, true, f.ev)] + served;
  }

  // ---------------------------------------------------------------------------
  // The cache

  /** Calls only take entries out of the cache. */
  predicate Took(v: View, u: View) {
    |u.cache| < |v.cache| || u.cache == v.cache
  }

  /** How many places of the cache are behind the scan while it is at the place e for fd: e, and that of fd as
      long as it is there. */
  predicate AtHome(cache: seq<nat>, e: nat, fd: nat) {
    e < |cache| && cache[e] == fd
  }

  function Behind(cache: seq<nat>, e: nat, fd: nat): nat {
    if AtHome(cache, e, fd) then e + 1 else e
  }

  /** An entry is passed when a call closes a file descriptor cached before the place of the scan while entries
      are waiting: the last one of those takes the place released, behind the scan. */
  ghost function PassedBy(v: View, op: Op, e: nat, fd: nat): set<nat> {
    if Legal(v, op) && op.Close? && 0 < v.fds[op.fd].cache <= e && |v.cache| > Behind(v.cache, e, fd) then
      {v.cache[|v.cache| - 1]}
    else {}
  }

  ghost function PassedByAll(v: View, ops: seq<Op>, e: nat, fd: nat): set<nat>
    requires Inv(v)
    decreases |ops|
  {
    if ops == [] then {}
    else
      AppliedKeeps(v, ops[0]);
      PassedBy(v, ops[0], e, fd) + PassedByAll(Applied(v, ops[0]), ops[1..], e, fd)
  }

  /** The entries behind the scan are those processed and those passed, never both; the others are waiting. */
  ghost predicate Sides(cache: seq<nat>, behind: nat, done: set<nat>, passed: set<nat>) {
    && done !! passed
    && forall k: nat | k < |cache| :: k < behind <==> cache[k] in done + passed
  }

  lemma CacheNoRepeats(fds: seq<Fd>, cache: seq<nat>)
    requires CacheOk(fds, cache)
    ensures NoRepeats(cache)
  {
    forall i: nat, j: nat | i < j < |cache| ensures cache[i] != cache[j] {
      assert fds[cache[i]].cache == i + 1 && fds[cache[j]].cache == j + 1;
    }
  }

  /** The place `at` of the cache is released, and the last entry takes it. */
  function Without(cache: seq<nat>, at: nat): seq<nat>
    requires at < |cache|
  {
    var last := |cache| - 1;
    if at == last then cache[..last] else cache[..last][at := cache[last]]
  }

  lemma WithoutSides(cache: seq<nat>, at: nat, e: nat, fd: nat, done: set<nat>, passed: set<nat>)
    requires at < |cache| && NoRepeats(cache) && Sides(cache, Behind(cache, e, fd), done, passed) && fd in done
    ensures var more := if at < e && |cache| > Behind(cache, e, fd) then {cache[|cache| - 1]} else {};
      && more !! passed
      && Sides(Without(cache, at), Behind(Without(cache, at), e, fd), done, passed + more)
  {
    var b, last, u := Behind(cache, e, fd), |cache| - 1, Without(cache, at);
    assert forall k: nat | k < |u| :: u[k] == if k == at then cache[last] else cache[k];
    forall k: nat | k < |cache| && k != last ensures cache[k] != cache[last] {
    }
    if b < |u| && AtHome(u, e, fd) != AtHome(cache, e, fd) {
      assert at == e;
    }
  }

  /** The operation closes a cached file descriptor. */
  predicate Releases(v: View, op: Op) {
    Legal(v, op) && op.Close? && v.fds[op.fd].cache > 0
  }

  lemma ShrunkIs(fds: seq<Fd>, cache: seq<nat>, fd: nat)
    requires CacheOk(fds, cache) && fd < |fds| && fds[fd].cache > 0
    ensures fds[fd].cache <= |cache| && Shrunk(fds, cache, fd) == Without(cache, fds[fd].cache - 1)
  {
  }

  /** Only closing a cached file descriptor changes the cache. */
  lemma AppliedCache(v: View, op: Op)
    requires Inv(v)
    ensures Releases(v, op) ==>
      v.fds[op.fd].cache <= |v.cache| && Applied(v, op).cache == Without(v.cache, v.fds[op.fd].cache - 1)
    ensures !Releases(v, op) ==> Applied(v, op).cache == v.cache
  {
    hide Inv, CacheOk, Without, Closed, Opened, Changed, StateAfter;
    if !Legal(v, op) {
    } else if op.Close? {
      ClosedCache(v, op.fd);
    } else if op.Open? {
      OpenedCache(v, op.fd);
    } else {
      var s := StateAfter(v.fds[op.fd], op);
      ChangedCache(v, op.fd, s.0, s.1);
    }
  }

  lemma OpenedCache(v: View, fd: nat)
    requires fd < |v.fds|
    ensures Opened(v, fd).cache == v.cache
  {
  }

  lemma ChangedCache(v: View, fd: nat, r: Dir, w: Dir)
    requires fd < |v.fds|
    ensures Changed(v, fd, r, w).cache == v.cache
  {
  }

  lemma ClosedCache(v: View, fd: nat)
    requires Inv(v) && fd < |v.fds|
    ensures if v.fds[fd].cache > 0 then
        v.fds[fd].cache <= |v.cache| && Closed(v, fd).cache == Without(v.cache, v.fds[fd].cache - 1)
      else Closed(v, fd).cache == v.cache
  {
    InvParts(v);
    if v.fds[fd].cache > 0 {
      ShrunkIs(v.fds, v.cache, fd);
    }
    hide Inv, CacheOk, Without, Unlinked, Highest;
  }

  lemma AppliedTook(v: View, op: Op)
    requires Inv(v)
    ensures Took(v, Applied(v, op))
  {
    AppliedCache(v, op);
    hide Inv, Applied, Releases;
  }

  lemma {:induction false} RanTook(v: View, ops: seq<Op>)
    requires Inv(v)
    ensures Took(v, Ran(v, ops))
    decreases |ops|
  {
    hide Inv, Applied;
    if ops != [] {
      AppliedKeeps(v, ops[0]);
      AppliedTook(v, ops[0]);
      RanTook(Applied(v, ops[0]), ops[1..]);
    }
  }

  lemma PassedByIs(v: View, op: Op, e: nat, fd: nat)
    requires Releases(v, op) ==> v.fds[op.fd].cache <= |v.cache|
    ensures PassedBy(v, op, e, fd) ==
      if Releases(v, op) && v.fds[op.fd].cache - 1 < e && |v.cache| > Behind(v.cache, e, fd) then
        {v.cache[|v.cache| - 1]}
      else {}
  {
  }

  /** The sides of a cache one operation later */
  ghost predicate SidesAfter(v: View, op: Op, cache: seq<nat>, e: nat, fd: nat, done: set<nat>, passed: set<nat>) {
    && Sides(cache, Behind(cache, e, fd), done, passed + PassedBy(v, op, e, fd))
    && PassedBy(v, op, e, fd) !! passed
  }

  lemma ReleasedSides(v: View, op: Op, e: nat, fd: nat, done: set<nat>, passed: set<nat>)
    requires Releases(v, op) && v.fds[op.fd].cache <= |v.cache| && NoRepeats(v.cache)
    requires Sides(v.cache, Behind(v.cache, e, fd), done, passed) && fd in done
    ensures SidesAfter(v, op, Without(v.cache, v.fds[op.fd].cache - 1), e, fd, done, passed)
  {
    PassedByIs(v, op, e, fd);
    hide Without, NoRepeats, PassedBy, Sides, Behind;
    WithoutSides(v.cache, v.fds[op.fd].cache - 1, e, fd, done, passed);
  }

  lemma AppliedSides(v: View, op: Op, e: nat, fd: nat, done: set<nat>, passed: set<nat>)
    requires Inv(v) && Sides(v.cache, Behind(v.cache, e, fd), done, passed) && fd in done
    ensures SidesAfter(v, op, Applied(v, op).cache, e, fd, done, passed)
  {
    InvParts(v);
    CacheNoRepeats(v.fds, v.cache);
    AppliedCache(v, op);
    hide Inv, CacheOk, UpdtOk, Applied, Without, NoRepeats;
    if Releases(v, op) {
      hide Releases, SidesAfter, Sides, Behind;
      ReleasedSides(v, op, e, fd, done, passed);
    } else {
      hide Sides, Behind;
      assert passed + PassedBy(v, op, e, fd) == passed;
    }
  }

  lemma {:induction false} RanSides(v: View, ops: seq<Op>, e: nat, fd: nat, done: set<nat>, passed: set<nat>)
    requires Inv(v) && Sides(v.cache, Behind(v.cache, e, fd), done, passed) && fd in done
    ensures var u := Ran(v, ops);
      Sides(u.cache, Behind(u.cache, e, fd), done, passed + PassedByAll(v, ops, e, fd))
    ensures PassedByAll(v, ops, e, fd) !! passed
    decreases |ops|
  {
    hide Inv, Applied, Sides, Behind, PassedBy;
    if ops == [] {
      assert passed + PassedByAll(v, ops, e, fd) == passed;
    } else {
      AppliedKeeps(v, ops[0]);
      AppliedSides(v, ops[0], e, fd, done, passed);
      var u, more := Applied(v, ops[0]), PassedBy(v, ops[0], e, fd);
      RanSides(u, ops[1..], e, fd, done, passed + more);
      assert passed + PassedByAll(v, ops, e, fd) == passed + more + PassedByAll(u, ops[1..], e, fd);
    }
  }

  // ---------------------------------------------------------------------------
  // The scan, as a function

  /** What is to be processed for fd, when its turn comes. */
  function Ready(f: Fd): Fd {
    f.(ev := Pending(f.ev, f.r.ready && f.r.active, f.w.ready && f.w.active))
  }

  /** The turn of a cached file descriptor */
  function Taken(fd: nat, f: Fd): Served {
    var ev := Ready(f).ev;
    Served(fd, f.owner, f.r, f.w, f.ev, f.owner && Any(ev), ev)
  }

  /** The callback of an entry, or an update to take it out of the cache. */
  ghost function Entered(v: View, fd: nat, ops: seq<Op>): (u: View)
    requires Inv(v) && fd < |v.fds|
    ensures Inv(u) && |u.fds| == |v.fds| && Took(v, u)
  {
    hide Inv, Ran;
    var f := Ready(v.fds[fd]);
    NotedKeeps(v, fd, f);
    var v1 := SetFd(v, fd, f);
    RanKeeps(v1, ops);
    RanTook(v1, ops);
    UpdatedInv(v1, fd);
    if Taken(fd, v.fds[fd]).called then Ran(v1, ops) else Updated(v1, fd)
  }

  ghost function PassedAt(v: View, e: nat, fd: nat, ops: seq<Op>): set<nat>
    requires Inv(v) && fd < |v.fds|
  {
    var f := Ready(v.fds[fd]);
    NotedKeeps(v, fd, f);
    if Taken(fd, v.fds[fd]).called then PassedByAll(SetFd(v, fd, f), ops, e, fd) else {}
  }

  /** The scan at its place `entry`, after n callbacks or updates. */
  datatype Scan = Scan(v: View, entry: nat, n: nat, done: set<nat>, passed: set<nat>, log: seq<Served>)

  /** One turn. The place does not move on when another entry has come there. */
  ghost function Turn(s: Scan, iocb: (nat, nat) -> seq<Op>): (t: Scan)
    requires Inv(s.v) && s.entry < |s.v.cache|
    ensures Inv(t.v) && |t.v.cache| - t.entry < |s.v.cache| - s.entry
  {
    EntryBack(s.v, s.entry);
    var fd := s.v.cache[s.entry];
    var ops := iocb(s.n, fd);
    var u := Entered(s.v, fd, ops);
    Scan(u, if s.entry < |u.cache| && u.cache[s.entry] != fd then s.entry else s.entry + 1, s.n + 1,
         s.done + {fd}, s.passed + PassedAt(s.v, s.entry, fd, ops), s.log + [Taken(fd, s.v.fds[fd])])
  }

  ghost function Scanned(s: Scan, iocb: (nat, nat) -> seq<Op>): (t: Scan)
    requires Inv(s.v)
    ensures Inv(t.v) && |t.v.cache| <= t.entry
    decreases |s.v.cache| - s.entry
  {
    if s.entry < |s.v.cache| then Scanned(Turn(s, iocb), iocb) else s
  }

  ghost predicate ScanOk(s: Scan) {
    Sides(s.v.cache, s.entry, s.done, s.passed)
  }

  /** The turn is over: its place is behind the scan if the file descriptor is still there. */
  lemma NextPlace(cache: seq<nat>, e: nat, fd: nat, done: set<nat>, passed: set<nat>)
    requires Sides(cache, Behind(cache, e, fd), done, passed)
    ensures Sides(cache, if e < |cache| && cache[e] != fd then e else e + 1, done, passed)
  {
  }

  lemma ThisPlace(cache: seq<nat>, e: nat, done: set<nat>, passed: set<nat>)
    requires NoRepeats(cache) && e < |cache| && Sides(cache, e, done, passed)
    ensures Sides(cache, Behind(cache, e, cache[e]), done + {cache[e]}, passed)
  {
  }

  lemma TurnKeeps(s: Scan, iocb: (nat, nat) -> seq<Op>)
    requires Inv(s.v) && s.entry < |s.v.cache| && ScanOk(s)
    ensures ScanOk(Turn(s, iocb))
  {
    EntryBack(s.v, s.entry);
    CacheNoRepeats(s.v.fds, s.v.cache);
    var e, fd := s.entry, s.v.cache[s.entry];
    var f, ops := Ready(s.v.fds[fd]), iocb(s.n, fd);
    NotedKeeps(s.v, fd, f);
    hide Inv, Ran, NoRepeats, Sides, Behind, Ready;
    ThisPlace(s.v.cache, e, s.done, s.passed);
    if Taken(fd, s.v.fds[fd]).called {
      RanSides(SetFd(s.v, fd, f), ops, e, fd, s.done + {fd}, s.passed);
    } else {
      assert s.passed + {} == s.passed;
    }
    hide Taken;
    NextPlace(Entered(s.v, fd, ops).cache, e, fd, s.done + {fd}, s.passed + PassedAt(s.v, e, fd, ops));
  }

  lemma {:induction false} ScanKeeps(s: Scan, iocb: (nat, nat) -> seq<Op>)
    requires Inv(s.v) && ScanOk(s)
    ensures ScanOk(Scanned(s, iocb)) && s.passed <= Scanned(s, iocb).passed
    decreases |s.v.cache| - s.entry
  {
    hide Inv, ScanOk, Entered, PassedAt;
    if s.entry < |s.v.cache| {
      TurnKeeps(s, iocb);
      ScanKeeps(Turn(s, iocb), iocb);
    }
  }

  ghost function ScanAll(v: View, iocb: (nat, nat) -> seq<Op>): Scan
    requires Inv(v)
  {
    Scanned(Scan(v, 0, 0, {}, {}, []), iocb)
  }

  /** An entry still in the cache after the scan has not been processed if and only if it was passed, and what
      was passed never is processed. */
  lemma SkippedIsPassed(v: View, iocb: (nat, nat) -> seq<Op>)
    requires Inv(v)
    ensures var t := ScanAll(v, iocb);
      && t.done !! t.passed
      && forall fd | fd in t.v.cache :: fd !in t.done <==> fd in t.passed
  {
    ScanKeeps(Scan(v, 0, 0, {}, {}, []), iocb);
  }

  /** No call, at any turn, closes a file descriptor cached before the place of the scan while entries wait. */
  ghost predicate NonePassed(s: Scan, iocb: (nat, nat) -> seq<Op>)
    requires Inv(s.v)
    decreases |s.v.cache| - s.entry
  {
    if s.entry >= |s.v.cache| then true
    else
      EntryBack(s.v, s.entry);
      var fd := s.v.cache[s.entry];
      PassedAt(s.v, s.entry, fd, iocb(s.n, fd)) == {} && NonePassed(Turn(s, iocb), iocb)
  }

  /** That is exactly when nothing is passed; then every entry still in the cache has been processed. */
  lemma {:induction false} PassedExactly(s: Scan, iocb: (nat, nat) -> seq<Op>)
    requires Inv(s.v) && ScanOk(s)
    ensures NonePassed(s, iocb) <==> Scanned(s, iocb).passed == s.passed
    decreases |s.v.cache| - s.entry
  {
    hide Inv, ScanOk, Entered, PassedAt;
    if s.entry < |s.v.cache| {
      var t := Turn(s, iocb);
      TurnKeeps(s, iocb);
      PassedIsNew(s, iocb);
      ScanKeeps(t, iocb);
      PassedExactly(t, iocb);
    }
  }

  lemma PassedIsNew(s: Scan, iocb: (nat, nat) -> seq<Op>)
    requires Inv(s.v) && s.entry < |s.v.cache| && ScanOk(s)
    ensures s.v.cache[s.entry] < |s.v.fds|
    ensures var fd := s.v.cache[s.entry]; PassedAt(s.v, s.entry, fd, iocb(s.n, fd)) !! s.passed
  {
    EntryBack(s.v, s.entry);
    CacheNoRepeats(s.v.fds, s.v.cache);
    var e, fd := s.entry, s.v.cache[s.entry];
    var f, ops := Ready(s.v.fds[fd]), iocb(s.n, fd);
    NotedKeeps(s.v, fd, f);
    hide Inv, Ran, NoRepeats, Sides, Behind, Ready;
    ThisPlace(s.v.cache, e, s.done, s.passed);
    if Taken(fd, s.v.fds[fd]).called {
      RanSides(SetFd(s.v, fd, f), ops, e, fd, s.done + {fd}, s.passed);
    }
  }

  /** No entry is skipped by the scan of a cache if and only if no call closes a file descriptor cached before
      the place of the scan while entries are waiting. */
  lemma NoneSkippedExactly(v: View, iocb: (nat, nat) -> seq<Op>)
    requires Inv(v)
    ensures var s, t := Scan(v, 0, 0, {}, {}, []), ScanAll(v, iocb);
      && (NonePassed(s, iocb) <==> t.passed == {})
      && (NonePassed(s, iocb) ==> forall fd | fd in t.v.cache :: fd in t.done)
      && ((forall fd | fd in t.v.cache :: fd in t.done) <==> forall fd | fd in t.passed :: fd !in t.v.cache)
  {
    PassedExactly(Scan(v, 0, 0, {}, {}, []), iocb);
    SkippedIsPassed(v, iocb);
  }

  /** Callbacks close no other file descriptor than their own. */
  ghost predicate ClosesOwn(iocb: (nat, nat) -> seq<Op>) {
    forall n: nat, fd: nat, op: Op | op in iocb(n, fd) :: op.Close? ==> op.fd == fd
  }

  lemma {:induction false} OwnPassesNone(v: View, ops: seq<Op>, e: nat, fd: nat)
    requires Inv(v) && fd < |v.fds| && v.fds[fd].cache in {0, e + 1}
    requires forall op | op in ops :: op.Close? ==> op.fd == fd
    ensures PassedByAll(v, ops, e, fd) == {}
    decreases |ops|
  {
    if ops != [] {
      assert ops[0] in ops && forall op | op in ops[1..] :: op in ops;
      AppliedKeeps(v, ops[0]);
      OwnPlace(v, ops[0], fd);
      hide Inv, Applied;
      OwnPassesNone(Applied(v, ops[0]), ops[1..], e, fd);
    }
  }

  lemma OwnPlace(v: View, op: Op, fd: nat)
    requires Inv(v) && fd < |v.fds| && (op.Close? ==> op.fd == fd)
    ensures |Applied(v, op).fds| == |v.fds| && Applied(v, op).fds[fd].cache in {0, v.fds[fd].cache}
  {
    if Legal(v, op) && op.Close? {
      ClosedFds(v, op.fd);
    }
    hide Inv, Unlinked, Shrunk;
  }

  /** Then none is skipped, whatever else callbacks do. */
  lemma {:induction false} OwnSkipsNone(s: Scan, iocb: (nat, nat) -> seq<Op>)
    requires Inv(s.v) && ClosesOwn(iocb)
    ensures NonePassed(s, iocb)
    decreases |s.v.cache| - s.entry
  {
    if s.entry < |s.v.cache| {
      EntryBack(s.v, s.entry);
      var fd := s.v.cache[s.entry];
      var f := Ready(s.v.fds[fd]);
      NotedKeeps(s.v, fd, f);
      hide Inv, Entered;
      OwnPassesNone(SetFd(s.v, fd, f), iocb(s.n, fd), s.entry, fd);
      OwnSkipsNone(Turn(s, iocb), iocb);
    }
  }

  // ---------------------------------------------------------------------------
  // The scan in place

  /** Its events are noted, and it is decided whether there are any. */
  method NoteReady(tab: FdTable, fd: nat) returns (s: Served)
    requires tab.Valid() && fd < tab.fdtab.Length
    modifies tab.fdtab
    ensures tab.Valid() && tab.V() == SetFd(old(tab.V()), fd, Ready(old(tab.fdtab[fd])))
    ensures s == Taken(fd, old(tab.fdtab[fd]))
  {
    hide Inv, FdTable.PollOk;
    var e := tab.fdtab[fd];
    var f := e.(ev := Pending(e.ev, e.r.ready && e.r.active, e.w.ready && e.w.active));
    Note(tab, fd, f);
    s := Served(fd, e.owner, e.r, e.w, e.ev, f.owner && Any(f.ev), f.ev);
  }

  /** One entry of the cache */
  method ProcessEntry(tab: FdTable, fd: nat, ops: seq<Op>) returns (s: Served)
    requires tab.Valid() && fd < tab.fdtab.Length
    modifies tab, tab.fdtab, tab.fdCache, tab.fdUpdt, tab.Bitmaps()
    ensures tab.Valid() && tab.V() == Entered(old(tab.V()), fd, ops) && s == Taken(fd, old(tab.fdtab[fd]))
  {
    hide Inv, Ran, Updated;
    s := NoteReady(tab, fd);
    hide Taken, Ready;
    if s.called {
      tab.Iocb(ops);
    } else {
      UpdatedInv(tab.V(), fd);
      tab.UpdtFd(fd);
    }
  }

  lemma UpdatedInv(v: View, fd: nat)
    requires Inv(v) && fd < |v.fds|
    ensures UpdtOk(v.fds, v.updt) && Inv(Updated(v, fd))
  {
    assert FdOk(v.fds[fd], fd, v.kernel);
    OneChanges(v, fd, v.fds[fd].(updated := true));
    if !v.fds[fd].updated {
      UpdtMore(v.fds, v.updt, fd);
    }
    hide FdOk, AllOk, UpdtOk, CacheOk, TopOk;
  }

  /** fd_process_cached_events; iocb(n, fd) is what the callback of fd does when it is the nth one. It ends,
      since an entry that does not move on has left the cache. */
  method ProcessCachedEvents(tab: FdTable, iocb: (nat, nat) -> seq<Op>)
    returns (ghost s: Scan, served: seq<Served>)
    requires tab.Valid()
    modifies tab, tab.fdtab, tab.fdCache, tab.fdUpdt, tab.Bitmaps()
    ensures tab.Valid() && s == ScanAll(old(tab.V()), iocb) && tab.V() == s.v && served == s.log
    ensures s.done !! s.passed && forall fd | fd in tab.V().cache :: fd !in s.done <==> fd in s.passed
  {
    hide Inv, Scanned, Turn, Entered;
    ghost var start := Scan(tab.V(), 0, 0, {}, {}, []);
    SkippedIsPassed(tab.V(), iocb);
    s, served := start, [];
    var entry: nat, n: nat := 0, 0;
    while entry < tab.fdCacheNum
      invariant tab.Valid() && s == Scan(tab.V(), entry, n, s.done, s.passed, served)
      invariant Scanned(s, iocb) == Scanned(start, iocb)
      decreases tab.fdCacheNum - entry
    {
      ScannedStep(s, iocb);
      TurnParts(s, iocb);
      s := Turn(s, iocb);
      var fd := tab.fdCache[entry];
      var turn := ProcessEntry(tab, fd, iocb(n, fd));
      served := served + [turn];
      n := n + 1;
      if entry < tab.fdCacheNum && tab.fdCache[entry] != fd {
        continue;
      }
      entry := entry + 1;
    }
    ScannedStep(s, iocb);
  }

  lemma ScannedStep(s: Scan, iocb: (nat, nat) -> seq<Op>)
    requires Inv(s.v)
    ensures Scanned(s, iocb) == if s.entry < |s.v.cache| then Scanned(Turn(s, iocb), iocb) else s
  {
  }

  lemma TurnParts(s: Scan, iocb: (nat, nat) -> seq<Op>)
    requires Inv(s.v) && s.entry < |s.v.cache|
    ensures s.v.cache[s.entry] < |s.v.fds|
    ensures var t, fd := Turn(s, iocb), s.v.cache[s.entry];
      && t.v == Entered(s.v, fd, iocb(s.n, fd)) && t.n == s.n + 1 && t.log == s.log + [Taken(fd, s.v.fds[fd])]
      && t.entry == if s.entry < |t.v.cache| && t.v.cache[s.entry] != fd then s.entry else s.entry + 1
  {
    EntryBack(s.v, s.entry);
    hide Inv, Entered, PassedAt;
  }

  lemma EntryBack(v: View, entry: nat)
    requires Inv(v) && entry < |v.cache|
    ensures v.cache[entry] < |v.fds| && v.fds[v.cache[entry]].cache == entry + 1
  {
  }

  // ---------------------------------------------------------------------------
  // A scan that skips an entry

  function LiveFd(pos: nat): Fd {
    Fd(true, Dir(true, true, false), IDLE, pos, false, false, false, NO_EVENTS)
  }

  ghost function ThreeCached(): View {
    View([LiveFd(1), LiveFd(2), LiveFd(3)], [0, 1, 2], [], map[], 3)
  }

  lemma ThreeFds()
    ensures var v := ThreeCached();
      && |v.fds| == |v.cache| == 3 && v.updt == [] && v.kernel == map[] && v.maxfd == 3
      && forall fd: nat | fd < 3 :: v.fds[fd] == LiveFd(fd + 1) && v.cache[fd] == fd
  {
  }

  lemma ThreeCachedOk()
    ensures Inv(ThreeCached())
  {
    hide ThreeCached;
    var v := ThreeCached();
    ThreeFds();
    assert UpdtOk(v.fds, v.updt) && TopOk(v.fds, v.maxfd) && CacheOk(v.fds, v.cache) && AllOk(v.fds, v.kernel) by {
      assert forall fd: nat | fd < 3 :: v.fds[fd] == LiveFd(fd + 1) && v.cache[fd] == fd;
    }
    hide UpdtOk, CacheOk, TopOk, AllOk;
  }

  /** The callback of 1 closes 0, and no other one does anything. */
  function CloseFirst(n: nat, fd: nat): seq<Op> {
    if fd == 1 then [Close(0)] else []
  }

  lemma FirstClosed(v: View)
    requires Inv(v) && |v.fds| == 3 && v.cache == [0, 1, 2] && v.fds[0].owner
    ensures Ran(v, [Close(0)]).cache == [2, 1] && PassedByAll(v, [Close(0)], 1, 1) == {2}
  {
    assert v.fds[v.cache[0]].cache == 1;
    assert Shrunk(v.fds, v.cache, 0) == [2, 1];
    AppliedKeeps(v, Close(0));
    assert Legal(v, Close(0)) && PassedBy(v, Close(0), 1, 1) == {2};
    assert Applied(v, Close(0)).cache == [2, 1];
    hide Inv, Applied, Unlinked, Shrunk, Highest;
    assert [Close(0)][1..] == [];
    assert Ran(v, [Close(0)]) == Applied(v, Close(0));
    assert PassedByAll(v, [Close(0)], 1, 1) == {2} + PassedByAll(Applied(v, Close(0)), [], 1, 1);
  }

  /** With 0, 1 and 2 cached, 2 takes the place of 0, behind the scan, and stays in the cache without its turn. */
  lemma ClosingAnotherSkips()
    ensures Inv(ThreeCached())
    ensures var t := ScanAll(ThreeCached(), CloseFirst);
      t.v.cache == [2, 1] && t.done == {0, 1} && t.passed == {2}
  {
    ThreeCachedOk();
    hide Inv, Scanned, Ran, PassedByAll, ThreeCached;
    var s := Scan(ThreeCached(), 0, 0, {}, {}, []);
    FirstTurn(s);
    ScannedStep(s, CloseFirst);
    var s1 := Turn(s, CloseFirst);
    SecondTurn(s1);
    ScannedStep(s1, CloseFirst);
    ScannedStep(Turn(s1, CloseFirst), CloseFirst);
  }

  lemma FirstTurn(s: Scan)
    requires s == Scan(ThreeCached(), 0, 0, {}, {}, []) && Inv(s.v)
    ensures |s.v.cache| > 0
    ensures var t := Turn(s, CloseFirst);
      && t == Scan(t.v, 1, 1, {0}, {}, t.log) && t.v.cache == [0, 1, 2]
      && |t.v.fds| == 3 && t.v.fds[0].owner && t.v.fds[1] == LiveFd(2)
  {
    var v := s.v;
    assert v.fds[0] == LiveFd(1) && v.cache[0] == 0;
    NotedKeeps(v, 0, Ready(v.fds[0]));
    hide Inv;
    assert Entered(v, 0, []) == SetFd(v, 0, Ready(v.fds[0]));
    assert PassedAt(v, 0, 0, []) == {};
  }

  lemma SecondTurn(s: Scan)
    requires s == Scan(s.v, 1, 1, {0}, {}, s.log) && Inv(s.v)
    requires s.v.cache == [0, 1, 2] && |s.v.fds| == 3 && s.v.fds[0].owner && s.v.fds[1] == LiveFd(2)
    ensures var t := Turn(s, CloseFirst); t == Scan(t.v, 2, 2, {0, 1}, {2}, t.log) && t.v.cache == [2, 1]
  {
    var v := s.v;
    var u := SetFd(v, 1, Ready(v.fds[1]));
    NotedKeeps(v, 1, Ready(v.fds[1]));
    FirstClosed(u);
    hide Inv, Ran, PassedByAll;
    assert Entered(v, 1, [Close(0)]) == Ran(u, [Close(0)]);
    assert PassedAt(v, 1, 1, [Close(0)]) == {2};
  }
}
