/** The state of file descriptors: which directions are active, ready and polled, the list of pending
    updates, the cache of events to process without polling, and what the poller has registered. */
module FdState {
  datatype Dir = Dir(active: bool, ready: bool, polled: bool)

  const IDLE := Dir(false, false, false)

  datatype Events = Events(input: bool, output: bool, error: bool, hangup: bool)

  const NO_EVENTS := Events(false, false, false, false)

  datatype Fd = Fd(owner: bool, r: Dir, w: Dir, cache: nat, isNew: bool, updated: bool, cloned: bool, ev: Events)

  /** What the kernel watches on a file descriptor. */
  datatype Interest = Interest(input: bool, output: bool)

  /** The table as values: cache and updt are the parts of the arrays in use. */
  datatype View = View(fds: seq<Fd>, cache: seq<nat>, updt: seq<nat>, kernel: map<nat, Interest>, maxfd: nat)

  /** Ready and active: to be processed without polling. */
  predicate Live(d: Dir) { d.ready && d.active }

  /** fd_compute_new_polled_status, in one direction */
  function NewPolled(d: Dir): Dir {
    if d.active then if d.ready then d else d.(polled := true) else d.(polled := false)
  }

  /** Polled only when active, and polled when active without being ready. */
  predicate DirSettled(d: Dir) { (d.polled ==> d.active) && (d.active && !d.ready ==> d.polled) }

  /** Nothing would change if the poller looked at f. */
  predicate Settled(f: Fd) {
    DirSettled(f.r) && DirSettled(f.w) && (f.cache > 0 <==> Live(f.r) || Live(f.w))
  }

  /** The registration matches the polled bits. */
  predicate Registered(f: Fd, fd: nat, kernel: map<nat, Interest>) {
    if f.r.polled || f.w.polled then fd in kernel && kernel[fd] == Interest(f.r.polled, f.w.polled) else fd !in kernel
  }

  /** What holds of every file descriptor, open or not. */
  predicate FdOk(f: Fd, fd: nat, kernel: map<nat, Interest>) {
    && (!f.owner ==> f.r == IDLE && f.w == IDLE && f.cache == 0 && !f.isNew)
    && (f.isNew ==> !f.r.polled && !f.w.polled && f.cache == 0)
    && Registered(f, fd, kernel)
    && (f.owner && !f.updated ==> Settled(f))
  }

  ghost predicate AllOk(fds: seq<Fd>, kernel: map<nat, Interest>) {
    forall fd: nat | fd < |fds| :: FdOk(fds[fd], fd, kernel)
  }

  /** The update list holds the file descriptors marked as updated, once each. */
  ghost predicate UpdtOk(fds: seq<Fd>, updt: seq<nat>) {
    && (forall i: nat | i < |updt| :: updt[i] < |fds| && fds[updt[i]].updated)
    && (forall i: nat, j: nat | i < j < |updt| :: updt[i] != updt[j])
    && (forall fd: nat | fd < |fds| && fds[fd].updated :: fd in updt)
  }

  /** Entries of the cache and their back references agree. */
  ghost predicate CacheOk(fds: seq<Fd>, cache: seq<nat>) {
    && (forall i: nat | i < |cache| :: cache[i] < |fds| && fds[cache[i]].cache == i + 1)
    && (forall fd: nat | fd < |fds| && fds[fd].cache > 0 :: fds[fd].cache <= |cache| && cache[fds[fd].cache - 1] == fd)
  }

  /** maxfd is the highest open file descriptor plus one. */
  ghost predicate TopOk(fds: seq<Fd>, maxfd: nat) {
    && maxfd <= |fds| && (maxfd > 0 ==> fds[maxfd - 1].owner)
    && forall fd: nat | maxfd <= fd < |fds| :: !fds[fd].owner
  }

  /** The invariant of the whole table. */
  ghost predicate Inv(v: View) {
    && AllOk(v.fds, v.kernel) && (forall fd | fd in v.kernel :: fd < |v.fds|)
    && UpdtOk(v.fds, v.updt) && CacheOk(v.fds, v.cache) && TopOk(v.fds, v.maxfd)
  }

  // ---------------------------------------------------------------------------
  // Single steps, on values

  /** updt_fd */
  function Updated(v: View, fd: nat): View
    requires fd < |v.fds|
  {
    if v.fds[fd].updated then v
    else v.(fds := v.fds[fd := v.fds[fd].(updated := true)], updt := v.updt + [fd])
  }

  /** A direction changes, and the poller is asked to look at the file descriptor. */
  function Changed(v: View, fd: nat, r: Dir, w: Dir): View
    requires fd < |v.fds|
  {
    if v.fds[fd].r == r && v.fds[fd].w == w then v
    else Updated(v.(fds := v.fds[fd := v.fds[fd].(r := r, w := w)]), fd)
  }

  /** fd_alloc_cache_entry */
  function Allocated(v: View, fd: nat): View
    requires fd < |v.fds|
  {
    if v.fds[fd].cache > 0 then v
    else v.(fds := v.fds[fd := v.fds[fd].(cache := |v.cache| + 1)], cache := v.cache + [fd])
  }

  /** fd_release_cache_entry: the last entry takes the place of the one released. */
  ghost function Unlinked(fds: seq<Fd>, cache: seq<nat>, fd: nat): (u: seq<Fd>)
    requires CacheOk(fds, cache) && fd < |fds|
    ensures |u| == |fds|
  {
    var pos := fds[fd].cache;
    if pos == 0 then fds
    else if pos == |cache| then fds[fd := fds[fd].(cache := 0)]
    else
      var moved := cache[|cache| - 1];
      fds[fd := fds[fd].(cache := 0)][moved := fds[moved].(cache := pos)]
  }

  ghost function Shrunk(fds: seq<Fd>, cache: seq<nat>, fd: nat): seq<nat>
    requires CacheOk(fds, cache) && fd < |fds|
  {
    var pos, last := fds[fd].cache, |cache| - 1;
    if pos == 0 then cache else if pos == |cache| then cache[..last] else cache[..last][pos - 1 := cache[last]]
  }

  ghost function Released(v: View, fd: nat): View
    requires CacheOk(v.fds, v.cache) && fd < |v.fds|
  {
    v.(fds := Unlinked(v.fds, v.cache, fd), cache := Shrunk(v.fds, v.cache, fd))
  }

  datatype Op =
    | WantRecv(fd: nat) | WantSend(fd: nat) | StopRecv(fd: nat) | StopSend(fd: nat) | StopBoth(fd: nat)
    | CantRecv(fd: nat) | CantSend(fd: nat) | MayRecv(fd: nat) | MaySend(fd: nat) | DoneRecv(fd: nat)
    | Open(fd: nat) | Close(fd: nat)

  /** Callers act on what they have open, and open what is not. */
  predicate Legal(v: View, op: Op) {
    op.fd < |v.fds| && (op.Open? <==> !v.fds[op.fd].owner)
  }

  function StateAfter(f: Fd, op: Op): (Dir, Dir) {
    match op
    case WantRecv(_) => (f.r.(active := true), f.w)
    case WantSend(_) => (f.r, f.w.(active := true))
    case StopRecv(_) => (f.r.(active := false), f.w)
    case StopSend(_) => (f.r, f.w.(active := false))
    case StopBoth(_) => (f.r.(active := false), f.w.(active := false))
    case CantRecv(_) => (f.r.(ready := false), f.w)
    case CantSend(_) => (f.r, f.w.(ready := false))
    case MayRecv(_) => (f.r.(ready := true), f.w)
    case MaySend(_) => (f.r, f.w.(ready := true))
    case DoneRecv(_) => if f.r.polled then (f.r.(ready := false), f.w) else (f.r, f.w)
    case _ => (f.r, f.w)
  }

  /** The highest open file descriptor plus one, knowing that all are below n. */
  function Highest(fds: seq<Fd>, n: nat): (m: nat)
    requires n <= |fds|
    ensures m <= n && (m > 0 ==> fds[m - 1].owner)
    ensures forall fd | m <= fd < n :: !fds[fd].owner
  {
    if n == 0 || fds[n - 1].owner then n else Highest(fds, n - 1)
  }

  /** fd_delete: out of the cache and of the kernel's set; a pending update entry stays. */
  ghost function Closed(v: View, fd: nat): View
    requires Inv(v) && fd < |v.fds|
  {
    var u := Unlinked(v.fds, v.cache, fd);
    var fds := u[fd := u[fd].(r := IDLE, w := IDLE, owner := false, isNew := false)];
    View(fds, Shrunk(v.fds, v.cache, fd), v.updt, v.kernel - {fd}, Highest(fds, v.maxfd))
  }

  function Opened(v: View, fd: nat): View
    requires fd < |v.fds|
  {
    v.(fds := v.fds[fd := v.fds[fd].(owner := true, isNew := true, cloned := false, ev := NO_EVENTS)],
       maxfd := if fd + 1 > v.maxfd then fd + 1 else v.maxfd)
  }

  /** fork_poller: another process now has what is open. */
  function Forked(v: View): View {
    v.(fds := seq(|v.fds|, i requires 0 <= i < |v.fds| => v.fds[i].(cloned := v.fds[i].cloned || v.fds[i].owner)))
  }

  ghost function Applied(v: View, op: Op): View
    requires Inv(v)
  {
    if !Legal(v, op) then v
    else match op
      case Open(fd) => Opened(v, fd)
      case Close(fd) => Closed(v, fd)
      case _ => var s := StateAfter(v.fds[op.fd], op); Changed(v, op.fd, s.0, s.1)
  }

  lemma UpdtSame(fds: seq<Fd>, fds': seq<Fd>, updt: seq<nat>)
    requires UpdtOk(fds, updt) && |fds'| == |fds| && forall x: nat | x < |fds| :: fds'[x].updated == fds[x].updated
    ensures UpdtOk(fds', updt)
  {
  }

  lemma CacheSame(fds: seq<Fd>, fds': seq<Fd>, cache: seq<nat>)
    requires CacheOk(fds, cache) && |fds'| == |fds| && forall x: nat | x < |fds| :: fds'[x].cache == fds[x].cache
    ensures CacheOk(fds', cache)
  {
    forall i: nat | i < |cache| ensures cache[i] < |fds| && fds'[cache[i]].cache == i + 1 {
      assert fds'[cache[i]].cache == fds[cache[i]].cache;
    }
  }

  lemma UpdtMore(fds: seq<Fd>, updt: seq<nat>, fd: nat)
    requires UpdtOk(fds, updt) && fd < |fds| && !fds[fd].updated
    ensures UpdtOk(fds[fd := fds[fd].(updated := true)], updt + [fd])
  {
  }

  /** One file descriptor changes, but not its owner nor its place in the cache. */
  lemma OneChanges(v: View, fd: nat, f: Fd)
    requires Inv(v) && fd < |v.fds| && FdOk(f, fd, v.kernel) && f.owner == v.fds[fd].owner && f.cache == v.fds[fd].cache
    ensures var fds := v.fds[fd := f]; AllOk(fds, v.kernel) && TopOk(fds, v.maxfd) && CacheOk(fds, v.cache)
    ensures f.updated == v.fds[fd].updated ==> UpdtOk(v.fds[fd := f], v.updt)
  {
    var fds := v.fds[fd := f];
    CacheSame(v.fds, fds, v.cache);
    if f.updated == v.fds[fd].updated {
      UpdtSame(v.fds, fds, v.updt);
    }
    hide FdOk, UpdtOk, CacheOk;
  }

  lemma ChangedKeeps(v: View, fd: nat, r: Dir, w: Dir)
    requires Inv(v) && fd < |v.fds| && v.fds[fd].owner
    requires r.polled == v.fds[fd].r.polled && w.polled == v.fds[fd].w.polled
    ensures Inv(Changed(v, fd, r, w))
  {
    var f := v.fds[fd].(r := r, w := w, updated := true);
    var fds := v.fds[fd := v.fds[fd].(r := r, w := w)];
    assert FdOk(v.fds[fd], fd, v.kernel);
    OneChanges(v, fd, f);
    if !v.fds[fd].updated {
      UpdtSame(v.fds, fds, v.updt);
      UpdtMore(fds, v.updt, fd);
      assert fds[fd := f] == v.fds[fd := f];
    }
    hide FdOk, AllOk, UpdtOk, CacheOk, TopOk;
  }

  lemma OpenedKeeps(v: View, fd: nat)
    requires Inv(v) && fd < |v.fds| && !v.fds[fd].owner
    ensures Inv(Opened(v, fd))
  {
    hide UpdtOk, CacheOk;
    var u := Opened(v, fd);
    UpdtSame(v.fds, u.fds, v.updt);
    CacheSame(v.fds, u.fds, v.cache);
    assert v.fds[fd].updated || !Live(IDLE);
  }

  lemma ForkedKeeps(v: View)
    requires Inv(v)
    ensures Inv(Forked(v))
  {
    var u := Forked(v);
    assert forall x: nat | x < |v.fds| :: u.fds[x] == v.fds[x].(cloned := u.fds[x].cloned);
    UpdtSame(v.fds, u.fds, v.updt);
    CacheSame(v.fds, u.fds, v.cache);
    forall x: nat | x < |v.fds| ensures FdOk(u.fds[x], x, v.kernel) {
      assert FdOk(v.fds[x], x, v.kernel);
    }
    hide UpdtOk, CacheOk, FdOk;
  }

  /** The cache loses one entry, and only back references change. */
  lemma UnlinkedCache(fds: seq<Fd>, cache: seq<nat>, fd: nat)
    requires CacheOk(fds, cache) && fd < |fds|
    ensures CacheOk(Unlinked(fds, cache, fd), Shrunk(fds, cache, fd))
  {
    var u, c := Unlinked(fds, cache, fd), Shrunk(fds, cache, fd);
    var pos, last := fds[fd].cache, |cache| - 1;
    if pos > 0 {
      assert fds[cache[last]].cache == last + 1;
      forall i: nat | i < |c| ensures c[i] < |u| && u[c[i]].cache == i + 1 {
        assert fds[cache[i]].cache == i + 1;
      }
      forall x: nat | x < |u| && u[x].cache > 0 ensures u[x].cache <= |c| && c[u[x].cache - 1] == x {
        assert fds[x].cache > 0 && cache[fds[x].cache - 1] == x;
      }
    }
  }

  lemma UnlinkedFds(fds: seq<Fd>, cache: seq<nat>, fd: nat)
    requires CacheOk(fds, cache) && fd < |fds|
    ensures var u := Unlinked(fds, cache, fd);
      forall x: nat | x < |fds| ::
        u[x] == fds[x].(cache := u[x].cache) && (u[x].cache > 0 <==> x != fd && fds[x].cache > 0)
  {
    var pos, last := fds[fd].cache, |cache| - 1;
    if pos > 0 {
      assert fds[cache[last]].cache == last + 1;
    }
  }

  /** Closing changes nothing else than the back reference of another file descriptor. */
  lemma ClosedFds(v: View, fd: nat)
    requires Inv(v) && fd < |v.fds|
    ensures var u := Closed(v, fd);
      && |u.fds| == |v.fds| && u.updt == v.updt && CacheOk(u.fds, u.cache)
      && u.fds[fd] == v.fds[fd].(r := IDLE, w := IDLE, owner := false, isNew := false, cache := 0)
      && forall x: nat | x < |v.fds| && x != fd ::
           u.fds[x] == v.fds[x].(cache := u.fds[x].cache) && (u.fds[x].cache > 0 <==> v.fds[x].cache > 0)
  {
    var fds := Unlinked(v.fds, v.cache, fd);
    UnlinkedFds(v.fds, v.cache, fd);
    UnlinkedCache(v.fds, v.cache, fd);
    hide Unlinked, Shrunk, UpdtOk, CacheOk;
    CacheSame(fds, Closed(v, fd).fds, Shrunk(v.fds, v.cache, fd));
  }

  /** Another file descriptor does not see the difference. */
  lemma OtherOk(f: Fd, c: nat, x: nat, fd: nat, kernel: map<nat, Interest>)
    requires FdOk(f, x, kernel) && x != fd && (c > 0 <==> f.cache > 0)
    ensures FdOk(f.(cache := c), x, kernel - {fd})
  {
  }

  lemma TopLowered(fds: seq<Fd>, fds': seq<Fd>, maxfd: nat)
    requires TopOk(fds, maxfd) && |fds'| == |fds| && forall x: nat | x < |fds| :: fds'[x].owner ==> fds[x].owner
    ensures TopOk(fds', Highest(fds', maxfd))
  {
  }

  lemma ClosedTop(v: View, fd: nat)
    requires Inv(v) && fd < |v.fds|
    ensures TopOk(Closed(v, fd).fds, Closed(v, fd).maxfd) && Closed(v, fd).kernel == v.kernel - {fd}
  {
    ClosedFds(v, fd);
    hide UpdtOk, CacheOk, Unlinked, Shrunk, AllOk, TopOk, Highest;
    var u := Closed(v, fd);
    forall x: nat | x < |v.fds| ensures u.fds[x].owner ==> v.fds[x].owner {
      assert x != fd ==> u.fds[x] == v.fds[x].(cache := u.fds[x].cache);
    }
    TopLowered(v.fds, u.fds, v.maxfd);
  }

  lemma ClosedKeeps(v: View, fd: nat)
    requires Inv(v) && fd < |v.fds|
    ensures Inv(Closed(v, fd))
  {
    var u := Closed(v, fd);
    ClosedFds(v, fd);
    ClosedTop(v, fd);
    UpdtSame(v.fds, u.fds, v.updt);
    hide UpdtOk, CacheOk, Unlinked, Shrunk, Closed, TopOk;
    forall x: nat | x < |v.fds| ensures FdOk(u.fds[x], x, u.kernel) {
      assert FdOk(v.fds[x], x, v.kernel);
      if x != fd {
        OtherOk(v.fds[x], u.fds[x].cache, x, fd, v.kernel);
        hide FdOk;
      }
    }
  }

  lemma AppliedKeeps(v: View, op: Op)
    requires Inv(v)
    ensures Inv(Applied(v, op))
  {
    hide Inv;
    if Legal(v, op) {
      match op
      case Open(fd) => OpenedKeeps(v, fd);
      case Close(fd) => ClosedKeeps(v, fd);
      case _ => ChangedKeeps(v, op.fd, StateAfter(v.fds[op.fd], op).0, StateAfter(v.fds[op.fd], op).1);
    }
  }

  ghost function Ran(v: View, ops: seq<Op>): View
    requires Inv(v)
    decreases |ops|
  {
    if ops == [] then v
    else
      AppliedKeeps(v, ops[0]);
      Ran(Applied(v, ops[0]), ops[1..])
  }

  lemma {:induction false} RanKeeps(v: View, ops: seq<Op>)
    requires Inv(v)
    ensures Inv(Ran(v, ops)) && |Ran(v, ops).fds| == |v.fds| && v.updt <= Ran(v, ops).updt
    ensures forall fd: nat | fd < |v.fds| :: Unpolled(v.fds[fd]) ==> Unpolled(Ran(v, ops).fds[fd])
    decreases |ops|
  {
    hide Inv, Applied, Unpolled;
    if ops != [] {
      AppliedKeeps(v, ops[0]);
      AppliedFrame(v, ops[0]);
      RanKeeps(Applied(v, ops[0]), ops[1..]);
    }
  }

  lemma AppliedFrame(v: View, op: Op)
    requires Inv(v)
    ensures var u := Applied(v, op);
      && |u.fds| == |v.fds| && v.updt <= u.updt
      && forall fd: nat | fd < |v.fds| :: Unpolled(v.fds[fd]) ==> Unpolled(u.fds[fd])
  {
    hide Inv, Applied, Unpolled;
    AppliedSize(v, op);
    forall fd: nat | fd < |v.fds| ensures Unpolled(v.fds[fd]) ==> Unpolled(Applied(v, op).fds[fd]) {
      AppliedGrows(v, op, fd);
    }
  }

  lemma AppliedSize(v: View, op: Op)
    requires Inv(v)
    ensures |Applied(v, op).fds| == |v.fds| && v.updt <= Applied(v, op).updt
  {
    if Legal(v, op) && op.Close? {
      ClosedFds(v, op.fd);
    }
    hide Inv, Closed;
  }

  /** Not registered and not in the cache: what a new file descriptor is until the poller looks at it. */
  predicate Unpolled(f: Fd) {
    !f.r.polled && !f.w.polled && f.cache == 0
  }

  /** Only the poller registers file descriptors and caches events; update entries are only added. */
  lemma AppliedGrows(v: View, op: Op, fd: nat)
    requires Inv(v) && fd < |v.fds|
    ensures var u := Applied(v, op);
      |u.fds| == |v.fds| && v.updt <= u.updt && (Unpolled(v.fds[fd]) ==> Unpolled(u.fds[fd]))
  {
    if Legal(v, op) && op.Close? {
      ClosedFds(v, op.fd);
    }
    hide Inv, Closed;
  }

  // ---------------------------------------------------------------------------
  // The poller's pass over the updates

  function Synced(f: Fd): Fd {
    if f.owner then f.(updated := false, isNew := false, r := NewPolled(f.r), w := NewPolled(f.w))
    else f.(updated := false, isNew := false)
  }

  /** What the kernel watches on fd after its state went from f to f'. */
  function Watched(kernel: map<nat, Interest>, fd: nat, f: Fd, f': Fd): map<nat, Interest> {
    if f.r.polled == f'.r.polled && f.w.polled == f'.w.polled then kernel
    else if f'.r.polled || f'.w.polled then kernel[fd := Interest(f'.r.polled, f'.w.polled)]
    else kernel - {fd}
  }

  /** The first entry of the update list is processed. */
  ghost function Looked(v: View): View
    requires Inv(v) && v.updt != []
  {
    var fd := v.updt[0];
    var f, f' := v.fds[fd], Synced(v.fds[fd]);
    v.(fds := v.fds[fd := f'], updt := v.updt[1..], kernel := Watched(v.kernel, fd, f, f'))
  }

  ghost function Cached(v: View, fd: nat): View
    requires CacheOk(v.fds, v.cache) && fd < |v.fds|
  {
    if !v.fds[fd].owner then v
    else if Live(v.fds[fd].r) || Live(v.fds[fd].w) then Allocated(v, fd)
    else Released(v, fd)
  }

  lemma UpdtLess(fds: seq<Fd>, updt: seq<nat>, f: Fd)
    requires UpdtOk(fds, updt) && updt != [] && !f.updated
    ensures UpdtOk(fds[updt[0] := f], updt[1..])
  {
    var fds', updt' := fds[updt[0] := f], updt[1..];
    forall x: nat | x < |fds'| && fds'[x].updated ensures x in updt' {
      var i: nat :| i < |updt| && updt[i] == x;
      assert i > 0 && updt'[i - 1] == x;
    }
    forall i: nat | i < |updt'| ensures updt'[i] < |fds'| && fds'[updt'[i]].updated {
      assert updt'[i] == updt[i + 1] && updt[0] != updt[i + 1];
    }
  }

  lemma AllocatedCache(v: View, fd: nat)
    requires CacheOk(v.fds, v.cache) && fd < |v.fds|
    ensures var u := Allocated(v, fd);
      && u == v.(fds := u.fds, cache := u.cache) && CacheOk(u.fds, u.cache) && |u.fds| == |v.fds|
      && forall x: nat | x < |v.fds| ::
           u.fds[x] == v.fds[x].(cache := u.fds[x].cache) && (u.fds[x].cache > 0 <==> x == fd || v.fds[x].cache > 0)
  {
  }

  lemma ReleasedCache(v: View, fd: nat)
    requires CacheOk(v.fds, v.cache) && fd < |v.fds|
    ensures var u := Released(v, fd);
      && u == v.(fds := u.fds, cache := u.cache) && CacheOk(u.fds, u.cache) && |u.fds| == |v.fds|
      && forall x: nat | x < |v.fds| ::
           u.fds[x] == v.fds[x].(cache := u.fds[x].cache) && (u.fds[x].cache > 0 <==> x != fd && v.fds[x].cache > 0)
  {
    UnlinkedCache(v.fds, v.cache, fd);
    UnlinkedFds(v.fds, v.cache, fd);
    hide CacheOk, Unlinked, Shrunk;
  }

  lemma LookedCache(v: View)
    requires Inv(v) && v.updt != []
    ensures CacheOk(Looked(v).fds, Looked(v).cache)
    ensures UpdtOk(Looked(v).fds, Looked(v).updt)
  {
    hide CacheOk, Registered, Settled;
    UpdtLess(v.fds, v.updt, Synced(v.fds[v.updt[0]]));
    CacheSame(v.fds, Looked(v).fds, v.cache);
  }

  ghost function SyncHead(v: View): View
    requires Inv(v) && v.updt != []
  {
    LookedCache(v);
    Cached(Looked(v), v.updt[0])
  }

  /** Only back references change, so that fd is in the cache when it has to be. */
  lemma CachedFds(v: View, fd: nat)
    requires CacheOk(v.fds, v.cache) && fd < |v.fds|
    ensures var u := Cached(v, fd);
      && u == v.(fds := u.fds, cache := u.cache) && CacheOk(u.fds, u.cache) && |u.fds| == |v.fds|
      && forall x: nat | x < |v.fds| :: u.fds[x] == v.fds[x].(cache := u.fds[x].cache)
           && (u.fds[x].cache > 0 <==>
                 if x == fd && v.fds[x].owner then Live(v.fds[x].r) || Live(v.fds[x].w) else v.fds[x].cache > 0)
  {
    AllocatedCache(v, fd);
    ReleasedCache(v, fd);
    hide CacheOk, Allocated, Released, Live;
  }

  /** A file descriptor just looked at is as it has to be. */
  lemma SyncedOk(f: Fd, c: nat, fd: nat, kernel: map<nat, Interest>)
    requires FdOk(f, fd, kernel)
    requires c > 0 <==> if f.owner then Live(f.r) || Live(f.w) else f.cache > 0
    ensures FdOk(Synced(f).(cache := c), fd, Watched(kernel, fd, f, Synced(f)))
  {
  }

  lemma WatchedOthers(f: Fd, f': Fd, fd: nat, x: nat, g: Fd, c: nat, kernel: map<nat, Interest>)
    requires FdOk(g, x, kernel) && x != fd && (c > 0 <==> g.cache > 0)
    ensures FdOk(g.(cache := c), x, Watched(kernel, fd, f, f'))
  {
  }

  lemma LookedFds(v: View)
    requires Inv(v) && v.updt != []
    ensures var fd, u := v.updt[0], Looked(v);
      && fd < |v.fds| && |u.fds| == |v.fds| && u.updt == v.updt[1..] && u.fds[fd] == Synced(v.fds[fd])
      && u.kernel == Watched(v.kernel, fd, v.fds[fd], Synced(v.fds[fd])) && TopOk(u.fds, u.maxfd)
      && (forall fd | fd in u.kernel :: fd < |u.fds|)
      && forall x: nat | x < |v.fds| && x != fd :: u.fds[x] == v.fds[x]
  {
    hide CacheOk, FdOk;
  }

  lemma SyncHeadFds(v: View)
    requires Inv(v) && v.updt != []
    ensures var fd, u := v.updt[0], SyncHead(v);
      && u.updt == v.updt[1..] && |u.fds| == |v.fds| && UpdtOk(u.fds, u.updt) && CacheOk(u.fds, u.cache)
      && u.kernel == Looked(v).kernel && u.maxfd == v.maxfd
      && u.fds[fd] == Synced(v.fds[fd]).(cache := u.fds[fd].cache)
      && (u.fds[fd].cache > 0 <==>
            if v.fds[fd].owner then Live(v.fds[fd].r) || Live(v.fds[fd].w) else v.fds[fd].cache > 0)
      && forall x: nat | x < |v.fds| && x != fd ::
           u.fds[x] == v.fds[x].(cache := u.fds[x].cache) && (u.fds[x].cache > 0 <==> v.fds[x].cache > 0)
  {
    var fd, u := v.updt[0], SyncHead(v);
    LookedFds(v);
    LookedCache(v);
    CachedFds(Looked(v), fd);
    UpdtSame(Looked(v).fds, u.fds, u.updt);
    hide UpdtOk, CacheOk, Cached, TopOk, Inv, Looked;
  }

  lemma SyncHeadKeeps(v: View)
    requires Inv(v) && v.updt != []
    ensures Inv(SyncHead(v))
  {
    var fd, u := v.updt[0], SyncHead(v);
    var f := v.fds[fd];
    LookedFds(v);
    SyncHeadFds(v);
    hide UpdtOk, CacheOk, Looked, SyncHead;
    forall x: nat | x < |v.fds| ensures FdOk(u.fds[x], x, u.kernel) {
      if x == fd {
        SyncedOk(f, u.fds[x].cache, x, v.kernel);
      } else {
        WatchedOthers(f, Synced(f), fd, x, v.fds[x], u.fds[x].cache, v.kernel);
      }
      hide FdOk, Watched, Synced;
    }
    hide FdOk, Watched, Synced;
  }

  /** The whole pass over the update list */
  ghost function SyncAll(v: View): View
    requires Inv(v)
    decreases |v.updt|
  {
    if v.updt == [] then v
    else
      SyncHeadKeeps(v);
      SyncHeadFds(v);
      SyncAll(SyncHead(v))
  }

  /** Looking at the listed file descriptors only is as good as looking at all of them: every state becomes
      what it would, and nothing is left to do. */
  lemma {:induction false} PassIsFullScan(v: View)
    requires Inv(v)
    ensures var u := SyncAll(v);
      && Inv(u) && u.updt == [] && |u.fds| == |v.fds| && u.maxfd == v.maxfd
      && forall fd: nat | fd < |v.fds| ::
           && u.fds[fd].owner == v.fds[fd].owner
           && u.fds[fd].r == NewPolled(v.fds[fd].r) && u.fds[fd].w == NewPolled(v.fds[fd].w)
           && (u.fds[fd].owner ==> Settled(u.fds[fd]))
    decreases |v.updt|
  {
    if v.updt == [] {
      forall fd: nat | fd < |v.fds|
      ensures v.fds[fd].r == NewPolled(v.fds[fd].r) && v.fds[fd].w == NewPolled(v.fds[fd].w)
        && (v.fds[fd].owner ==> Settled(v.fds[fd]))
      {
        NothingToDo(v, fd);
      }
    } else {
      var u := SyncHead(v);
      SyncHeadKeeps(v);
      SyncHeadFds(v);
      hide Inv, SyncHead, UpdtOk, CacheOk, TopOk;
      PassIsFullScan(u);
      forall fd: nat | fd < |v.fds|
        ensures NewPolled(u.fds[fd].r) == NewPolled(v.fds[fd].r) && NewPolled(u.fds[fd].w) == NewPolled(v.fds[fd].w)
        ensures u.fds[fd].owner == v.fds[fd].owner
      {
        if fd == v.updt[0] && !v.fds[fd].owner {
          assert Synced(v.fds[fd]).r == v.fds[fd].r;
        }
      }
    }
  }

  lemma NothingToDo(v: View, fd: nat)
    requires Inv(v) && fd < |v.fds| && fd !in v.updt
    ensures v.fds[fd].r == NewPolled(v.fds[fd].r) && v.fds[fd].w == NewPolled(v.fds[fd].w)
    ensures v.fds[fd].owner ==> Settled(v.fds[fd])
  {
    assert FdOk(v.fds[fd], fd, v.kernel) && !v.fds[fd].updated;
  }

  /** The last update entry is forgotten. */
  function Dropped(v: View): View
    requires v.updt != [] && v.updt[|v.updt| - 1] < |v.fds|
  {
    var fd := v.updt[|v.updt| - 1];
    v.(fds := v.fds[fd := v.fds[fd].(updated := false)], updt := v.updt[..|v.updt| - 1])
  }

  lemma UpdtFewer(fds: seq<Fd>, updt: seq<nat>, f: Fd)
    requires UpdtOk(fds, updt) && updt != [] && !f.updated
    ensures updt[|updt| - 1] < |fds| && UpdtOk(fds[updt[|updt| - 1] := f], updt[..|updt| - 1])
  {
    var last := |updt| - 1;
    var fds', updt' := fds[updt[last] := f], updt[..last];
    forall x: nat | x < |fds'| && fds'[x].updated ensures x in updt' {
      var i: nat :| i < |updt| && updt[i] == x;
      assert i < last && updt'[i] == x;
    }
    forall i: nat | i < |updt'| ensures updt'[i] < |fds'| && fds'[updt'[i]].updated {
      assert updt'[i] == updt[i] && updt[i] != updt[last];
    }
  }

  /** Forgetting the update of a file descriptor that is inactive and never was polled loses nothing. */
  lemma DroppedKeeps(v: View)
    requires Inv(v) && v.updt != []
    requires var f := v.fds[v.updt[|v.updt| - 1]]; Unpolled(f) && !f.r.active && !f.w.active
    ensures Inv(Dropped(v))
  {
    var fd := v.updt[|v.updt| - 1];
    var f := v.fds[fd].(updated := false);
    assert FdOk(v.fds[fd], fd, v.kernel);
    UpdtFewer(v.fds, v.updt, f);
    OneChanges(v, fd, f);
    hide FdOk, AllOk, UpdtOk, CacheOk, TopOk;
  }

  lemma SameKernel(u: View, u': View)
    requires Inv(u) && Inv(u') && |u.fds| == |u'.fds|
    requires forall fd: nat | fd < |u.fds| :: u'.fds[fd].r == u.fds[fd].r && u'.fds[fd].w == u.fds[fd].w
    ensures u'.kernel == u.kernel
  {
    hide UpdtOk, CacheOk, TopOk;
    forall fd: nat ensures fd in u.kernel <==> fd in u'.kernel
      ensures fd in u.kernel && fd in u'.kernel ==> u.kernel[fd] == u'.kernel[fd]
    {
      if fd < |u.fds| {
        assert FdOk(u.fds[fd], fd, u.kernel) && FdOk(u'.fds[fd], fd, u'.kernel);
      }
    }
  }
}
