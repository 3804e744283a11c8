/** fd.c with the epoll and poll pollers: the table of file descriptors and its lists, updated in place. */
module FdTable {
  import opened Counting
  import opened FdState
  import opened EvPoll

  datatype EpollOp = Add | Mod | Del

  class FdTable {
    const fdtab: array<Fd>
    const fdCache: array<nat>
    const fdUpdt: array<nat>
    var fdCacheNum: nat
    var fdNbUpdt: nat
    var maxfd: nat
    /** The bitmaps when poll() is used; epoll() needs none. */
    const poll: PollSet?
    /** What has been registered, in the kernel or in the bitmaps. */
    var kernel: map<nat, Interest>

    ghost function Bitmaps(): set<object> {
      if poll == null then {} else {poll.rd, poll.wr}
    }

    /** The bitmaps hold what is registered. */
    ghost predicate PollOk()
      reads this`kernel, Bitmaps()
    {
      poll != null ==> poll.Matches(kernel) && poll.maxsock == fdtab.Length
    }

    ghost predicate Shaped()
      reads this
    {
      && fdCache != fdUpdt && fdCache.Length == fdUpdt.Length == fdtab.Length
      && fdCacheNum <= fdCache.Length && fdNbUpdt <= fdUpdt.Length
    }

    ghost function V(): View
      requires Shaped()
      reads this, fdtab, fdCache, fdUpdt
    {
      View(fdtab[..], fdCache[..fdCacheNum], fdUpdt[..fdNbUpdt], kernel, maxfd)
    }

    ghost predicate Valid()
      reads this, fdtab, fdCache, fdUpdt, Bitmaps()
    {
      Shaped() && Inv(V()) && PollOk()
    }

    constructor (maxsock: nat, usePoll: bool)
      ensures Valid() && fdtab.Length == maxsock && forall fd | 0 <= fd < maxsock :: !fdtab[fd].owner
      ensures fresh(fdtab) && fresh(fdCache) && fresh(fdUpdt) && fresh(Bitmaps()) && (usePoll <==> poll != null)
    {
      var p: PollSet? := null;
      if usePoll {
        p := new PollSet(maxsock);
      }
      poll := p;
      fdtab := new Fd[maxsock](_ => Fd(false, IDLE, IDLE, 0, false, false, false, NO_EVENTS));
      fdCache := new nat[maxsock](_ => 0);
      fdUpdt := new nat[maxsock](_ => 0);
      fdCacheNum, fdNbUpdt, maxfd, kernel := 0, 0, 0, map[];
    }

    /** updt_fd */
    method UpdtFd(fd: nat)
      requires Shaped() && fd < fdtab.Length && UpdtOk(fdtab[..], fdUpdt[..fdNbUpdt])
      modifies this`fdNbUpdt, fdtab, fdUpdt
      ensures Shaped() && V() == Updated(old(V()), fd)
    {
      if fdtab[fd].updated {
        return;
      }
      RoomLeft(fdUpdt[..fdNbUpdt], fdtab.Length, fd);
      fdtab[fd] := fdtab[fd].(updated := true);
      fdUpdt[fdNbUpdt] := fd;
      fdNbUpdt := fdNbUpdt + 1;
      assert fdtab[..] == old(fdtab[..])[fd := fdtab[fd]];
    }

    /** fd_alloc_cache_entry */
    method AllocCacheEntry(fd: nat)
      requires Shaped() && fd < fdtab.Length && CacheOk(fdtab[..], fdCache[..fdCacheNum])
      modifies this`fdCacheNum, fdtab, fdCache
      ensures Shaped() && V() == Allocated(old(V()), fd)
    {
      if fdtab[fd].cache > 0 {
        return;
      }
      CacheRoom(fdtab[..], fdCache[..fdCacheNum], fd);
      fdCacheNum := fdCacheNum + 1;
      fdtab[fd] := fdtab[fd].(cache := fdCacheNum);
      fdCache[fdCacheNum - 1] := fd;
      assert fdtab[..] == old(fdtab[..])[fd := fdtab[fd]];
    }

    /** fd_release_cache_entry */
    method ReleaseCacheEntry(fd: nat)
      requires Shaped() && fd < fdtab.Length && CacheOk(fdtab[..], fdCache[..fdCacheNum])
      modifies this`fdCacheNum, fdtab, fdCache
      ensures Shaped() && V() == Released(old(V()), fd)
    {
      var pos := fdtab[fd].cache;
      if pos == 0 {
        return;
      }
      assert fdtab[..][fd].cache <= |fdCache[..fdCacheNum]|;
      fdtab[fd] := fdtab[fd].(cache := 0);
      fdCacheNum := fdCacheNum - 1;
      assert fdtab[..] == old(fdtab[..])[fd := fdtab[fd]];
      if pos <= fdCacheNum {
        var last := fdCache[fdCacheNum];
        assert last == old(fdCache[..fdCacheNum])[fdCacheNum];
        fdCache[pos - 1] := last;
        fdtab[last] := fdtab[last].(cache := pos);
        assert fdtab[..] == old(fdtab[..])[fd := old(fdtab[fd]).(cache := 0)][last := fdtab[last]];
      }
    }

    /** fd_want_*, fd_stop_*, fd_cant_* and fd_may_*: nothing is done when the state has the wanted bits. */
    method SetState(fd: nat, r: Dir, w: Dir)
      requires Shaped() && fd < fdtab.Length && UpdtOk(fdtab[..], fdUpdt[..fdNbUpdt])
      modifies this`fdNbUpdt, fdtab, fdUpdt
      ensures Shaped() && V() == Changed(old(V()), fd, r, w) && (old(PollOk()) ==> PollOk())
    {
      if fdtab[fd].r == r && fdtab[fd].w == w {
        return;
      }
      fdtab[fd] := fdtab[fd].(r := r, w := w);
      assert fdtab[..] == old(fdtab[..])[fd := fdtab[fd]];
      UpdtSame(old(fdtab[..]), fdtab[..], fdUpdt[..fdNbUpdt]);
      hide UpdtOk;
      UpdtFd(fd);
    }

    /** fd_insert on a file descriptor whose owner has been set */
    method FdInsert(fd: nat)
      requires Shaped() && fd < fdtab.Length
      modifies this`maxfd, fdtab
      ensures Shaped() && V() == Opened(old(V()), fd) && (old(PollOk()) ==> PollOk())
    {
      fdtab[fd] := fdtab[fd].(owner := true, ev := NO_EVENTS, isNew := true, cloned := false);
      if fd + 1 > maxfd {
        maxfd := fd + 1;
      }
      assert fdtab[..] == old(fdtab[..])[fd := fdtab[fd]];
    }

    /** fork_poller: everything open is marked, and epoll() starts over with an empty set. What is at maxfd, if
        anything, is not open. The table still agrees with the set if and only if nothing was in it before. */
    method ForkPoller()
      requires Valid()
      modifies this`kernel, fdtab
      ensures Shaped() && V() == old(if poll == null then Forked(V()).(kernel := map[]) else Forked(V()))
      ensures Valid() <==> poll != null || old(kernel) == map[]
      ensures forall x: nat | x < fdtab.Length :: fdtab[x].cloned <==> old(fdtab[x].cloned) || fdtab[x].owner
    {
      ForkedKeeps(V());
      OpenBelowTop(V());
      hide Inv, PollOk, Forked;
      MarkOpen();
      if poll == null {
        EmptiedSet(V());
        hide *;
        ReopenSet();
      }
    }

    /** The fork callback of epoll() */
    method ReopenSet()
      requires Shaped() && poll == null
      modifies this`kernel
      ensures Shaped() && PollOk() && V() == old(V()).(kernel := map[])
    {
      kernel := map[];
    }

    method MarkOpen()
      requires Shaped() && maxfd <= fdtab.Length && forall x: nat | maxfd <= x < fdtab.Length :: !fdtab[..][x].owner
      modifies fdtab
      ensures Shaped() && V() == Forked(old(V())) && (old(PollOk()) ==> PollOk())
      ensures forall x: nat | x < fdtab.Length :: fdtab[x].cloned <==> old(fdtab[x].cloned) || fdtab[x].owner
    {
      var fd := 0;
      while fd <= maxfd && fd < fdtab.Length
        invariant fd <= maxfd + 1 && fd <= fdtab.Length
        invariant forall x: nat | x < fd :: fdtab[x] == old(fdtab[x].(cloned := fdtab[x].cloned || fdtab[x].owner))
        invariant forall x: nat | fd <= x < fdtab.Length :: fdtab[x] == old(fdtab[x])
      {
        if fdtab[fd].owner {
          fdtab[fd] := fdtab[fd].(cloned := true);
        }
        fd := fd + 1;
      }
      assert forall x: nat | fd <= x < fdtab.Length :: !old(fdtab[..][x].owner);
      assert fdtab[..] == Forked(old(V())).fds;
    }

    /** fd_delete. The system forgets a closed file descriptor unless another process holds a clone of it,
        in which case it is removed from the set explicitly. */
    method FdDelete(fd: nat)
      requires Valid() && fd < fdtab.Length
      modifies this, fdtab, fdCache, Bitmaps()
      ensures Shaped() && PollOk() && V() == Closed(old(V()), fd)
    {
      InvParts(V());
      RegisteredAt(V(), fd);
      hide Inv, FdOk, UpdtOk, CacheOk, TopOk, Unlinked, Shrunk, Highest, Registered;
      Forget(fd);
      Vacate(fd);
    }

    /** The entry is free again. */
    method Vacate(fd: nat)
      requires Shaped() && PollOk() && fd < fdtab.Length && maxfd <= fdtab.Length
      modifies this`maxfd, fdtab
      ensures Shaped() && PollOk()
      ensures V() == old(
        var fds := V().fds[fd := V().fds[fd].(r := IDLE, w := IDLE, owner := false, isNew := false)];
        V().(fds := fds, maxfd := Highest(fds, maxfd)))
    {
      fdtab[fd] := fdtab[fd].(r := IDLE, w := IDLE, owner := false, isNew := false);
      assert fdtab[..] == old(fdtab[..])[fd := fdtab[fd]];
      LowerMaxfd();
    }

    /** The poller's clo() callback, if any, and the cache */
    method Forget(fd: nat)
      requires Shaped() && PollOk() && fd < fdtab.Length && CacheOk(fdtab[..], fdCache[..fdCacheNum])
      requires Registered(fdtab[fd], fd, kernel)
      modifies this`kernel, this`fdCacheNum, fdtab, fdCache, Bitmaps()
      ensures Shaped() && PollOk() && V() == old(Released(V(), fd).(kernel := kernel - {fd}))
    {
      hide CacheOk, Unlinked, Shrunk, Registered;
      var cloned := fdtab[fd].cloned;
      if poll != null {
        poll.Clo(fd, kernel);
        kernel := kernel - {fd};
      } else {
        var _ := EpollClo(fd);
      }
      ReleaseCacheEntry(fd);
      if poll == null && !cloned {
        kernel := kernel - {fd};
      }
    }

    method LowerMaxfd()
      requires maxfd <= fdtab.Length
      modifies this`maxfd
      ensures maxfd == Highest(fdtab[..], old(maxfd))
    {
      while maxfd > 0 && !fdtab[maxfd - 1].owner
        invariant maxfd <= old(maxfd) && Highest(fdtab[..], maxfd) == Highest(fdtab[..], old(maxfd))
      {
        maxfd := maxfd - 1;
      }
    }

    method Perform(op: Op)
      requires Valid()
      modifies this, fdtab, fdCache, fdUpdt, Bitmaps()
      ensures Valid() && V() == Applied(old(V()), op)
    {
      AppliedKeeps(V(), op);
      InvParts(V());
      hide Inv, FdOk, UpdtOk, CacheOk, TopOk, Closed, Changed, Opened, StateAfter, PollOk;
      if op.fd >= fdtab.Length || (op.Open? <==> fdtab[op.fd].owner) {
        return;
      }
      match op
      case Open(fd) => FdInsert(fd);
      case Close(fd) => FdDelete(fd);
      case _ =>
        var s := StateAfter(fdtab[op.fd], op);
        SetState(op.fd, s.0, s.1);
    }

    /** A callback: any calls it makes, in any order. */
    method Iocb(ops: seq<Op>)
      requires Valid()
      modifies this, fdtab, fdCache, fdUpdt, Bitmaps()
      ensures Valid() && V() == Ran(old(V()), ops)
    {
      hide Inv, Applied;
      var k := 0;
      while k < |ops|
        invariant 0 <= k <= |ops| && Valid()
        invariant Ran(V(), ops[k..]) == Ran(old(V()), ops)
      {
        assert ops[k..][0] == ops[k] && ops[k..][1..] == ops[k + 1..];
        Perform(ops[k]);
        k := k + 1;
      }
    }

    /** epoll_ctl: adding what is registered, or changing or removing what is not, is an error and does nothing. */
    method EpollCtl(op: EpollOp, fd: nat, ev: Interest) returns (ok: bool)
      requires op != Del ==> ev.input || ev.output
      modifies this`kernel
      ensures ok <==> (op == Add <==> fd !in old(kernel))
      ensures kernel ==
        if !ok then old(kernel) else if op == Del then old(kernel) - {fd} else old(kernel)[fd := ev]
    {
      ok := op == Add <==> fd !in kernel;
      if ok {
        kernel := if op == Del then kernel - {fd} else kernel[fd := ev];
      }
    }

    /** __fd_clo of epoll(): a clone is removed from the set, which fails if and only if it is not polled. */
    method EpollClo(fd: nat) returns (ok: bool)
      requires fd < fdtab.Length && Registered(fdtab[fd], fd, kernel)
      modifies this`kernel
      ensures ok <==> !fdtab[fd].cloned || fdtab[fd].r.polled || fdtab[fd].w.polled
      ensures kernel == if fdtab[fd].cloned then old(kernel) - {fd} else old(kernel)
    {
      ok := true;
      if fdtab[fd].cloned {
        ok := EpollCtl(Del, fd, Interest(false, false));
      }
    }

    /** The polled bits of fd changed from f to its current state. */
    method Register(fd: nat, f: Fd) returns (ok: bool)
      requires fd < fdtab.Length && Registered(f, fd, kernel)
      requires f.r.polled != fdtab[fd].r.polled || f.w.polled != fdtab[fd].w.polled
      modifies this`kernel
      ensures ok && kernel == Watched(old(kernel), fd, f, fdtab[fd])
    {
      var en := fdtab[fd];
      var opcode := if !en.r.polled && !en.w.polled then Del
                    else if !f.r.polled && !f.w.polled then Add
                    else Mod;
      ok := EpollCtl(opcode, fd, Interest(en.r.polled, en.w.polled));
    }

    /** The same, whichever the poller */
    method Tell(fd: nat, f: Fd)
      requires fd < fdtab.Length && Registered(f, fd, kernel) && PollOk()
      requires f.r.polled != fdtab[fd].r.polled || f.w.polled != fdtab[fd].w.polled
      modifies this`kernel, Bitmaps()
      ensures kernel == Watched(old(kernel), fd, f, fdtab[fd]) && PollOk() && fdtab[..] == old(fdtab[..])
    {
      if poll != null {
        poll.Update(fd, f, fdtab[fd], kernel);
        kernel := Watched(kernel, fd, f, fdtab[fd]);
      } else {
        var _ := Register(fd, f);
      }
    }

    /** The polled bits are brought up to date, here and in the kernel. */
    method Refresh(fd: nat)
      requires fd < fdtab.Length && Registered(fdtab[fd], fd, kernel) && PollOk()
      modifies this`kernel, fdtab, Bitmaps()
      ensures PollOk() && fdtab[..] == old(fdtab[..])[fd := Synced(old(fdtab[fd]))]
      ensures kernel ==
        if old(fdtab[fd].owner) then Watched(old(kernel), fd, old(fdtab[fd]), fdtab[fd]) else old(kernel)
    {
      hide Registered, NewPolled, PollOk;
      var f := fdtab[fd];
      fdtab[fd] := f.(updated := false, isNew := false);
      if f.owner {
        var r, w := NewPolled(f.r), NewPolled(f.w);
        if f.r.polled != r.polled || f.w.polled != w.polled {
          fdtab[fd] := fdtab[fd].(r := r, w := w);
          Tell(fd, f);
        } else {
          SamePolled(f.r);
          SamePolled(f.w);
        }
      }
      assert fdtab[..] == old(fdtab[..])[fd := Synced(f)];
    }

    method LookAt(idx: nat) returns (fd: nat)
      requires Shaped() && PollOk() && idx < fdNbUpdt && Inv(Rest(V(), idx))
      modifies this`kernel, fdtab, Bitmaps()
      ensures Shaped() && PollOk() && Rest(V(), idx + 1) == Looked(old(Rest(V(), idx)))
      ensures fd == fdUpdt[idx] < fdtab.Length
    {
      ghost var v := Rest(V(), idx);
      fd := fdUpdt[idx];
      assert v.updt[0] == fd && v.updt[1..] == fdUpdt[..fdNbUpdt][idx + 1..];
      assert fd < |v.fds|;
      RegisteredAt(v, fd);
      hide Inv, FdOk, UpdtOk, CacheOk, TopOk, Registered, Live, NewPolled, PollOk;
      Refresh(fd);
    }

    /** One entry of the update list */
    method UpdateOne(idx: nat)
      requires Shaped() && PollOk() && idx < fdNbUpdt && Inv(Rest(V(), idx))
      modifies this`kernel, this`fdCacheNum, fdtab, fdCache, Bitmaps()
      ensures Shaped() && PollOk() && idx < fdNbUpdt && Rest(V(), idx + 1) == SyncHead(old(Rest(V(), idx)))
    {
      hide Inv, FdOk, UpdtOk, CacheOk, TopOk, Unlinked, Shrunk, Looked, Live, Allocated;
      LookedCache(Rest(V(), idx));
      assert Rest(V(), idx).updt[0] == fdUpdt[idx];
      var fd := LookAt(idx);
      ghost var u := V();
      if fdtab[fd].owner {
        if Live(fdtab[fd].r) || Live(fdtab[fd].w) {
          AllocCacheEntry(fd);
          AllocatedRest(u, fd, idx + 1);
        } else {
          ReleaseCacheEntry(fd);
        }
      }
    }

    /** _do_poll of either poller, up to the wait: all pending updates are applied. */
    method DoUpdates()
      requires Valid()
      modifies this, fdtab, fdCache, Bitmaps()
      ensures Valid() && V() == SyncAll(old(V()))
    {
      hide Inv, SyncHead, SyncAll;
      ghost var v := V();
      var idx := 0;
      assert v.updt[0..] == v.updt;
      while idx < fdNbUpdt
        invariant Shaped() && PollOk() && idx <= fdNbUpdt && Inv(Rest(V(), idx))
        invariant SyncAll(Rest(V(), idx)) == SyncAll(v)
      {
        UpdateNext(idx);
        idx := idx + 1;
      }
      EndUpdates();
    }

    method UpdateNext(idx: nat)
      requires Shaped() && PollOk() && idx < fdNbUpdt && Inv(Rest(V(), idx))
      modifies this`kernel, this`fdCacheNum, fdtab, fdCache, Bitmaps()
      ensures Shaped() && PollOk() && idx < fdNbUpdt && Inv(Rest(V(), idx + 1))
      ensures SyncAll(Rest(V(), idx + 1)) == SyncAll(old(Rest(V(), idx)))
    {
      hide Inv, SyncHead, SyncAll;
      SyncStep(Rest(V(), idx));
      UpdateOne(idx);
    }

    /** _do_poll of poll(), from the update list to the list of what to wait for: exactly the open file descriptors
        whose polled bits are set, with those bits. */
    method PollList() returns (list: seq<PollFd>)
      requires Valid() && poll != null
      modifies this, fdtab, fdCache, Bitmaps()
      ensures Valid() && V() == SyncAll(old(V()))
      ensures forall p :: p in list <==> Listens(V(), p)
    {
      hide SyncAll;
      DoUpdates();
      OpenBelowTop(V());
      list := poll.BuildList(maxfd, kernel);
      forall p: PollFd ensures p in list <==> Listens(V(), p) {
        ListedIs(kernel, maxfd, p);
        ListensIs(V(), p);
      }
    }

    method EndUpdates()
      requires Shaped() && PollOk() && Inv(Rest(V(), fdNbUpdt))
      modifies this`fdNbUpdt
      ensures Valid() && V() == SyncAll(old(Rest(V(), fdNbUpdt)))
    {
      hide Inv, SyncHead, SyncAll;
      SyncDone(Rest(V(), fdNbUpdt));
      fdNbUpdt := 0;
    }
  }

  /** The view in the middle of the pass: entries before idx are done. */
  ghost function Rest(v: View, idx: nat): View
    requires idx <= |v.updt|
  {
    v.(updt := v.updt[idx..])
  }

  /** p asks for what the polled bits of an open file descriptor say. */
  predicate Listens(v: View, p: PollFd) {
    p.fd < |v.fds| && v.fds[p.fd].owner
    && p.input == v.fds[p.fd].r.polled && p.output == v.fds[p.fd].w.polled && (p.input || p.output)
  }

  lemma ListensIs(v: View, p: PollFd)
    requires Inv(v)
    ensures Listens(v, p) <==> p.fd in v.kernel && v.kernel[p.fd] == Interest(p.input, p.output)
  {
    if p.fd < |v.fds| {
      assert FdOk(v.fds[p.fd], p.fd, v.kernel);
    }
  }

  lemma SyncStep(v: View)
    requires Inv(v) && v.updt != []
    ensures Inv(SyncHead(v)) && SyncAll(v) == SyncAll(SyncHead(v))
  {
    SyncHeadKeeps(v);
    hide Inv, SyncHead;
  }

  /** Opened, forked, and closed before the poller ever looked: the removal of the clone fails. */
  method ClosedUnpolled() returns (ok: bool)
    ensures !ok
  {
    var t := new FdTable(1, false);
    t.Perform(Open(0));
    t.ForkPoller();
    ok := t.EpollClo(0);
  }

  /** With an empty set, the table agrees with it only if nothing was registered. */
  lemma EmptiedSet(v: View)
    requires Inv(v)
    ensures Inv(v.(kernel := map[])) <==> v.kernel == map[]
  {
    if v.kernel != map[] {
      var fd :| fd in v.kernel;
      assert FdOk(v.fds[fd], fd, v.kernel) && !FdOk(v.fds[fd], fd, map[]);
    }
  }

  lemma SyncDone(v: View)
    requires Inv(v) && v.updt == []
    ensures SyncAll(v) == v
  {
  }

  lemma InvParts(v: View)
    requires Inv(v)
    ensures CacheOk(v.fds, v.cache) && UpdtOk(v.fds, v.updt) && v.maxfd <= |v.fds|
  {
  }

  lemma OpenBelowTop(v: View)
    requires Inv(v)
    ensures v.maxfd <= |v.fds| && forall fd: nat | v.maxfd <= fd < |v.fds| :: !v.fds[fd].owner
    ensures forall fd | fd in v.kernel :: fd < v.maxfd
  {
    forall fd | fd in v.kernel ensures fd < v.maxfd {
      assert FdOk(v.fds[fd], fd, v.kernel);
    }
  }

  lemma RegisteredAt(v: View, fd: nat)
    requires Inv(v) && fd < |v.fds|
    ensures Registered(v.fds[fd], fd, v.kernel)
  {
    assert FdOk(v.fds[fd], fd, v.kernel);
  }

  lemma SamePolled(d: Dir)
    ensures NewPolled(d).polled == d.polled ==> NewPolled(d) == d
  {
  }

  lemma AllocatedRest(v: View, fd: nat, idx: nat)
    requires fd < |v.fds| && idx <= |v.updt|
    ensures Allocated(v, fd).updt == v.updt && Rest(Allocated(v, fd), idx) == Allocated(Rest(v, idx), fd)
  {
  }

  lemma CacheRoom(fds: seq<Fd>, cache: seq<nat>, fd: nat)
    requires CacheOk(fds, cache) && fd < |fds| && fds[fd].cache == 0
    ensures |cache| < |fds|
  {
    forall i: nat, j: nat | i < j < |cache| ensures cache[i] != cache[j] {
      assert fds[cache[i]].cache == i + 1 && fds[cache[j]].cache == j + 1;
    }
    RoomLeft(cache, |fds|, fd);
  }
}
