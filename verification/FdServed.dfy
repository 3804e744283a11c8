/** Whose callback is called, and with which events: from the cache, on a report of the poller, and for file
    descriptors that a callback has just opened. */
module FdServed {
  import opened FdState
  import opened FdTable
  import opened FdLaws
  import opened FdEvents

  /** The callback is called exactly when a direction is ready and active or when an error or a hang-up sticks, and
      it is told exactly that. */
  predicate RightlyServed(s: Served) {
    && (s.ev.input <==> s.r.ready && s.r.active) && (s.ev.output <==> s.w.ready && s.w.active)
    && (s.ev.error <==> s.was.error) && (s.ev.hangup <==> s.was.hangup)
    && (s.called <==> s.owner && (s.ev.input || s.ev.output || s.ev.error || s.ev.hangup))
  }

  /** s is the turn of fd as it is in f. */
  predicate TurnOf(s: Served, fd: nat, f: Fd) {
    s.fd == fd && s.owner == f.owner && s.r == f.r && s.w == f.w && s.was == f.ev
  }

  lemma TakenRightly(fd: nat, f: Fd)
    ensures RightlyServed(Taken(fd, f)) && TurnOf(Taken(fd, f), fd, f)
  {
  }

  lemma AwokenRightly(v: View, fd: nat)
    requires Inv(v) && fd < |v.fds| && v.fds[fd].isNew
    ensures RightlyServed(Awoken(fd, v.fds[fd])) && TurnOf(Awoken(fd, v.fds[fd]), fd, v.fds[fd])
  {
    assert FdOk(v.fds[fd], fd, v.kernel);
  }

  // ---------------------------------------------------------------------------
  // The cache

  ghost predicate LogOk(log: seq<Served>, done: set<nat>, updt: seq<nat>) {
    && (forall e | e in log :: RightlyServed(e) && e.fd in done && (!e.called ==> e.fd in updt))
    && (forall fd | fd in done :: exists e | e in log :: e.fd == fd)
    && (forall i, j | 0 <= i < j < |log| :: log[i].fd != log[j].fd)
  }

  ghost predicate LogRight(s: Scan) {
    LogOk(s.log, s.done, s.v.updt)
  }

  lemma LogAdds(log: seq<Served>, done: set<nat>, updt: seq<nat>, e: Served, updt': seq<nat>)
    requires LogOk(log, done, updt) && RightlyServed(e) && e.fd !in done && updt <= updt'
    requires !e.called ==> e.fd in updt'
    ensures LogOk(log + [e], done + {e.fd}, updt')
  {
    hide RightlyServed;
    assert forall x | x in updt :: x in updt';
    forall x | x in done + {e.fd} ensures exists y | y in log + [e] :: y.fd == x {
      if x in done {
        var y :| y in log && y.fd == x;
        assert y in log + [e];
      } else {
        assert e in log + [e];
      }
    }
    forall i | 0 <= i < |log| ensures log[i].fd != e.fd {
      assert log[i] in log;
    }
  }

  lemma TurnIs(s: Scan, iocb: (nat, nat) -> seq<Op>)
    requires Inv(s.v) && s.entry < |s.v.cache| && ScanOk(s)
    ensures s.v.cache[s.entry] < |s.v.fds| && s.v.cache[s.entry] !in s.done
    ensures var t, fd := Turn(s, iocb), s.v.cache[s.entry];
      && t.done == s.done + {fd} && t.log == s.log + [Taken(fd, s.v.fds[fd])] && s.passed <= t.passed
      && t.v == Entered(s.v, fd, iocb(s.n, fd)) && s.entry <= t.entry
  {
    EntryBack(s.v, s.entry);
    CacheNoRepeats(s.v.fds, s.v.cache);
    hide Inv, Entered, PassedAt;
  }

  /** What the turn does: the calls of the callback, after its events were noted, or an update entry. */
  lemma EnteredGrows(v: View, fd: nat, ops: seq<Op>)
    requires Inv(v) && fd < |v.fds|
    ensures v.updt <= Entered(v, fd, ops).updt
    ensures !Taken(fd, v.fds[fd]).called ==> fd in Entered(v, fd, ops).updt
  {
    var f := Ready(v.fds[fd]);
    NotedKeeps(v, fd, f);
    RanKeeps(SetFd(v, fd, f), ops);
    assert v.fds[fd].updated ==> fd in v.updt;
    hide Inv, Ran, Taken;
  }

  lemma LogStep(s: Scan, iocb: (nat, nat) -> seq<Op>)
    requires Inv(s.v) && s.entry < |s.v.cache| && ScanOk(s) && LogRight(s)
    ensures LogRight(Turn(s, iocb))
  {
    TurnIs(s, iocb);
    var t, fd := Turn(s, iocb), s.v.cache[s.entry];
    var e := Taken(fd, s.v.fds[fd]);
    TakenRightly(fd, s.v.fds[fd]);
    EnteredGrows(s.v, fd, iocb(s.n, fd));
    hide Inv, ScanOk, Turn, Entered, Taken, RightlyServed, LogOk;
    LogAdds(s.log, s.done, s.v.updt, e, t.v.updt);
  }

  lemma {:induction false} LogKept(s: Scan, iocb: (nat, nat) -> seq<Op>)
    requires Inv(s.v) && ScanOk(s) && LogRight(s)
    ensures LogRight(Scanned(s, iocb)) && s.log <= Scanned(s, iocb).log
    decreases |s.v.cache| - s.entry
  {
    if s.entry < |s.v.cache| {
      TurnKeeps(s, iocb);
      LogStep(s, iocb);
      TurnIs(s, iocb);
      hide Inv, ScanOk, LogRight, Entered, PassedAt, Turn;
      LogKept(Turn(s, iocb), iocb);
    }
  }

  /** Every turn of a scan is right, nobody has two, and who is not called has an update entry, which takes it out of
      the cache. */
  lemma ScanServesRightly(v: View, iocb: (nat, nat) -> seq<Op>)
    requires Inv(v)
    ensures LogRight(ScanAll(v, iocb))
  {
    var s := Scan(v, 0, 0, {}, {}, []);
    assert ScanOk(s) && LogRight(s);
    LogKept(s, iocb);
  }

  /** Only the callback of fd makes calls about fd. */
  ghost predicate LeftAlone(iocb: (nat, nat) -> seq<Op>, fd: nat) {
    forall n: nat, x: nat, op: Op | op in iocb(n, x) && op.fd == fd :: x == fd
  }

  /** The same but for its place in the cache */
  predicate Alike(f: Fd, g: Fd) {
    f == g.(cache := f.cache) && (f.cache > 0 <==> g.cache > 0)
  }

  lemma OtherCall(v: View, op: Op, fd: nat)
    requires Inv(v) && fd < |v.fds| && op.fd != fd
    ensures |Applied(v, op).fds| == |v.fds| && Alike(Applied(v, op).fds[fd], v.fds[fd])
  {
    if Legal(v, op) {
      match op
      case Open(x) => OtherOpen(v, x, fd);
      case Close(x) => ClosedFds(v, x);
      case _ =>
        var s := StateAfter(v.fds[op.fd], op);
        OneChange(v, op.fd, s.0, s.1, fd);
        OtherChange(v, op.fd, s.0, s.1, fd);
    }
    hide Inv, Closed, Opened, StateAfter, Changed;
  }

  lemma OtherChange(v: View, x: nat, r: Dir, w: Dir, fd: nat)
    requires x < |v.fds| && fd < |v.fds| && x != fd
    ensures Changed(v, x, r, w).fds[fd] == v.fds[fd]
  {
  }

  lemma {:induction false} OtherCalls(v: View, ops: seq<Op>, fd: nat)
    requires Inv(v) && fd < |v.fds| && forall op | op in ops :: op.fd != fd
    ensures |Ran(v, ops).fds| == |v.fds| && Alike(Ran(v, ops).fds[fd], v.fds[fd])
    decreases |ops|
  {
    if ops != [] {
      assert ops[0] in ops && forall op | op in ops[1..] :: op in ops;
      AppliedKeeps(v, ops[0]);
      OtherCall(v, ops[0], fd);
      hide Inv, Applied;
      OtherCalls(Applied(v, ops[0]), ops[1..], fd);
    }
  }

  lemma OtherTurn(v: View, x: nat, ops: seq<Op>, fd: nat)
    requires Inv(v) && x < |v.fds| && fd < |v.fds| && x != fd && forall op | op in ops :: op.fd != fd
    ensures Alike(Entered(v, x, ops).fds[fd], v.fds[fd])
  {
    var f := Ready(v.fds[x]);
    NotedKeeps(v, x, f);
    OtherCalls(SetFd(v, x, f), ops, fd);
    hide Inv, Ran, Taken;
  }

  ghost predicate Waits(s: Scan, fd: nat) {
    fd < |s.v.fds| && fd in s.v.cache && fd !in s.done && fd !in s.passed
  }

  lemma HasTurn(s: Scan, fd: nat)
    requires Inv(s.v) && ScanOk(s) && Waits(s, fd)
    ensures s.entry < |s.v.cache|
  {
  }

  /** The turn of another one */
  lemma StillWaits(s: Scan, iocb: (nat, nat) -> seq<Op>, fd: nat)
    requires Inv(s.v) && ScanOk(s) && LeftAlone(iocb, fd) && Waits(s, fd)
    requires s.entry < |s.v.cache| && s.v.cache[s.entry] != fd
    ensures var t := Turn(s, iocb);
      (Waits(t, fd) || fd in t.passed) && fd < |t.v.fds| && Alike(t.v.fds[fd], s.v.fds[fd])
  {
    var t, x := Turn(s, iocb), s.v.cache[s.entry];
    TurnIs(s, iocb);
    forall op | op in iocb(s.n, x) ensures op.fd != fd {
    }
    OtherTurn(s.v, x, iocb(s.n, x), fd);
    hide ScanOk, LeftAlone, Turn, Entered, Taken;
    InCache(s.v, fd);
    InCache(t.v, fd);
    hide Inv;
  }

  /** A file descriptor waiting for its turn, as it was at the start, gets it unless it is passed. */
  lemma {:induction false} WaitsItsTurn(s: Scan, iocb: (nat, nat) -> seq<Op>, fd: nat, f: Fd)
    requires Inv(s.v) && ScanOk(s) && LogRight(s) && LeftAlone(iocb, fd) && Waits(s, fd) && Alike(s.v.fds[fd], f)
    ensures fd in Scanned(s, iocb).passed || Taken(fd, f) in Scanned(s, iocb).log
    decreases |s.v.cache| - s.entry
  {
    hide LogRight, LeftAlone, Entered, PassedAt;
    HasTurn(s, fd);
    TurnKeeps(s, iocb);
    LogStep(s, iocb);
    TurnIs(s, iocb);
    var t := Turn(s, iocb);
    ScanKeeps(t, iocb);
    LogKept(t, iocb);
    hide Inv, ScanOk, Turn;
    if s.v.cache[s.entry] == fd {
      assert Taken(fd, s.v.fds[fd]) == Taken(fd, f);
      assert Taken(fd, f) in t.log;
    } else {
      StillWaits(s, iocb, fd);
      if fd !in t.passed {
        WaitsItsTurn(t, iocb, fd, f);
      }
    }
  }

  /** Whoever is in the cache, ready and active, and left alone by the callbacks of others, has its callback called
      with what it is ready and active for, unless it is passed. */
  lemma ServedUnlessPassed(v: View, iocb: (nat, nat) -> seq<Op>, fd: nat)
    requires Inv(v) && LeftAlone(iocb, fd) && fd < |v.fds| && fd in v.cache
    ensures var t, f := ScanAll(v, iocb), v.fds[fd];
      fd in t.passed || exists e | e in t.log :: TurnOf(e, fd, f) && RightlyServed(e)
  {
    var s := Scan(v, 0, 0, {}, {}, []);
    assert ScanOk(s) && LogRight(s);
    WaitsItsTurn(s, iocb, fd, v.fds[fd]);
    TakenRightly(fd, v.fds[fd]);
  }

  /** Callbacks that keep to their own file descriptor, right after the poller's pass: everyone in the cache is
      called, with what it is ready and active for. */
  lemma AllServed(v: View, iocb: (nat, nat) -> seq<Op>, fd: nat)
    requires Inv(v) && v.updt == [] && fd < |v.fds| && fd in v.cache
    requires forall n: nat, x: nat, op: Op | op in iocb(n, x) :: op.fd == x
    ensures exists e | e in ScanAll(v, iocb).log :: e.called && TurnOf(e, fd, v.fds[fd]) && RightlyServed(e)
  {
    assert ClosesOwn(iocb) && LeftAlone(iocb, fd);
    OwnSkipsNone(Scan(v, 0, 0, {}, {}, []), iocb);
    NoneSkippedExactly(v, iocb);
    ServedUnlessPassed(v, iocb, fd);
    CachedLive(v, fd);
    hide Inv, ScanAll, Scanned, NonePassed, LeftAlone;
  }

  /** After the pass only what is ready and active is in the cache. */
  lemma CachedLive(v: View, fd: nat)
    requires Inv(v) && v.updt == [] && fd < |v.fds| && fd in v.cache
    ensures v.fds[fd].owner
    ensures (v.fds[fd].r.ready && v.fds[fd].r.active) || (v.fds[fd].w.ready && v.fds[fd].w.active)
  {
    PassPolls(v, fd);
    SyncDone(v);
    hide SyncAll;
    if !v.fds[fd].owner {
      NothingLeft(v, fd);
    }
    hide Inv;
  }

  // ---------------------------------------------------------------------------
  // A report of the poller

  lemma {:induction false} CacheKept(v: View, ops: seq<Op>)
    requires Inv(v) && forall op | op in ops :: !op.Close?
    ensures Ran(v, ops).cache == v.cache
    decreases |ops|
  {
    if ops != [] {
      assert ops[0] in ops && forall op | op in ops[1..] :: op in ops;
      AppliedKeeps(v, ops[0]);
      AppliedCache(v, ops[0]);
      hide Inv, Applied;
      CacheKept(Applied(v, ops[0]), ops[1..]);
    }
  }

  lemma ReportedAre(ev: Events, fd: nat)
    ensures forall op | op in ReportedOps(ev, fd) :: op == MayRecv(fd) || op == MaySend(fd)
    ensures MayRecv(fd) in ReportedOps(ev, fd) <==> ev.input || ev.error || ev.hangup
    ensures MaySend(fd) in ReportedOps(ev, fd) <==> ev.output || ev.error
  {
  }

  /** An event makes its direction ready, an error both, and a hang-up is for reading; nothing else changes. */
  lemma ReportedReady(v: View, fd: nat)
    requires Inv(v) && fd < |v.fds| && v.fds[fd].owner
    ensures var f, g := v.fds[fd], Reported(v, fd).fds[fd];
      && g.owner && g.ev == f.ev && (g.cache > 0 <==> f.cache > 0)
      && (g.r.ready <==> f.r.ready || f.ev.input || f.ev.error || f.ev.hangup)
      && (g.w.ready <==> f.w.ready || f.ev.output || f.ev.error)
      && g.r.active == f.r.active && g.r.polled == f.r.polled
      && g.w.active == f.w.active && g.w.polled == f.w.polled
  {
    hide Inv, Ran, After, ReportedOps;
    var f := v.fds[fd];
    var ops := ReportedOps(f.ev, fd);
    ReportedAre(f.ev, fd);
    RanAfter(v, fd, ops);
    PlaceKept(v, ops, fd);
    OnlyReady(Ran(v, ops).fds[fd], f, fd, ops);
  }

  lemma PlaceKept(v: View, ops: seq<Op>, fd: nat)
    requires Inv(v) && fd < |v.fds| && forall op | op in ops :: !op.Close?
    ensures |Ran(v, ops).fds| == |v.fds| && (Ran(v, ops).fds[fd].cache > 0 <==> v.fds[fd].cache > 0)
  {
    hide Inv, Ran;
    RanKeeps(v, ops);
    CacheKept(v, ops);
    InCache(v, fd);
    InCache(Ran(v, ops), fd);
  }

  /** Calls that only say that a direction is ready */
  lemma OnlyReady(g: Fd, f: Fd, fd: nat, ops: seq<Op>)
    requires After(g, f, fd, ops) && forall op | op in ops :: op == MayRecv(fd) || op == MaySend(fd)
    ensures g.owner && g.ev == f.ev
    ensures (g.r.ready <==> f.r.ready || MayRecv(fd) in ops) && (g.w.ready <==> f.w.ready || MaySend(fd) in ops)
    ensures g.r.active == f.r.active && g.r.polled == f.r.polled
    ensures g.w.active == f.w.active && g.w.polled == f.w.polled
  {
    LatestOf(ops, {WantRecv(fd)}, {StopRecv(fd), StopBoth(fd)}, f.r.active);
    LatestOf(ops, {WantSend(fd)}, {StopSend(fd), StopBoth(fd)}, f.w.active);
    LatestOf(ops, {MayRecv(fd)}, {CantRecv(fd)} + if f.r.polled then {DoneRecv(fd)} else {}, f.r.ready);
    LatestOf(ops, {MaySend(fd)}, {CantSend(fd)}, f.w.ready);
    hide Latest;
  }

  /** When nothing clears the flag */
  lemma {:induction false} LatestOf(ops: seq<Op>, on: set<Op>, off: set<Op>, was: bool)
    requires on !! off && forall op | op in ops :: op !in off
    ensures Latest(ops, on, off, was) <==> was || exists op | op in on :: op in ops
  {
    if ops != [] {
      var u, op := ops[..|ops| - 1], ops[|ops| - 1];
      assert ops == u + [op];
      LatestOf(u, on, off, was);
    }
  }

  lemma VisitedRight(v: View, at: nat)
    requires Inv(v) && 0 < at <= |v.updt|
    ensures forall e | e in VisitedNow(v, at) :: RightlyServed(e)
  {
    var fd := v.updt[at - 1];
    assert fd < |v.fds|;
    if v.fds[fd].isNew {
      AwokenRightly(v, fd);
    }
    hide Inv, Awoken, RightlyServed;
  }

  lemma {:induction false} VisitedAllRight(v: View, low: nat, at: nat, iocb: nat -> seq<Op>)
    requires Inv(v) && at <= |v.updt|
    ensures forall e | e in VisitedLog(v, low, at, iocb) :: RightlyServed(e)
    decreases at
  {
    hide Inv, Visited, VisitedNow, RightlyServed;
    if at > low {
      VisitedRight(v, at);
      VisitedAllRight(Visited(v, at, iocb(at)), low, at - 1, iocb);
    }
  }

  /** The callback of fd is called at once, with what was reported, unless fd is in the cache or nothing was reported;
      new file descriptors have right turns after it. */
  lemma PolledServesRightly(v: View, fd: nat, iocb: nat -> seq<Op>)
    requires Inv(v) && fd < |v.fds| && v.fds[fd].owner
    ensures var log, ev := PolledLog(v, fd, iocb), v.fds[fd].ev;
      && (log == [] <==> fd in v.cache || !(ev.input || ev.output || ev.error || ev.hangup))
      && (log != [] ==> log[0].fd == fd && log[0].called && log[0].ev == ev)
      && forall k | 0 < k < |log| :: RightlyServed(log[k])
  {
    ReportedReady(v, fd);
    InCache(v, fd);
    hide Reported, RightlyServed;
    var v1 := Reported(v, fd);
    if v1.fds[fd].cache == 0 && Any(v1.fds[fd].ev) {
      RanKeeps(v1, iocb(0));
      var v2 := Ran(v1, iocb(0));
      hide Inv, Ran;
      VisitedAllRight(v2, |v1.updt|, |v2.updt|, iocb);
    }
  }

  // ---------------------------------------------------------------------------
  // File descriptors just opened

  /** The callback at place j only makes calls about x. */
  ghost predicate OnlyFrom(iocb: nat -> seq<Op>, x: nat, j: nat) {
    forall k: nat, op: Op | 0 < k && op in iocb(k) && op.fd == x :: k == j
  }

  lemma VisitedOther(v: View, at: nat, ops: seq<Op>, x: nat)
    requires Inv(v) && 0 < at <= |v.updt| && x < |v.fds| && v.fds[x].isNew && v.updt[at - 1] != x
    requires forall op | op in ops :: op.fd != x
    ensures Visited(v, at, ops).fds[x] == v.fds[x] && v.updt <= Visited(v, at, ops).updt
  {
    var fd := v.updt[at - 1];
    assert FdOk(v.fds[x], x, v.kernel);
    if v.fds[fd].isNew {
      var f := Woken(v.fds[fd]);
      NotedKeeps(v, fd, f);
      OtherCalls(SetFd(v, fd, f), ops, x);
    }
    hide Inv, Ran, Awoken;
  }

  /** A new file descriptor in the update list gets its turn as it is, when the callbacks before leave it alone. */
  lemma {:induction false} NewServed(v: View, low: nat, at: nat, iocb: nat -> seq<Op>, x: nat, j: nat)
    requires Inv(v) && low < j <= at <= |v.updt| && v.updt[j - 1] == x && OnlyFrom(iocb, x, j)
    requires x < |v.fds| && v.fds[x].isNew
    ensures Awoken(x, v.fds[x]) in VisitedLog(v, low, at, iocb)
    decreases at
  {
    hide Inv, VisitedLog, Awoken, Visited;
    if at > j {
      hide VisitedNow;
      OnceListed(v, j - 1, at - 1);
      forall op | op in iocb(at) ensures op.fd != x {
      }
      hide OnlyFrom;
      VisitedOther(v, at, iocb(at), x);
      LogNext(v, low, at, iocb);
      var u := Visited(v, at, iocb(at));
      assert u.updt[j - 1] == v.updt[j - 1];
      NewServed(u, low, at - 1, iocb, x, j);
    } else {
      hide OnlyFrom;
      LogNext(v, low, at, iocb);
    }
  }

  lemma OnceListed(v: View, i: nat, j: nat)
    requires Inv(v) && i < j < |v.updt|
    ensures v.updt[i] != v.updt[j]
  {
  }

  lemma LogNext(v: View, low: nat, at: nat, iocb: nat -> seq<Op>)
    requires Inv(v) && low < at <= |v.updt|
    ensures forall e | e in VisitedNow(v, at) :: e in VisitedLog(v, low, at, iocb)
    ensures forall e | e in VisitedLog(Visited(v, at, iocb(at)), low, at - 1, iocb) ::
      e in VisitedLog(v, low, at, iocb)
  {
    hide Inv, Visited, VisitedNow;
  }

  lemma Listed(v: View, x: nat, n: nat) returns (j: nat)
    requires Inv(v) && x < |v.fds| && v.fds[x].owner && v.fds[x].isNew && (v.fds[x].r.active || v.fds[x].w.active)
    requires n <= |v.updt| && forall i | 0 <= i < n :: v.updt[i] != x
    ensures n < j <= |v.updt| && v.updt[j - 1] == x
  {
    assert FdOk(v.fds[x], x, v.kernel);
    var i: nat :| i < |v.updt| && v.updt[i] == x;
    j := i + 1;
  }

  /** The turn of a file descriptor about which nothing but b was said since it was opened */
  lemma FreshTurn(e: Served, x: nat, g: Fd, b: seq<Op>)
    requires After(g, FRESH, x, b)
    ensures var recv := Latest(b, {WantRecv(x)}, {StopRecv(x), StopBoth(x)}, false);
      var send := Latest(b, {WantSend(x)}, {StopSend(x), StopBoth(x)}, false);
      var mayRecv := Latest(b, {MayRecv(x)}, {CantRecv(x)}, false);
      var maySend := Latest(b, {MaySend(x)}, {CantSend(x)}, false);
      && g.owner && g.isNew && g.r.active == recv && g.w.active == send
      && (RightlyServed(e) && TurnOf(e, x, g) ==>
            e.fd == x && e.ev == Events(recv && mayRecv, send && maySend, false, false)
            && (e.called <==> e.ev.input || e.ev.output))
  {
    assert {CantRecv(x)} + {} == {CantRecv(x)};
    hide Latest;
  }

  lemma IsServed(log: seq<Served>, e: Served)
    requires e in log && e.ev == Events(e.ev.input, e.ev.output, false, false)
    requires e.called <==> e.ev.input || e.ev.output
    ensures ServedWith(log, e.fd, e.ev.input, e.ev.output)
  {
  }

  /** What a callback opens and wants to use is served right after it, without waiting for the poller: its own
      callback is called exactly when it was found ready for what is wanted of it, and is told so. */
  lemma OpenedServed(v: View, fd: nat, iocb: nat -> seq<Op>, a: seq<Op>, x: nat, b: seq<Op>)
    requires Inv(v) && fd < |v.fds| && v.fds[fd].owner && PolledLog(v, fd, iocb) != []
    requires iocb(0) == a + [Open(x)] + b && Close(x) !in b && x < |v.fds|
    requires Inv(Ran(Reported(v, fd), a)) && x < |Ran(Reported(v, fd), a).fds|
    requires !Ran(Reported(v, fd), a).fds[x].owner && x !in Reported(v, fd).updt
    requires forall j | OnlyAt(Ran(Reported(v, fd), iocb(0)).updt, x, j) :: OnlyFrom(iocb, x, j)
    ensures var recv := Latest(b, {WantRecv(x)}, {StopRecv(x), StopBoth(x)}, false);
      var send := Latest(b, {WantSend(x)}, {StopSend(x), StopBoth(x)}, false);
      var mayRecv := Latest(b, {MayRecv(x)}, {CantRecv(x)}, false);
      var maySend := Latest(b, {MaySend(x)}, {CantSend(x)}, false);
      recv || send ==> ServedWith(PolledLog(v, fd, iocb), x, recv && mayRecv, send && maySend)
  {
    var v1 := Reported(v, fd);
    OpenedAfter(v1, a, x, b);
    var v2 := Ran(v1, iocb(0));
    RanKeeps(v1, iocb(0));
    var g := v2.fds[x];
    hide Reported, Ran, Latest, ServedWith, After;
    FreshTurn(Awoken(x, g), x, g, b);
    if g.r.active || g.w.active {
      assert forall i | 0 <= i < |v1.updt| :: v2.updt[i] == v1.updt[i];
      var j := Listed(v2, x, |v1.updt|);
      assert OnlyAt(v2.updt, x, j);
      AwokenRightly(v2, x);
      hide RightlyServed, TurnOf;
      NewServed(v2, |v1.updt|, |v2.updt|, iocb, x, j);
      hide Inv, VisitedLog, Awoken;
      var log := PolledLog(v, fd, iocb);
      assert Awoken(x, g) in log;
      IsServed(log, Awoken(x, g));
    }
  }

  /** x had a turn with that input and output, and was called if there was any. */
  ghost predicate ServedWith(log: seq<Served>, x: nat, input: bool, output: bool) {
    exists e | e in log ::
      e.fd == x && e.ev == Events(input, output, false, false) && (e.called <==> input || output)
  }

  ghost predicate OnlyAt(updt: seq<nat>, x: nat, j: nat) {
    0 < j <= |updt| && updt[j - 1] == x
  }

  // ---------------------------------------------------------------------------
  // Forgotten entries

  /** The entry of a new file descriptor is removed exactly when it is the last one and nothing is wanted. */
  lemma ForgottenExactly(v: View, at: nat, ops: seq<Op>)
    requires Inv(v) && 0 < at <= |v.updt| && v.updt[at - 1] < |v.fds| && v.fds[v.updt[at - 1]].isNew
    ensures var x, u, w := v.updt[at - 1], Visited(v, at, ops), VisitedLight(v, at, ops);
      if |u.updt| == at && !u.fds[x].r.active && !u.fds[x].w.active then
        w.updt == v.updt[..at - 1] && !w.fds[x].updated
      else w == u
  {
    var u := Visited(v, at, ops);
    assert u.updt[at - 1] == v.updt[at - 1];
    hide Inv, Visited;
    if |u.updt| == at {
      assert u.updt[..at - 1] == v.updt[..at - 1];
    }
  }
}
