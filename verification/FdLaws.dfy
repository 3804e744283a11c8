/** What runs of calls make of a file descriptor, read off the list of calls: the last word on each flag counts. */
module FdLaws {
  import opened FdState

  /** The last call that is in `on` or in `off` decides; without any, nothing changes. */
  function Latest(ops: seq<Op>, on: set<Op>, off: set<Op>, was: bool): bool {
    if ops == [] then was
    else
      var op := ops[|ops| - 1];
      if op in on then true else if op in off then false else Latest(ops[..|ops| - 1], on, off, was)
  }

  /** In other words */
  lemma {:induction false} LatestIs(ops: seq<Op>, on: set<Op>, off: set<Op>, was: bool)
    requires on !! off
    ensures Latest(ops, on, off, was) <==>
      || (was && forall k | 0 <= k < |ops| :: ops[k] !in off)
      || exists k | 0 <= k < |ops| :: ops[k] in on && forall j | k < j < |ops| :: ops[j] !in off
  {
    if ops != [] {
      var n := |ops| - 1;
      var u := ops[..n];
      LatestIs(u, on, off, was);
      hide Latest;
      assert forall j | 0 <= j < n :: u[j] == ops[j];
      if k :| 0 <= k < n && u[k] in on && forall j | k < j < n :: u[j] !in off {
        assert ops[k] in on;
      }
      if k :| 0 <= k < |ops| && ops[k] in on && forall j | k < j < |ops| :: ops[j] !in off {
        assert k < n ==> u[k] in on;
      }
      assert ops[n] in off ==> n < |ops|;
    }
  }

  /** f after a run of calls, when it was g before and no call closed it. */
  ghost predicate After(f: Fd, g: Fd, fd: nat, ops: seq<Op>) {
    && f.owner && f.isNew == g.isNew && f.cloned == g.cloned && f.ev == g.ev
    && f.r.polled == g.r.polled && f.w.polled == g.w.polled
    && f.r.active == Latest(ops, {WantRecv(fd)}, {StopRecv(fd), StopBoth(fd)}, g.r.active)
    && f.w.active == Latest(ops, {WantSend(fd)}, {StopSend(fd), StopBoth(fd)}, g.w.active)
    && f.r.ready == Latest(ops, {MayRecv(fd)}, {CantRecv(fd)} + if g.r.polled then {DoneRecv(fd)} else {}, g.r.ready)
    && f.w.ready == Latest(ops, {MaySend(fd)}, {CantSend(fd)}, g.w.ready)
  }

  lemma {:induction false} RanSnoc(v: View, ops: seq<Op>, op: Op)
    requires Inv(v)
    ensures Inv(Ran(v, ops)) && Ran(v, ops + [op]) == Applied(Ran(v, ops), op)
    decreases |ops|
  {
    RanKeeps(v, ops);
    hide Inv, Applied;
    if ops == [] {
      assert [] + [op] == [op] && [op][1..] == [];
      AppliedKeeps(v, op);
      assert Ran(Applied(v, op), []) == Applied(v, op);
    } else {
      AppliedKeeps(v, ops[0]);
      RanSnoc(Applied(v, ops[0]), ops[1..], op);
      assert (ops + [op])[0] == ops[0] && (ops + [op])[1..] == ops[1..] + [op];
    }
  }

  /** A call that does not close an open file descriptor changes its flags only, and only when it is about it. */
  lemma OneCall(v: View, fd: nat, op: Op)
    requires Inv(v) && fd < |v.fds| && v.fds[fd].owner && op != Close(fd)
    ensures |Applied(v, op).fds| == |v.fds|
    ensures var f, g := v.fds[fd], Applied(v, op).fds[fd];
      && g.owner && g.isNew == f.isNew && g.cloned == f.cloned && g.ev == f.ev
      && (g.r, g.w) == if op.fd == fd then StateAfter(f, op) else (f.r, f.w)
  {
    if Legal(v, op) {
      match op
      case Open(x) => OtherOpen(v, x, fd);
      case Close(x) => ClosedFds(v, x);
      case _ =>
        var s := StateAfter(v.fds[op.fd], op);
        OneChange(v, op.fd, s.0, s.1, fd);
    }
    hide Inv, Closed, Opened, StateAfter, Changed;
  }

  lemma OtherOpen(v: View, x: nat, fd: nat)
    requires x < |v.fds| && fd < |v.fds|
    ensures |Opened(v, x).fds| == |v.fds| && (x != fd ==> Opened(v, x).fds[fd] == v.fds[fd])
  {
  }

  lemma OneChange(v: View, x: nat, r: Dir, w: Dir, fd: nat)
    requires x < |v.fds| && fd < |v.fds|
    ensures |Changed(v, x, r, w).fds| == |v.fds|
    ensures var f, g := v.fds[fd], Changed(v, x, r, w).fds[fd];
      g == f.(r := g.r, w := g.w, updated := g.updated) && (g.r, g.w) == if x == fd then (r, w) else (f.r, f.w)
  {
  }

  lemma AfterSnoc(f: Fd, g: Fd, fd: nat, ops: seq<Op>, op: Op, f': Fd)
    requires After(f, g, fd, ops) && op != Close(fd)
    requires f'.owner && f'.isNew == f.isNew && f'.cloned == f.cloned && f'.ev == f.ev
    requires (f'.r, f'.w) == if op.fd == fd then StateAfter(f, op) else (f.r, f.w)
    ensures After(f', g, fd, ops + [op])
  {
    LatestSnoc(ops, op, {WantRecv(fd)}, {StopRecv(fd), StopBoth(fd)}, g.r.active);
    LatestSnoc(ops, op, {WantSend(fd)}, {StopSend(fd), StopBoth(fd)}, g.w.active);
    LatestSnoc(ops, op, {MayRecv(fd)}, {CantRecv(fd)} + if g.r.polled then {DoneRecv(fd)} else {}, g.r.ready);
    LatestSnoc(ops, op, {MaySend(fd)}, {CantSend(fd)}, g.w.ready);
    hide Latest;
  }

  lemma LatestSnoc(ops: seq<Op>, op: Op, on: set<Op>, off: set<Op>, was: bool)
    ensures Latest(ops + [op], on, off, was) ==
      if op in on then true else if op in off then false else Latest(ops, on, off, was)
  {
    assert (ops + [op])[..|ops|] == ops && (ops + [op])[|ops|] == op;
  }

  /** Whatever the calls, on this file descriptor and on others: its flags are what the last calls about each of
      them say, and no other call matters. Only the poller sets the polled flags. */
  lemma {:induction false} RanAfter(v: View, fd: nat, ops: seq<Op>)
    requires Inv(v) && fd < |v.fds| && v.fds[fd].owner && Close(fd) !in ops
    ensures Inv(Ran(v, ops)) && |Ran(v, ops).fds| == |v.fds| && After(Ran(v, ops).fds[fd], v.fds[fd], fd, ops)
    decreases |ops|
  {
    RanKeeps(v, ops);
    if ops != [] {
      var u, op := ops[..|ops| - 1], ops[|ops| - 1];
      assert ops == u + [op];
      RanAfter(v, fd, u);
      RanSnoc(v, u, op);
      var w := Ran(v, u);
      OneCall(w, fd, op);
      hide Inv, Applied, Ran, StateAfter;
      AfterSnoc(w.fds[fd], v.fds[fd], fd, u, op, Applied(w, op).fds[fd]);
    }
  }

  lemma {:induction false} RanConcat(v: View, a: seq<Op>, b: seq<Op>)
    requires Inv(v)
    ensures Inv(Ran(v, a)) && Ran(v, a + b) == Ran(Ran(v, a), b)
    decreases |b|
  {
    RanKeeps(v, a);
    if b == [] {
      assert a + b == a;
    } else {
      var u, op := b[..|b| - 1], b[|b| - 1];
      assert b == u + [op] && a + b == (a + u) + [op];
      RanConcat(v, a, u);
      hide Inv, Ran;
      RanSnoc(v, a + u, op);
      RanSnoc(Ran(v, a), u, op);
    }
  }

  /** A call that changes no flag asks for no update, and one that does asks for one. */
  lemma UpdateAsked(v: View, op: Op)
    requires Inv(v) && op.fd < |v.fds| && v.fds[op.fd].owner && !op.Open? && !op.Close?
    ensures var f, u := v.fds[op.fd], Applied(v, op);
      && |u.fds| == |v.fds|
      && if u.fds[op.fd].r == f.r && u.fds[op.fd].w == f.w then u == v else op.fd in u.updt && u.cache == v.cache
  {
    assert v.fds[op.fd].updated ==> op.fd in v.updt;
    hide Inv, StateAfter;
  }

  // ---------------------------------------------------------------------------
  // Opening and closing

  /** What fd_insert leaves of whatever was there before; an update entry may be pending. */
  const FRESH := Fd(true, IDLE, IDLE, 0, true, false, false, NO_EVENTS)

  lemma OpenedFresh(v: View, fd: nat)
    requires Inv(v) && fd < |v.fds| && !v.fds[fd].owner
    ensures Inv(Applied(v, Open(fd))) && |Applied(v, Open(fd)).fds| == |v.fds|
    ensures Applied(v, Open(fd)).fds[fd] == FRESH.(updated := v.fds[fd].updated)
  {
    AppliedKeeps(v, Open(fd));
    assert FdOk(v.fds[fd], fd, v.kernel);
    hide Inv;
  }

  /** Opened in the course of a run and not closed: new, and its flags are what the calls since then say. */
  lemma OpenedAfter(v: View, a: seq<Op>, fd: nat, b: seq<Op>)
    requires Inv(v) && fd < |v.fds| && Close(fd) !in b
    requires Inv(Ran(v, a)) && fd < |Ran(v, a).fds| && !Ran(v, a).fds[fd].owner
    ensures var u := Ran(v, a + [Open(fd)] + b);
      Inv(u) && |u.fds| == |v.fds| && After(u.fds[fd], FRESH, fd, b)
  {
    RanKeeps(v, a);
    RanKeeps(v, a + [Open(fd)] + b);
    RanSnoc(v, a, Open(fd));
    RanConcat(v, a + [Open(fd)], b);
    hide Inv, Ran, Applied;
    var w := Ran(v, a);
    OpenedFresh(w, fd);
    RanAfter(Applied(w, Open(fd)), fd, b);
  }

  lemma StaysClosed(v: View, fd: nat, op: Op)
    requires Inv(v) && fd < |v.fds| && (op == Close(fd) || (!v.fds[fd].owner && op != Open(fd)))
    ensures |Applied(v, op).fds| == |v.fds| && !Applied(v, op).fds[fd].owner
  {
    if Legal(v, op) {
      match op
      case Open(x) => OtherOpen(v, x, fd);
      case Close(x) => ClosedFds(v, x);
      case _ =>
        var s := StateAfter(v.fds[op.fd], op);
        OneChange(v, op.fd, s.0, s.1, fd);
    }
    hide Inv, Closed, Opened, StateAfter, Changed;
  }

  /** Closed and not opened again: nothing of it is left, in the table, the cache or the registrations. */
  lemma {:induction false} ClosedAfter(v: View, a: seq<Op>, fd: nat, b: seq<Op>)
    requires Inv(v) && fd < |v.fds| && Open(fd) !in b
    ensures var u := Ran(v, a + [Close(fd)] + b);
      && Inv(u) && |u.fds| == |v.fds| && !u.fds[fd].owner && !u.fds[fd].isNew
      && u.fds[fd].r == u.fds[fd].w == IDLE && fd !in u.cache && fd !in u.kernel
    decreases |b|
  {
    var all := a + [Close(fd)] + b;
    RanKeeps(v, all);
    var before, op := all[..|all| - 1], all[|all| - 1];
    assert all == before + [op];
    RanKeeps(v, before);
    RanSnoc(v, before, op);
    if b == [] {
      assert before == a && op == Close(fd);
    } else {
      assert before == a + [Close(fd)] + b[..|b| - 1] && op == b[|b| - 1];
      ClosedAfter(v, a, fd, b[..|b| - 1]);
    }
    hide Inv, Ran, Applied;
    StaysClosed(Ran(v, before), fd, op);
    NothingLeft(Ran(v, all), fd);
  }

  lemma NothingLeft(v: View, fd: nat)
    requires Inv(v) && fd < |v.fds| && !v.fds[fd].owner
    ensures !v.fds[fd].isNew && v.fds[fd].r == v.fds[fd].w == IDLE && fd !in v.cache && fd !in v.kernel
  {
    assert FdOk(v.fds[fd], fd, v.kernel);
    InCache(v, fd);
  }

  lemma InCache(v: View, fd: nat)
    requires Inv(v) && fd < |v.fds|
    ensures fd in v.cache <==> v.fds[fd].cache > 0
  {
  }

  // ---------------------------------------------------------------------------
  // The pass of the poller

  /** Interest and readiness are not for the poller to change. It polls what is active and not ready, and goes on
      polling what is active. */
  ghost predicate Polls(d: Dir, d': Dir) {
    d'.active == d.active && d'.ready == d.ready && (d'.polled <==> d.active && (d.polled || !d.ready))
  }

  ghost predicate Watches(kernel: map<nat, Interest>, fd: nat, input: bool, output: bool) {
    && (fd in kernel <==> input || output)
    && (fd in kernel ==> kernel[fd].input == input && kernel[fd].output == output)
  }

  lemma PassPolls(v: View, fd: nat)
    requires Inv(v) && fd < |v.fds|
    ensures var u := SyncAll(v);
      && Inv(u) && |u.fds| == |v.fds| && u.fds[fd].owner == v.fds[fd].owner
      && Polls(v.fds[fd].r, u.fds[fd].r) && Polls(v.fds[fd].w, u.fds[fd].w)
      && Watches(u.kernel, fd, u.fds[fd].r.polled, u.fds[fd].w.polled)
      && (fd in u.cache <==> (u.fds[fd].r.active && u.fds[fd].r.ready) || (u.fds[fd].w.active && u.fds[fd].w.ready))
  {
    PassIsFullScan(v);
    var u := SyncAll(v);
    assert FdOk(u.fds[fd], fd, u.kernel);
    InCache(u, fd);
    hide Inv, SyncAll;
  }

  /** What calls make of an open file descriptor reaches the kernel and the cache: after the next pass it is watched
      for input exactly when the last word was to receive, unless it is ready and was not watched before; then it is
      in the cache, and so is one ready to send. */
  lemma RunThenPass(v: View, fd: nat, ops: seq<Op>)
    requires Inv(v) && fd < |v.fds| && v.fds[fd].owner && Close(fd) !in ops
    ensures Inv(Ran(v, ops))
    ensures var f, u := v.fds[fd], SyncAll(Ran(v, ops));
      var recv := Latest(ops, {WantRecv(fd)}, {StopRecv(fd), StopBoth(fd)}, f.r.active);
      var send := Latest(ops, {WantSend(fd)}, {StopSend(fd), StopBoth(fd)}, f.w.active);
      var mayRecv :=
        Latest(ops, {MayRecv(fd)}, {CantRecv(fd)} + if f.r.polled then {DoneRecv(fd)} else {}, f.r.ready);
      var maySend := Latest(ops, {MaySend(fd)}, {CantSend(fd)}, f.w.ready);
      && Watches(u.kernel, fd, recv && (f.r.polled || !mayRecv), send && (f.w.polled || !maySend))
      && (fd in u.cache <==> (recv && mayRecv) || (send && maySend))
  {
    RanAfter(v, fd, ops);
    hide Inv, Ran, Latest, SyncAll;
    PassPolls(Ran(v, ops), fd);
  }

  /** A new file descriptor is new until the poller has looked at it. */
  lemma {:induction false} PassEndsNew(v: View, fd: nat)
    requires Inv(v) && fd < |v.fds|
    ensures |SyncAll(v).fds| == |v.fds| && SyncAll(v).fds[fd].isNew == (v.fds[fd].isNew && fd !in v.updt)
    decreases |v.updt|
  {
    if v.updt != [] {
      SyncHeadKeeps(v);
      SyncHeadFds(v);
      assert v.updt == [v.updt[0]] + v.updt[1..];
      hide Inv, SyncHead, UpdtOk, CacheOk;
      PassEndsNew(SyncHead(v), fd);
    }
  }
}
