/** The poll() poller: what is registered is kept in two bitmaps, from which the list given to the system is
    built. Words are modelled by their 32 bits. */
module EvPoll {
  import opened FdState

  type Word = w: seq<bool> | |w| == 32 witness seq(32, _ => false)

  datatype PollFd = PollFd(fd: nat, input: bool, output: bool)

  class PollSet {
    const rd: array<Word>
    const wr: array<Word>
    const maxsock: nat

    /** The bitmaps say what the kernel of another poller would be told. */
    ghost predicate Matches(kernel: map<nat, Interest>)
      reads rd, wr
    {
      && rd != wr && rd.Length == wr.Length && maxsock <= 32 * rd.Length
      && BitsMatch(rd[..], wr[..], kernel, maxsock)
    }

    constructor (n: nat)
      ensures Matches(map[]) && maxsock == n && fresh(rd) && fresh(wr)
    {
      maxsock := n;
      rd := new Word[n / 32 + 1](_ => seq(32, _ => false));
      wr := new Word[n / 32 + 1](_ => seq(32, _ => false));
    }

    /** __fd_clo */
    method Clo(fd: nat, ghost kernel: map<nat, Interest>)
      requires Matches(kernel) && fd < maxsock
      modifies rd, wr
      ensures Matches(kernel - {fd})
    {
      HapFdClr(fd, rd);
      HapFdClr(fd, wr);
    }

    /** The part of the pass over updates that is specific to this poller: the polled bits of fd went from
        those of eo to those of en. */
    method Update(fd: nat, eo: Fd, en: Fd, ghost kernel: map<nat, Interest>)
      requires Matches(kernel) && fd < maxsock && Registered(eo, fd, kernel)
      modifies rd, wr
      ensures Matches(Watched(kernel, fd, eo, en))
    {
      if eo.r.polled && !en.r.polled {
        HapFdClr(fd, rd);
      } else if en.r.polled && !eo.r.polled {
        HapFdSet(fd, rd);
      }
      if eo.w.polled && !en.w.polled {
        HapFdClr(fd, wr);
      } else if en.w.polled && !eo.w.polled {
        HapFdSet(fd, wr);
      }
    }

    /** What is given to poll(): all that is registered below maxfd, in order, words of zeroes being skipped. */
    method BuildList(maxfd: nat, ghost kernel: map<nat, Interest>) returns (list: seq<PollFd>)
      requires Matches(kernel) && maxfd <= maxsock
      ensures list == Listed(kernel, maxfd)
    {
      hide BitsMatch;
      list := [];
      var fds: nat := 0;
      while fds * 32 < maxfd
        invariant list == Listed(kernel, if fds * 32 < maxfd then fds * 32 else maxfd)
      {
        list := ListWord(fds, maxfd, list, kernel);
        fds := fds + 1;
      }
    }

    method ListWord(fds: nat, maxfd: nat, before: seq<PollFd>, ghost kernel: map<nat, Interest>)
      returns (list: seq<PollFd>)
      requires Matches(kernel) && fds * 32 < maxfd <= maxsock && before == Listed(kernel, fds * 32)
      ensures list == Listed(kernel, if fds * 32 + 32 < maxfd then fds * 32 + 32 else maxfd)
    {
      hide BitsMatch, WordMatches;
      var rn, wn := rd[fds], wr[fds];
      WordsMatch(rd[..], wr[..], kernel, maxsock, fds);
      if true !in rn && true !in wn {
        NoneInWord(kernel, rn, wn, fds * 32, if fds * 32 + 32 < maxfd then fds * 32 + 32 else maxfd);
        return before;
      }
      list := before;
      var count, fd: nat := 0, fds * 32;
      while count < 32 && fd < maxfd
        invariant count <= 32 && fd == fds * 32 + count <= maxfd && list == Listed(kernel, fd)
      {
        ListedNext(kernel, rn, wn, fds * 32, count);
        if rn[count] || wn[count] {
          list := list + [PollFd(fd, rn[count], wn[count])];
        }
        count, fd := count + 1, fd + 1;
      }
    }
  }

  ghost predicate BitsMatch(rd: seq<Word>, wr: seq<Word>, kernel: map<nat, Interest>, maxsock: nat) {
    && |rd| == |wr|
    && (forall fd | fd in kernel :: fd < maxsock && (kernel[fd].input || kernel[fd].output))
    && forall fd: nat | fd < 32 * |rd| ::
         && IsSet(rd, fd) == (fd in kernel && kernel[fd].input)
         && IsSet(wr, fd) == (fd in kernel && kernel[fd].output)
  }

  /** Two words of the bitmaps say what is registered for the file descriptor start + count. */
  ghost predicate WordMatches(kernel: map<nat, Interest>, rn: Word, wn: Word, start: nat, count: nat)
    requires count < 32
  {
    var fd := start + count;
    if fd in kernel then kernel[fd] == Interest(rn[count], wn[count]) && (rn[count] || wn[count])
    else !rn[count] && !wn[count]
  }

  lemma WordsMatch(rd: seq<Word>, wr: seq<Word>, kernel: map<nat, Interest>, maxsock: nat, fds: nat)
    requires BitsMatch(rd, wr, kernel, maxsock) && fds < |rd|
    ensures forall count: nat | count < 32 :: WordMatches(kernel, rd[fds], wr[fds], fds * 32, count)
  {
    forall count: nat | count < 32 ensures WordMatches(kernel, rd[fds], wr[fds], fds * 32, count) {
      var fd := fds * 32 + count;
      assert fd / 32 == fds && fd % 32 == count;
      assert IsSet(rd, fd) == rd[fds][count] && IsSet(wr, fd) == wr[fds][count];
    }
  }

  lemma NoneInWord(kernel: map<nat, Interest>, rn: Word, wn: Word, start: nat, to: nat)
    requires true !in rn && true !in wn && start <= to <= start + 32
    requires forall count: nat | count < 32 :: WordMatches(kernel, rn, wn, start, count)
    ensures Listed(kernel, to) == Listed(kernel, start)
  {
    forall fd | start <= fd < to ensures fd !in kernel {
      assert WordMatches(kernel, rn, wn, start, fd - start);
    }
    NothingListed(kernel, start, to);
  }

  lemma ListedNext(kernel: map<nat, Interest>, rn: Word, wn: Word, start: nat, count: nat)
    requires count < 32 && WordMatches(kernel, rn, wn, start, count)
    ensures var fd := start + count;
      Listed(kernel, fd + 1) ==
      Listed(kernel, fd) + if rn[count] || wn[count] then [PollFd(fd, rn[count], wn[count])] else []
  {
  }

  /** hap_fd_isset */
  predicate IsSet(evts: seq<Word>, fd: nat)
    requires fd < 32 * |evts|
  {
    evts[fd / 32][fd % 32]
  }

  method HapFdSet(fd: nat, evts: array<Word>)
    requires fd < 32 * evts.Length
    modifies evts
    ensures forall x: nat | x < 32 * evts.Length :: IsSet(evts[..], x) == (x == fd || IsSet(old(evts[..]), x))
  {
    evts[fd / 32] := evts[fd / 32][fd % 32 := true];
  }

  method HapFdClr(fd: nat, evts: array<Word>)
    requires fd < 32 * evts.Length
    modifies evts
    ensures forall x: nat | x < 32 * evts.Length :: IsSet(evts[..], x) == (x != fd && IsSet(old(evts[..]), x))
  {
    evts[fd / 32] := evts[fd / 32][fd % 32 := false];
  }

  ghost function Listed(kernel: map<nat, Interest>, n: nat): seq<PollFd> {
    if n == 0 then []
    else
      Listed(kernel, n - 1)
      + if n - 1 in kernel then [PollFd(n - 1, kernel[n - 1].input, kernel[n - 1].output)] else []
  }

  lemma {:induction false} ListedIs(kernel: map<nat, Interest>, n: nat, p: PollFd)
    ensures p in Listed(kernel, n) <==> p.fd < n && p.fd in kernel && kernel[p.fd] == Interest(p.input, p.output)
  {
    if n > 0 {
      ListedIs(kernel, n - 1, p);
    }
  }

  lemma {:induction false} NothingListed(kernel: map<nat, Interest>, from: nat, to: nat)
    requires from <= to && forall fd | from <= fd < to :: fd !in kernel
    ensures Listed(kernel, to) == Listed(kernel, from)
  {
    if from < to {
      NothingListed(kernel, from, to - 1);
    }
  }
}
