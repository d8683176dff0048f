/** The ownership of sockets in connect_to_any_host, against a kernel that may answer anything. */
module WhoisConnect {

  datatype Revents = Quiet | Ready | Failed

  /** A pollfd; `events` is false once nothing is asked for. */
  datatype PollFd = PollFd(fd: int, events: bool, revents: Revents)

  datatype ConnectResult = Connected | InProgress | Refused

  const INFTIM := -1

  /** Sockets reported ready are connected. */
  ghost predicate ReadyConnected(fds: seq<PollFd>, connected: set<int>) {
    forall j :: 0 <= j < |fds| && fds[j].fd != -1 && fds[j].revents == Ready ==> fds[j].fd in connected
  }

  /** A call that has something to do with the progress of connections. */
  datatype Call = Tried(answer: ConnectResult) | Polled(timeout: int)

  /** What a kernel has been asked and has answered: the calls of socket, the calls of poll that failed,
      the connects that succeeded at once together with the polls that reported a connected socket, and
      the sockets closed while their connection was in progress. */
  datatype History = History(calls: seq<Call>, sockets: nat, pollErrors: nat, successes: nat, abandoned: nat)

  /** A watched socket has connected. */
  ghost predicate AnyReady(fds: seq<PollFd>) {
    exists j :: 0 <= j < |fds| && fds[j].fd != -1 && fds[j].revents == Ready
  }

  /** The sockets that an event was reported for. */
  ghost function Reported(fds: seq<PollFd>): set<int> {
    set j | 0 <= j < |fds| && fds[j].fd != -1 && fds[j].revents != Quiet :: fds[j].fd
  }

  /** The descriptors of the process; every answer that is not a consequence of them is arbitrary. */
  class Kernel {
    var open: set<int>
    /** Those among them that are known to be connected. */
    ghost var connected: set<int>
    ghost var opens: nat
    ghost var closes: nat
    ghost var seen: History
    /** Sockets whose connection is in progress, as far as connect and poll have said. */
    ghost var pending: set<int>

    /** Every descriptor opened is open or has been closed. */
    ghost predicate Balanced()
      reads this
    {
      opens == closes + |open| && connected <= open && pending <= open
    }

    constructor (open: set<int>)
      ensures this.open == open && Balanced()
    {
      this.open, connected, opens, closes := open, {}, |open|, 0;
      seen, pending := History([], 0, 0, 0, 0), {};
    }

    /** A descriptor that was not open before, or -1. */
    method Socket() returns (s: int)
      requires Balanced()
      modifies this
      ensures Balanced()
      ensures s == -1 || (s >= 0 && s !in old(open))
      ensures open == if s == -1 then old(open) else old(open) + {s}
      ensures connected == old(connected) && pending == old(pending)
      ensures seen == old(seen).(sockets := old(seen).sockets + 1)
    {
      s, seen := *, seen.(sockets := seen.sockets + 1);
      if s < 0 || s in open {
        s := -1;
      } else {
        open, opens := open + {s}, opens + 1;
      }
    }

    method Fcntl(s: int) returns (r: int)
      requires s in open
    {
      r := *;
    }

    method Connect(s: int) returns (r: ConnectResult)
      requires s in open && Balanced()
      modifies this`connected, this`seen, this`pending
      ensures Balanced() && connected == if r == Connected then old(connected) + {s} else old(connected)
      ensures seen == old(seen).(calls := old(seen).calls + [Tried(r)],
                                 successes := old(seen).successes + if r == Connected then 1 else 0)
      ensures pending == if r == InProgress then old(pending) + {s} else old(pending)
    {
      r := *;
      seen := seen.(calls := seen.calls + [Tried(r)]);
      if r == Connected {
        connected, seen := connected + {s}, seen.(successes := seen.successes + 1);
      } else if r == InProgress {
        pending := pending + {s};
      }
    }

    /** Closing needs an open descriptor, so that nothing can be closed twice. */
    method Close(s: int)
      requires s in open && Balanced()
      modifies this
      ensures open == old(open) - {s} && closes == old(closes) + 1 && opens == old(opens) && Balanced()
      ensures connected == old(connected) - {s} && pending == old(pending) - {s}
      ensures seen == if s in old(pending) then old(seen).(abandoned := old(seen).abandoned + 1) else old(seen)
    {
      if s in pending {
        seen := seen.(abandoned := seen.abandoned + 1);
      }
      open, connected, pending, closes := open - {s}, connected - {s}, pending - {s}, closes + 1;
    }

    /** poll: only revents change; a positive result means that a watched descriptor has an event,
        a socket that is ready without an error is connected, and without a timeout there is no
        result of zero. */
    method Poll(fds: array<PollFd>, n: nat, timeout: int) returns (ready: int)
      requires n <= fds.Length && Balanced()
      requires forall j :: 0 <= j < n && fds[j].fd != -1 ==> fds[j].fd in open
      modifies fds, this`connected, this`seen, this`pending
      ensures Balanced() && ReadyConnected(fds[..n], connected)
      ensures timeout == INFTIM ==> ready != 0
      ensures forall j :: 0 <= j < fds.Length ==> fds[j].fd == old(fds[j].fd) && fds[j].events == old(fds[j].events)
      ensures ready > 0 ==> exists j :: 0 <= j < n && fds[j].fd != -1 && fds[j].revents != Quiet
      ensures ready == 0 ==> !AnyReady(fds[..n])
      ensures seen == old(seen).(calls := old(seen).calls + [Polled(timeout)],
                                 pollErrors := old(seen).pollErrors + (if ready < 0 then 1 else 0),
                                 successes := old(seen).successes + if ready > 0 && AnyReady(fds[..n]) then 1 else 0)
      ensures pending == if ready > 0 then old(pending) - Reported(fds[..n]) else old(pending)
    {
      seen := seen.(calls := seen.calls + [Polled(timeout)]);
      ghost var asked := seen;
      var answer: int := *;
      ready := 0;
      for j := 0 to n
        invariant Balanced() && ReadyConnected(fds[..j], connected) && 0 <= ready
        invariant seen == asked && pending == old(pending)
        invariant ready == 0 ==> forall l :: 0 <= l < j ==> fds[l].fd == -1 || fds[l].revents == Quiet
        invariant forall l :: 0 <= l < n && fds[l].fd != -1 ==> fds[l].fd in open
        invariant forall l :: 0 <= l < fds.Length ==> fds[l].fd == old(fds[l].fd) && fds[l].events == old(fds[l].events)
        invariant ready > 0 ==> exists l :: 0 <= l < j && fds[l].fd != -1 && fds[l].revents != Quiet
      {
        var event: Revents := *;
        fds[j] := fds[j].(revents := if fds[j].fd == -1 then Quiet else event);
        if fds[j].revents == Ready {
          connected := connected + {fds[j].fd};
        }
        if fds[j].revents != Quiet {
          ready := ready + 1;
          assert fds[j].fd != -1 && fds[j].revents != Quiet;
        }
      }
      if answer < 0 || (timeout == INFTIM && ready == 0) {
        ready, seen := -1, seen.(pollErrors := seen.pollErrors + 1);
      } else if ready > 0 {
        pending := pending - Reported(fds[..n]);
        if AnyReady(fds[..n]) {
          seen := seen.(successes := seen.successes + 1);
        }
      }
    }
  }

  // ----- the watched descriptors -----

  predicate Live(p: PollFd) {
    p.fd != -1
  }

  ghost function Watched(fds: seq<PollFd>, lo: nat, hi: nat): set<int>
    requires hi <= |fds|
  {
    set j | lo <= j < hi && Live(fds[j]) :: fds[j].fd
  }

  function LiveCount(fds: seq<PollFd>, i: nat): nat
    requires i <= |fds|
  {
    if i == 0 then 0 else LiveCount(fds, i - 1) + if Live(fds[i - 1]) then 1 else 0
  }

  /** Entries that are watched are different descriptors, none of them in `base`, and still have
      their events set. */
  ghost predicate Sound(fds: seq<PollFd>, i: nat, base: set<int>) {
    && i <= |fds|
    && (forall j :: 0 <= j < i && Live(fds[j]) ==> fds[j].fd >= 0 && fds[j].fd !in base && fds[j].events)
    && (forall a, b :: 0 <= a < b < i && Live(fds[a]) && Live(fds[b]) ==> fds[a].fd != fds[b].fd)
  }

  ghost function Own(s: int): set<int> {
    if s == -1 then {} else {s}
  }

  /** Everything open beyond `base` is watched, or is `s`, and nothing is both. */
  ghost predicate Owned(open: set<int>, base: set<int>, fds: seq<PollFd>, i: nat, s: int) {
    && Sound(fds, i, base) && open == base + Watched(fds, 0, i) + Own(s)
    && (s != -1 ==> s >= 0 && s !in base && s !in Watched(fds, 0, i))
  }

  lemma {:induction false} LiveCountSame(a: seq<PollFd>, b: seq<PollFd>, i: nat)
    requires i <= |a| && i <= |b| && forall j :: 0 <= j < i ==> a[j].fd == b[j].fd
    ensures LiveCount(a, i) == LiveCount(b, i)
  {
    if i > 0 {
      LiveCountSame(a, b, i - 1);
    }
  }

  /** poll changes nothing about ownership. */
  lemma SameOwned(open: set<int>, base: set<int>, a: seq<PollFd>, b: seq<PollFd>, i: nat, s: int)
    requires Owned(open, base, a, i, s) && |b| == |a|
    requires forall j :: 0 <= j < |a| ==> b[j].fd == a[j].fd && b[j].events == a[j].events
    ensures Owned(open, base, b, i, s) && LiveCount(b, i) == LiveCount(a, i)
  {
    LiveCountSame(a, b, i);
    assert Watched(a, 0, i) == Watched(b, 0, i);
  }

  lemma WatchedWithin(a: seq<PollFd>, b: seq<PollFd>, lo: nat, hi: nat, lo': nat, hi': nat)
    requires hi <= |a| && hi' <= |b| && lo' <= lo && hi <= hi' && forall j :: lo <= j < hi && Live(a[j]) ==> j < |b| && b[j].fd == a[j].fd
    ensures Watched(a, lo, hi) <= Watched(b, lo', hi')
  {
    forall x | x in Watched(a, lo, hi) ensures x in Watched(b, lo', hi') {
      var j :| lo <= j < hi && Live(a[j]) && a[j].fd == x;
      assert Live(b[j]);
    }
  }

  /** A new socket goes to the end of the list. */
  lemma Watch(open: set<int>, base: set<int>, fds: seq<PollFd>, i: nat, s: int)
    requires Owned(open, base, fds, i, s) && s != -1 && i < |fds|
    ensures var fds' := fds[i := PollFd(s, true, Quiet)];
            Owned(open, base, fds', i + 1, -1) && LiveCount(fds', i + 1) == LiveCount(fds, i) + 1
  {
    var fds' := fds[i := PollFd(s, true, Quiet)];
    LiveCountSame(fds, fds', i);
    assert fds'[i].fd == s && Live(fds'[i]);
    forall j | 0 <= j < i ensures fds'[j] == fds[j] {
    }
    WatchedWithin(fds, fds', 0, i, 0, i + 1);
    assert Watched(fds', 0, i + 1) <= Watched(fds, 0, i) + {s} by {
      forall x | x in Watched(fds', 0, i + 1) ensures x in Watched(fds, 0, i) + {s} {
        var j :| 0 <= j < i + 1 && Live(fds'[j]) && fds'[j].fd == x;
        assert j < i ==> fds[j].fd == x && Live(fds[j]);
      }
    }
  }

  /** An entry leaves the list: its descriptor becomes `s`. */
  lemma Unwatch(open: set<int>, base: set<int>, fds: seq<PollFd>, i: nat, j: nat, entry: PollFd)
    requires Owned(open, base, fds, i, -1) && j < i && Live(fds[j]) && !Live(entry)
    ensures Owned(open, base, fds[j := entry], i, fds[j].fd)
    ensures LiveCount(fds[j := entry], i) == LiveCount(fds, i) - 1
  {
    var fds' := fds[j := entry];
    assert Live(fds[j]);
    forall x | x in Watched(fds, 0, i) && x != fds[j].fd ensures x in Watched(fds', 0, i) {
      var l :| 0 <= l < i && Live(fds[l]) && fds[l].fd == x;
      assert fds'[l] == fds[l];
    }
    forall x | x in Watched(fds', 0, i) ensures x in Watched(fds, 0, i) && x != fds[j].fd {
      var l :| 0 <= l < i && Live(fds'[l]) && fds'[l].fd == x;
      assert l != j && fds'[l] == fds[l];
    }
    assert Watched(fds, 0, i) == Watched(fds', 0, i) + {fds[j].fd};
    LiveCountLess(fds, i, j, entry);
  }

  lemma {:induction false} LiveCountLess(fds: seq<PollFd>, i: nat, j: nat, entry: PollFd)
    requires j < i <= |fds| && Live(fds[j]) && !Live(entry)
    ensures LiveCount(fds[j := entry], i) == LiveCount(fds, i) - 1
  {
    if j < i - 1 {
      LiveCountLess(fds, i - 1, j, entry);
    } else {
      LiveCountSame(fds, fds[j := entry], j);
    }
  }

  lemma CloseOwn(open: set<int>, base: set<int>, fds: seq<PollFd>, i: nat, s: int)
    requires Owned(open, base, fds, i, s) && s != -1
    ensures s in open && Owned(open - {s}, base, fds, i, -1)
  {
  }

  // ----- connect_to_any_host -----

  /** socket, and the two fcntl calls that make it non-blocking. */
  method OpenSocket(k: Kernel) returns (s: int)
    requires k.Balanced()
    modifies k
    ensures k.Balanced()
    ensures s == -1 || (s >= 0 && s !in old(k.open))
    ensures k.open == if s == -1 then old(k.open) else old(k.open) + {s}
    ensures k.seen == old(k.seen).(sockets := old(k.seen).sockets + 1) && k.pending == old(k.pending)
  {
    s := k.Socket();
    if s < 0 {
      return;
    }
    var flags := k.Fcntl(s);
    if flags < 0 {
      k.Close(s);
      return -1;
    }
    var r := k.Fcntl(s);
    if r != 0 {
      k.Close(s);
      return -1;
    }
  }

  datatype Attempt = Unopened | Answered(result: ConnectResult)

  /** A socket for the next address, if there can be one, and the attempt to connect it: it is returned
      connected, watched while in progress, or closed. */
  method TryAddress(k: Kernel, fds: array<PollFd>, i: nat, ghost base: set<int>) returns (a: Attempt, s: int)
    requires i < fds.Length && Owned(k.open, base, fds[..], i, -1) && k.Balanced()
    modifies k, fds
    ensures k.Balanced()
    ensures k.seen == old(k.seen).(calls := if a.Answered? then old(k.seen).calls + [Tried(a.result)] else old(k.seen).calls,
                                   sockets := old(k.seen).sockets + 1,
                                   successes := old(k.seen).successes + if s != -1 then 1 else 0)
    ensures a == Answered(Connected) <==> s != -1
    ensures s != -1 ==> s >= 0 && s in k.connected
    ensures var n := if a == Answered(InProgress) then i + 1 else i;
            Owned(k.open, base, fds[..], n, s) && LiveCount(fds[..], n) == LiveCount(old(fds[..]), i) + n - i
  {
    hide Owned, LiveCount, Own;
    ghost var open := k.open;
    s := OpenSocket(k);
    if s < 0 {
      return Unopened, -1;
    }
    OwnSocket(open, base, fds[..], i, s);
    var c := k.Connect(s);
    a := Answered(c);
    match c {
      case Connected =>
      case InProgress =>
        Watch(k.open, base, fds[..], i, s);
        ghost var before := fds[..];
        fds[i] := PollFd(s, true, Quiet);
        assert fds[..] == before[i := PollFd(s, true, Quiet)];
        s := -1;
      case Refused =>
        CloseOwn(k.open, base, fds[..], i, s);
        k.Close(s);
        s := -1;
    }
  }

  /** An entry whose connection has failed is closed and no longer watched. */
  method DropFailed(k: Kernel, fds: array<PollFd>, i: nat, j: nat, ghost base: set<int>)
    requires j < i <= fds.Length && Owned(k.open, base, fds[..], i, -1) && k.Balanced()
    requires Live(fds[j]) && fds[j].fd !in k.pending
    modifies k, fds
    ensures k.Balanced() && k.seen == old(k.seen) && k.pending == old(k.pending)
    ensures k.connected == old(k.connected) - {old(fds[j].fd)}
    ensures fds[..] == old(fds[..])[j := PollFd(-1, false, Failed)]
    ensures Owned(k.open, base, fds[..], i, -1) && LiveCount(fds[..], i) == LiveCount(old(fds[..]), i) - 1
  {
    hide Owned, LiveCount;
    ghost var now := fds[..];
    var fd := fds[j].fd;
    Unwatch(k.open, base, now, i, j, PollFd(-1, false, Failed));
    CloseOwn(k.open, base, now[j := PollFd(-1, false, Failed)], i, fd);
    k.Close(fd);
    fds[j] := PollFd(-1, false, Failed);
    assert fds[..] == now[j := PollFd(-1, false, Failed)];
  }

  /** The events that poll has reported: failed sockets are closed, the first that connected is
      taken out of the list, still counted. */
  method CheckEvents(k: Kernel, fds: array<PollFd>, i: nat, live: nat, ghost base: set<int>) returns (s: int, count: nat)
    requires i <= fds.Length && Owned(k.open, base, fds[..], i, -1) && live == LiveCount(fds[..], i)
    requires k.Balanced() && ReadyConnected(fds[..i], k.connected) && k.pending !! Reported(fds[..i])
    modifies k, fds
    ensures k.Balanced() && (s != -1 ==> s in k.connected) && k.seen == old(k.seen)
    ensures s != -1 <==> old(AnyReady(fds[..i]))
    ensures Owned(k.open, base, fds[..], i, s) && count == LiveCount(fds[..], i) + (if s == -1 then 0 else 1) <= live
    ensures old(exists j :: 0 <= j < i && fds[j].fd != -1 && fds[j].revents != Quiet) ==> s != -1 || count < live
  {
    hide Owned, LiveCount, ToExamine;
    s, count := -1, live;
    ghost var was := fds[..];
    AllToExamine(was, i, k.connected, k.pending);
    for j := 0 to i
      invariant k.Balanced() && Owned(k.open, base, fds[..], i, -1) && count == LiveCount(fds[..], i) <= live
      invariant k.seen == old(k.seen) && ToExamine(fds[..], was, j, i, k.connected, k.pending)
      invariant forall l :: 0 <= l < j ==> was[l].fd == -1 || was[l].revents != Ready
      invariant count == live ==> forall l :: 0 <= l < j ==> was[l].fd == -1 || was[l].revents == Quiet
    {
      SoundOf(k.open, base, fds[..], i, -1);
      ghost var now := fds[..];
      NextToExamine(now, was, j, i, k.connected, k.pending, base);
      if fds[j].fd == -1 || !fds[j].events || fds[j].revents == Quiet {
        continue;
      }
      var fd := fds[j].fd;
      if fds[j].revents == Failed {
        DropFailed(k, fds, i, j, base);
        count := count - 1;
      } else {
        Unwatch(k.open, base, now, i, j, fds[j].(fd := -1));
        fds[j] := fds[j].(fd := -1);
        assert fds[..] == now[j := now[j].(fd := -1)];
        return fd, count;
      }
    }
  }

  /** The entries from `j` on are as poll has left them. */
  ghost predicate ToExamine(fds: seq<PollFd>, was: seq<PollFd>, j: nat, i: nat, connected: set<int>, pending: set<int>) {
    && i <= |fds| == |was|
    && forall l :: j <= l < i ==>
         && fds[l] == was[l] && (Live(fds[l]) && fds[l].revents == Ready ==> fds[l].fd in connected)
         && (Live(fds[l]) && fds[l].revents != Quiet ==> fds[l].fd !in pending)
  }

  lemma AllToExamine(fds: seq<PollFd>, i: nat, connected: set<int>, pending: set<int>)
    requires i <= |fds| && ReadyConnected(fds[..i], connected) && pending !! Reported(fds[..i])
    ensures ToExamine(fds, fds, 0, i, connected, pending)
  {
    forall l | 0 <= l < i && Live(fds[l]) && fds[l].revents != Quiet ensures fds[l].fd !in pending {
      assert fds[..i][l] == fds[l] && fds[l].fd in Reported(fds[..i]);
    }
    assert forall l :: 0 <= l < i ==> fds[..i][l] == fds[l];
  }

  /** The next entry, and what is left behind it, whether it is closed or not. */
  lemma NextToExamine(fds: seq<PollFd>, was: seq<PollFd>, j: nat, i: nat, connected: set<int>, pending: set<int>, base: set<int>)
    requires ToExamine(fds, was, j, i, connected, pending) && j < i && Sound(fds, i, base)
    ensures fds[j] == was[j] && (Live(fds[j]) && fds[j].revents == Ready ==> fds[j].fd in connected)
    ensures Live(fds[j]) ==> fds[j].events && (fds[j].revents != Quiet ==> fds[j].fd !in pending)
    ensures ToExamine(fds, was, j + 1, i, connected, pending)
    ensures Live(fds[j]) ==> ToExamine(fds[j := PollFd(-1, false, Failed)], was, j + 1, i, connected - {fds[j].fd}, pending)
  {
  }

  lemma WatchedAreOpen(open: set<int>, base: set<int>, fds: seq<PollFd>, i: nat, s: int)
    requires Owned(open, base, fds, i, s)
    ensures i <= |fds| && forall j :: 0 <= j < i && fds[j].fd != -1 ==> fds[j].fd in open
  {
    forall j | 0 <= j < i && fds[j].fd != -1 ensures fds[j].fd in open {
      assert Live(fds[j]) && fds[j].fd in Watched(fds, 0, i);
    }
  }

  lemma SoundOf(open: set<int>, base: set<int>, fds: seq<PollFd>, i: nat, s: int)
    requires Owned(open, base, fds, i, s)
    ensures Sound(fds, i, base)
  {
  }

  /** Every further call was a poll with the timeout `t`. */
  ghost predicate Polls(before: seq<Call>, after: seq<Call>, t: int) {
    before <= after && forall j :: |before| <= j < |after| ==> after[j] == Polled(t)
  }

  /** One poll while addresses are left, or polling until a socket connects or all have failed;
      `bail` when poll itself fails. */
  method PollSockets(k: Kernel, fds: array<PollFd>, i: nat, live: nat, patience: int, ghost base: set<int>)
    returns (s: int, count: nat, timeout: int, bail: bool)
    requires i <= fds.Length && Owned(k.open, base, fds[..], i, -1) && live == LiveCount(fds[..], i)
    requires k.Balanced() && live > 0
    modifies k, fds
    ensures k.Balanced() && (s != -1 ==> s in k.connected)
    ensures Owned(k.open, base, fds[..], i, s) && count == LiveCount(fds[..], i) + (if s == -1 then 0 else 1) <= live
    ensures bail ==> s == -1 && count > 0
    ensures k.seen == old(k.seen).(calls := k.seen.calls,
                                   pollErrors := old(k.seen).pollErrors + (if bail then 1 else 0),
                                   successes := old(k.seen).successes + if s != -1 then 1 else 0)
    ensures patience != INFTIM ==> k.seen.calls == old(k.seen).calls + [Polled(patience)]
    ensures Polls(old(k.seen).calls, k.seen.calls, patience) && |old(k.seen).calls| < |k.seen.calls|
    ensures timeout == patience || (3 <= patience && timeout == patience / 2)
    ensures patience == INFTIM && !bail && s == -1 ==> count == 0
  {
    hide Owned, LiveCount;
    s, count, timeout, bail := -1, live, patience, false;
    while true
      invariant k.Balanced() && Owned(k.open, base, fds[..], i, -1) && count == LiveCount(fds[..], i) <= live && s == -1
      invariant count > 0 && !bail && timeout == patience
      invariant k.seen == old(k.seen).(calls := k.seen.calls)
      invariant Polls(old(k.seen).calls, k.seen.calls, patience) && (patience != INFTIM ==> k.seen == old(k.seen))
      decreases count
    {
      ghost var before := fds[..];
      WatchedAreOpen(k.open, base, before, i, -1);
      var n := k.Poll(fds, i, timeout);
      SameOwned(k.open, base, before, fds[..], i, -1);
      if n == 0 {
        if timeout >= 3 {
          timeout := timeout / 2;
        }
        return;
      } else if n < 0 {
        bail := true;
        return;
      }
      s, count := CheckEvents(k, fds, i, count, base);
      if s != -1 || timeout != INFTIM || count == 0 {
        return;
      }
    }
  }

  /** The descriptors still watched are closed, each once. */
  method CloseWatched(k: Kernel, fds: array<PollFd>, i: nat, s: int, ghost base: set<int>)
    requires i <= fds.Length && Owned(k.open, base, fds[..], i, s) && k.Balanced()
    modifies k
    ensures k.open == base + Own(s) && k.Balanced()
    ensures s != -1 && s in old(k.connected) ==> s in k.connected
    ensures k.seen == old(k.seen).(abandoned := k.seen.abandoned)
    ensures k.seen.abandoned - old(k.seen).abandoned <= LiveCount(fds[..], i)
  {
    hide LiveCount, Own, Owned;
    ghost var all := fds[..];
    OwnedWatched(k.open, base, all, i, s);
    LiveSteps(all, 0);
    for j := 0 to i
      invariant k.Balanced() && k.open == base + Watched(all, j, i) + Own(s)
      invariant s != -1 && s in old(k.connected) ==> s in k.connected
      invariant k.seen == old(k.seen).(abandoned := k.seen.abandoned)
      invariant k.seen.abandoned - old(k.seen).abandoned <= LiveCount(all, j)
    {
      WatchedStep(all, j, i, base, s);
      LiveSteps(all, j + 1);
      if fds[j].fd != -1 {
        k.Close(fds[j].fd);
      }
    }
    assert Watched(all, i, i) == {};
  }

  lemma LiveSteps(fds: seq<PollFd>, i: nat)
    requires i <= |fds|
    ensures LiveCount(fds, i) == if i == 0 then 0 else LiveCount(fds, i - 1) + if Live(fds[i - 1]) then 1 else 0
  {
  }

  lemma OwnedWatched(open: set<int>, base: set<int>, fds: seq<PollFd>, i: nat, s: int)
    requires Owned(open, base, fds, i, s)
    ensures Sound(fds, i, base) && open == base + Watched(fds, 0, i) + Own(s) && (s != -1 ==> s !in Watched(fds, 0, i))
  {
  }

  lemma WatchedStep(fds: seq<PollFd>, j: nat, i: nat, base: set<int>, s: int)
    requires j < i && Sound(fds, i, base) && (s != -1 ==> s !in Watched(fds, 0, i))
    ensures !Live(fds[j]) ==> Watched(fds, j, i) == Watched(fds, j + 1, i)
    ensures Live(fds[j]) ==> fds[j].fd in Watched(fds, j, i) && fds[j].fd != s
    ensures Live(fds[j]) ==>
              base + Watched(fds, j, i) + Own(s) - {fds[j].fd} == base + Watched(fds, j + 1, i) + Own(s)
  {
    forall x | x in Watched(fds, j, i) && (!Live(fds[j]) || x != fds[j].fd) ensures x in Watched(fds, j + 1, i) {
      var l :| j <= l < i && Live(fds[l]) && fds[l].fd == x;
      assert l != j;
    }
    assert forall l :: j + 1 <= l < i && Live(fds[l]) ==> j <= l;
    assert Live(fds[j]) ==> fds[j].fd in Watched(fds, 0, i);
  }

  /** connect_to_any_host: whatever socket, fcntl, connect and poll answer, the only descriptor it
      leaves open is the one it returns, which is connected; it closes as many others as it
      opened.  `left` is the number of connections still in progress at the end, which are closed:
      when nothing is connected there are some only if poll failed, or if the last address got no
      socket (`unopened`), so that the final poll was skipped; otherwise ETIMEDOUT is reported. */
  method ConnectToAnyHost(k: Kernel, addresses: nat) returns (s: int, timedOut: bool, left: nat, unopened: bool)
    requires k.Balanced()
    modifies k
    ensures k.Balanced()
    ensures k.opens - old(k.opens) == k.closes - old(k.closes) + if s == -1 then 0 else 1
    ensures s == -1 || (s >= 0 && s !in old(k.open))
    ensures k.open == old(k.open) + Own(s)
    ensures s != -1 ==> s in k.connected
    ensures timedOut <==> s == -1 && left == 0
    ensures s == -1 && left > 0 ==> k.seen.pollErrors > old(k.seen).pollErrors || unopened
    ensures k.seen.pollErrors > old(k.seen).pollErrors ==> s == -1 && left > 0
    ensures k.seen.successes == old(k.seen).successes + if s == -1 then 0 else 1
    ensures k.seen.sockets - old(k.seen).sockets <= addresses
    ensures s == -1 && k.seen.pollErrors == old(k.seen).pollErrors ==> k.seen.sockets - old(k.seen).sockets == addresses
    ensures k.seen.abandoned - old(k.seen).abandoned <= left
    ensures Proper(old(k.seen).calls, k.seen.calls, k.seen.sockets - old(k.seen).sockets == addresses)
  {
    hide Owned, LiveCount, Own, Proper;
    ghost var base := k.open;
    var fds := new PollFd[addresses](_ => PollFd(0, false, Quiet));
    var i;
    s, i, timedOut, unopened := Search(k, fds, base);
    OwnedSocket(k.open, base, fds[..], i, s);
    left := LiveCount(fds[..], i);
    CloseWatched(k, fds, i, s, base);
    assert |base + Own(s)| == |base| + |Own(s)| && |Own(s)| == if s == -1 then 0 else 1 by { OwnSize(base, s); }
  }

  /** The loop over the addresses, one entry of the poll list for each at most: what leaves the loop
      before `done` closes what is still watched. */
  method Search(k: Kernel, fds: array<PollFd>, ghost base: set<int>) returns (s: int, i: nat, timedOut: bool, unopened: bool)
    requires k.Balanced() && k.open == base
    modifies k, fds
    ensures k.Balanced() && i <= fds.Length && Owned(k.open, base, fds[..], i, s)
    ensures s != -1 ==> s in k.connected
    ensures timedOut <==> s == -1 && LiveCount(fds[..], i) == 0
    ensures s == -1 && LiveCount(fds[..], i) > 0 ==> k.seen.pollErrors > old(k.seen).pollErrors || unopened
    ensures k.seen.pollErrors > old(k.seen).pollErrors ==> s == -1 && LiveCount(fds[..], i) > 0
    ensures k.seen.successes == old(k.seen).successes + if s == -1 then 0 else 1
    ensures k.seen.sockets - old(k.seen).sockets <= fds.Length && k.seen.abandoned == old(k.seen).abandoned
    ensures s == -1 && k.seen.pollErrors == old(k.seen).pollErrors ==> k.seen.sockets - old(k.seen).sockets == fds.Length
    ensures Proper(old(k.seen).calls, k.seen.calls, k.seen.sockets - old(k.seen).sockets == fds.Length)
  {
    hide Owned, LiveCount, Own, Proper, Polls, Halving;
    ghost var before := k.seen.calls;
    var addresses := fds.Length;
    NothingCalled(before, addresses == 0);
    var count, timeout := 0, 180;
    s, i, timedOut, unopened := -1, 0, false, false;
    NothingOwned(base, fds[..]);
    for r := 0 to addresses
      invariant k.Balanced() && i <= r && Owned(k.open, base, fds[..], i, -1) && count == LiveCount(fds[..], i)
      invariant k.seen == old(k.seen).(calls := k.seen.calls, sockets := old(k.seen).sockets + r) && !timedOut
      invariant timeout == INFTIM || Halving(timeout)
      invariant Proper(before, k.seen.calls, r == addresses) && (timeout == INFTIM ==> r == addresses)
      invariant r == addresses && !unopened ==> count == 0
    {
      ghost var calls := k.seen.calls;
      var attempt;
      attempt, s := TryAddress(k, fds, i, base);
      match attempt {
        case Unopened =>
          unopened := r == addresses - 1;
          NoCalls(before, calls, unopened);
          continue;
        case Answered(Connected) =>
          NoPolls(k.seen.calls, timeout);
          MoreCalls(before, calls, Connected, k.seen.calls, timeout, r == addresses - 1);
          return;
        case Answered(InProgress) =>
          count, i := count + 1, i + 1;
        case Answered(Refused) =>
          if count == 0 {
            NoPolls(k.seen.calls, timeout);
            MoreCalls(before, calls, Refused, k.seen.calls, timeout, r == addresses - 1);
            continue;
          }
      }
      if r == addresses - 1 {
        timeout := INFTIM;
      }
      ghost var patience := timeout;
      var bail;
      s, count, timeout, bail := PollSockets(k, fds, i, count, timeout, base);
      MoreCalls(before, calls, attempt.result, k.seen.calls, patience, r == addresses - 1);
      Halved(patience);
      if s != -1 || bail {
        return;
      }
    }
    s := -1;
    timedOut := count == 0;
  }

  /** 180 halved again and again, as long as it is at least three. */
  predicate Halving(t: int) {
    t == 180 || t == 90 || t == 45 || t == 22 || t == 11 || t == 5 || t == 2
  }

  /** The calls of a whole search: polls wait for less and less, and for ever only once the last address
      has been tried; an attempt in progress is polled before the next address. */
  ghost predicate Patient(calls: seq<Call>) {
    && (forall j :: 0 <= j < |calls| && calls[j].Polled? ==> calls[j].timeout == -1 || Halving(calls[j].timeout))
    && (forall i, j :: 0 <= i < j < |calls| && calls[i] == Polled(-1) ==> calls[j] == Polled(-1))
    && (forall j :: 0 <= j < |calls| && calls[j] == Tried(InProgress) ==> j + 1 < |calls| && calls[j + 1].Polled?)
  }

  /** The calls made since `start`; polls without a timeout belong to the `last` address. */
  ghost predicate Proper(start: seq<Call>, calls: seq<Call>, last: bool) {
    start <= calls && Patient(calls[|start|..]) && (Polled(INFTIM) in calls[|start|..] ==> last)
  }

  lemma NothingCalled(start: seq<Call>, last: bool)
    ensures Proper(start, start, last) && Halving(180)
  {
  }

  lemma NoCalls(start: seq<Call>, calls: seq<Call>, last: bool)
    requires Proper(start, calls, false)
    ensures Proper(start, calls, last)
  {
    hide Patient;
  }

  lemma NoPolls(calls: seq<Call>, t: int)
    ensures Polls(calls, calls, t)
  {
  }

  lemma Halved(t: int)
    ensures Halving(t) && 3 <= t ==> Halving(t / 2)
  {
  }

  lemma MoreCalls(start: seq<Call>, before: seq<Call>, answer: ConnectResult, after: seq<Call>, t: int, last: bool)
    requires Proper(start, before, false) && Polls(before + [Tried(answer)], after, t)
    requires (t == INFTIM ==> last) && (t == INFTIM || Halving(t))
    requires answer == InProgress ==> |before| + 1 < |after|
    ensures Proper(start, after, last)
  {
    hide Halving;
    var more, now := after[|start|..], before[|start|..];
    forall j | 0 <= j < |more|
      ensures j < |now| ==> more[j] == now[j]
      ensures j == |now| ==> more[j] == Tried(answer)
      ensures j > |now| ==> more[j] == Polled(t)
    {
      if j <= |now| {
        assert after[..|before| + 1][|start| + j] == (before + [Tried(answer)])[|start| + j];
      }
    }
    assert forall j :: 0 <= j < |now| ==> now[j] in now;
  }

  lemma OwnSize(base: set<int>, s: int)
    requires s == -1 || s !in base
    ensures |base + Own(s)| == |base| + |Own(s)| && |Own(s)| == if s == -1 then 0 else 1
  {
    assert s == -1 ==> base + Own(s) == base;
  }

  lemma NothingOwned(base: set<int>, fds: seq<PollFd>)
    ensures Owned(base, base, fds, 0, -1) && LiveCount(fds, 0) == 0
  {
    assert Watched(fds, 0, 0) == {};
  }

  lemma OwnSocket(open: set<int>, base: set<int>, fds: seq<PollFd>, i: nat, s: int)
    requires Owned(open, base, fds, i, -1) && s >= 0 && s !in open
    ensures Owned(open + {s}, base, fds, i, s)
  {
  }

  lemma OwnedSocket(open: set<int>, base: set<int>, fds: seq<PollFd>, i: nat, s: int)
    requires Owned(open, base, fds, i, s)
    ensures s == -1 || (s >= 0 && s !in base)
  {
  }
}
