/** The chain of referrals that one whois query follows. */
module WhoisReferral {
  import opened Options
  import opened CaseFold

  /** The hosts of try_rir: the regional registries. */
  const RIRS: seq<string> :=
    ["whois.arin.net", "whois.ripe.net", "whois.apnic.net", "whois.afrinic.net", "whois.lacnic.net"]

  predicate IsRir(host: string) {
    exists j :: 0 <= j < |RIRS| && Same(RIRS[j], host)
  }

  /** The five registries, in the order in which they are tried. */
  lemma Registries()
    ensures |RIRS| == 5
    ensures Same(RIRS[0], "whois.arin.net") && Same(RIRS[1], "whois.ripe.net") && Same(RIRS[2], "whois.apnic.net")
    ensures Same(RIRS[3], "whois.afrinic.net") && Same(RIRS[4], "whois.lacnic.net")
  {
    hide Lower;
  }

  /** A registry is a host with one of these names, however it is spelled, and no other host is one. */
  lemma RegistriesOnly(host: string)
    ensures IsRir(host) <==>
            || Same("whois.arin.net", host) || Same("whois.ripe.net", host) || Same("whois.apnic.net", host)
            || Same("whois.afrinic.net", host) || Same("whois.lacnic.net", host)
  {
    hide Same;
    assert RIRS[0] == "whois.arin.net" && RIRS[1] == "whois.ripe.net" && RIRS[2] == "whois.apnic.net";
    assert RIRS[3] == "whois.afrinic.net" && RIRS[4] == "whois.lacnic.net" && |RIRS| == 5;
  }

  lemma RegistryInCapitals()
    ensures IsRir("WHOIS.RIPE.NET") && IsRir("Whois.APNIC.net") && !IsRir("whois.iana.org")
  {
    hide Same, Lower;
    SameExactly(RIRS[1], "WHOIS.RIPE.NET");
    SameExactly(RIRS[2], "Whois.APNIC.net");
    forall j | 0 <= j < |RIRS| ensures !Same(RIRS[j], "whois.iana.org") {
      Differ(RIRS[j], "whois.iana.org", if j == 1 then 6 else 7);
    }
  }

  lemma Differ(a: string, b: string, i: nat)
    requires |a| != |b| || (i < |a| && LowerChar(a[i]) != LowerChar(b[i]))
    ensures !Same(a, b)
  {
    if |a| == |b| {
      assert Lower(a)[i] != Lower(b)[i];
    }
  }

  lemma RirsDiffer(i: nat, j: nat)
    requires i < j < |RIRS|
    ensures !Same(RIRS[i], RIRS[j])
  {
    hide Same, Lower;
    assert RIRS[0][6] == 'a' && RIRS[1][6] == 'r';
    assert |RIRS[0]| == |RIRS[1]| == 14 && |RIRS[2]| == 15 && |RIRS[3]| == 17 && |RIRS[4]| == 16;
    Differ(RIRS[i], RIRS[j], 6);
  }

  // ----- what to do with a referral -----

  /** A registry that has been asked already. */
  predicate Visited(loop: seq<bool>, host: string)
    requires |loop| == |RIRS|
  {
    exists j :: 0 <= j < |RIRS| && loop[j] && Same(RIRS[j], host)
  }

  function FirstUnvisited(loop: seq<bool>, i: nat): (r: Option<nat>)
    requires |loop| == |RIRS| && i <= |RIRS|
    ensures r.Some? ==> i <= r.value < |RIRS| && !loop[r.value]
    ensures r.None? ==> forall j :: i <= j < |RIRS| ==> loop[j]
    decreases |RIRS| - i
  {
    if i == |RIRS| then None else if !loop[i] then Some(i) else FirstUnvisited(loop, i + 1)
  }

  /** The host asked next: a referral to a visited registry becomes another registry, or nothing
      when all have been asked; a referral to the host itself is ignored. */
  function Next(loop: seq<bool>, hostname: string, referral: Option<string>): Option<string>
    requires |loop| == |RIRS|
  {
    if referral.None? then None
    else if Visited(loop, referral.value) then
      match FirstUnvisited(loop, 0)
      case None => None
      case Some(i) => if Same(hostname, RIRS[i]) then None else Some(RIRS[i])
    else if Same(hostname, referral.value) then None
    else referral
  }

  /** The next host is never a registry that has been asked. */
  lemma NextIsUnvisited(loop: seq<bool>, hostname: string, referral: Option<string>)
    requires |loop| == |RIRS| && Next(loop, hostname, referral).Some?
    ensures !Visited(loop, Next(loop, hostname, referral).value)
  {
    hide Same;
    var next := Next(loop, hostname, referral).value;
    if Visited(loop, referral.value) {
      var i := FirstUnvisited(loop, 0).value;
      forall j | 0 <= j < |RIRS| && loop[j] ensures !Same(RIRS[j], next) {
        if i < j {
          RirsDiffer(i, j);
          SameSymmetric(RIRS[j], next);
        } else {
          RirsDiffer(j, i);
        }
      }
    }
  }

  lemma SameSymmetric(a: string, b: string)
    ensures Same(a, b) <==> Same(b, a)
  {
  }

  // ----- a whole query -----

  /** Every registry contacted so far is marked. */
  ghost predicate Marked(contacted: seq<string>, loop: seq<bool>)
    requires |loop| == |RIRS|
  {
    forall k, j :: 0 <= k < |contacted| && 0 <= j < |RIRS| && Same(RIRS[j], contacted[k]) ==> loop[j]
  }

  /** No registry is contacted twice, however its name is written. */
  ghost predicate Distinct(contacted: seq<string>) {
    forall a, b :: 0 <= a < b < |contacted| && IsRir(contacted[a]) ==> !Same(contacted[a], contacted[b])
  }

  function RirCount(contacted: seq<string>): nat {
    if contacted == [] then 0
    else RirCount(contacted[..|contacted| - 1]) + if IsRir(contacted[|contacted| - 1]) then 1 else 0
  }

  function Flags(loop: seq<bool>): (n: nat)
    ensures n <= |loop|
  {
    if loop == [] then 0 else Flags(loop[..|loop| - 1]) + if loop[|loop| - 1] then 1 else 0
  }

  lemma {:induction false} FlagsGrow(a: seq<bool>, b: seq<bool>)
    requires |a| == |b| && forall j :: 0 <= j < |a| && a[j] ==> b[j]
    ensures Flags(a) <= Flags(b)
    ensures (exists j :: 0 <= j < |a| && !a[j] && b[j]) ==> Flags(a) < Flags(b)
  {
    if a != [] {
      var a', b' := a[..|a| - 1], b[..|b| - 1];
      FlagsGrow(a', b');
      assert (exists j :: 0 <= j < |a| && !a[j] && b[j]) && !(!a[|a| - 1] && b[|b| - 1])
        ==> exists j :: 0 <= j < |a'| && !a'[j] && b'[j];
    }
  }

  /** What holds between two contacts of a query. */
  ghost predicate Chain(contacted: seq<string>, loop: seq<bool>) {
    |loop| == |RIRS| && Marked(contacted, loop) && Distinct(contacted) && RirCount(contacted) <= Flags(loop)
  }

  /** The flags after a contact with `host`. */
  ghost predicate IsMarking(loop: seq<bool>, loop': seq<bool>, host: string) {
    && |loop| == |loop'| == |RIRS|
    && forall j :: 0 <= j < |RIRS| ==> loop'[j] == (loop[j] || Same(RIRS[j], host))
  }

  /** Contacting an unvisited host and marking it keeps the chain. */
  lemma ChainStep(contacted: seq<string>, loop: seq<bool>, loop': seq<bool>, host: string)
    requires Chain(contacted, loop) && !Visited(loop, host) && IsMarking(loop, loop', host)
    ensures Chain(contacted + [host], loop')
  {
    hide Same, IsRir, RirCount, Flags;
    StepDistinct(contacted, loop, host);
    FlagsGrow(loop, loop');
    RirCountStep(contacted, host);
    if IsRir(host) {
      RirIndex(loop, loop', host);
    }
  }

  lemma RirIndex(loop: seq<bool>, loop': seq<bool>, host: string)
    requires |loop| == |RIRS| && IsRir(host) && !Visited(loop, host) && IsMarking(loop, loop', host)
    ensures exists j :: 0 <= j < |loop| && !loop[j] && loop'[j]
  {
    hide Same;
    var j :| 0 <= j < |RIRS| && Same(RIRS[j], host);
    assert !loop[j] && loop'[j];
  }

  lemma RirCountStep(contacted: seq<string>, host: string)
    ensures RirCount(contacted + [host]) == RirCount(contacted) + if IsRir(host) then 1 else 0
  {
    hide IsRir;
    assert (contacted + [host])[..|contacted|] == contacted;
  }

  lemma StepDistinct(contacted: seq<string>, loop: seq<bool>, host: string)
    requires |loop| == |RIRS| && Marked(contacted, loop) && Distinct(contacted) && !Visited(loop, host)
    ensures Distinct(contacted + [host])
  {
    hide Same;
    forall a | 0 <= a < |contacted| && IsRir(contacted[a]) ensures !Same(contacted[a], host) {
      var j :| 0 <= j < |RIRS| && Same(RIRS[j], contacted[a]);
      assert loop[j] && !Same(RIRS[j], host);
      SameTransitive(RIRS[j], contacted[a], host);
    }
  }

  lemma SameTransitive(a: string, b: string, c: string)
    ensures Same(a, b) && Same(b, c) ==> Same(a, c)
  {
  }

  /** The flags after a contact with `host`. */
  function Mark(loop: seq<bool>, host: string): (loop': seq<bool>)
    requires |loop| == |RIRS|
    ensures |loop'| == |RIRS|
  {
    seq(|RIRS|, j requires 0 <= j < |RIRS| => loop[j] || Same(RIRS[j], host))
  }

  const NONE_VISITED: seq<bool> := [false, false, false, false, false]

  /** The hosts that a query contacts, one for every reply that is followed. */
  function Follows(loop: seq<bool>, host: string, replies: seq<Option<string>>): seq<string>
    requires |loop| == |RIRS|
    decreases replies
  {
    if replies == [] then []
    else
      var loop' := Mark(loop, host);
      match Next(loop', host, replies[0])
      case None => [host]
      case Some(next) => [host] + Follows(loop', next, replies[1..])
  }

  lemma MarkIsMarking(loop: seq<bool>, loop': seq<bool>, host: string)
    requires |loop| == |RIRS|
    ensures IsMarking(loop, Mark(loop, host), host)
    ensures IsMarking(loop, loop', host) ==> loop' == Mark(loop, host)
  {
    hide Same;
  }

  lemma FollowsStep(loop: seq<bool>, host: string, replies: seq<Option<string>>)
    requires |loop| == |RIRS|
    ensures replies == [] ==> Follows(loop, host, replies) == []
    ensures replies != [] ==>
              var next := Next(Mark(loop, host), host, replies[0]);
              Follows(loop, host, replies)
              == [host] + if next.None? then [] else Follows(Mark(loop, host), next.value, replies[1..])
  {
    hide Next, Mark;
  }

  /** Whatever the replies are, a query contacts different registries, at most five. */
  lemma {:induction false} FollowsChain(contacted: seq<string>, loop: seq<bool>, host: string, replies: seq<Option<string>>)
    requires |loop| == |RIRS| && Chain(contacted, loop) && !Visited(loop, host)
    ensures Distinct(contacted + Follows(loop, host, replies))
    ensures RirCount(contacted + Follows(loop, host, replies)) <= |RIRS|
    decreases replies
  {
    hide Marked, Distinct, Next, RirCount, Visited, Mark, Follows, IsMarking, Chain;
    FollowsStep(loop, host, replies);
    if replies == [] {
      assert contacted + [] == contacted;
      ChainEnds(contacted, loop);
    } else {
      var loop' := Mark(loop, host);
      MarkIsMarking(loop, loop', host);
      ChainStep(contacted, loop, loop', host);
      if Next(loop', host, replies[0]).Some? {
        var next := Next(loop', host, replies[0]).value;
        NextIsUnvisited(loop', host, replies[0]);
        FollowsChain(contacted + [host], loop', next, replies[1..]);
        assert contacted + [host] + Follows(loop', next, replies[1..]) == contacted + Follows(loop, host, replies);
      } else {
        assert [host] + [] == [host];
        ChainEnds(contacted + [host], loop');
      }
    }
  }

  lemma ChainEnds(contacted: seq<string>, loop: seq<bool>)
    requires Chain(contacted, loop)
    ensures Distinct(contacted) && RirCount(contacted) <= |RIRS|
  {
    hide Distinct, RirCount, Marked;
  }

  /** The same for a query that starts afresh, with any host. */
  lemma QueryVisitsEachRegistryOnce(host: string, replies: seq<Option<string>>)
    ensures var chain := Follows(NONE_VISITED, host, replies); Distinct(chain) && RirCount(chain) <= |RIRS|
  {
    hide Follows, IsRir;
    FollowsChain([], NONE_VISITED, host, replies);
    assert [] + Follows(NONE_VISITED, host, replies) == Follows(NONE_VISITED, host, replies);
  }

  /** Nothing is left out: as long as every host refers to one that has not been asked, all are asked, in
      this order, registries and others. */
  lemma NewHostsAreFollowed(hosts: seq<string>)
    requires hosts != [] && forall i, j :: 0 <= i < j < |hosts| ==> !Same(hosts[i], hosts[j])
    ensures Follows(NONE_VISITED, hosts[0], Referrals(hosts)) == hosts
  {
    hide Same, Follows, Visited, RIRS, NONE_VISITED, Referrals;
    NothingVisited(hosts[0]);
    forall i | 0 <= i < |hosts| ensures !Visited(NONE_VISITED, hosts[i]) {
      NothingVisited(hosts[i]);
    }
    NewHostsFrom(NONE_VISITED, hosts);
  }

  lemma NothingVisited(host: string)
    ensures |NONE_VISITED| == |RIRS| && !Visited(NONE_VISITED, host)
  {
    hide Same;
  }

  /** What the hosts answer: each refers to the next, the last to none. */
  function Referrals(hosts: seq<string>): (replies: seq<Option<string>>)
    ensures |replies| == |hosts|
  {
    if hosts == [] then [] else [if |hosts| > 1 then Some(hosts[1]) else None] + Referrals(hosts[1..])
  }

  lemma {:induction false} NewHostsFrom(loop: seq<bool>, hosts: seq<string>)
    requires |loop| == |RIRS| && hosts != [] && forall i, j :: 0 <= i < j < |hosts| ==> !Same(hosts[i], hosts[j])
    requires forall i :: 0 <= i < |hosts| ==> !Visited(loop, hosts[i])
    ensures Follows(loop, hosts[0], Referrals(hosts)) == hosts
    decreases |hosts|
  {
    hide Same, Follows, RIRS;
    var replies, loop' := Referrals(hosts), Mark(loop, hosts[0]);
    FollowsStep(loop, hosts[0], replies);
    assert replies[1..] == Referrals(hosts[1..]);
    if |hosts| == 1 {
      assert hosts == [hosts[0]] + [];
    } else {
      forall i | 1 <= i < |hosts| ensures !Visited(loop', hosts[i]) {
        forall j | 0 <= j < |RIRS| && loop'[j] ensures !Same(RIRS[j], hosts[i]) {
          SameSymmetric(RIRS[j], hosts[0]);
          SameTransitive(hosts[0], RIRS[j], hosts[i]);
        }
      }
      NewHostsFrom(loop', hosts[1..]);
      assert hosts == [hosts[0]] + hosts[1..];
    }
  }

  /** A referral back to a registry leads to the first one of the list that is left, and to none when all
      have been asked. */
  lemma VisitedIsReplaced(loop: seq<bool>, hostname: string, j: nat, i: nat)
    requires |loop| == |RIRS| && i < |RIRS| && j < |RIRS|
    requires loop[j] && !loop[i] && (forall l :: 0 <= l < i ==> loop[l]) && !Same(hostname, RIRS[i])
    ensures Next(loop, hostname, Some(RIRS[j])) == Some(RIRS[i])
    ensures Next([true, true, true, true, true], hostname, Some(RIRS[j])) == None
  {
    hide Same, RIRS;
    SameSymmetric(RIRS[j], RIRS[j]);
    SameSelf(RIRS[j]);
    FirstIs(loop, 0, i);
    assert |RIRS| == 5 by { Registries(); }
    assert Visited([true, true, true, true, true], RIRS[j]);
  }

  lemma SameSelf(a: string)
    ensures Same(a, a)
  {
  }

  lemma {:induction false} FirstIs(loop: seq<bool>, k: nat, i: nat)
    requires |loop| == |RIRS| && k <= i < |RIRS| && !loop[i] && forall l :: k <= l < i ==> loop[l]
    ensures FirstUnvisited(loop, k) == Some(i)
    decreases i - k
  {
    hide RIRS;
    if k < i {
      FirstIs(loop, k + 1, i);
    }
  }

  class Whois {
    const loop: array<bool>
    var contacted: seq<string>

    ghost predicate Valid()
      reads this, loop
    {
      loop.Length == |RIRS| && Chain(contacted, loop[..])
    }

    constructor ()
      ensures Valid() && contacted == [] && fresh(loop) && forall j :: 0 <= j < |RIRS| ==> !loop[j]
    {
      loop := new bool[|RIRS|](_ => false);
      contacted := [];
    }

    /** reset_rir, before the next query. */
    method Reset()
      requires loop.Length == |RIRS|
      modifies this, loop
      ensures Valid() && contacted == [] && forall j :: 0 <= j < |RIRS| ==> !loop[j]
    {
      for i := 0 to |RIRS|
        invariant forall j :: 0 <= j < i ==> !loop[j]
      {
        loop[i] := false;
      }
      contacted := [];
    }

    /** The tail of whois: remember the visit, then see what to make of the referral. */
    method Follow(hostname: string, referral: Option<string>) returns (next: Option<string>)
      requires loop.Length == |RIRS|
      modifies loop
      ensures IsMarking(old(loop[..]), loop[..], hostname) && next == Next(loop[..], hostname, referral)
    {
      hide Same;
      next := referral;
      var replace := false;
      for i := 0 to |RIRS|
        invariant forall j :: 0 <= j < i ==> loop[j] == (old(loop[j]) || Same(RIRS[j], hostname))
        invariant forall j :: i <= j < |RIRS| ==> loop[j] == old(loop[j])
        invariant replace ==> next == None && referral.Some? && Visited(loop[..], referral.value)
        invariant !replace ==> next == referral
        invariant !replace && referral.Some? ==> forall j :: 0 <= j < i && loop[j] ==> !Same(RIRS[j], referral.value)
      {
        if !loop[i] && Same(RIRS[i], hostname) {
          loop[i] := true;
        }
        if loop[i] && next.Some? && Same(RIRS[i], next.value) {
          next, replace := None, true;
          assert loop[..][i];
        }
      }
      if replace {
        for i := 0 to |RIRS|
          invariant next == None && FirstUnvisited(loop[..], 0) == FirstUnvisited(loop[..], i)
        {
          if !loop[i] {
            next := Some(RIRS[i]);
            break;
          }
        }
      }
      if next.Some? && Same(hostname, next.value) {
        next := None;
      }
    }

    /** One query: `replies` are the referrals found in the answers, as long as hosts answer.
        Whatever they are, the registries contacted are all different, and so at most five. */
    method Query(hostname: string, replies: seq<Option<string>>)
      requires Valid() && !Visited(loop[..], hostname)
      modifies this, loop
      ensures Valid() && RirCount(contacted) <= |RIRS|
      ensures contacted == old(contacted) + Follows(old(loop[..]), hostname, replies)
      decreases |replies|
    {
      hide Distinct, Next, RirCount, Visited, Mark, Follows, IsMarking, Chain, RIRS;
      FollowsStep(loop[..], hostname, replies);
      if replies == [] {
        assert contacted + [] == contacted;
        ChainEnds(contacted, loop[..]);
        return;
      }
      ghost var was := loop[..];
      ghost var before := contacted;
      var next := Follow(hostname, replies[0]);
      MarkIsMarking(was, loop[..], hostname);
      contacted := contacted + [hostname];
      ChainStep(before, was, loop[..], hostname);
      if next.Some? {
        NextIsUnvisited(loop[..], hostname, replies[0]);
        Query(next.value, replies[1..]);
        assert before + [hostname] + Follows(Mark(was, hostname), next.value, replies[1..])
            == before + ([hostname] + Follows(Mark(was, hostname), next.value, replies[1..]));
      } else {
        assert [hostname] + [] == [hostname];
        ChainEnds(contacted, loop[..]);
      }
    }

    /** main's loop over its arguments: every query starts afresh. */
    method Queries(queries: seq<(string, seq<Option<string>>)>) returns (chains: seq<seq<string>>)
      requires Valid() && contacted == [] && forall j :: 0 <= j < |RIRS| ==> !loop[j]
      modifies this, loop
      ensures |chains| == |queries|
      ensures forall q :: 0 <= q < |chains| ==> chains[q] == Follows(NONE_VISITED, queries[q].0, queries[q].1)
      ensures forall q :: 0 <= q < |chains| ==> Distinct(chains[q]) && RirCount(chains[q]) <= |RIRS|
    {
      hide Distinct, RirCount, Marked, Follows;
      chains := [];
      for q := 0 to |queries|
        invariant Valid() && contacted == [] && |chains| == q && forall j :: 0 <= j < |RIRS| ==> !loop[j]
        invariant forall p :: 0 <= p < q ==> chains[p] == Follows(NONE_VISITED, queries[p].0, queries[p].1)
        invariant forall p :: 0 <= p < q ==> Distinct(chains[p]) && RirCount(chains[p]) <= |RIRS|
      {
        assert loop[..] == NONE_VISITED;
        Query(queries[q].0, queries[q].1);
        chains := chains + [contacted];
        Reset();
      }
    }
  }
}
