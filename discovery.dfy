/** Discovery: checking that the advertised address is local, and the join state
    machine that a node-discovery event drives (serf start, neighbour address, the
    single-attempt join latch and the local database push after a join). */
module Discovery {
  import opened Base
  import opened Net

  /** `net.InterfaceAddrs()`: the addresses as `addr.String()` prints them, or a failure. */
  datatype AddrListing = Addrs(addrs: seq<string>) | AddrsFailed(message: string)

  /** An interface address is the advertised one: it parses as address/length and its
      address (not its network) equals `adv`. */
  predicate IsSelfAddr(addr: string, adv: IP) {
    ParseCIDR(addr).Some? && V4(ParseCIDR(addr).value.ip) == adv
  }

  /** validateSelf: an advertise address that is not an IP fails; otherwise it is
      accepted exactly when some interface address carries it. */
  method ValidateSelf(node: string, listing: AddrListing) returns (err: Option<Error>)
    ensures ParseIP(node).NilIP? ==> err == Some(InvalidSelfAddress(node))
    ensures ParseIP(node).V4? && listing.AddrsFailed? ==> err == Some(InterfaceAddrsUnavailable(listing.message))
    ensures ParseIP(node).V4? && listing.Addrs? ==>
      (err.None? <==> exists i :: 0 <= i < |listing.addrs| && IsSelfAddr(listing.addrs[i], ParseIP(node)))
    ensures ParseIP(node).V4? && listing.Addrs? && err.Some? ==> err == Some(SelfAddressNotLocal)
  {
    var adv := ParseIP(node);
    if adv.NilIP? {
      return Some(InvalidSelfAddress(node));
    }
    if listing.AddrsFailed? {
      return Some(InterfaceAddrsUnavailable(listing.message));
    }
    var addrs := listing.addrs;
    var i := 0;
    while i < |addrs|
      invariant 0 <= i <= |addrs|
      invariant forall j :: 0 <= j < i ==> !IsSelfAddr(addrs[j], adv)
    {
      var ip := ParseCIDR(addrs[i]);
      if ip.Some? && V4(ip.value.ip) == adv {
        return None;
      }
      i := i + 1;
    }
    return Some(SelfAddressNotLocal);
  }

  /** The driver state a node-discovery event reads and writes. `serfUp` stands for a
      live serf instance, `latch` for a `joinOnce` that has run; `attempts` counts join
      callbacks and `pushes` counts local database pushes. */
  datatype JoinState = JoinState(
    serfUp: bool,
    latch: bool,
    neighIP: string,
    advertiseAddress: string,
    bindAddress: string,
    attempts: nat,
    pushes: nat)

  /** A fresh driver: no serf, latch open, no neighbour. */
  const Initial: JoinState := JoinState(false, false, "", "", "", 0, 0)

  /** A node-discovery event: the node's address, its bind address, and whether it is
      this node. */
  datatype NodeEvent = NodeEvent(address: string, bindAddress: string, self: bool)

  /** What the environment answers during one event: whether a cluster store is
      configured, and how serf start and serf join end. */
  datatype JoinOracle = JoinOracle(hasStore: bool, serfInit: Outcome, serfJoin: Outcome)

  /** nodeJoin. A self event while serf is down records the addresses and, with a store,
      starts serf (a failure ends the event). Another node's event records its address as
      the neighbour. With serf up and a neighbour known, a closed latch lets one join run:
      success keeps the latch closed and pushes the local database, failure reopens it. */
  function NodeJoinStep(s: JoinState, e: NodeEvent, o: JoinOracle): JoinState {
    var starting := e.self && !s.serfUp;
    var s1 := if starting then s.(advertiseAddress := e.address, bindAddress := e.bindAddress) else s;
    if starting && o.hasStore && o.serfInit.Fail? then s1
    else
      var s2 := if starting && o.hasStore then s1.(serfUp := true) else s1;
      var s3 := if !e.self then s2.(neighIP := e.address) else s2;
      if s3.serfUp && s3.neighIP != "" && !s3.latch then
        if o.serfJoin.Pass? then s3.(latch := true, attempts := s3.attempts + 1, pushes := s3.pushes + 1)
        else s3.(latch := false, attempts := s3.attempts + 1)
      else s3
  }

  /** A sequence of node-discovery events, each with its oracle answers. */
  function Run(s: JoinState, events: seq<(NodeEvent, JoinOracle)>): JoinState {
    if |events| == 0 then s
    else
      var last := events[|events| - 1];
      NodeJoinStep(Run(s, events[..|events| - 1]), last.0, last.1)
  }

  /** The latch is closed exactly when the one local database push has happened. */
  predicate JoinInvariant(s: JoinState) {
    s.pushes <= 1 && (s.latch <==> s.pushes == 1) && s.pushes <= s.attempts
  }

  /** Another node's event always records its address as the neighbour. */
  lemma NeighbourRecorded(s: JoinState, e: NodeEvent, o: JoinOracle)
    requires !e.self
    ensures NodeJoinStep(s, e, o).neighIP == e.address
  {
  }

  /** While the latch is closed no join runs and nothing is pushed. */
  lemma LatchedNoJoin(s: JoinState, e: NodeEvent, o: JoinOracle)
    requires s.latch
    ensures var t := NodeJoinStep(s, e, o);
      t.latch && t.attempts == s.attempts && t.pushes == s.pushes
  {
  }

  /** Every event runs the join callback at most once, pushes only on a successful
      join, and preserves the invariant. */
  lemma StepPreserves(s: JoinState, e: NodeEvent, o: JoinOracle)
    requires JoinInvariant(s)
    ensures var t := NodeJoinStep(s, e, o);
      && JoinInvariant(t)
      && s.attempts <= t.attempts <= s.attempts + 1
      && (t.pushes == s.pushes + 1 <==> (t.attempts == s.attempts + 1 && o.serfJoin.Pass?))
  {
  }

  /** Over any sequence of events from a fresh driver, the local database is pushed at
      most once, and it has been pushed exactly when the latch is closed. */
  lemma {:induction false} RunPushesOnce(events: seq<(NodeEvent, JoinOracle)>)
    ensures JoinInvariant(Run(Initial, events))
    ensures Run(Initial, events).pushes <= 1
  {
    if |events| > 0 {
      var last := events[|events| - 1];
      RunPushesOnce(events[..|events| - 1]);
      StepPreserves(Run(Initial, events[..|events| - 1]), last.0, last.1);
    }
  }

  /** A failed join reopens the latch, so the next event that finds serf up and a
      neighbour known runs the join again. */
  lemma RetryAfterFailure(s: JoinState, e: NodeEvent, o: JoinOracle, e2: NodeEvent, o2: JoinOracle)
    requires s.serfUp && !s.latch && (if e.self then s.neighIP else e.address) != ""
    requires o.serfJoin.Fail?
    requires !e2.self && e2.address != ""
    ensures var t := NodeJoinStep(s, e, o);
      && !t.latch && t.attempts == s.attempts + 1
      && NodeJoinStep(t, e2, o2).attempts == t.attempts + 1
  {
  }

  /** The kinds of discovery notification. */
  datatype DiscoveryType = NodeDiscovery | DatastoreConfig | OtherDiscovery

  /** The payload of a notification, by its dynamic type. */
  datatype DiscoveryData =
    | NodeDiscoveryData(address: string, bindAddress: string, self: bool)
    | DatastoreConfigData(provider: string, address: string)
    | OtherData
}
