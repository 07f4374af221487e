/** Peer bookkeeping: the mutable fields of one peer, and the registry keyed by hash.

    The source keeps each field behind its own atomic or lock; here a method is one
    await-free section. Clock reads become parameters. */
module Peers {
  import opened Common
  import opened Cidrs
  import opened Addressing
  import opened LinkLifecycle

  /** What the routing side reads of a peer. */
  datatype RouteView = RouteView(hash: AddressHash, tunnelIp: Ipv4, expires: nat, routes: seq<Cidr>)

  class Peer {
    const hash: AddressHash
    const tunnelIp: Ipv4
    var linkState: LinkState
    var routes: seq<Cidr>
    var routeExpiresTs: nat
    var reconnectAttempts: nat
    var linkAttemptTs: Seconds
    var linkRequestInFlight: bool
    var reconnectCooldownUntilTs: Seconds

    constructor (hash: AddressHash, tunnelIp: Ipv4, state: LinkState)
      ensures Routing() == RouteView(hash, tunnelIp, 0, [])
      ensures Link() == FreshLink(state)
      ensures this.hash == hash
    {
      this.hash, this.tunnelIp, linkState := hash, tunnelIp, state;
      routes, routeExpiresTs := [], 0;
      reconnectAttempts, linkAttemptTs, linkRequestInFlight, reconnectCooldownUntilTs := 0, 0, false, 0;
    }

    function Routing(): (v: RouteView)
      reads this
      ensures v.hash == hash
    {
      RouteView(hash, tunnelIp, routeExpiresTs, routes)
    }

    function Link(): LinkView
      reads this
    {
      LinkView(linkState, reconnectAttempts, linkAttemptTs, linkRequestInFlight, reconnectCooldownUntilTs)
    }

    /** Store a route list and the time at which it stops being live. */
    method RefreshRoutes(newRoutes: seq<Cidr>, expires: nat)
      modifies this`routes, this`routeExpiresTs
      ensures Routing() == old(Routing()).(routes := newRoutes, expires := expires)
    {
      routeExpiresTs := expires;
      routes := newRoutes;
    }

    method ClearRoutes()
      modifies this`routes
      ensures Routing() == old(Routing()).(routes := [])
    {
      routes := [];
    }

    // ── Link fields ──────────────────────────────────────────────────────────

    method SetState(state: LinkState)
      modifies this`linkState
      ensures linkState == state
    {
      linkState := state;
    }

    method MarkLinkAttempt(now: Seconds)
      modifies this`linkAttemptTs
      ensures linkAttemptTs == now
    {
      linkAttemptTs := now;
    }

    method ClearLinkAttempt()
      modifies this`linkAttemptTs
      ensures linkAttemptTs == 0
    {
      linkAttemptTs := 0;
    }

    /** Compare-and-exchange false to true. */
    method TryBeginLinkRequest() returns (ok: bool)
      modifies this`linkRequestInFlight
      ensures ok == !old(linkRequestInFlight) && linkRequestInFlight
    {
      ok := !linkRequestInFlight;
      linkRequestInFlight := true;
    }

    method FinishLinkRequest()
      modifies this`linkRequestInFlight
      ensures !linkRequestInFlight
      ensures Link() == FinishRequest(old(Link())) && Routing() == old(Routing())
    {
      linkRequestInFlight := false;
    }

    method SetReconnectCooldown(delay: nat, now: Seconds)
      modifies this`reconnectCooldownUntilTs
      ensures reconnectCooldownUntilTs == SaturatingAdd(now, delay)
    {
      reconnectCooldownUntilTs := SaturatingAdd(now, delay);
    }

    method ClearReconnectCooldown()
      modifies this`reconnectCooldownUntilTs
      ensures reconnectCooldownUntilTs == 0
    {
      reconnectCooldownUntilTs := 0;
    }

    // ── Sections of the link tasks ───────────────────────────────────────────

    /** Handler of the Activated event. */
    method OnActivated()
      modifies this
      ensures Link() == SeenActive(old(Link())) && Routing() == old(Routing())
    {
      SetState(Active);
      ClearLinkAttempt();
      FinishLinkRequest();
      ClearReconnectCooldown();
      reconnectAttempts := 0;
    }

    /** Handler of the Closed event; also the watchdog's reset after a close. */
    method OnClosed(now: Seconds)
      modifies this
      ensures Link() == CloseWithCooldown(old(Link()), now) && Routing() == old(Routing())
    {
      SetState(Closed);
      ClearLinkAttempt();
      FinishLinkRequest();
      SetReconnectCooldown(LINK_RECONNECT_COOLDOWN_SECS, now);
    }

    method SyncLinkState(status: LinkStatus)
      modifies this
      ensures Link() == SyncStatus(old(Link()), status) && Routing() == old(Routing())
    {
      match status {
        case LinkActive =>
          SetState(Active);
          ClearLinkAttempt();
          FinishLinkRequest();
          ClearReconnectCooldown();
          reconnectAttempts := 0;
        case LinkPending => SetState(Pending);
        case LinkHandshake => SetState(Pending);
        case LinkStale => SetState(Pending);
        case LinkClosed =>
          SetState(Closed);
          FinishLinkRequest();
      }
    }

    /** The part of `request_out_link` between `find_out_link` and `transport.link`. */
    method DecideOutLink(existing: Option<LinkStatus>, now: Seconds) returns (outcome: Outcome)
      modifies this
      ensures outcome == RequestOutcome(old(Link()), existing, now)
      ensures outcome == Reused <==> existing.Some? && existing.value != LinkClosed
      ensures Link() == if outcome == Started then BeginRequest(old(Link()), now) else old(Link())
      ensures Routing() == old(Routing())
    {
      if ShouldReuse(existing) {
        return Reused;
      }
      if reconnectCooldownUntilTs > now {
        return OnCooldown;
      }
      var begun := TryBeginLinkRequest();
      if !begun {
        return AlreadyInFlight;
      }
      SetState(Pending);
      reconnectAttempts := (reconnectAttempts + 1) % U32_MODULUS;
      MarkLinkAttempt(now);
      outcome := Started;
    }
  }

  class PeerRegistry {
    var peers: map<AddressHash, Peer>

    constructor ()
      ensures peers == map[] && Valid()
    {
      peers := map[];
    }

    /** Every peer is filed under its own hash, so no object is filed twice. */
    ghost predicate Valid()
      reads this, peers.Values
    {
      forall h :: h in peers ==> peers[h].hash == h
    }

    function View(): map<AddressHash, RouteView>
      reads this, peers.Values
    {
      map h | h in peers :: peers[h].Routing()
    }

    method Insert(peer: Peer)
      requires Valid()
      modifies this
      ensures Valid() && peers == old(peers)[peer.hash := peer]
      ensures View() == old(View())[peer.hash := peer.Routing()]
    {
      peers := peers[peer.hash := peer];
    }

    method Remove(hash: AddressHash)
      requires Valid()
      modifies this
      ensures Valid() && peers == old(peers) - {hash}
      ensures View() == old(View()) - {hash}
    {
      peers := peers - {hash};
    }

    /** The peer filed under `hash`, made with `tunnelIp` and `state` if there is none. */
    method GetOrCreate(hash: AddressHash, tunnelIp: Ipv4, state: LinkState) returns (peer: Peer)
      requires Valid()
      modifies this
      ensures Valid() && hash in peers && peers[hash] == peer
      ensures peers.Values <= old(peers.Values) + {peer}
      ensures fresh(peers.Values - old(peers.Values))
      ensures hash in old(peers) ==> peers == old(peers) && View() == old(View())
      ensures hash !in old(peers) ==>
        fresh(peer) && View() == old(View())[hash := RouteView(hash, tunnelIp, 0, [])]
    {
      if hash in peers {
        return peers[hash];
      }
      peer := new Peer(hash, tunnelIp, state);
      peers := peers[hash := peer];
    }

    /** Every peer once, in an order the hash map does not fix. */
    method All() returns (all: seq<Peer>)
      ensures forall p :: p in all <==> p in peers.Values
      ensures forall i, j :: 0 <= i < j < |all| ==> all[i] != all[j]
    {
      all := [];
      var left := peers.Values;
      while left != {}
        invariant left <= peers.Values
        invariant forall p :: p in all <==> p in peers.Values - left
        invariant forall i, j :: 0 <= i < j < |all| ==> all[i] != all[j]
        decreases left
      {
        var p :| p in left;
        assert p !in all;
        all, left := all + [p], left - {p};
      }
    }
  }
}
