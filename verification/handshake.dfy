/**
 * The per-state-type creation/destruction rendezvous (`ReplicatorHandshake`).
 * For each replicator id it keeps a pair of flags, "set up on the host" and
 * "set up on the client", and one `IsReadyToSync` flag for the whole type.
 *
 * As the code is written, a flag update on an id that is already tracked writes
 * into a copy of the stored pair and is lost, so an entry keeps the first flag it
 * was created with and never has both flags set.
 */
module Handshake {
  import opened Wrappers
  import opened Transport
  import opened Collections

  datatype Flags = Flags(SetupOnHost: bool, SetupOnClient: bool)

  /** The tracked state: the id map and the shared readiness flag. */
  datatype View = View(lookup: map<uint32, Flags>, ready: bool)

  /** A transition: the new tracked state and the sends posted on the way, in order. */
  datatype Step = Step(view: View, posts: seq<Post>)

  /** What an inbound packet did: the transition, and the player whose sync request is to be served. */
  datatype Reaction = Reaction(step: Step, requested: Option<PeerId>)

  function ActionPost(id: uint32, action: PacketAction, target: Target, priority: Priority): Post {
    Post(HandshakeChannel, target, priority, id, ActionBody(action))
  }

  predicate BothSet(lookup: map<uint32, Flags>, id: uint32) {
    id in lookup && lookup[id].SetupOnHost && lookup[id].SetupOnClient
  }

  /** No tracked id has both flags set. */
  ghost predicate NeverBoth(lookup: map<uint32, Flags>) {
    forall id | id in lookup :: !(lookup[id].SetupOnHost && lookup[id].SetupOnClient)
  }

  /**
   * `SetHostState`'s effect on the map, as written: an untracked id gets a
   * host-only entry, and every tracked entry, the id's own included, is left
   * as it was.
   */
  function SetHostFlag(lookup: map<uint32, Flags>, id: uint32, isSetup: bool): (r: map<uint32, Flags>)
    ensures r.Keys == lookup.Keys + {id}
    ensures forall k | k in lookup :: r[k] == lookup[k]
    ensures id !in lookup ==> r[id] == Flags(isSetup, false)
  {
    if id in lookup then lookup else lookup[id := Flags(isSetup, false)]
  }

  /** `SetClientState`'s effect on the map, as written: the mirror image, with a client-only entry. */
  function SetClientFlag(lookup: map<uint32, Flags>, id: uint32, isSetup: bool): (r: map<uint32, Flags>)
    ensures r.Keys == lookup.Keys + {id}
    ensures forall k | k in lookup :: r[k] == lookup[k]
    ensures id !in lookup ==> r[id] == Flags(false, isSetup)
  {
    if id in lookup then lookup else lookup[id := Flags(false, isSetup)]
  }

  /**
   * `UpdateSyncState`: readiness becomes "id is tracked with both flags"; a sync
   * request goes to the master when readiness rose while this process is a client
   * with a known master.
   */
  function SyncStep(lookup: map<uint32, Flags>, wasReady: bool, id: uint32, net: Net): (s: Step)
    ensures s.view.lookup == lookup
    ensures s.view.ready <==> BothSet(lookup, id)
    ensures |s.posts| <= 1
    ensures |s.posts| == 1 <==> !wasReady && BothSet(lookup, id) && net.HasMaster() && !net.isMaster
    ensures |s.posts| == 1 ==> s.posts[0] == ActionPost(id, SyncRequest, ToPeer(net.master.value), TransportDefault)
  {
    var ready := BothSet(lookup, id);
    var posts :=
      if ready && ready != wasReady && net.HasMaster() && !net.isMaster then
        [ActionPost(id, SyncRequest, ToPeer(net.master.value), TransportDefault)]
      else [];
    Step(View(lookup, ready), posts)
  }

  function SetHostStep(v: View, id: uint32, isSetup: bool, net: Net): Step {
    SyncStep(SetHostFlag(v.lookup, id, isSetup), v.ready, id, net)
  }

  function SetClientStep(v: View, id: uint32, isSetup: bool, net: Net): Step {
    SyncStep(SetClientFlag(v.lookup, id, isSetup), v.ready, id, net)
  }

  /**
   * `UpdateCreated` / `UpdateDestroyed`: the master records its host flag and
   * broadcasts the action; a client with a known master records its client flag
   * and sends the action to the master; outside a lobby, or in a lobby with no
   * master, nothing happens beyond a log line. Both operations record the flag
   * as `true`.
   */
  function AnnounceStep(v: View, id: uint32, action: PacketAction, net: Net): (s: Step)
    ensures !net.inLobby || (!net.isMaster && !net.HasMaster()) ==> s == Step(v, [])
    ensures net.inLobby && net.isMaster ==>
              s.view.lookup == SetHostFlag(v.lookup, id, true) && 1 <= |s.posts| <= 2 &&
              s.posts[|s.posts| - 1] == ActionPost(id, action, Broadcast, TransportDefault)
    ensures net.inLobby && !net.isMaster && net.HasMaster() ==>
              s.view.lookup == SetClientFlag(v.lookup, id, true) && 1 <= |s.posts| <= 2 &&
              s.posts[|s.posts| - 1] == ActionPost(id, action, ToPeer(net.master.value), TransportDefault)
  {
    if !net.inLobby then Step(v, [])
    else if net.isMaster then
      var s := SetHostStep(v, id, true, net);
      Step(s.view, s.posts + [ActionPost(id, action, Broadcast, TransportDefault)])
    else if net.HasMaster() then
      var s := SetClientStep(v, id, true, net);
      Step(s.view, s.posts + [ActionPost(id, action, ToPeer(net.master.value), TransportDefault)])
    else Step(v, [])
  }

  /**
   * `OnSyncAction`. A client acts only on packets from the master (with no master
   * known, reading the master's lookup fails and the packet is dropped);
   * `Created`/`Destroyed` set the host flag to "action is Created", and a sync
   * request is dropped with a warning. The master sets the client flag from
   * `Created`/`Destroyed`, and answers a sync request by naming the sender, when
   * the sender resolves to a player.
   */
  function ActionReaction(v: View, sender: PeerId, id: uint32, action: PacketAction, net: Net, senderIsPlayer: bool): (r: Reaction)
    ensures r.requested.Some? <==> net.isMaster && action == SyncRequest && senderIsPlayer
    ensures r.requested.Some? ==> r.requested.value == sender
    ensures !net.isMaster && !net.FromMaster(sender) ==> r.step == Step(v, [])
    ensures action == SyncRequest ==> r.step == Step(v, [])
  {
    if !net.isMaster && net.FromMaster(sender) then
      if action != SyncRequest then Reaction(SetHostStep(v, id, action == Created, net), None)
      else Reaction(Step(v, []), None)
    else if net.isMaster then
      match action
      case Created => Reaction(SetClientStep(v, id, true, net), None)
      case Destroyed => Reaction(SetClientStep(v, id, false, net), None)
      case SyncRequest => Reaction(Step(v, []), if senderIsPlayer then Some(sender) else None)
    else Reaction(Step(v, []), None)
  }

  /** `ClientSyncRequest`'s sends: one sync request per tracked id, to the master. */
  function SyncRequestPosts(ids: seq<uint32>, master: PeerId): (r: seq<Post>)
    ensures |r| == |ids|
    ensures forall i | 0 <= i < |ids| :: r[i] == ActionPost(ids[i], SyncRequest, ToPeer(master), GameOrderCritical)
  {
    seq(|ids|, i requires 0 <= i < |ids| => ActionPost(ids[i], SyncRequest, ToPeer(master), GameOrderCritical))
  }

  class ReplicatorHandshake {
    var lookup: map<uint32, Flags>
    var IsReadyToSync: bool

    function ToView(): View
      reads this
    {
      View(lookup, IsReadyToSync)
    }

    /**
     * What the code as written keeps true of every handshake: no entry has both
     * flags, so the shared readiness flag is never raised.
     */
    ghost predicate Valid()
      reads this
    {
      NeverBoth(lookup) && !IsReadyToSync
    }

    constructor ()
      ensures Valid() && lookup == map[] && !IsReadyToSync
    {
      lookup := map[];
      IsReadyToSync := false;
    }

    method UpdateSyncState(id: uint32, net: Net, out: Outbox)
      modifies this, out
      ensures ToView() == SyncStep(old(lookup), old(IsReadyToSync), id, net).view
      ensures out.sent == old(out.sent) + SyncStep(old(lookup), old(IsReadyToSync), id, net).posts
    {
      var isReadyOld := IsReadyToSync;
      IsReadyToSync := id in lookup && lookup[id].SetupOnHost && lookup[id].SetupOnClient;
      if IsReadyToSync && IsReadyToSync != isReadyOld && net.HasMaster() && !net.isMaster {
        out.Send(ActionPost(id, SyncRequest, ToPeer(net.master.value), TransportDefault));
      }
    }

    method SetHostState(id: uint32, isSetup: bool, net: Net, out: Outbox)
      modifies this, out
      ensures ToView() == SetHostStep(old(ToView()), id, isSetup, net).view
      ensures out.sent == old(out.sent) + SetHostStep(old(ToView()), id, isSetup, net).posts
    {
      if id in lookup {
        var data := lookup[id];
        data := data.(SetupOnHost := isSetup);
      } else {
        lookup := lookup[id := Flags(isSetup, false)];
      }
      UpdateSyncState(id, net, out);
    }

    method SetClientState(id: uint32, isSetup: bool, net: Net, out: Outbox)
      modifies this, out
      ensures ToView() == SetClientStep(old(ToView()), id, isSetup, net).view
      ensures out.sent == old(out.sent) + SetClientStep(old(ToView()), id, isSetup, net).posts
    {
      if id in lookup {
        var data := lookup[id];
        data := data.(SetupOnClient := isSetup);
      } else {
        lookup := lookup[id := Flags(false, isSetup)];
      }
      UpdateSyncState(id, net, out);
    }

    method Announce(id: uint32, action: PacketAction, net: Net, out: Outbox)
      requires Valid()
      modifies this, out
      ensures Valid()
      ensures ToView() == AnnounceStep(old(ToView()), id, action, net).view
      ensures out.sent == old(out.sent) + AnnounceStep(old(ToView()), id, action, net).posts
    {
      AnnounceKeepsValid(ToView(), id, action, net);
      if net.inLobby {
        if net.isMaster {
          SetHostState(id, true, net, out);
          out.Send(ActionPost(id, action, Broadcast, TransportDefault));
        } else if net.HasMaster() {
          SetClientState(id, true, net, out);
          out.Send(ActionPost(id, action, ToPeer(net.master.value), TransportDefault));
        }
      }
    }

    method UpdateCreated(id: uint32, net: Net, out: Outbox)
      requires Valid()
      modifies this, out
      ensures Valid()
      ensures ToView() == AnnounceStep(old(ToView()), id, Created, net).view
      ensures out.sent == old(out.sent) + AnnounceStep(old(ToView()), id, Created, net).posts
    {
      Announce(id, Created, net, out);
    }

    method UpdateDestroyed(id: uint32, net: Net, out: Outbox)
      requires Valid()
      modifies this, out
      ensures Valid()
      ensures ToView() == AnnounceStep(old(ToView()), id, Destroyed, net).view
      ensures out.sent == old(out.sent) + AnnounceStep(old(ToView()), id, Destroyed, net).posts
    {
      Announce(id, Destroyed, net, out);
    }

    method OnSyncAction(sender: PeerId, packetId: uint32, action: PacketAction, net: Net, senderIsPlayer: bool, out: Outbox)
      returns (requested: Option<PeerId>)
      requires Valid()
      modifies this, out
      ensures Valid()
      ensures ToView() == ActionReaction(old(ToView()), sender, packetId, action, net, senderIsPlayer).step.view
      ensures out.sent == old(out.sent) + ActionReaction(old(ToView()), sender, packetId, action, net, senderIsPlayer).step.posts
      ensures requested == ActionReaction(old(ToView()), sender, packetId, action, net, senderIsPlayer).requested
    {
      ReactionKeepsValid(ToView(), sender, packetId, action, net, senderIsPlayer);
      requested := None;
      if !net.isMaster && net.FromMaster(sender) {
        if action != SyncRequest {
          SetHostState(packetId, action == Created, net, out);
        }
      } else if net.isMaster {
        match action
        case Created =>
          SetClientState(packetId, true, net, out);
        case Destroyed =>
          SetClientState(packetId, false, net, out);
        case SyncRequest =>
          if senderIsPlayer {
            requested := Some(sender);
          }
      }
    }

    /**
     * Sends one sync request per tracked id to the master, in the map's
     * enumeration order `order`; as master, nothing.
     */
    method ClientSyncRequest(order: seq<uint32>, net: Net, out: Outbox)
      requires Enumerates(order, lookup.Keys)
      modifies out
      ensures net.isMaster || net.master.None? ==> out.sent == old(out.sent)
      ensures !net.isMaster && net.master.Some? ==>
        out.sent == old(out.sent) + SyncRequestPosts(order, net.master.value)
    {
      if net.isMaster || net.master.None? {
        return;
      }
      var i := 0;
      while i < |order|
        invariant 0 <= i <= |order|
        invariant out.sent == old(out.sent) + SyncRequestPosts(order[..i], net.master.value)
      {
        out.Send(ActionPost(order[i], SyncRequest, ToPeer(net.master.value), GameOrderCritical));
        assert order[..i + 1] == order[..i] + [order[i]];
        i := i + 1;
      }
      assert order[..i] == order;
    }

    /** The checkpoint-reload hook: a sync request for every tracked id. */
    method OnRecallDone(order: seq<uint32>, net: Net, out: Outbox)
      requires Enumerates(order, lookup.Keys)
      modifies out
      ensures net.isMaster || net.master.None? ==> out.sent == old(out.sent)
      ensures !net.isMaster && net.master.Some? ==>
        out.sent == old(out.sent) + SyncRequestPosts(order, net.master.value)
    {
      ClientSyncRequest(order, net, out);
    }

    /** Forgets every id; the shared readiness flag is left as it was. */
    method Reset()
      requires Valid()
      modifies this
      ensures Valid()
      ensures lookup == map[] && IsReadyToSync == old(IsReadyToSync)
    {
      lookup := map[];
    }
  }

  // ---- Properties of the transitions ----

  /** Neither flag update can produce an entry with both flags. */
  lemma {:induction false} FlagUpdatesKeepNeverBoth(lookup: map<uint32, Flags>, id: uint32, isSetup: bool)
    requires NeverBoth(lookup)
    ensures NeverBoth(SetHostFlag(lookup, id, isSetup))
    ensures NeverBoth(SetClientFlag(lookup, id, isSetup))
    ensures !BothSet(SetHostFlag(lookup, id, isSetup), id) && !BothSet(SetClientFlag(lookup, id, isSetup), id)
  {
    assert !BothSet(lookup, id);
  }

  /** Under the code as written, a flag update never raises readiness and never sends a sync request. */
  lemma {:induction false} FlagStepsNeverReady(v: View, id: uint32, isSetup: bool, net: Net)
    requires NeverBoth(v.lookup)
    ensures !SetHostStep(v, id, isSetup, net).view.ready && SetHostStep(v, id, isSetup, net).posts == []
    ensures !SetClientStep(v, id, isSetup, net).view.ready && SetClientStep(v, id, isSetup, net).posts == []
    ensures NeverBoth(SetHostStep(v, id, isSetup, net).view.lookup)
    ensures NeverBoth(SetClientStep(v, id, isSetup, net).view.lookup)
  {
    FlagUpdatesKeepNeverBoth(v.lookup, id, isSetup);
  }

  lemma {:induction false} AnnounceKeepsValid(v: View, id: uint32, action: PacketAction, net: Net)
    requires NeverBoth(v.lookup) && !v.ready
    ensures NeverBoth(AnnounceStep(v, id, action, net).view.lookup) && !AnnounceStep(v, id, action, net).view.ready
  {
    FlagStepsNeverReady(v, id, true, net);
  }

  lemma {:induction false} ReactionKeepsValid(v: View, sender: PeerId, id: uint32, action: PacketAction, net: Net, senderIsPlayer: bool)
    requires NeverBoth(v.lookup) && !v.ready
    ensures NeverBoth(ActionReaction(v, sender, id, action, net, senderIsPlayer).step.view.lookup)
    ensures !ActionReaction(v, sender, id, action, net, senderIsPlayer).step.view.ready
    ensures ActionReaction(v, sender, id, action, net, senderIsPlayer).step.posts == []
  {
    FlagStepsNeverReady(v, id, action == Created, net);
    FlagStepsNeverReady(v, id, true, net);
    FlagStepsNeverReady(v, id, false, net);
  }

  /**
   * In a lobby, the master records its host flag for a new id and posts exactly one
   * broadcast of the action; a client with a master records its client flag and posts
   * exactly one send of the action to the master. A tracked id keeps its entry.
   */
  lemma {:induction false} AnnounceInLobby(v: View, id: uint32, action: PacketAction, net: Net)
    requires NeverBoth(v.lookup) && net.inLobby && (net.isMaster || net.HasMaster())
    ensures var s := AnnounceStep(v, id, action, net);
      && (id in v.lookup ==> s.view.lookup == v.lookup)
      && (id !in v.lookup && net.isMaster ==> s.view.lookup == v.lookup[id := Flags(true, false)])
      && (id !in v.lookup && !net.isMaster ==> s.view.lookup == v.lookup[id := Flags(false, true)])
      && (net.isMaster ==> s.posts == [ActionPost(id, action, Broadcast, TransportDefault)])
      && (!net.isMaster ==> s.posts == [ActionPost(id, action, ToPeer(net.master.value), TransportDefault)])
  {
    FlagStepsNeverReady(v, id, true, net);
  }

  /**
   * A client ignores packets that do not come from the master; from the master,
   * `Created` and `Destroyed` set the host flag to "action is Created" and a sync
   * request is dropped.
   */
  lemma {:induction false} ClientReaction(v: View, sender: PeerId, id: uint32, action: PacketAction, net: Net, senderIsPlayer: bool)
    requires !net.isMaster
    ensures var r := ActionReaction(v, sender, id, action, net, senderIsPlayer);
      && r.requested.None?
      && (!net.FromMaster(sender) || action == SyncRequest ==> r.step == Step(v, []))
      && (net.FromMaster(sender) && action != SyncRequest ==> r.step == SetHostStep(v, id, action == Created, net))
  {
  }

  /**
   * The master sets the client flag to true on `Created` and to false on
   * `Destroyed`, and names the sender of a sync request exactly when the sender
   * resolves to a player, without changing anything.
   */
  lemma {:induction false} MasterReaction(v: View, sender: PeerId, id: uint32, action: PacketAction, net: Net, senderIsPlayer: bool)
    requires net.isMaster
    ensures var r := ActionReaction(v, sender, id, action, net, senderIsPlayer);
      && (action == Created ==> r.step == SetClientStep(v, id, true, net) && r.requested.None?)
      && (action == Destroyed ==> r.step == SetClientStep(v, id, false, net) && r.requested.None?)
      && (action == SyncRequest ==> r.step == Step(v, []) && (r.requested.Some? <==> senderIsPlayer))
      && (r.requested.Some? ==> r.requested.value == sender)
  {
  }

  // ---- The evident intent (see README, Findings) ----

  /** The host-flag update as evidently intended: the entry's host flag is overwritten, its client flag kept. */
  function SetHostFlagIntended(lookup: map<uint32, Flags>, id: uint32, isSetup: bool): (r: map<uint32, Flags>)
    ensures r.Keys == lookup.Keys + {id} && r[id].SetupOnHost == isSetup
    ensures r[id].SetupOnClient == (id in lookup && lookup[id].SetupOnClient)
    ensures forall k | k in lookup && k != id :: r[k] == lookup[k]
  {
    lookup[id := Flags(isSetup, id in lookup && lookup[id].SetupOnClient)]
  }

  function SetClientFlagIntended(lookup: map<uint32, Flags>, id: uint32, isSetup: bool): (r: map<uint32, Flags>)
    ensures r.Keys == lookup.Keys + {id} && r[id].SetupOnClient == isSetup
    ensures r[id].SetupOnHost == (id in lookup && lookup[id].SetupOnHost)
    ensures forall k | k in lookup && k != id :: r[k] == lookup[k]
  {
    lookup[id := Flags(id in lookup && lookup[id].SetupOnHost, isSetup)]
  }

  /** The announcement's flag as evidently intended: true for `Created`, false for `Destroyed`. */
  function AnnouncedFlagIntended(action: PacketAction): bool {
    action == Created
  }

  /**
   * The intended rendezvous: once the host side and the client side have both
   * recorded `Created` for an id, in either order, the id is ready; a later
   * `Destroyed` on either side makes it not ready.
   */
  lemma {:induction false} IntendedRendezvous(lookup: map<uint32, Flags>, id: uint32)
    ensures BothSet(SetClientFlagIntended(SetHostFlagIntended(lookup, id, AnnouncedFlagIntended(Created)), id, AnnouncedFlagIntended(Created)), id)
    ensures BothSet(SetHostFlagIntended(SetClientFlagIntended(lookup, id, AnnouncedFlagIntended(Created)), id, AnnouncedFlagIntended(Created)), id)
    ensures !BothSet(SetHostFlagIntended(lookup, id, AnnouncedFlagIntended(Destroyed)), id)
    ensures !BothSet(SetClientFlagIntended(lookup, id, AnnouncedFlagIntended(Destroyed)), id)
  {
  }

  /**
   * The same two events under the code as written: starting from an empty map,
   * host `Created` then client `Created` leaves the id with only its host flag,
   * and a destroyed id is recorded with its flag set.
   */
  lemma {:induction false} AsWrittenSecondFlagLost(id: uint32)
    ensures SetClientFlag(SetHostFlag(map[], id, true), id, true) == map[id := Flags(true, false)]
    ensures !BothSet(SetClientFlag(SetHostFlag(map[], id, true), id, true), id)
    ensures AnnounceStep(View(map[], false), id, Destroyed, Net(true, true, None)).view.lookup == map[id := Flags(true, false)]
  {
    assert SetHostFlag(map[], id, true) == map[id := Flags(true, false)];
  }
}
