/**
 * `StateReplicator<S>`: one replicated value of a state type, and the type's
 * static half (`ReplicatorType` here) that owns the id registry, the handshake,
 * the three state channels and the type's size class.
 *
 * A state value is its marshalled bytes; every value of the type has the type's
 * `StateSize`. Sends that throw in the source (a state that does not fit the size
 * class) are modelled by an `ok` result of false; the caller stops there, as the
 * exception would.
 */
module StateReplicators {
  import opened Wrappers
  import opened Transport
  import opened Payload
  import opened SizeClass
  import opened Handshake
  import opened Collections

  datatype LifeTimeType = Permanent | Session

  /** A snapshot slot (the game's buffer types). */
  type BufferType = int

  /** The two change listeners: the `OnStateChanged` event and the optional holder. */
  datatype Listener = StateChangedEvent | HolderCallback

  datatype Notice = Notice(listener: Listener, oldState: seq<byte>, newState: seq<byte>, isRecall: bool)

  /** What a state type's sends are built from: its marshalled length and its size class. */
  datatype Ctx = Ctx(stateSize: nat, sizeType: nat) {
    predicate Ok() { IsSizeClass(sizeType) }
    predicate Fits(x: seq<byte>) { |x| <= sizeType }
    /** Every value of the type fits the size class. */
    predicate Encodable() { stateSize <= sizeType }
  }

  /** The value view of one replicator. */
  datatype Rep = Rep(
    ID: uint32,
    State: seq<byte>,
    LastState: seq<byte>,
    ClientSendStateAllowed: bool,
    Holder: bool,
    snapshots: map<BufferType, seq<byte>>,
    notices: seq<Notice>)

  /** Every state a replicator holds has the type's length `n`. */
  ghost predicate RepShaped(r: Rep, n: nat) {
    && |r.State| == n && |r.LastState| == n
    && forall t | t in r.snapshots :: |r.snapshots[t]| == n
  }

  /** What an operation did: the replicator afterwards, the sends posted, and whether it completed. */
  datatype Outcome = Outcome(rep: Rep, posts: seq<Post>, ok: bool)

  /** The send a state channel posts for `x`. */
  function StateWire(ctx: Ctx, channel: Channel, id: uint32, x: seq<byte>, target: Option<PeerId>): Post
    requires ctx.Ok() && ctx.Fits(x)
  {
    LadderFitsBuffer(ctx.sizeType);
    Post(channel, TargetOf(target), GameOrderCritical, id, StateBody(WireBytes(x, ctx.sizeType)))
  }

  predicate CanSendToClient(net: Net) {
    net.inLobby && net.isMaster
  }

  predicate CanSendToHost(net: Net, allowed: bool) {
    net.inLobby && !net.isMaster && net.HasMaster() && allowed
  }

  /**
   * The two send gates never open together, and neither opens outside a lobby:
   * the master sends to clients, and a client sends to the master only when
   * there is one and its replicator allows it.
   */
  lemma SendGates(net: Net, allowed: bool)
    ensures !(CanSendToClient(net) && CanSendToHost(net, allowed))
    ensures CanSendToClient(net) || CanSendToHost(net, allowed) <==> net.inLobby && (net.isMaster || (net.HasMaster() && allowed))
    ensures CanSendToHost(net, allowed) ==> allowed && net.master.Some?
  {
  }

  /** The listener calls of one change: the event first, then the holder when there is one. */
  function ChangeNotices(oldState: seq<byte>, newState: seq<byte>, isRecall: bool, holder: bool): seq<Notice> {
    [Notice(StateChangedEvent, oldState, newState, isRecall)]
      + if holder then [Notice(HolderCallback, oldState, newState, isRecall)] else []
  }

  /**
   * `Internal_ChangeState`: a live replicator takes `x` as its state, keeps the
   * state it replaces as the previous one, and its listeners hear of the change;
   * its id, snapshots and permissions are untouched.
   */
  function ChangeState(r: Rep, x: seq<byte>, isRecall: bool): (c: Rep)
    ensures c.ID == r.ID && c.snapshots == r.snapshots && c.Holder == r.Holder
    ensures c.ClientSendStateAllowed == r.ClientSendStateAllowed
    ensures r.ID != 0 ==> c.State == x && c.LastState == r.State
    ensures r.ID == 0 ==> c == r
    ensures r.ID != 0 ==> |c.notices| == |r.notices| + (if r.Holder then 2 else 1) && c.notices[..|r.notices|] == r.notices
    ensures r.ID != 0 ==> c.notices[|r.notices|] == Notice(StateChangedEvent, r.State, x, isRecall)
  {
    if r.ID == 0 then r
    else r.(State := x, LastState := r.State, notices := r.notices + ChangeNotices(r.State, x, isRecall, r.Holder))
  }

  /**
   * `SetState` (and `DoSync`): at most one send; only the master changes its own
   * state, and a state that does not fit the size class fails with nothing
   * changed and nothing sent.
   */
  function SetStateOutcome(ctx: Ctx, r: Rep, x: seq<byte>, net: Net): (o: Outcome)
    requires ctx.Ok()
    ensures |o.posts| <= 1
    ensures o.rep == r || (CanSendToClient(net) && o.rep == ChangeState(r, x, false))
    ensures !o.ok <==> r.ID != 0 && (CanSendToClient(net) || CanSendToHost(net, r.ClientSendStateAllowed)) && !ctx.Fits(x)
    ensures !o.ok ==> o.rep == r && o.posts == []
  {
    if r.ID == 0 then Outcome(r, [], true)
    else if CanSendToClient(net) then
      if ctx.Fits(x) then Outcome(ChangeState(r, x, false), [StateWire(ctx, HostSetState, r.ID, x, None)], true)
      else Outcome(r, [], false)
    else if CanSendToHost(net, r.ClientSendStateAllowed) then
      if ctx.Fits(x) then Outcome(r, [StateWire(ctx, ClientRequest, r.ID, x, net.master)], true)
      else Outcome(r, [], false)
    else Outcome(r, [], true)
  }

  /** `SetStateUnsynced`. */
  function Unsynced(r: Rep, x: seq<byte>): Rep {
    if r.ID == 0 then r else r.(State := x, LastState := x)
  }

  /** `SaveSnapshot`. */
  function SavedSnapshot(r: Rep, t: BufferType): Rep {
    if r.ID == 0 then r else r.(snapshots := r.snapshots[t := r.State])
  }

  /** `ClearAllRecallSnapshot`. */
  function ClearedSnapshots(r: Rep): Rep {
    if r.ID == 0 then r else r.(snapshots := map[])
  }

  /**
   * `RestoreSnapshot`: only the master restores, and only a saved slot; the
   * saved state becomes the state and is broadcast once.
   */
  function RestoreOutcome(ctx: Ctx, r: Rep, t: BufferType, net: Net): (o: Outcome)
    requires ctx.Ok()
    ensures |o.posts| <= 1
    ensures o.rep != r || o.posts != [] ==> r.ID != 0 && CanSendToClient(net) && t in r.snapshots
    ensures o.posts != [] ==> o.rep == ChangeState(r, r.snapshots[t], true) && o.posts[0].target == Broadcast
    ensures !o.ok ==> o.rep == r && o.posts == []
  {
    if r.ID != 0 && CanSendToClient(net) && t in r.snapshots then
      if ctx.Fits(r.snapshots[t]) then
        Outcome(ChangeState(r, r.snapshots[t], true), [StateWire(ctx, HostSetRecallState, r.ID, r.snapshots[t], None)], true)
      else Outcome(r, [], false)
    else Outcome(r, [], true)
  }

  /** `SendDropInState`: nothing changes but the outbox, which gets at most one send, to the target. */
  function DropInOutcome(ctx: Ctx, r: Rep, target: Option<PeerId>): (o: Outcome)
    requires ctx.Ok()
    ensures o.rep == r && |o.posts| <= 1
    ensures o.posts != [] ==> target.Some? && r.ID != 0 && o.posts[0].target == ToPeer(target.value)
  {
    if r.ID == 0 || target.None? then Outcome(r, [], true)
    else if ctx.Fits(r.State) then Outcome(r, [StateWire(ctx, HostSetRecallState, r.ID, r.State, target)], true)
    else Outcome(r, [], false)
  }

  /** `Unload`'s effect on the replicator itself: it is invalid afterwards; its state and history stay. */
  function Unloaded(r: Rep): (u: Rep)
    ensures u.ID == 0 && u.State == r.State && u.LastState == r.LastState && u.notices == r.notices
    ensures r.ID != 0 ==> u.snapshots == map[]
  {
    if r.ID == 0 then r else r.(ID := 0, snapshots := map[])
  }

  class StateReplicator {
    const owner: ReplicatorType
    const LifeTime: LifeTimeType
    var ID: uint32
    var Holder: bool
    var State: seq<byte>
    var LastState: seq<byte>
    var ClientSendStateAllowed: bool
    var recallStateSnapshots: map<BufferType, seq<byte>>
    var notices: seq<Notice>

    function ToRep(): Rep
      reads this
    {
      Rep(ID, State, LastState, ClientSendStateAllowed, Holder, recallStateSnapshots, notices)
    }

    /** Every state the replicator holds has the type's length. */
    ghost predicate Shaped()
      reads this
    {
      RepShaped(ToRep(), owner.StateSize)
    }

    /** A valid replicator is the one its type registers under its id. */
    ghost predicate Valid()
      reads this, owner
    {
      Shaped() && (ID != 0 ==> ID in owner.replicators && owner.replicators[ID] == this)
    }

    /** The instance `Create` builds: id, lifetime and start state; the previous state is the type's default (all zero). */
    constructor (owner: ReplicatorType, id: uint32, lifeTime: LifeTimeType, startState: seq<byte>)
      requires |startState| == owner.StateSize
      ensures this.owner == owner && LifeTime == lifeTime
      ensures ToRep() == Rep(id, startState, Zeros(owner.StateSize), true, false, map[], [])
      ensures Shaped()
    {
      this.owner := owner;
      LifeTime := lifeTime;
      ID := id;
      Holder := false;
      State := startState;
      LastState := Zeros(owner.StateSize);
      ClientSendStateAllowed := true;
      recallStateSnapshots := map[];
      notices := [];
    }

    predicate IsValid()
      reads this
    {
      ID != 0
    }

    method SetState(x: seq<byte>, net: Net) returns (ok: bool)
      requires owner.Wired() && Shaped() && |x| == owner.StateSize
      modifies this, owner.out
      ensures Shaped()
      ensures ToRep() == SetStateOutcome(owner.TypeCtx(), old(ToRep()), x, net).rep
      ensures owner.out.sent == old(owner.out.sent) + SetStateOutcome(owner.TypeCtx(), old(ToRep()), x, net).posts
      ensures ok == SetStateOutcome(owner.TypeCtx(), old(ToRep()), x, net).ok
    {
      if ID == 0 {
        return true;
      }
      ok := DoSync(x, net);
    }

    method SetStateUnsynced(x: seq<byte>)
      requires Shaped() && |x| == owner.StateSize
      modifies this
      ensures Shaped()
      ensures ToRep() == Unsynced(old(ToRep()), x)
    {
      if ID == 0 {
        return;
      }
      LastState := x;
      State := x;
    }

    /** Leaves the registry, drops the snapshots, reports destruction to the handshake and becomes invalid. */
    method Unload(net: Net)
      requires Valid() && owner.Valid()
      modifies this, owner, owner.handshake, owner.out
      ensures Valid() && owner.Valid()
      ensures ToRep() == Unloaded(old(ToRep()))
      ensures old(ID) == 0 ==> owner.replicators == old(owner.replicators)
      ensures old(ID) == 0 ==> owner.handshake.ToView() == old(owner.handshake.ToView()) && owner.out.sent == old(owner.out.sent)
      ensures old(ID) != 0 ==> owner.replicators == old(owner.replicators) - {old(ID)}
      ensures old(ID) != 0 ==>
        && owner.handshake.ToView() == AnnounceStep(old(owner.handshake.ToView()), old(ID), Destroyed, net).view
        && owner.out.sent == old(owner.out.sent) + AnnounceStep(old(owner.handshake.ToView()), old(ID), Destroyed, net).posts
    {
      if ID != 0 {
        owner.replicators := owner.replicators - {ID};
        recallStateSnapshots := map[];
        owner.handshake.UpdateDestroyed(ID, net, owner.out);
        ID := 0;
      }
    }

    method DoSync(x: seq<byte>, net: Net) returns (ok: bool)
      requires owner.Wired() && Shaped() && |x| == owner.StateSize
      modifies this, owner.out
      ensures Shaped()
      ensures ToRep() == SetStateOutcome(owner.TypeCtx(), old(ToRep()), x, net).rep
      ensures owner.out.sent == old(owner.out.sent) + SetStateOutcome(owner.TypeCtx(), old(ToRep()), x, net).posts
      ensures ok == SetStateOutcome(owner.TypeCtx(), old(ToRep()), x, net).ok
    {
      ok := true;
      if ID != 0 {
        if CanSendToClient(net) {
          ok := owner.hostSetStateEvent.Invoke(ID, x, None, GameOrderCritical, owner.out);
          if ok {
            Internal_ChangeState(x, false);
          }
        } else if CanSendToHost(net, ClientSendStateAllowed) {
          ok := owner.clientRequestEvent.Invoke(ID, x, net.master, GameOrderCritical, owner.out);
        }
      }
    }

    method Internal_ChangeState(x: seq<byte>, isRecall: bool)
      requires Shaped() && |x| == owner.StateSize
      modifies this
      ensures Shaped()
      ensures ToRep() == ChangeState(old(ToRep()), x, isRecall)
    {
      if ID == 0 {
        return;
      }
      var oldState := State;
      State := x;
      LastState := oldState;
      notices := notices + [Notice(StateChangedEvent, oldState, x, isRecall)];
      if Holder {
        notices := notices + [Notice(HolderCallback, oldState, x, isRecall)];
      }
    }

    /** Sends the current state to one peer on the recall channel; invalid or no target: a log line only. */
    method SendDropInState(target: Option<PeerId>) returns (ok: bool)
      requires owner.Wired()
      modifies owner.out
      ensures owner.out.sent == old(owner.out.sent) + DropInOutcome(owner.TypeCtx(), ToRep(), target).posts
      ensures ok == DropInOutcome(owner.TypeCtx(), ToRep(), target).ok
    {
      if ID == 0 || target.None? {
        return true;
      }
      ok := owner.hostSetRecallStateEvent.Invoke(ID, State, target, GameOrderCritical, owner.out);
    }

    method ClearAllRecallSnapshot()
      requires Shaped()
      modifies this
      ensures Shaped()
      ensures ToRep() == ClearedSnapshots(old(ToRep()))
    {
      if ID == 0 {
        return;
      }
      recallStateSnapshots := map[];
    }

    method SaveSnapshot(t: BufferType)
      requires Shaped()
      modifies this
      ensures Shaped()
      ensures ToRep() == SavedSnapshot(old(ToRep()), t)
    {
      if ID == 0 {
        return;
      }
      recallStateSnapshots := recallStateSnapshots[t := State];
    }

    method RestoreSnapshot(t: BufferType, net: Net) returns (ok: bool)
      requires owner.Wired() && Shaped()
      modifies this, owner.out
      ensures Shaped()
      ensures ToRep() == RestoreOutcome(owner.TypeCtx(), old(ToRep()), t, net).rep
      ensures owner.out.sent == old(owner.out.sent) + RestoreOutcome(owner.TypeCtx(), old(ToRep()), t, net).posts
      ensures ok == RestoreOutcome(owner.TypeCtx(), old(ToRep()), t, net).ok
    {
      ok := true;
      if ID != 0 && CanSendToClient(net) {
        if t in recallStateSnapshots {
          var savedState := recallStateSnapshots[t];
          ok := owner.hostSetRecallStateEvent.Invoke(ID, savedState, None, GameOrderCritical, owner.out);
          if ok {
            Internal_ChangeState(savedState, true);
          }
        }
      }
    }
  }

  /** The positions of `rs` holding a session-lifetime replicator, in increasing order. */
  function SessionPositions(rs: seq<StateReplicator>): (ps: seq<int>)
    ensures forall k | 0 <= k < |ps| :: 0 <= ps[k] < |rs| && rs[ps[k]].LifeTime == Session
    ensures forall k, k' | 0 <= k < k' < |ps| :: ps[k] < ps[k']
    ensures forall j | 0 <= j < |rs| && rs[j].LifeTime == Session :: j in ps
  {
    if rs == [] then []
    else
      var n := |rs| - 1;
      var rest := SessionPositions(rs[..n]);
      if rs[n].LifeTime == Session then rest + [n] else rest
  }

  /**
   * The ids of `order` whose replicator (at the same position of `rs`) has
   * session lifetime, in order: `order` read at the session positions.
   */
  function SessionIds(order: seq<uint32>, rs: seq<StateReplicator>): (r: seq<uint32>)
    requires |order| == |rs|
    ensures forall k | 0 <= k < |r| :: exists j | 0 <= j < |order| :: r[k] == order[j] && rs[j].LifeTime == Session
  {
    if order == [] then []
    else
      var n := |order| - 1;
      var rest := SessionIds(order[..n], rs[..n]);
      if rs[n].LifeTime == Session then rest + [order[n]] else rest
  }

  /**
   * The listed ids are exactly `order` read at the session positions, in
   * order, so every session-lifetime id is listed.
   */
  lemma {:induction false} SessionIdsExact(order: seq<uint32>, rs: seq<StateReplicator>)
    requires |order| == |rs|
    ensures |SessionIds(order, rs)| == |SessionPositions(rs)|
    ensures forall k | 0 <= k < |SessionPositions(rs)| :: SessionIds(order, rs)[k] == order[SessionPositions(rs)[k]]
    ensures forall j | 0 <= j < |order| && rs[j].LifeTime == Session :: order[j] in SessionIds(order, rs)
  {
    if order != [] {
      var n := |order| - 1;
      SessionIdsExact(order[..n], rs[..n]);
      var ps := SessionPositions(rs);
      assert forall k | 0 <= k < |ps| :: SessionIds(order, rs)[k] == order[ps[k]];
    }
  }

  /** The views of `rs`, position by position. */
  ghost function RepsOf(rs: seq<StateReplicator>): (reps: seq<Rep>)
    reads rs
    ensures |reps| == |rs| && forall j | 0 <= j < |rs| :: reps[j] == rs[j].ToRep()
  {
    seq(|rs|, j requires 0 <= j < |rs| reads rs => rs[j].ToRep())
  }

  ghost predicate Distinct<T>(xs: seq<T>) {
    forall j, k | 0 <= j < k < |xs| :: xs[j] != xs[k]
  }

  /**
   * The handshake sends of destroying `ids` under a handshake whose entries never
   * hold both flags: one `Destroyed` per id, broadcast by the master or sent to the
   * master by a client, and nothing outside a lobby or without a master.
   */
  function DestroyedPosts(ids: seq<uint32>, net: Net): (r: seq<Post>)
  {
    if !net.inLobby || (!net.isMaster && !net.HasMaster()) then []
    else
      var target := if net.isMaster then Broadcast else ToPeer(net.master.value);
      seq(|ids|, i requires 0 <= i < |ids| => ActionPost(ids[i], Destroyed, target, TransportDefault))
  }

  /** The recall sends of restoring slot `t` on replicators with views `reps`, in order. */
  function RecallPosts(ctx: Ctx, reps: seq<Rep>, t: BufferType, net: Net): seq<Post>
    requires ctx.Ok()
  {
    if reps == [] then []
    else RecallPosts(ctx, reps[..|reps| - 1], t, net) + RestoreOutcome(ctx, reps[|reps| - 1], t, net).posts
  }

  /** The drop-in sends to `player` of replicators with views `reps`, in order. */
  function DropInPosts(ctx: Ctx, reps: seq<Rep>, player: PeerId): seq<Post>
    requires ctx.Ok()
  {
    if reps == [] then []
    else DropInPosts(ctx, reps[..|reps| - 1], player) + DropInOutcome(ctx, reps[|reps| - 1], Some(player)).posts
  }

  /** The static half of `StateReplicator<S>` for one state type. */
  class ReplicatorType {
    const StateSize: nat
    const StateSizeType: nat
    const clientRequestEvent: ReplicatorPayload
    const hostSetStateEvent: ReplicatorPayload
    const hostSetRecallStateEvent: ReplicatorPayload
    const handshake: ReplicatorHandshake
    const out: Outbox
    var replicators: map<uint32, StateReplicator>

    function TypeCtx(): Ctx {
      Ctx(StateSize, StateSizeType)
    }

    predicate Encodable() {
      StateSize <= StateSizeType
    }

    ghost function Registered(): set<StateReplicator>
      reads this
    {
      set id | id in replicators :: replicators[id]
    }

    /** The registered replicators in the enumeration order `order` of their ids. */
    function ValuesOf(order: seq<uint32>): (rs: seq<StateReplicator>)
      reads this
      requires forall j | 0 <= j < |order| :: order[j] in replicators
      ensures |rs| == |order| && forall j | 0 <= j < |order| :: rs[j] == replicators[order[j]]
    {
      seq(|order|, j requires 0 <= j < |order| && order[j] in replicators reads this => replicators[order[j]])
    }

    /** In a valid registry, an enumeration of the ids lists distinct, well-shaped replicators of this type. */
    lemma ValuesInOrder(order: seq<uint32>)
      requires Valid() && Enumerates(order, replicators.Keys)
      ensures Distinct(ValuesOf(order))
      ensures forall j | 0 <= j < |order| ::
        ValuesOf(order)[j].owner == this && ValuesOf(order)[j].Shaped() && ValuesOf(order)[j].ID == order[j]
    {
    }

    /** Validity depends on the registered replicators only through their owner, id and shape. */
    lemma ValidFromParts(order: seq<uint32>)
      requires Wired() && handshake.Valid() && Enumerates(order, replicators.Keys)
      requires forall j | 0 <= j < |order| ::
        order[j] != 0 && ValuesOf(order)[j].owner == this && ValuesOf(order)[j].ID == order[j] && ValuesOf(order)[j].Shaped()
      ensures Valid()
    {
      forall id | id in replicators
        ensures id != 0 && replicators[id].owner == this && replicators[id].ID == id && replicators[id].Shaped()
      {
        var j :| 0 <= j < |order| && order[j] == id;
      }
    }

    /** The channels and the size class fixed when the type was first used. */
    ghost predicate Wired() {
      && IsSizeClass(StateSizeType) && IsAsWrittenSizeType(StateSize, StateSizeType)
      && clientRequestEvent.channel == ClientRequest && clientRequestEvent.payloadSize == StateSizeType
      && hostSetStateEvent.channel == HostSetState && hostSetStateEvent.payloadSize == StateSizeType
      && hostSetRecallStateEvent.channel == HostSetRecallState && hostSetRecallStateEvent.payloadSize == StateSizeType
    }

    /** Id 0 is never registered, and each id maps to the replicator of that id. */
    ghost predicate Valid()
      reads this, handshake, Registered()
    {
      && Wired()
      && handshake.Valid()
      && forall id | id in replicators ::
           id != 0 && replicators[id].owner == this && replicators[id].ID == id && replicators[id].Shaped()
    }

    /** The static constructor: size class from the state's length, three state channels and the handshake. */
    constructor (stateSize: nat)
      ensures Valid() && StateSize == stateSize && replicators == map[]
      ensures fresh(handshake) && fresh(out) && out.sent == [] && handshake.lookup == map[]
    {
      var sizeType := GetSizeType(stateSize);
      assert IsSizeClass(sizeType) by {
        assert 8 in Ladder;
      }
      StateSize := stateSize;
      StateSizeType := sizeType;
      clientRequestEvent := new ReplicatorPayload(sizeType, ClientRequest);
      hostSetStateEvent := new ReplicatorPayload(sizeType, HostSetState);
      hostSetRecallStateEvent := new ReplicatorPayload(sizeType, HostSetRecallState);
      handshake := new ReplicatorHandshake();
      out := new Outbox();
      replicators := map[];
    }

    /**
     * Registers a new replicator: id 0 and an id already in use are refused with a
     * null result and no change; a session-lifetime replicator is announced to the
     * handshake first.
     */
    method Create(id: uint32, startState: seq<byte>, lifeTime: LifeTimeType, net: Net) returns (r: StateReplicator?)
      requires Valid() && |startState| == StateSize
      modifies this, handshake, out
      ensures Valid()
      ensures id == 0 || id in old(replicators) ==>
        && r == null && replicators == old(replicators)
        && handshake.ToView() == old(handshake.ToView()) && out.sent == old(out.sent)
      ensures id != 0 && id !in old(replicators) ==>
        && r != null && fresh(r) && r.Valid()
        && replicators == old(replicators)[id := r]
        && r.owner == this && r.LifeTime == lifeTime
        && r.ToRep() == Rep(id, startState, Zeros(StateSize), true, false, map[], [])
      ensures id != 0 && id !in old(replicators) && lifeTime == Session ==>
        && handshake.ToView() == AnnounceStep(old(handshake.ToView()), id, Created, net).view
        && out.sent == old(out.sent) + AnnounceStep(old(handshake.ToView()), id, Created, net).posts
      ensures id != 0 && id !in old(replicators) && lifeTime == Permanent ==>
        handshake.ToView() == old(handshake.ToView()) && out.sent == old(out.sent)
    {
      if id == 0 {
        return null;
      }
      if id in replicators {
        return null;
      }
      r := new StateReplicator(this, id, lifeTime, startState);
      if lifeTime == Session {
        handshake.UpdateCreated(id, net, out);
      }
      replicators := replicators[id := r];
    }

    /** A client's request to change a state: applied on the master through `SetState`. */
    method ClientRequestEventCallback(sender: PeerId, id: uint32, x: seq<byte>, net: Net) returns (ok: bool)
      requires Valid() && |x| == StateSize
      modifies Registered(), out
      ensures Valid() && replicators == old(replicators)
      ensures !net.isMaster || id !in replicators ==> out.sent == old(out.sent) && ok
      ensures forall k | k in replicators && (k != id || !net.isMaster) :: replicators[k].ToRep() == old(replicators[k].ToRep())
      ensures net.isMaster && id in replicators ==>
        && replicators[id].ToRep() == SetStateOutcome(TypeCtx(), old(replicators[id].ToRep()), x, net).rep
        && out.sent == old(out.sent) + SetStateOutcome(TypeCtx(), old(replicators[id].ToRep()), x, net).posts
        && ok == SetStateOutcome(TypeCtx(), old(replicators[id].ToRep()), x, net).ok
    {
      ok := true;
      if !net.isMaster {
        return;
      }
      if id in replicators {
        ok := replicators[id].SetState(x, net);
      }
    }

    /** The master's state broadcast, applied when it comes from the master to a registered id. */
    method HostSetStateEventCallback(sender: PeerId, id: uint32, x: seq<byte>, net: Net)
      requires Valid() && |x| == StateSize
      modifies Registered()
      ensures Valid() && replicators == old(replicators)
      ensures forall k | k in replicators && (k != id || !net.FromMaster(sender)) :: replicators[k].ToRep() == old(replicators[k].ToRep())
      ensures net.FromMaster(sender) && id in replicators ==>
        replicators[id].ToRep() == ChangeState(old(replicators[id].ToRep()), x, false)
    {
      ApplyFromMaster(sender, id, x, false, net);
    }

    /** The master's recall broadcast or drop-in send, applied as a recall. */
    method HostSetRecallStateEventCallback(sender: PeerId, id: uint32, x: seq<byte>, net: Net)
      requires Valid() && |x| == StateSize
      modifies Registered()
      ensures Valid() && replicators == old(replicators)
      ensures forall k | k in replicators && (k != id || !net.FromMaster(sender)) :: replicators[k].ToRep() == old(replicators[k].ToRep())
      ensures net.FromMaster(sender) && id in replicators ==>
        replicators[id].ToRep() == ChangeState(old(replicators[id].ToRep()), x, true)
    {
      ApplyFromMaster(sender, id, x, true, net);
    }

    method ApplyFromMaster(sender: PeerId, id: uint32, x: seq<byte>, isRecall: bool, net: Net)
      requires Valid() && |x| == StateSize
      modifies Registered()
      ensures Valid() && replicators == old(replicators)
      ensures forall k | k in replicators && (k != id || !net.FromMaster(sender)) :: replicators[k].ToRep() == old(replicators[k].ToRep())
      ensures net.FromMaster(sender) && id in replicators ==>
        replicators[id].ToRep() == ChangeState(old(replicators[id].ToRep()), x, isRecall)
    {
      if !net.HasMaster() {
        return;
      }
      if net.master.value != sender {
        return;
      }
      if id in replicators {
        replicators[id].Internal_ChangeState(x, isRecall);
      }
    }

    /** A served sync request: every valid replicator sends its state to the player. */
    method ClientSyncRequested(player: PeerId, order: seq<uint32>) returns (ok: bool)
      requires Valid() && Enumerates(order, replicators.Keys)
      modifies out
      ensures out.sent == old(out.sent) + DropInPosts(TypeCtx(), RepsOf(ValuesOf(order)), player)
      ensures ok <==> Encodable() || order == []
    {
      var rs := ValuesOf(order);
      ValuesInOrder(order);
      ok := SendEach(rs, player);
      if !Encodable() && order != [] {
        assert !DropInOutcome(TypeCtx(), rs[0].ToRep(), Some(player)).ok;
      }
    }

    /** The loop of `ClientSyncRequested`, over the registered replicators in order; a failed send ends it. */
    method SendEach(rs: seq<StateReplicator>, player: PeerId) returns (ok: bool)
      requires Wired() && forall j | 0 <= j < |rs| :: rs[j].owner == this && rs[j].Shaped()
      modifies out
      ensures out.sent == old(out.sent) + DropInPosts(TypeCtx(), RepsOf(rs), player)
      ensures ok <==> forall j | 0 <= j < |rs| :: DropInOutcome(TypeCtx(), rs[j].ToRep(), Some(player)).ok
    {
      ghost var reps := RepsOf(rs);
      ok := true;
      var i := 0;
      while i < |rs|
        invariant 0 <= i <= |rs|
        invariant out.sent == old(out.sent) + DropInPosts(TypeCtx(), reps[..i], player)
            invariant AllDropInsOk(TypeCtx(), reps, i, player)
      {
        ok := SendStep(rs, player, i, reps, old(out.sent));
        if !ok {
          return;
        }
        i := i + 1;
      }
      assert reps[..i] == reps;
    }

    /** An iteration of `SendEach`: on failure no send of the whole loop happens. */
    method SendStep(rs: seq<StateReplicator>, player: PeerId, i: nat, ghost reps: seq<Rep>, ghost sent0: seq<Post>) returns (ok: bool)
      requires Wired() && i < |rs| && reps == RepsOf(rs)
      requires forall j | 0 <= j < |rs| :: rs[j].owner == this && rs[j].Shaped()
      requires out.sent == sent0 + DropInPosts(TypeCtx(), reps[..i], player)
      requires AllDropInsOk(TypeCtx(), reps, i, player)
      modifies out
      ensures ok == DropInOutcome(TypeCtx(), reps[i], Some(player)).ok
      ensures ok ==> AllDropInsOk(TypeCtx(), reps, i + 1, player)
      ensures ok ==> out.sent == sent0 + DropInPosts(TypeCtx(), reps[..i + 1], player)
      ensures !ok ==> out.sent == sent0 + DropInPosts(TypeCtx(), reps, player)
    {
      ok := rs[i].SendDropInState(Some(player));
      if ok {
        DropInAdvances(TypeCtx(), reps, i, player);
      } else {
        DropInStops(TypeCtx(), reps, i, player);
      }
    }

    /** Buffer capture: every valid replicator saves its state in slot `t`. */
    method BufferStored(t: BufferType, order: seq<uint32>)
      requires Valid() && Enumerates(order, replicators.Keys)
      modifies Registered()
      ensures Valid() && replicators == old(replicators)
      ensures forall id | id in replicators :: replicators[id].ToRep() == SavedSnapshot(old(replicators[id].ToRep()), t)
    {
      var rs := ValuesOf(order);
      ValuesInOrder(order);
      SaveEach(rs, t);
      forall id | id in replicators
        ensures replicators[id].ToRep() == SavedSnapshot(old(replicators[id].ToRep()), t)
      {
        var j :| 0 <= j < |order| && order[j] == id;
      }
    }

    /** The loop of `BufferStored`, over the registered replicators in order. */
    method SaveEach(rs: seq<StateReplicator>, t: BufferType)
      requires Distinct(rs) && forall j | 0 <= j < |rs| :: rs[j].Shaped()
      modifies rs
      ensures forall j | 0 <= j < |rs| :: rs[j].Shaped() && rs[j].ToRep() == SavedSnapshot(old(rs[j].ToRep()), t)
    {
      var i := 0;
      while i < |rs|
        invariant 0 <= i <= |rs|
        invariant forall j | 0 <= j < |rs| :: rs[j].Shaped()
        invariant forall j | 0 <= j < i :: rs[j].ToRep() == SavedSnapshot(old(rs[j].ToRep()), t)
        invariant forall j | i <= j < |rs| :: rs[j].ToRep() == old(rs[j].ToRep())
      {
        if rs[i].ID != 0 {
          rs[i].SaveSnapshot(t);
        }
        i := i + 1;
      }
    }

    /**
     * Buffer recall: every valid replicator restores slot `t` (as master), in the
     * enumeration order of the registry, until a send fails.
     */
    method BufferRecalled(t: BufferType, order: seq<uint32>, net: Net) returns (ok: bool)
      requires Valid() && Enumerates(order, replicators.Keys)
      modifies Registered(), out
      ensures Valid() && replicators == old(replicators)
      ensures RepsOf(ValuesOf(order)) == Restored(TypeCtx(), old(RepsOf(ValuesOf(order))), t, net)
      ensures out.sent == old(out.sent) + RecallPosts(TypeCtx(), old(RepsOf(ValuesOf(order))), t, net)
      ensures ok <==> forall j | 0 <= j < |order| :: RestoreOutcome(TypeCtx(), old(RepsOf(ValuesOf(order)))[j], t, net).ok
    {
      var rs := ValuesOf(order);
      ValuesInOrder(order);
      ok := RestoreEach(rs, t, net);
      ValidFromParts(order);
    }

    /** The loop of `BufferRecalled`, over the registered replicators in order; a failed send ends it. */
    method RestoreEach(rs: seq<StateReplicator>, t: BufferType, net: Net) returns (ok: bool)
      requires Wired() && Distinct(rs)
      requires forall j | 0 <= j < |rs| :: rs[j].owner == this && rs[j].Shaped()
      modifies rs, out
      ensures forall j | 0 <= j < |rs| :: rs[j].Shaped() && rs[j].ID == old(rs[j].ID)
      ensures RepsOf(rs) == Restored(TypeCtx(), old(RepsOf(rs)), t, net)
      ensures out.sent == old(out.sent) + RecallPosts(TypeCtx(), old(RepsOf(rs)), t, net)
      ensures ok <==> forall j | 0 <= j < |rs| :: RestoreOutcome(TypeCtx(), old(RepsOf(rs))[j], t, net).ok
    {
      ghost var reps := RepsOf(rs);
      ok := true;
      var i := 0;
      while i < |rs|
        invariant 0 <= i <= |rs|
        invariant RecallProgress(TypeCtx(), reps, RepsOf(rs), i, t, net)
        invariant out.sent == old(out.sent) + RecallPosts(TypeCtx(), reps[..i], t, net)
      {
        ok := RestoreStep(rs, t, net, i, reps, old(out.sent));
        if !ok {
          return;
        }
        i := i + 1;
      }
      RecallFinished(TypeCtx(), reps, RepsOf(rs), t, net);
    }

    /** An iteration of `RestoreEach`: on failure no restore of the whole loop does anything. */
    method RestoreStep(rs: seq<StateReplicator>, t: BufferType, net: Net, i: nat, ghost reps: seq<Rep>, ghost sent0: seq<Post>)
      returns (ok: bool)
      requires Wired() && Distinct(rs) && i < |rs|
      requires forall j | 0 <= j < |rs| :: rs[j].owner == this
      requires RecallProgress(TypeCtx(), reps, RepsOf(rs), i, t, net)
      requires out.sent == sent0 + RecallPosts(TypeCtx(), reps[..i], t, net)
      modifies rs[i], out
      ensures ok == RestoreOutcome(TypeCtx(), reps[i], t, net).ok
      ensures ok ==> RecallProgress(TypeCtx(), reps, RepsOf(rs), i + 1, t, net)
      ensures ok ==> out.sent == sent0 + RecallPosts(TypeCtx(), reps[..i + 1], t, net)
      ensures !ok ==> RecallDone(TypeCtx(), reps, RepsOf(rs), t, net) && out.sent == sent0 + RecallPosts(TypeCtx(), reps, t, net)
    {
      ghost var before := RepsOf(rs);
      ok := RestoreAt(rs, t, net, i);
      if ok {
        RecallAdvances(TypeCtx(), reps, before, i, t, net);
      } else {
        RecallStops(TypeCtx(), reps, before, i, t, net);
      }
    }

    /** The restore of `rs[i]` when it is valid, seen on the views of all of `rs`. */
    method RestoreAt(rs: seq<StateReplicator>, t: BufferType, net: Net, i: nat) returns (ok: bool)
      requires Wired() && Distinct(rs) && i < |rs| && rs[i].owner == this && rs[i].Shaped()
      modifies rs[i], out
      ensures RepsOf(rs) == old(RepsOf(rs))[i := RestoreOutcome(TypeCtx(), old(rs[i].ToRep()), t, net).rep]
      ensures out.sent == old(out.sent) + RestoreOutcome(TypeCtx(), old(rs[i].ToRep()), t, net).posts
      ensures ok == RestoreOutcome(TypeCtx(), old(rs[i].ToRep()), t, net).ok
    {
      ok := true;
      if rs[i].ID != 0 {
        ok := rs[i].RestoreSnapshot(t, net);
      }
      forall j | 0 <= j < |rs| && j != i
        ensures rs[j].ToRep() == old(rs[j].ToRep())
      {
        assert rs[j] != rs[i];
      }
    }

    /**
     * Session teardown: unloads and unregisters every session-lifetime replicator,
     * keeps the permanent ones, and resets the handshake.
     */
    method UnloadSessionReplicators(order: seq<uint32>, net: Net)
      requires Valid() && Enumerates(order, replicators.Keys)
      modifies this, Registered(), handshake, out
      ensures Valid()
      ensures replicators == Permanents(old(replicators))
      ensures RepsOf(old(ValuesOf(order))) == TornDown(old(RepsOf(ValuesOf(order))), old(ValuesOf(order)))
      ensures handshake.lookup == map[] && !handshake.IsReadyToSync
      ensures out.sent == old(out.sent) + DestroyedPosts(SessionIds(order, old(ValuesOf(order))), net)
    {
      var rs := ValuesOf(order);
      ValuesInOrder(order);
      var idsToRemove := UnloadEach(order, rs, net);
      SessionIdsNotPermanent(order, rs, old(replicators));
      FinishTeardown(idsToRemove, rs);
    }

    /** The end of `UnloadSessionReplicators`: the listed ids are removed, then the handshake is reset. */
    method FinishTeardown(ids: seq<uint32>, ghost rs: seq<StateReplicator>)
      requires Valid()
      modifies this, handshake
      ensures Valid() && RepsOf(rs) == old(RepsOf(rs))
      ensures replicators == Without(old(replicators), ids)
      ensures handshake.lookup == map[] && !handshake.IsReadyToSync
    {
      RemoveIds(ids);
      handshake.Reset();
    }

    /** The loop of `UnloadSessionReplicators`: unloads the session-lifetime replicators of `rs` and lists their ids. */
    method UnloadEach(order: seq<uint32>, rs: seq<StateReplicator>, net: Net) returns (ids: seq<uint32>)
      requires Valid() && Enumerates(order, replicators.Keys) && |order| == |rs| && Distinct(rs)
      requires forall j | 0 <= j < |rs| :: rs[j].ID == order[j] && replicators[order[j]] == rs[j]
      modifies this, rs, handshake, out
      ensures Valid()
      ensures ids == SessionIds(order, rs)
      ensures replicators == Permanents(old(replicators))
      ensures RepsOf(rs) == TornDown(old(RepsOf(rs)), rs)
      ensures out.sent == old(out.sent) + DestroyedPosts(ids, net)
    {
      ghost var reps := RepsOf(rs);
      assert Distinct(order);
      ids := [];
      var i := 0;
      while i < |rs|
        invariant 0 <= i <= |rs|
        invariant Valid()
        invariant TeardownProgress(order, rs, reps, RepsOf(rs), replicators, old(replicators), i, ids)
        invariant out.sent == old(out.sent) + DestroyedPosts(ids, net)
      {
        ids := UnloadStep(order, rs, net, i, ids, reps, old(replicators), old(out.sent));
        i := i + 1;
      }
      TeardownDone(order, rs, reps, RepsOf(rs), replicators, old(replicators), ids);
    }

    /** An iteration of the teardown loop: unloads `rs[i]` when it has session lifetime. */
    method UnloadStep(
      order: seq<uint32>, rs: seq<StateReplicator>, net: Net, i: nat, ids: seq<uint32>,
      ghost reps: seq<Rep>, ghost m0: map<uint32, StateReplicator>, ghost sent0: seq<Post>)
      returns (ids': seq<uint32>)
      requires Valid() && i < |rs| && Distinct(order) && Distinct(rs)
      requires TeardownProgress(order, rs, reps, RepsOf(rs), replicators, m0, i, ids)
      requires out.sent == sent0 + DestroyedPosts(ids, net)
      modifies this, rs[i], handshake, out
      ensures Valid()
      ensures TeardownProgress(order, rs, reps, RepsOf(rs), replicators, m0, i + 1, ids')
      ensures out.sent == sent0 + DestroyedPosts(ids', net)
    {
      assert order[..i + 1][..i] == order[..i] && rs[..i + 1][..i] == rs[..i];
      if rs[i].LifeTime == Permanent {
        TeardownPermanentStep(order, rs, reps, RepsOf(rs), replicators, m0, i, ids);
        return ids;
      }
      ghost var before := RepsOf(rs);
      ghost var m := replicators;
      assert replicators[order[i]] == rs[i] && rs[i].ID == order[i];
      UnloadOne(rs[i], net);
      assert RepsOf(rs) == before[i := Unloaded(before[i])];
      DestroyedPostsAppend(ids, order[i], net);
      TeardownSessionStep(order, rs, reps, before, m, m0, i, ids);
      ids' := ids + [order[i]];
    }

    /** The removal loop of `UnloadSessionReplicators`. */
    method RemoveIds(ids: seq<uint32>)
      requires Valid()
      modifies this
      ensures Valid()
      ensures replicators == Without(old(replicators), ids)
    {
      var j := 0;
      while j < |ids|
        invariant 0 <= j <= |ids|
        invariant Valid()
        invariant replicators == Without(old(replicators), ids[..j])
      {
        WithoutOneMore(old(replicators), ids, j);
        replicators := replicators - {ids[j]};
        j := j + 1;
      }
      assert ids[..j] == ids;
    }

    /** One step of the teardown: `Unload` of a registered replicator. */
    method UnloadOne(r: StateReplicator, net: Net)
      requires Valid() && r in Registered()
      modifies this, r, handshake, out
      ensures Valid()
      ensures replicators == old(replicators) - {old(r.ID)}
      ensures r.ToRep() == Unloaded(old(r.ToRep()))
      ensures out.sent == old(out.sent) + DestroyedPosts([old(r.ID)], net)
    {
      ghost var v := handshake.ToView();
      FlagStepsNeverReady(v, r.ID, true, net);
      r.Unload(net);
    }

    /** The level-cleanup hook. */
    method OnLevelCleanup(order: seq<uint32>, net: Net)
      requires Valid() && Enumerates(order, replicators.Keys)
      modifies this, Registered(), handshake, out
      ensures Valid()
      ensures replicators == Permanents(old(replicators))
      ensures handshake.lookup == map[]
      ensures out.sent == old(out.sent) + DestroyedPosts(SessionIds(order, old(ValuesOf(order))), net)
    {
      UnloadSessionReplicators(order, net);
    }

    /** The handshake channel's receive callback, with the handshake's sync-request event wired to `ClientSyncRequested`. */
    method OnHandshakePacket(sender: PeerId, packetId: uint32, action: PacketAction, net: Net, senderIsPlayer: bool, order: seq<uint32>)
      returns (ok: bool)
      requires Valid() && Enumerates(order, replicators.Keys)
      modifies handshake, out
      ensures Valid()
      ensures handshake.ToView() == ActionReaction(old(handshake.ToView()), sender, packetId, action, net, senderIsPlayer).step.view
      ensures ActionReaction(old(handshake.ToView()), sender, packetId, action, net, senderIsPlayer).requested.None? ==>
        out.sent == old(out.sent) + ActionReaction(old(handshake.ToView()), sender, packetId, action, net, senderIsPlayer).step.posts && ok
      ensures ActionReaction(old(handshake.ToView()), sender, packetId, action, net, senderIsPlayer).requested.Some? ==>
        out.sent == old(out.sent) + DropInPosts(TypeCtx(), RepsOf(ValuesOf(order)), sender)
    {
      SyncRequestedBySender(handshake.ToView(), sender, packetId, action, net, senderIsPlayer);
      var requested := handshake.OnSyncAction(sender, packetId, action, net, senderIsPlayer, out);
      ok := true;
      if requested.Some? {
        assert out.sent == old(out.sent) && requested.value == sender;
        ok := ClientSyncRequested(sender, order);
      }
    }
  }

  // ---- Lemmas used by the fan-out loops ----

  /** A handshake packet asks for a sync only from its own sender, and then changes and sends nothing itself. */
  lemma SyncRequestedBySender(v: View, sender: PeerId, id: uint32, action: PacketAction, net: Net, senderIsPlayer: bool)
    ensures var rx := ActionReaction(v, sender, id, action, net, senderIsPlayer);
      rx.requested.Some? ==> rx.requested.value == sender && rx.step == Step(v, [])
  {
  }

  lemma DestroyedPostsAppend(ids: seq<uint32>, id: uint32, net: Net)
    ensures DestroyedPosts(ids + [id], net) == DestroyedPosts(ids, net) + DestroyedPosts([id], net)
  {
  }

  /** The first `i` drop-in sends of `reps` all completed. */
  ghost predicate AllDropInsOk(ctx: Ctx, reps: seq<Rep>, i: nat, player: PeerId)
    requires ctx.Ok()
  {
    i <= |reps| && forall j | 0 <= j < i :: DropInOutcome(ctx, reps[j], Some(player)).ok
  }

  lemma DropInAdvances(ctx: Ctx, reps: seq<Rep>, i: nat, player: PeerId)
    requires ctx.Ok() && i < |reps| && AllDropInsOk(ctx, reps, i, player)
    requires DropInOutcome(ctx, reps[i], Some(player)).ok
    ensures AllDropInsOk(ctx, reps, i + 1, player)
    ensures DropInPosts(ctx, reps[..i + 1], player) == DropInPosts(ctx, reps[..i], player) + DropInOutcome(ctx, reps[i], Some(player)).posts
  {
    assert reps[..i + 1][..i] == reps[..i];
  }

  /** A failed drop-in send means no state of the type fits, so the whole loop sends nothing. */
  lemma DropInStops(ctx: Ctx, reps: seq<Rep>, i: nat, player: PeerId)
    requires ctx.Ok() && i < |reps| && !DropInOutcome(ctx, reps[i], Some(player)).ok
    requires forall j | 0 <= j < |reps| :: RepShaped(reps[j], ctx.stateSize)
    ensures DropInPosts(ctx, reps[..i], player) == [] && DropInPosts(ctx, reps, player) == []
  {
    NoDropInPosts(ctx, reps, player);
    NoDropInPosts(ctx, reps[..i], player);
  }

  /** The recall loop after `i` replicators (views `reps` at the start, `cur` now): those restored, the rest untouched. */
  ghost predicate RecallProgress(ctx: Ctx, reps: seq<Rep>, cur: seq<Rep>, i: nat, t: BufferType, net: Net)
    requires ctx.Ok()
  {
    && |cur| == |reps| && i <= |reps|
    && (forall j | 0 <= j < |reps| :: RepShaped(reps[j], ctx.stateSize) && RepShaped(cur[j], ctx.stateSize))
    && (forall j | 0 <= j < i :: cur[j] == RestoreOutcome(ctx, reps[j], t, net).rep && RestoreOutcome(ctx, reps[j], t, net).ok)
    && (forall j | i <= j < |reps| :: cur[j] == reps[j])
  }

  /** Every view as `RestoreSnapshot` leaves it. */
  function Restored(ctx: Ctx, reps: seq<Rep>, t: BufferType, net: Net): (r: seq<Rep>)
    requires ctx.Ok()
    ensures |r| == |reps|
  {
    seq(|reps|, j requires 0 <= j < |reps| => RestoreOutcome(ctx, reps[j], t, net).rep)
  }

  /** The recall loop's result: every replicator as the restore leaves it, ids kept and shapes kept. */
  ghost predicate RecallDone(ctx: Ctx, reps: seq<Rep>, cur: seq<Rep>, t: BufferType, net: Net)
    requires ctx.Ok()
  {
    && cur == Restored(ctx, reps, t, net)
    && forall j | 0 <= j < |reps| :: RepShaped(cur[j], ctx.stateSize) && cur[j].ID == reps[j].ID
  }

  lemma RecallFinished(ctx: Ctx, reps: seq<Rep>, cur: seq<Rep>, t: BufferType, net: Net)
    requires ctx.Ok() && RecallProgress(ctx, reps, cur, |reps|, t, net)
    ensures RecallDone(ctx, reps, cur, t, net)
    ensures reps[..|reps|] == reps
  {
  }

  lemma RecallAdvances(ctx: Ctx, reps: seq<Rep>, cur: seq<Rep>, i: nat, t: BufferType, net: Net)
    requires ctx.Ok() && RecallProgress(ctx, reps, cur, i, t, net) && i < |reps|
    requires RestoreOutcome(ctx, reps[i], t, net).ok
    ensures RecallProgress(ctx, reps, cur[i := RestoreOutcome(ctx, reps[i], t, net).rep], i + 1, t, net)
    ensures RecallPosts(ctx, reps[..i + 1], t, net) == RecallPosts(ctx, reps[..i], t, net) + RestoreOutcome(ctx, reps[i], t, net).posts
  {
    assert reps[..i + 1][..i] == reps[..i];
  }

  lemma RecallStops(ctx: Ctx, reps: seq<Rep>, cur: seq<Rep>, i: nat, t: BufferType, net: Net)
    requires ctx.Ok() && RecallProgress(ctx, reps, cur, i, t, net) && i < |reps|
    requires !RestoreOutcome(ctx, reps[i], t, net).ok
    ensures RecallDone(ctx, reps, cur[i := RestoreOutcome(ctx, reps[i], t, net).rep], t, net)
    ensures RecallPosts(ctx, reps[..i], t, net) == [] && RecallPosts(ctx, reps, t, net) == []
  {
    FailedRestoreIsInert(ctx, reps, t, net, i);
    NoRecallPosts(ctx, reps, t, net);
    NoRecallPosts(ctx, reps[..i], t, net);
  }

  /** The views of `rs` after the teardown: the session-lifetime ones unloaded, the rest as they were. */
  function TornDown(reps: seq<Rep>, rs: seq<StateReplicator>): (r: seq<Rep>)
    requires |reps| == |rs|
    ensures |r| == |reps|
  {
    seq(|reps|, j requires 0 <= j < |reps| => if rs[j].LifeTime == Session then Unloaded(reps[j]) else reps[j])
  }

  /** The teardown loop's result: the session ids listed, the views torn down and the permanent entries kept. */
  lemma TeardownDone(
    order: seq<uint32>, rs: seq<StateReplicator>, reps: seq<Rep>, cur: seq<Rep>,
    m: map<uint32, StateReplicator>, m0: map<uint32, StateReplicator>, ids: seq<uint32>)
    requires TeardownProgress(order, rs, reps, cur, m, m0, |rs|, ids)
    requires Enumerates(order, m0.Keys) && forall j | 0 <= j < |order| :: m0[order[j]] == rs[j]
    ensures ids == SessionIds(order, rs) && cur == TornDown(reps, rs) && m == Permanents(m0)
  {
    assert order[..|rs|] == order && rs[..|rs|] == rs;
    PermanentsByOrder(order, rs, m, m0);
  }

  /** The permanent-lifetime entries of a registry: what the teardown keeps. */
  function Permanents(m: map<uint32, StateReplicator>): (r: map<uint32, StateReplicator>)
    ensures forall id :: id in r <==> id in m && m[id].LifeTime == Permanent
  {
    map id | id in m && m[id].LifeTime == Permanent :: m[id]
  }

  /** A registry with the ids `ids` removed. */
  function Without(m: map<uint32, StateReplicator>, ids: seq<uint32>): (r: map<uint32, StateReplicator>)
    ensures forall id :: id in r <==> id in m && id !in ids
  {
    map id | id in m && id !in ids :: m[id]
  }

  lemma WithoutOneMore(m: map<uint32, StateReplicator>, ids: seq<uint32>, j: nat)
    requires j < |ids|
    ensures Without(m, ids[..j + 1]) == Without(m, ids[..j]) - {ids[j]}
  {
    assert ids[..j + 1] == ids[..j] + [ids[j]];
  }

  /** After the loop, the registry holds exactly the permanent replicators of the enumeration. */
  lemma PermanentsByOrder(order: seq<uint32>, rs: seq<StateReplicator>, m: map<uint32, StateReplicator>, m0: map<uint32, StateReplicator>)
    requires Enumerates(order, m0.Keys) && |rs| == |order|
    requires forall j | 0 <= j < |order| :: m0[order[j]] == rs[j]
    requires forall id | id in m :: id in m0 && m[id] == m0[id]
    requires forall j | 0 <= j < |order| :: order[j] in m <==> rs[j].LifeTime == Permanent
    ensures m == Permanents(m0)
  {
    forall id | id in m0
      ensures id in m <==> m0[id].LifeTime == Permanent
    {
      var j :| 0 <= j < |order| && order[j] == id;
    }
  }

  /** The ids the teardown lists are session ones, so removing them again keeps the permanent entries. */
  lemma SessionIdsNotPermanent(order: seq<uint32>, rs: seq<StateReplicator>, m0: map<uint32, StateReplicator>)
    requires |order| == |rs| && forall j | 0 <= j < |order| :: order[j] in m0 && m0[order[j]] == rs[j]
    ensures Without(Permanents(m0), SessionIds(order, rs)) == Permanents(m0)
  {
    var ids := SessionIds(order, rs);
    forall id | id in ids
      ensures id !in Permanents(m0)
    {
      var k :| 0 <= k < |ids| && ids[k] == id;
      var j :| 0 <= j < |order| && ids[k] == order[j] && rs[j].LifeTime == Session;
    }
  }

  /**
   * What the teardown loop has done after `i` of the replicators `rs` (ids `order`,
   * views `reps` at the start): `cur` are their views now, `m` the registry now and
   * `m0` the registry at the start.
   */
  ghost predicate TeardownProgress(
    order: seq<uint32>, rs: seq<StateReplicator>, reps: seq<Rep>, cur: seq<Rep>,
    m: map<uint32, StateReplicator>, m0: map<uint32, StateReplicator>, i: nat, ids: seq<uint32>)
  {
    && |order| == |rs| == |reps| == |cur| && i <= |rs|
    && ids == SessionIds(order[..i], rs[..i])
    && (forall id | id in m :: id in m0 && m[id] == m0[id])
    && (forall j | 0 <= j < i :: order[j] in m <==> rs[j].LifeTime == Permanent)
    && (forall j | i <= j < |rs| :: order[j] in m && m[order[j]] == rs[j])
    && (forall j | 0 <= j < i :: cur[j] == if rs[j].LifeTime == Session then Unloaded(reps[j]) else reps[j])
    && (forall j | i <= j < |rs| :: cur[j] == reps[j] && reps[j].ID == order[j])
  }

  lemma TeardownSessionStep(
    order: seq<uint32>, rs: seq<StateReplicator>, reps: seq<Rep>, cur: seq<Rep>,
    m: map<uint32, StateReplicator>, m0: map<uint32, StateReplicator>, i: nat, ids: seq<uint32>)
    requires TeardownProgress(order, rs, reps, cur, m, m0, i, ids) && i < |rs| && Distinct(order)
    requires rs[i].LifeTime == Session
    requires order[..i + 1][..i] == order[..i] && rs[..i + 1][..i] == rs[..i]
    ensures TeardownProgress(order, rs, reps, cur[i := Unloaded(cur[i])], m - {order[i]}, m0, i + 1, ids + [order[i]])
  {
  }

  lemma TeardownPermanentStep(
    order: seq<uint32>, rs: seq<StateReplicator>, reps: seq<Rep>, cur: seq<Rep>,
    m: map<uint32, StateReplicator>, m0: map<uint32, StateReplicator>, i: nat, ids: seq<uint32>)
    requires TeardownProgress(order, rs, reps, cur, m, m0, i, ids) && i < |rs|
    requires rs[i].LifeTime == Permanent
    requires order[..i + 1][..i] == order[..i] && rs[..i + 1][..i] == rs[..i]
    ensures TeardownProgress(order, rs, reps, cur, m, m0, i + 1, ids)
  {
  }

  /** With no state of the type fitting its size class, no drop-in send is posted. */
  lemma {:induction false} NoDropInPosts(ctx: Ctx, reps: seq<Rep>, player: PeerId)
    requires ctx.Ok() && !ctx.Encodable()
    requires forall j | 0 <= j < |reps| :: |reps[j].State| == ctx.stateSize
    ensures DropInPosts(ctx, reps, player) == []
  {
    if reps != [] {
      NoDropInPosts(ctx, reps[..|reps| - 1], player);
    }
  }

  /** A failed restore means the size class fits no state, so no restore does anything. */
  lemma FailedRestoreIsInert(ctx: Ctx, reps: seq<Rep>, t: BufferType, net: Net, i: nat)
    requires ctx.Ok() && i < |reps| && !RestoreOutcome(ctx, reps[i], t, net).ok
    requires forall j | 0 <= j < |reps| :: RepShaped(reps[j], ctx.stateSize)
    ensures !ctx.Encodable()
    ensures forall j | 0 <= j < |reps| :: RestoreOutcome(ctx, reps[j], t, net).rep == reps[j] && RestoreOutcome(ctx, reps[j], t, net).posts == []
  {
  }

  lemma {:induction false} NoRecallPosts(ctx: Ctx, reps: seq<Rep>, t: BufferType, net: Net)
    requires ctx.Ok()
    requires forall j | 0 <= j < |reps| :: RestoreOutcome(ctx, reps[j], t, net).posts == []
    ensures RecallPosts(ctx, reps, t, net) == []
  {
    if reps != [] {
      NoRecallPosts(ctx, reps[..|reps| - 1], t, net);
    }
  }

  // ---- Properties of the single-replicator operations ----

  /** Once the id is 0, every operation leaves the replicator as it is and sends nothing. */
  lemma InvalidIsInert(ctx: Ctx, r: Rep, x: seq<byte>, t: BufferType, target: Option<PeerId>, isRecall: bool, net: Net)
    requires ctx.Ok() && r.ID == 0
    ensures SetStateOutcome(ctx, r, x, net) == Outcome(r, [], true)
    ensures RestoreOutcome(ctx, r, t, net) == Outcome(r, [], true)
    ensures DropInOutcome(ctx, r, target) == Outcome(r, [], true)
    ensures ChangeState(r, x, isRecall) == r && Unsynced(r, x) == r
    ensures SavedSnapshot(r, t) == r && ClearedSnapshots(r) == r && Unloaded(r) == r
  {
  }

  /**
   * SetState on the master in a lobby: one broadcast on the host-set channel
   * carrying the id and the new state, then the state is replaced, the previous
   * one kept as LastState, and the listeners told of a non-recall change.
   */
  lemma SetStateAsMaster(ctx: Ctx, r: Rep, x: seq<byte>, net: Net)
    requires ctx.Ok() && ctx.Fits(x) && r.ID != 0 && CanSendToClient(net)
    ensures var o := SetStateOutcome(ctx, r, x, net);
      && o.ok && |o.posts| == 1
      && o.posts[0].channel == HostSetState && o.posts[0].target == Broadcast && o.posts[0].id == r.ID
      && o.posts[0].body == StateBody(x + Zeros(FixedBufferSize - |x|))
      && o.rep.State == x && o.rep.LastState == r.State
      && o.rep.notices == r.notices + ChangeNotices(r.State, x, false, r.Holder)
      && o.rep.snapshots == r.snapshots && o.rep.ID == r.ID
  {
    LadderFitsBuffer(ctx.sizeType);
    WireBytesIsPaddedState(x, ctx.sizeType);
  }

  /**
   * SetState on a client that may send to its master: one send of the state to
   * the master on the client-request channel, and no local change; in every
   * other session situation, nothing at all.
   */
  lemma SetStateAsClient(ctx: Ctx, r: Rep, x: seq<byte>, net: Net)
    requires ctx.Ok() && ctx.Fits(x) && r.ID != 0 && !CanSendToClient(net)
    ensures var o := SetStateOutcome(ctx, r, x, net);
      && o.ok && o.rep == r
      && (CanSendToHost(net, r.ClientSendStateAllowed) ==>
            |o.posts| == 1 && o.posts[0].channel == ClientRequest &&
            o.posts[0].target == ToPeer(net.master.value) && o.posts[0].id == r.ID &&
            o.posts[0].body == StateBody(x + Zeros(FixedBufferSize - |x|)))
      && (!CanSendToHost(net, r.ClientSendStateAllowed) ==> o.posts == [])
  {
    LadderFitsBuffer(ctx.sizeType);
    WireBytesIsPaddedState(x, ctx.sizeType);
  }

  /** SetStateUnsynced makes the value both the state and the last state, and tells no listener. */
  lemma UnsyncedSetsBoth(r: Rep, x: seq<byte>)
    requires r.ID != 0
    ensures Unsynced(r, x).State == x && Unsynced(r, x).LastState == x
    ensures Unsynced(r, x).notices == r.notices && Unsynced(r, x).snapshots == r.snapshots
  {
  }

  /**
   * A state saved in slot `t` comes back on the master: after any later change,
   * restoring `t` broadcasts the saved state on the recall channel and makes it
   * the state again, as a recall.
   */
  lemma SaveChangeRestore(ctx: Ctx, r: Rep, y: seq<byte>, isRecall: bool, t: BufferType, net: Net)
    requires ctx.Ok() && ctx.Fits(r.State) && r.ID != 0 && CanSendToClient(net)
    ensures var changed := ChangeState(SavedSnapshot(r, t), y, isRecall);
      var o := RestoreOutcome(ctx, changed, t, net);
      && o.ok && o.rep.State == r.State && o.rep.LastState == y
      && o.rep.notices == changed.notices + ChangeNotices(y, r.State, true, r.Holder)
      && |o.posts| == 1 && o.posts[0].channel == HostSetRecallState && o.posts[0].target == Broadcast
      && o.posts[0].body == StateBody(r.State + Zeros(FixedBufferSize - |r.State|))
  {
    LadderFitsBuffer(ctx.sizeType);
    WireBytesIsPaddedState(r.State, ctx.sizeType);
  }

  /** Restoring a slot that was never saved, or restoring on a client, changes nothing and sends nothing. */
  lemma RestoreWithoutSlot(ctx: Ctx, r: Rep, t: BufferType, net: Net)
    requires ctx.Ok() && (t !in r.snapshots || !CanSendToClient(net))
    ensures RestoreOutcome(ctx, r, t, net) == Outcome(r, [], true)
  {
  }

  /** A drop-in send goes to its target only, on the recall channel, and carries the current state. */
  lemma DropInToTarget(ctx: Ctx, r: Rep, player: PeerId)
    requires ctx.Ok() && ctx.Fits(r.State) && r.ID != 0
    ensures var o := DropInOutcome(ctx, r, Some(player));
      && o.ok && o.rep == r && |o.posts| == 1
      && o.posts[0].channel == HostSetRecallState && o.posts[0].target == ToPeer(player) && o.posts[0].id == r.ID
      && o.posts[0].body == StateBody(r.State + Zeros(FixedBufferSize - |r.State|))
  {
    LadderFitsBuffer(ctx.sizeType);
    WireBytesIsPaddedState(r.State, ctx.sizeType);
  }

  /** Unloading invalidates the replicator and drops its snapshots; a second unload does nothing. */
  lemma UnloadOnce(r: Rep)
    ensures Unloaded(r).ID == 0 && (r.ID != 0 ==> Unloaded(r).snapshots == map[])
    ensures Unloaded(Unloaded(r)) == Unloaded(r)
    ensures Unloaded(r).State == r.State && Unloaded(r).notices == r.notices
  {
  }
}
