/**
 * The event transport the replication layer sits on, reduced to what the layer
 * observes of it: the session's truth predicates, passed in as a value, and an
 * append-only outbox of the sends it posted. Delivery is not modelled.
 */
module Transport {
  import opened Wrappers

  /** One octet, as the payload buffer holds it. */
  type byte = x: int | 0 <= x < 256

  /** The 32-bit unsigned replicator id; 0 is the reserved "invalid" id. */
  type uint32 = x: int | 0 <= x < 0x1_0000_0000

  /** The 64-bit lookup key that identifies a peer on the transport. */
  type PeerId = x: int | 0 <= x < 0x1_0000_0000_0000_0000

  /**
   * What the session reports at the time of a call: whether this process is in a
   * lobby, whether it is the master, and the master peer if one is known
   * (`master.Some?` is the transport's "has master").
   */
  datatype Net = Net(inLobby: bool, isMaster: bool, master: Option<PeerId>) {
    predicate HasMaster() { master.Some? }
    /** Sender `sender` is the known master. */
    predicate FromMaster(sender: PeerId) { master == Some(sender) }
  }

  /** A directed send to one peer, or a broadcast to every peer. */
  datatype Target = Broadcast | ToPeer(peer: PeerId)

  /**
   * The reliability class of a send. The handshake's own sends that name no class
   * go out with the transport's default class, which is not visible here.
   */
  datatype Priority = GameOrderCritical | TransportDefault

  /** The four named channels a replicated state type registers. */
  datatype Channel = ClientRequest | HostSetState | HostSetRecallState | HandshakeChannel

  /** The handshake packet's action byte. */
  datatype PacketAction = Created | Destroyed | SyncRequest

  /** What a send carries after the replicator id: a fixed state buffer or a handshake action. */
  datatype Body = StateBody(bytes: seq<byte>) | ActionBody(action: PacketAction)

  datatype Post = Post(channel: Channel, target: Target, priority: Priority, id: uint32, body: Body)

  /** The sends posted so far, oldest first. */
  class Outbox {
    var sent: seq<Post>

    constructor ()
      ensures sent == []
    {
      sent := [];
    }

    method Send(p: Post)
      modifies this
      ensures sent == old(sent) + [p]
    {
      sent := sent + [p];
    }
  }
}
