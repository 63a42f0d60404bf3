/**
 * The state payload codec: a replicator id followed by a fixed 256-byte buffer,
 * of which the first "size class" bytes carry the state, zero-padded.
 * A state value is its marshalled bytes; the marshalled length of the state
 * type is the type's `stateSize`.
 */
module Payload {
  import opened Wrappers
  import opened Transport

  /** The values of the `Size` enumeration, in declaration order. */
  const Ladder: seq<nat> := [4, 8, 16, 32, 48, 64, 80, 96, 128, 196, 256]

  /** Length of the fixed `PayloadBytes` buffer of every wire struct. */
  const FixedBufferSize: nat := 256

  predicate IsSizeClass(c: nat) {
    c in Ladder
  }

  function Zeros(n: nat): (z: seq<byte>)
    ensures |z| == n
    ensures forall i | 0 <= i < n :: z[i] == 0
  {
    seq(n, _ => 0)
  }

  /** Every size class lies between 4 and 256 and so fits the fixed buffer. */
  lemma {:induction false} LadderFitsBuffer(c: nat)
    requires IsSizeClass(c)
    ensures 4 <= c <= FixedBufferSize
  {
    var i :| 0 <= i < |Ladder| && Ladder[i] == c;
    assert i in {0, 1, 2, 3, 4, 5, 6, 7, 8, 9, 10};
  }

  /** The buffer `buf` after `state` has been written into its first `size` bytes. */
  function Written(buf: seq<byte>, state: seq<byte>, size: nat): (r: seq<byte>)
    requires |state| <= size <= |buf|
    ensures |r| == |buf|
  {
    state + Zeros(size - |state|) + buf[size..]
  }

  /**
   * What `Get` hands back for a buffer: the first `size` bytes are copied out, and
   * the state is read from the first `stateSize` of them. When the state type is
   * larger than the size class the read runs past the copy; the model has no
   * value for that.
   */
  function Decode(buf: seq<byte>, size: nat, stateSize: nat): (r: Option<seq<byte>>)
    requires size <= |buf|
    ensures r.Some? <==> stateSize <= size
    ensures r.Some? ==> |r.value| == stateSize
  {
    if stateSize <= size then Some(buf[..size][..stateSize]) else None
  }

  lemma WrittenLayout(buf: seq<byte>, state: seq<byte>, size: nat)
    requires |state| <= size <= |buf|
    ensures Written(buf, state, size)[..|state|] == state
    ensures forall i | |state| <= i < size :: Written(buf, state, size)[i] == 0
    ensures Written(buf, state, size)[size..] == buf[size..]
  {
    var w := Written(buf, state, size);
    assert w == (state + Zeros(size - |state|)) + buf[size..];
    assert w[..size] == state + Zeros(size - |state|);
  }

  /** Reading a size class back after writing a state of the type's length into it yields that state. */
  lemma DecodeWritten(buf: seq<byte>, state: seq<byte>, size: nat)
    requires |state| <= size <= |buf|
    ensures Decode(Written(buf, state, size), size, |state|) == Some(state)
  {
    WrittenLayout(buf, state, size);
    var w := Written(buf, state, size);
    assert w[..size][..|state|] == w[..|state|];
  }

  /** The `StatePayloadBytes` wire struct: an id and the fixed buffer. */
  class StatePayloadBytes {
    var ID: uint32
    const PayloadBytes: array<byte>

    /** A fresh struct, as `new P { ID = id }` builds it: the fixed buffer is all zero. */
    constructor (id: uint32)
      ensures ID == id
      ensures fresh(PayloadBytes) && PayloadBytes[..] == Zeros(FixedBufferSize)
    {
      ID := id;
      PayloadBytes := new byte[FixedBufferSize](_ => 0);
    }

    /**
     * Writes the state's bytes and zero-pads up to the size class. A state longer
     * than the class is refused before anything is written (the source throws).
     */
    method Set(state: seq<byte>, size: nat) returns (ok: bool)
      requires IsSizeClass(size) && PayloadBytes.Length == FixedBufferSize
      modifies PayloadBytes
      ensures ok <==> |state| <= size
      ensures ok ==> PayloadBytes[..] == Written(old(PayloadBytes[..]), state, size)
      ensures !ok ==> PayloadBytes[..] == old(PayloadBytes[..])
    {
      LadderFitsBuffer(size);
      if |state| > size {
        return false;
      }
      forall i | 0 <= i < |state| {
        PayloadBytes[i] := state[i];
      }
      var i := |state|;
      while i < size
        invariant |state| <= i <= size
        invariant PayloadBytes[..|state|] == state
        invariant forall k | |state| <= k < i :: PayloadBytes[k] == 0
        invariant PayloadBytes[size..] == old(PayloadBytes[size..])
      {
        PayloadBytes[i] := 0;
        i := i + 1;
      }
      assert PayloadBytes[..] == Written(old(PayloadBytes[..]), state, size) by {
        WrittenLayout(old(PayloadBytes[..]), state, size);
        var w := Written(old(PayloadBytes[..]), state, size);
        forall k | 0 <= k < FixedBufferSize
          ensures PayloadBytes[k] == w[k]
        {
          if k < |state| {
            assert PayloadBytes[k] == PayloadBytes[..|state|][k] && w[k] == w[..|state|][k];
          } else if k >= size {
            assert PayloadBytes[k] == PayloadBytes[size..][k - size] && w[k] == w[size..][k - size];
          }
        }
      }
      ok := true;
    }

    /** Copies the size class out of the buffer and reads a state of `stateSize` bytes from it. */
    method Get(size: nat, stateSize: nat) returns (r: Option<seq<byte>>)
      requires IsSizeClass(size) && PayloadBytes.Length == FixedBufferSize
      ensures r == Decode(PayloadBytes[..], size, stateSize)
    {
      LadderFitsBuffer(size);
      var arr := PayloadBytes[..size];
      if stateSize <= size {
        r := Some(arr[..stateSize]);
      } else {
        r := None;
      }
    }
  }

  /** The bytes a freshly built wire struct carries once `state` has been set into it. */
  function WireBytes(state: seq<byte>, size: nat): (r: seq<byte>)
    requires |state| <= size <= FixedBufferSize
  {
    Written(Zeros(FixedBufferSize), state, size)
  }

  /** Whatever the size class, the wire buffer is the state followed by zeros up to 256 bytes. */
  lemma WireBytesIsPaddedState(state: seq<byte>, size: nat)
    requires |state| <= size <= FixedBufferSize
    ensures WireBytes(state, size) == state + Zeros(FixedBufferSize - |state|)
  {
    var w := WireBytes(state, size);
    var e := state + Zeros(FixedBufferSize - |state|);
    WrittenLayout(Zeros(FixedBufferSize), state, size);
    forall k | 0 <= k < FixedBufferSize
      ensures w[k] == e[k]
    {
      if k < |state| {
        assert w[k] == w[..|state|][k];
      } else if k >= size {
        assert w[k] == w[size..][k - size];
      }
    }
  }

  function TargetOf(target: Option<PeerId>): Target {
    if target.Some? then ToPeer(target.value) else Broadcast
  }

  /** What the receive side of a state channel hands its callback. */
  datatype Delivery = Delivery(sender: PeerId, id: uint32, state: seq<byte>)

  /** One state channel (`ReplicatorPayload`): its name and the size class it sends with. */
  class ReplicatorPayload {
    const channel: Channel
    const payloadSize: nat

    constructor (size: nat, channel: Channel)
      requires IsSizeClass(size)
      ensures this.channel == channel && payloadSize == size
    {
      this.channel := channel;
      payloadSize := size;
    }

    /** The send `Invoke` posts for a state that fits the class. */
    function Wire(id: uint32, data: seq<byte>, target: Option<PeerId>, priority: Priority): Post
      requires IsSizeClass(payloadSize) && |data| <= payloadSize
    {
      LadderFitsBuffer(payloadSize);
      Post(channel, TargetOf(target), priority, id, StateBody(WireBytes(data, payloadSize)))
    }

    /**
     * Tags a fresh wire struct with the id, sets the state into it and posts it,
     * to `target` when one is given and to everyone otherwise. Setting a state
     * larger than the class throws, and then nothing is posted.
     */
    method Invoke(id: uint32, data: seq<byte>, target: Option<PeerId>, priority: Priority, out: Outbox)
      returns (ok: bool)
      requires IsSizeClass(payloadSize)
      modifies out
      ensures ok <==> |data| <= payloadSize
      ensures ok ==> out.sent == old(out.sent) + [Wire(id, data, target, priority)]
      ensures !ok ==> out.sent == old(out.sent)
    {
      var payload := new StatePayloadBytes(id);
      ok := payload.Set(data, payloadSize);
      if !ok {
        return;
      }
      LadderFitsBuffer(payloadSize);
      var post := Post(channel, TargetOf(target), priority, payload.ID, StateBody(payload.PayloadBytes[..]));
      out.Send(post);
    }

    /**
     * The receive callback registered for the channel: the id from the struct and
     * the state read back from its buffer with this channel's size class.
     */
    function Receive(sender: PeerId, p: Post, stateSize: nat): (r: Option<Delivery>)
      requires IsSizeClass(payloadSize)
      ensures r.Some? ==> r.value.sender == sender && r.value.id == p.id && |r.value.state| == stateSize
    {
      LadderFitsBuffer(payloadSize);
      match p.body
      case StateBody(bytes) =>
        if |bytes| == FixedBufferSize && stateSize <= payloadSize then
          Some(Delivery(sender, p.id, Decode(bytes, payloadSize, stateSize).value))
        else
          None
      case ActionBody(_) => None
    }

    /**
     * Round trip through the wire: what `Invoke` posts for a state of the type's
     * length is received as the same id and the same state, on this channel, with
     * the priority given, directed exactly when a target was given.
     */
    lemma {:induction false} InvokeThenReceive(sender: PeerId, id: uint32, data: seq<byte>, target: Option<PeerId>, priority: Priority)
      requires IsSizeClass(payloadSize) && |data| <= payloadSize
      ensures Receive(sender, Wire(id, data, target, priority), |data|) == Some(Delivery(sender, id, data))
      ensures Wire(id, data, target, priority).channel == channel
      ensures Wire(id, data, target, priority).priority == priority
      ensures (Wire(id, data, target, priority).target == Broadcast <==> target.None?)
    {
      LadderFitsBuffer(payloadSize);
      DecodeWritten(Zeros(FixedBufferSize), data, payloadSize);
    }
  }
}
