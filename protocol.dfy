/**
 * The serial receivers: a buffer of four optional fields, a receiver that
 * sends the request byte and assembles the answer byte by byte, and a
 * receiver that also offers every filled frame to a downstream channel.
 *
 * The serial transport is represented by a ghost flag (a transport is
 * attached) and a ghost log of the bytes written to it; the downstream
 * channel by a ghost log of the frames offered to it.
 */
module Protocol {
  import opened Wrappers
  import opened Bits
  import opened FrameAssembly

  /** The request command: asks the device for its next frame. */
  const RequestByte: byte := 0x01

  /** The four fields of one frame, updated in place while bytes arrive. */
  class RecvBuffer {
    var flex1: Option<nat>
    var flex2: Option<nat>
    var current: Option<nat>
    var voltage: Option<nat>

    /** The fields as a value. */
    function Snapshot(): Frame
      reads this
    {
      Frame(flex1, flex2, current, voltage)
    }

    constructor (flex1: Option<nat> := None, flex2: Option<nat> := None, current: Option<nat> := None, voltage: Option<nat> := None)
      ensures Snapshot() == Frame(flex1, flex2, current, voltage)
    {
      this.flex1 := flex1;
      this.flex2 := flex2;
      this.current := current;
      this.voltage := voltage;
    }

    /** Unsets all four fields. */
    method Clear()
      modifies this
      ensures Snapshot() == EmptyFrame
    {
      flex1 := None;
      flex2 := None;
      current := None;
      voltage := None;
    }
  }

  /** Receives one frame per request, one byte at a time. */
  class RecvProtocol {
    /** A transport is attached (between connection made and connection lost). */
    ghost var connected: bool
    /** Every byte written to the transport, oldest first. */
    ghost var written: seq<byte>

    var buffer: RecvBuffer
    /** Bytes accepted since the last request. */
    var progress: nat

    /** The assembler state held by this receiver. */
    function State(): Assembler
      reads this, buffer
    {
      Assembler(progress, buffer.Snapshot())
    }

    ghost predicate Valid()
      reads this, buffer
    {
      Consistent(State())
    }

    constructor ()
      ensures Valid() && fresh(buffer)
      ensures State() == Cleared
      ensures !connected && written == []
    {
      connected := false;
      written := [];
      buffer := new RecvBuffer();
      progress := 0;
    }

    /** The transport is attached; nothing else changes. */
    method ConnectionMade()
      modifies this`connected
      ensures connected
      ensures State() == old(State()) && written == old(written)
    {
      connected := true;
    }

    /** The transport is gone; the partly assembled frame is kept. */
    method ConnectionLost()
      modifies this`connected
      ensures !connected
      ensures State() == old(State()) && written == old(written)
    {
      connected := false;
    }

    /**
     * Writes the request byte to the transport, then discards whatever was
     * assembled so that the answer is decoded from a clean state.
     */
    method RequestData()
      requires Valid() && connected
      modifies this`written, this`progress, buffer
      ensures Valid()
      ensures written == old(written) + [RequestByte]
      ensures State() == Cleared && !Filled(State())
    {
      written := written + [RequestByte];
      buffer.Clear();
      progress := 0;
    }

    /** Routes one received value into the frame; see `FrameAssembly.Step`. */
    method AppendData(value: int)
      requires Valid()
      modifies this`progress, buffer
      ensures Valid()
      ensures State() == Step(old(State()), Mask(value))
    {
      StepKeepsConsistent(State(), Mask(value));
      match progress {
        case 0 =>
          buffer.flex1 := Some(OrZero(buffer.flex1));
          buffer.flex1 := Some(Or(buffer.flex1.value, Shl(Mask(value), 0)));
        case 1 =>
          assert FieldConsistent(State(), 0);
          assert buffer.flex1.Some?;
          buffer.flex1 := Some(Or(buffer.flex1.value, Shl(Mask(value), 8)));
        case 2 =>
          buffer.flex2 := Some(OrZero(buffer.flex2));
          buffer.flex2 := Some(Or(buffer.flex2.value, Shl(Mask(value), 0)));
        case 3 =>
          assert FieldConsistent(State(), 1);
          assert buffer.flex2.Some?;
          buffer.flex2 := Some(Or(buffer.flex2.value, Shl(Mask(value), 8)));
        case 4 =>
          buffer.current := Some(OrZero(buffer.current));
          buffer.current := Some(Or(buffer.current.value, Shl(Mask(value), 0)));
        case 5 =>
          assert FieldConsistent(State(), 2);
          assert buffer.current.Some?;
          buffer.current := Some(Or(buffer.current.value, Shl(Mask(value), 8)));
        case 6 =>
          buffer.voltage := Some(OrZero(buffer.voltage));
          buffer.voltage := Some(Or(buffer.voltage.value, Shl(Mask(value), 0)));
        case 7 =>
          assert FieldConsistent(State(), 3);
          assert buffer.voltage.Some?;
          buffer.voltage := Some(Or(buffer.voltage.value, Shl(Mask(value), 8)));
        case _ =>
          return;
      }
      progress := progress + 1;
    }

    /** All eight bytes of the frame have arrived since the last request. */
    function FilledBuffer(): (r: bool)
      reads this, buffer
      requires Valid()
      ensures r == Filled(State())
      ensures r <==> progress == FrameSize
      ensures r ==> buffer.flex1.Some? && buffer.flex2.Some? && buffer.current.Some? && buffer.voltage.Some?
    {
      assert FieldConsistent(State(), 0) && FieldConsistent(State(), 1);
      assert FieldConsistent(State(), 2) && FieldConsistent(State(), 3);
      progress > 7
    }

    /** Feeds every byte of a received chunk to `AppendData`, in order. */
    method DataReceived(data: seq<byte>)
      requires Valid()
      modifies this`progress, buffer
      ensures Valid()
      ensures State() == Feed(old(State()), data)
    {
      for i := 0 to |data|
        invariant Valid()
        invariant State() == Feed(old(State()), data[..i])
      {
        AppendData(data[i]);
        assert data[..i + 1][..i] == data[..i];
      }
      assert data[..|data|] == data;
    }

    /** A new buffer holding the current fields, shared with nothing. */
    method GetBuffer() returns (copy: RecvBuffer)
      ensures fresh(copy)
      ensures copy.Snapshot() == State().frame
    {
      copy := new RecvBuffer(buffer.flex1, buffer.flex2, buffer.current, buffer.voltage);
    }
  }

  /**
   * A receiver that, after every chunk that leaves the frame filled, offers a
   * copy of the frame downstream. It extends `RecvProtocol`, held here as
   * `base`.
   */
  class RecvChanProtocol {
    var base: RecvProtocol
    /** Every frame offered to the downstream channel, oldest first. */
    ghost var offered: seq<Frame>

    ghost predicate Valid()
      reads this, base, base.buffer
    {
      base.Valid()
    }

    constructor ()
      ensures Valid() && fresh(base) && fresh(base.buffer)
      ensures base.State() == Cleared && !base.connected && base.written == []
      ensures offered == []
    {
      base := new RecvProtocol();
      offered := [];
    }

    /** Offers a snapshot to the channel (the hand-off itself is not modelled). */
    method SendBuffer(buffer: RecvBuffer)
      modifies this`offered
      ensures offered == old(offered) + [buffer.Snapshot()]
    {
      offered := offered + [buffer.Snapshot()];
    }

    /** Assembles a chunk, then offers the frame once if it is filled. */
    method DataReceived(data: seq<byte>)
      requires Valid()
      modifies base`progress, base.buffer, this`offered
      ensures Valid()
      ensures base.State() == Feed(old(base.State()), data)
      ensures offered == old(offered) + Offer(old(base.State()), data)
    {
      base.DataReceived(data);
      if base.FilledBuffer() {
        var buffer := base.GetBuffer();
        SendBuffer(buffer);
      }
    }
  }

  /**
   * A copy returned by `GetBuffer` keeps the fields it was taken with, through
   * later chunks and a new request.
   */
  method CopyIsDetached(p: RecvProtocol, data: seq<byte>) returns (copy: RecvBuffer)
    requires p.Valid() && p.connected
    modifies p`progress, p`written, p.buffer
    ensures copy.Snapshot() == old(p.State().frame)
    ensures p.State() == Cleared
  {
    copy := p.GetBuffer();
    p.DataReceived(data);
    p.RequestData();
  }
}
