/**
 * The telemetry frame assembler as values: the four 16-bit fields of one
 * frame, the assembler's state (progress counter and fields), the effect of
 * one received byte, and of a received chunk. The receiver classes in module
 * Protocol are proved to change their state exactly as these functions say.
 *
 * Wire layout of a frame, byte n counted since the last request:
 * bytes 0,1 = flex1, 2,3 = flex2, 4,5 = current, 6,7 = voltage, each pair
 * little-endian (low byte first).
 */
module FrameAssembly {
  import opened Wrappers
  import opened Bits

  /** Bytes in one frame. */
  const FrameSize: nat := 8
  /** Fields in one frame, each two bytes wide. */
  const FieldCount: nat := 4

  /** The four fields of a frame; a field no byte has reached yet is `None`. */
  datatype Frame = Frame(flex1: Option<nat>, flex2: Option<nat>, current: Option<nat>, voltage: Option<nat>)

  /** A frame of which no field has been written. */
  const EmptyFrame: Frame := Frame(None, None, None, None)

  /** Field number `k`, in wire order. */
  function Field(f: Frame, k: nat): Option<nat>
    requires k < FieldCount
  {
    if k == 0 then f.flex1
    else if k == 1 then f.flex2
    else if k == 2 then f.current
    else f.voltage
  }

  /** `f` with field number `k` replaced by `v`. */
  function WithField(f: Frame, k: nat, v: Option<nat>): (g: Frame)
    requires k < FieldCount
    ensures Field(g, k) == v
    ensures forall j :: 0 <= j < FieldCount && j != k ==> Field(g, j) == Field(f, j)
  {
    if k == 0 then f.(flex1 := v)
    else if k == 1 then f.(flex2 := v)
    else if k == 2 then f.(current := v)
    else f.(voltage := v)
  }

  /** `field or 0`: an unset field reads as 0 before the first byte is or-ed in. */
  function OrZero(field: Option<nat>): (r: nat)
    ensures field.None? ==> r == 0
    ensures field.Some? ==> r == field.value
  {
    field.GetOr(0)
  }

  /** The assembler: how many bytes were accepted since the last reset, and the fields so far. */
  datatype Assembler = Assembler(progress: nat, frame: Frame)

  /** The state after a reset: no byte accepted, every field unset. */
  const Cleared: Assembler := Assembler(0, EmptyFrame)

  /** Every byte of the frame has been accepted. */
  predicate Filled(s: Assembler): (r: bool)
    ensures Consistent(s) ==> (r <==> s.progress == FrameSize)
    ensures Consistent(s) && r ==>
      s.frame.flex1.Some? && s.frame.flex2.Some? && s.frame.current.Some? && s.frame.voltage.Some?
  {
    assert Consistent(s) ==> FieldConsistent(s, 0) && FieldConsistent(s, 1);
    assert Consistent(s) ==> FieldConsistent(s, 2) && FieldConsistent(s, 3);
    s.progress > FrameSize - 1
  }

  /**
   * The invariant of the assembler: field k is set exactly when byte 2k has
   * been accepted, it holds a 16-bit value, and between its two bytes it
   * holds only the low byte.
   */
  predicate FieldConsistent(s: Assembler, k: nat)
    requires k < FieldCount
  {
    var f := Field(s.frame, k);
    (f.Some? <==> s.progress > 2 * k) &&
    (f.Some? ==> f.value < 65536) &&
    (s.progress == 2 * k + 1 ==> f.value < 256)
  }

  predicate Consistent(s: Assembler) {
    s.progress <= FrameSize &&
    forall k :: 0 <= k < FieldCount ==> FieldConsistent(s, k)
  }

  /**
   * One received byte. Byte number `progress` goes into field `progress / 2`,
   * into its low half when `progress` is even and its high half when odd; once
   * the frame is complete, further bytes are ignored.
   */
  function Step(s: Assembler, b: byte): (t: Assembler)
    ensures s.progress < FrameSize ==> t.progress == s.progress + 1
    ensures s.progress >= FrameSize ==> t == s
    ensures s.progress < FrameSize ==>
      forall j :: 0 <= j < FieldCount && j != s.progress / 2 ==> Field(t.frame, j) == Field(s.frame, j)
  {
    if s.progress >= FrameSize then s
    else
      var k := s.progress / 2;
      var shift := if s.progress % 2 == 0 then 0 else 8;
      Assembler(s.progress + 1, WithField(s.frame, k, Some(Or(OrZero(Field(s.frame, k)), Shl(b, shift)))))
  }

  /** The bytes of a chunk received one after the other. */
  function Feed(s: Assembler, data: seq<byte>): (t: Assembler)
    ensures s.progress <= FrameSize ==> t.progress == Min(s.progress + |data|, FrameSize)
    decreases |data|
  {
    if data == [] then s else Step(Feed(s, data[..|data| - 1]), data[|data| - 1])
  }

  function Min(a: nat, b: nat): nat {
    if a <= b then a else b
  }

  /**
   * The snapshots a receiver that forwards complete frames offers after one
   * chunk: the frame, once, when the buffer is filled after the chunk.
   */
  function Offer(s: Assembler, data: seq<byte>): (r: seq<Frame>)
    ensures |r| <= 1
    ensures r != [] <==> Filled(Feed(s, data))
    ensures forall f :: f in r ==> f == Feed(s, data).frame
  {
    var t := Feed(s, data);
    if Filled(t) then [t.frame] else []
  }

  // ---------------------------------------------------------------------------
  // An independent description of the assembler after a reset

  /**
   * Field `k` after the bytes `data` arrived since the last reset: unset before
   * byte 2k, the low byte alone after it, then low + 256 * high.
   */
  function Expected(data: seq<byte>, k: nat): Option<nat>
    requires k < FieldCount
  {
    if |data| <= 2 * k then None
    else if |data| == 2 * k + 1 then Some(data[2 * k])
    else Some(data[2 * k] as int + 256 * data[2 * k + 1] as int)
  }

  /** The whole assembler after `data` arrived since the last reset. */
  function Reference(data: seq<byte>): Assembler {
    Assembler(Min(|data|, FrameSize), Frame(Expected(data, 0), Expected(data, 1), Expected(data, 2), Expected(data, 3)))
  }

  // ---------------------------------------------------------------------------
  // Properties

  /**
   * A byte keeps the invariant, and says what it writes: the low byte alone
   * into an unset field, or `low + 256 * high` into a field holding its low byte.
   */
  lemma StepKeepsConsistent(s: Assembler, b: byte)
    requires Consistent(s)
    ensures Consistent(Step(s, b))
    ensures s.progress < FrameSize && s.progress % 2 == 0 ==>
      Field(Step(s, b).frame, s.progress / 2) == Some(b)
    ensures s.progress < FrameSize && s.progress % 2 == 1 && Field(s.frame, s.progress / 2).Some? ==>
      Field(Step(s, b).frame, s.progress / 2) == Some(Field(s.frame, s.progress / 2).value + 256 * b)
  {
    if s.progress < FrameSize {
      var k := s.progress / 2;
      assert FieldConsistent(s, k);
      if s.progress % 2 == 1 {
        LittleEndianOr(Field(s.frame, k).value, b);
      }
      var t := Step(s, b);
      forall j | 0 <= j < FieldCount
        ensures FieldConsistent(t, j)
      {
        assert FieldConsistent(s, j);
      }
    }
  }

  /** Every chunk keeps the invariant. */
  lemma {:induction false} FeedKeepsConsistent(s: Assembler, data: seq<byte>)
    requires Consistent(s)
    ensures Consistent(Feed(s, data))
    decreases |data|
  {
    if data != [] {
      FeedKeepsConsistent(s, data[..|data| - 1]);
      StepKeepsConsistent(Feed(s, data[..|data| - 1]), data[|data| - 1]);
    }
  }

  /** Two frames with the same four fields are the same frame. */
  lemma FrameByFields(f: Frame, g: Frame)
    requires forall k :: 0 <= k < FieldCount ==> Field(f, k) == Field(g, k)
    ensures f == g
  {
    assert Field(f, 0) == Field(g, 0) && Field(f, 1) == Field(g, 1);
    assert Field(f, 2) == Field(g, 2) && Field(f, 3) == Field(g, 3);
  }

  /** The reference description satisfies the invariant. */
  lemma ReferenceConsistent(data: seq<byte>)
    ensures Consistent(Reference(data))
  {
  }

  /** One more byte of an incomplete frame moves the reference description one byte on. */
  lemma StepReference(init: seq<byte>, b: byte)
    requires |init| < FrameSize
    ensures Step(Reference(init), b) == Reference(init + [b])
  {
    var p, data := Reference(init), init + [b];
    ReferenceConsistent(init);
    StepKeepsConsistent(p, b);
    forall k | 0 <= k < FieldCount
      ensures Field(Step(p, b).frame, k) == Field(Reference(data).frame, k)
    {
      assert data[..|init|] == init;
    }
    FrameByFields(Step(p, b).frame, Reference(data).frame);
  }

  /** Once eight bytes have arrived, further bytes leave the reference description as it is. */
  lemma ReferenceComplete(init: seq<byte>, b: byte)
    requires |init| >= FrameSize
    ensures Reference(init + [b]) == Reference(init)
  {
  }

  /** After a reset, the assembler holds exactly what `Reference` describes. */
  lemma {:induction false} FeedFromCleared(data: seq<byte>)
    ensures Feed(Cleared, data) == Reference(data)
    decreases |data|
  {
    if data != [] {
      var init, b := data[..|data| - 1], data[|data| - 1];
      assert data == init + [b];
      FeedFromCleared(init);
      if |init| < FrameSize {
        StepReference(init, b);
      } else {
        ReferenceComplete(init, b);
      }
    }
  }

  /**
   * Decoding: eight bytes after a reset fill the frame, and each field is the
   * little-endian value of its two bytes, an unsigned 16-bit quantity.
   */
  lemma DecodeFrame(data: seq<byte>)
    requires |data| >= FrameSize
    ensures Filled(Feed(Cleared, data))
    ensures forall k :: 0 <= k < FieldCount ==>
      Field(Feed(Cleared, data).frame, k) == Some(data[2 * k] as int + 256 * data[2 * k + 1] as int) &&
      data[2 * k] as int + 256 * data[2 * k + 1] as int < 65536
  {
    FeedFromCleared(data);
    var s := Reference(data);
    assert Filled(s);
    forall k | 0 <= k < FieldCount
      ensures Field(s.frame, k) == Some(data[2 * k] as int + 256 * data[2 * k + 1] as int)
      ensures data[2 * k] as int + 256 * data[2 * k + 1] as int < 65536
    {
      assert Field(s.frame, k) == Expected(data, k);
      LittleEndianOr(data[2 * k], data[2 * k + 1]);
    }
  }


  /**
   * After a reset the frame is reported filled exactly once eight bytes have
   * arrived, never earlier, whatever the bytes are.
   */
  lemma FilledExactlyAtEighthByte(data: seq<byte>)
    ensures forall i :: 0 <= i <= |data| ==> (Filled(Feed(Cleared, data[..i])) <==> i >= FrameSize)
  {
  }

  /** Chunking independence: a chunk split in two has the effect of the whole chunk. */
  lemma {:induction false} FeedConcat(s: Assembler, a: seq<byte>, b: seq<byte>)
    ensures Feed(s, a + b) == Feed(Feed(s, a), b)
    decreases |b|
  {
    if b == [] {
      assert a + b == a;
    } else {
      var init := b[..|b| - 1];
      assert (a + b)[..|a + b| - 1] == a + init;
      FeedConcat(s, a, init);
    }
  }

  /** Bytes after the eighth, before the next reset, change nothing. */
  lemma {:induction false} ExtraBytesIgnored(s: Assembler, data: seq<byte>)
    requires Filled(s)
    ensures Feed(s, data) == s
    decreases |data|
  {
    if data != [] {
      ExtraBytesIgnored(s, data[..|data| - 1]);
    }
  }

  /**
   * Once a chunk has filled the frame, every later chunk before the next reset
   * offers the very same frame again.
   */
  lemma RepeatedOffer(s: Assembler, first: seq<byte>, later: seq<byte>)
    requires Filled(Feed(s, first))
    ensures Offer(Feed(s, first), later) == Offer(s, first) == [Feed(s, first).frame]
  {
    ExtraBytesIgnored(Feed(s, first), later);
  }

  /** `01 00 02 00 03 00 04 00` decodes to flex1 = 1, flex2 = 2, current = 3, voltage = 4. */
  lemma DecodeCountingFrame()
    ensures Feed(Cleared, [1, 0, 2, 0, 3, 0, 4, 0]).frame == Frame(Some(1), Some(2), Some(3), Some(4))
  {
    assert Encode(1, 2, 3, 4) == [1, 0, 2, 0, 3, 0, 4, 0];
    EncodeDecode(1, 2, 3, 4);
  }

  /** Eight `FF` bytes decode to 65535 in every field. */
  lemma DecodeAllOnesFrame()
    ensures Feed(Cleared, [255, 255, 255, 255, 255, 255, 255, 255]).frame ==
      Frame(Some(65535), Some(65535), Some(65535), Some(65535))
  {
    assert Encode(65535, 65535, 65535, 65535) == [255, 255, 255, 255, 255, 255, 255, 255];
    EncodeDecode(65535, 65535, 65535, 65535);
  }

  /** The counting frame delivered as chunks of three, two and three bytes ends as when delivered at once. */
  lemma DecodeChunkedFrame()
    ensures Feed(Feed(Feed(Cleared, [1, 0, 2]), [0, 3]), [0, 4, 0]) == Feed(Cleared, [1, 0, 2, 0, 3, 0, 4, 0])
  {
    forall a: seq<byte>, b: seq<byte>, c: seq<byte>
      ensures Feed(Feed(Feed(Cleared, a), b), c) == Feed(Cleared, a + b + c)
    {
      FeedConcat(Cleared, a, b);
      FeedConcat(Cleared, a + b, c);
    }
    assert [1, 0, 2] + [0, 3] + [0, 4, 0] == [1, 0, 2, 0, 3, 0, 4, 0];
  }

  /** The eight wire bytes of four unsigned 16-bit values, each low byte first. */
  function Encode(flex1: nat, flex2: nat, current: nat, voltage: nat): (data: seq<byte>)
    requires flex1 < 65536 && flex2 < 65536 && current < 65536 && voltage < 65536
    ensures |data| == FrameSize
  {
    [flex1 % 256, flex1 / 256, flex2 % 256, flex2 / 256,
     current % 256, current / 256, voltage % 256, voltage / 256]
  }

  /** Round trip: four 16-bit values written little-endian and fed in after a reset come back unchanged. */
  lemma EncodeDecode(flex1: nat, flex2: nat, current: nat, voltage: nat)
    requires flex1 < 65536 && flex2 < 65536 && current < 65536 && voltage < 65536
    ensures Filled(Feed(Cleared, Encode(flex1, flex2, current, voltage)))
    ensures Feed(Cleared, Encode(flex1, flex2, current, voltage)).frame ==
      Frame(Some(flex1), Some(flex2), Some(current), Some(voltage))
  {
    var data := Encode(flex1, flex2, current, voltage);
    DecodeFrame(data);
    FrameByFields(Feed(Cleared, data).frame, Frame(Some(flex1), Some(flex2), Some(current), Some(voltage)));
  }
}
