/**
 * Translating an Art-Net DMX frame into uDMX vendor control requests
 * (`dmx_handler`), and issuing them on the bound device handle.
 */
module FrameTranslator {
  import opened Bytes
  import opened Usb

  /** Vendor request codes understood by the uDMX firmware. */
  const CmdSetSingleChannel := 1
  const CmdSetChannelRange := 2
  const CmdStartBootloader := 0xf8
  /** Firmware error codes (unused by the bridge). */
  const ErrBadChannel := 1
  const ErrBadValue := 2
  /** bmRequestType of every request: vendor, device recipient, host to device. */
  const RequestTypeVendorOut := 0x40
  /** The first DMX channel a frame addresses; the bridge always starts at 1. */
  const Channel := 1

  /**
   * One vendor control request: bRequest, wValue, wIndex and the data stage
   * (wLength is the length of `payload`).
   */
  datatype Request = Request(code: int, value: int, index: int, payload: seq<byte>)

  /**
   * The requests that send the first `len` bytes of `data` to the device.
   * `len` is what the Art-Net library reports, and may be zero or negative.
   */
  function Translate(data: seq<byte>, len: int): (reqs: seq<Request>)
    requires len <= |data|
    ensures |reqs| <= 1
    ensures reqs == [] <==> len <= 0
  {
    if len == 1 then
      [Request(CmdSetSingleChannel, data[len - 1] as int, Channel - 1, [])]
    else if len > 1 then
      [Request(CmdSetChannelRange, len, Channel - 1, data[..len])]
    else
      []
  }

  /** The request for each frame length: one single-channel request, one range request, or none. */
  lemma TranslateCases(data: seq<byte>, len: int)
    requires len <= |data|
    ensures len <= 0 ==> Translate(data, len) == []
    ensures len == 1 ==> Translate(data, len) == [Request(CmdSetSingleChannel, data[0] as int, 0, [])]
    ensures len > 1 ==> |Translate(data, len)| == 1
    ensures len > 1 ==> var r := Translate(data, len)[0];
      && r.code == CmdSetChannelRange && r.value == len && r.index == 0
      && |r.payload| == len && forall i | 0 <= i < len :: r.payload[i] == data[i]
  {
  }

  /**
   * The firmware's channel buffer after writing `payload` from channel
   * offset `offset` on, one channel at a time. This and Apply describe the
   * device, whose firmware is not part of this model.
   */
  function WriteRange(dmx: seq<byte>, offset: nat, payload: seq<byte>): (r: seq<byte>)
    requires offset + |payload| <= |dmx|
    ensures |r| == |dmx|
    decreases |payload|
  {
    if payload == [] then dmx
    else WriteRange(dmx[offset := payload[0]], offset + 1, payload[1..])
  }

  lemma {:induction false} WriteRangeAt(dmx: seq<byte>, offset: nat, payload: seq<byte>, i: nat)
    requires offset + |payload| <= |dmx| && i < |dmx|
    ensures WriteRange(dmx, offset, payload)[i] ==
      if offset <= i < offset + |payload| then payload[i - offset] else dmx[i]
    decreases |payload|
  {
    if payload != [] {
      WriteRangeAt(dmx[offset := payload[0]], offset + 1, payload[1..], i);
    }
  }

  /** The effect of one request on the device's channel buffer; requests it cannot honour change nothing. */
  function Apply(dmx: seq<byte>, r: Request): (after: seq<byte>)
    ensures |after| == |dmx|
  {
    if r.code == CmdSetSingleChannel && 0 <= r.index < |dmx| && 0 <= r.value < 256 then
      dmx[r.index := r.value as byte]
    else if r.code == CmdSetChannelRange && r.value == |r.payload| && 0 <= r.index
         && r.index + |r.payload| <= |dmx| then
      WriteRange(dmx, r.index, r.payload)
    else
      dmx
  }

  function ApplyAll(dmx: seq<byte>, reqs: seq<Request>): (after: seq<byte>)
    ensures |after| == |dmx|
    decreases |reqs|
  {
    if reqs == [] then dmx else ApplyAll(Apply(dmx, reqs[0]), reqs[1..])
  }

  /**
   * The requests reproduce the frame on the device: its first `len`
   * channels become the frame, the others keep their levels.
   */
  lemma FrameReproduced(data: seq<byte>, len: int, dmx: seq<byte>)
    requires len <= |data| && len <= |dmx|
    ensures ApplyAll(dmx, Translate(data, len)) == (if len <= 0 then dmx else data[..len] + dmx[len..])
  {
    if len > 1 {
      var r := Request(CmdSetChannelRange, len, 0, data[..len]);
      assert Translate(data, len) == [r];
      ApplyAllOne(dmx, r);
      RangeReproduced(dmx, data[..len]);
    } else if len == 1 {
      var r := Request(CmdSetSingleChannel, data[0] as int, 0, []);
      assert Translate(data, len) == [r];
      ApplyAllOne(dmx, r);
      assert Apply(dmx, r) == dmx[0 := data[0]];
      assert data[..1] + dmx[1..] == dmx[0 := data[0]];
    }
  }

  lemma ApplyAllOne(dmx: seq<byte>, r: Request)
    ensures ApplyAll(dmx, [r]) == Apply(dmx, r)
  {
    assert [r][1..] == [];
  }

  /** A range request from channel offset 0 overwrites exactly the first |frame| channels. */
  lemma RangeReproduced(dmx: seq<byte>, frame: seq<byte>)
    requires |frame| <= |dmx|
    ensures WriteRange(dmx, 0, frame) == frame + dmx[|frame|..]
  {
    var after := WriteRange(dmx, 0, frame);
    forall i | 0 <= i < |dmx| ensures after[i] == (frame + dmx[|frame|..])[i] {
      WriteRangeAt(dmx, 0, frame, i);
    }
  }

  /** One frame as the Art-Net library hands it over: a data buffer and its reported length. */
  datatype Frame = Frame(data: seq<byte>, len: int)

  predicate ValidFrame(f: Frame) {
    f.len <= |f.data|
  }

  /** Every frame's reported length fits its data. */
  predicate AllValid(frames: seq<Frame>) {
    forall i | 0 <= i < |frames| :: ValidFrame(frames[i])
  }

  /** All requests for a sequence of frames, in delivery order. */
  function TranslateAll(frames: seq<Frame>): seq<Request>
    requires AllValid(frames)
  {
    if frames == [] then []
    else
      assert ValidFrame(frames[0]);
      Translate(frames[0].data, frames[0].len) + TranslateAll(frames[1..])
  }

  /** Frames translate independently: the requests of a concatenation are the concatenated requests. */
  lemma {:induction false} TranslateAllAppend(a: seq<Frame>, b: seq<Frame>)
    requires AllValid(a) && AllValid(b)
    ensures AllValid(a + b)
    ensures TranslateAll(a + b) == TranslateAll(a) + TranslateAll(b)
  {
    AllValidAppend(a, b);
    if a == [] {
      assert a + b == b;
    } else {
      assert (a + b)[0] == a[0];
      assert (a + b)[1..] == a[1..] + b;
      AllValidTail(a);
      TranslateAllAppend(a[1..], b);
    }
  }

  lemma AllValidAppend(a: seq<Frame>, b: seq<Frame>)
    requires AllValid(a) && AllValid(b)
    ensures AllValid(a + b)
  {
    forall i | 0 <= i < |a + b| ensures ValidFrame((a + b)[i]) {
      if i < |a| {
        assert (a + b)[i] == a[i];
      } else {
        assert (a + b)[i] == b[i - |a|];
      }
    }
  }

  lemma AllValidPrefix(a: seq<Frame>, k: nat)
    requires AllValid(a) && k < |a|
    ensures AllValid(a[..k]) && AllValid([a[k]])
  {
    forall i | 0 <= i < k ensures ValidFrame(a[..k][i]) {
      assert a[..k][i] == a[i];
    }
  }

  /** Serving one more frame appends its requests and its failure, if any. */
  lemma ServeStep(frames: seq<Frame>, replies: seq<int>, k: nat)
    requires AllValid(frames) && |replies| == |frames| && k < |frames|
    ensures AllValid(frames[..k]) && AllValid(frames[..k + 1])
    ensures TranslateAll(frames[..k + 1]) == TranslateAll(frames[..k]) + Translate(frames[k].data, frames[k].len)
    ensures Failures(frames[..k + 1], replies[..k + 1])
      == Failures(frames[..k], replies[..k]) + (if frames[k].len > 0 && replies[k] < 0 then 1 else 0)
  {
    AllValidPrefix(frames, k);
    TranslateAllAppend(frames[..k], [frames[k]]);
    FailuresAppend(frames[..k], [frames[k]], replies[..k], [replies[k]]);
    assert frames[..k + 1] == frames[..k] + [frames[k]];
    assert replies[..k + 1] == replies[..k] + [replies[k]];
    assert [frames[k]][1..] == [] && [replies[k]][1..] == [];
  }

  lemma AllValidTail(a: seq<Frame>)
    requires AllValid(a) && a != []
    ensures AllValid(a[1..])
  {
    forall i | 0 <= i < |a[1..]| ensures ValidFrame(a[1..][i]) {
      assert a[1..][i] == a[i + 1];
    }
  }

  /** Number of failed transfers: frames with `len > 0` whose transfer the device answered with an error. */
  function Failures(frames: seq<Frame>, replies: seq<int>): nat
    requires |replies| == |frames|
  {
    if frames == [] then 0
    else (if frames[0].len > 0 && replies[0] < 0 then 1 else 0) + Failures(frames[1..], replies[1..])
  }

  /** Number of transfers issued for the frames. */
  function TransferCount(frames: seq<Frame>): nat {
    if frames == [] then 0 else (if frames[0].len > 0 then 1 else 0) + TransferCount(frames[1..])
  }

  /**
   * The device handle the bridge owns. Its ghost fields log what went out
   * on it: every control request in order, and how many "USB error"
   * messages were written for failed ones.
   */
  class DeviceHandle {
    ghost var transfers: seq<Request>
    ghost var errors: nat

    constructor ()
      ensures transfers == [] && errors == 0
    {
      transfers := [];
      errors := 0;
    }

    /**
     * `usb_control_msg` for a host-to-device vendor request. The device's
     * answer, the byte count or a negative error, is `nBytes`.
     */
    method ControlMsg(r: Request, nBytes: int) returns (n: int)
      modifies this
      ensures transfers == old(transfers) + [r] && errors == old(errors)
      ensures n == nBytes
    {
      transfers := transfers + [r];
      n := nBytes;
    }

    /**
     * `dmx_handler`: sends the frame `data[..len]` as at most one request.
     * A failed transfer is only logged; the handler returns 0 regardless.
     */
    method DmxHandler(data: seq<byte>, len: int, nBytesReply: int) returns (result: int)
      requires len <= |data|
      modifies this
      ensures result == 0
      ensures transfers == old(transfers) + Translate(data, len)
      ensures errors == old(errors) + (if len > 0 && nBytesReply < 0 then 1 else 0)
    {
      var channel := Channel;
      var nBytes;
      if len == 1 {
        nBytes := ControlMsg(Request(CmdSetSingleChannel, data[len - 1] as int, channel - 1, []), nBytesReply);
        if nBytes < 0 {
          errors := errors + 1;
        }
      }
      if len > 1 {
        nBytes := ControlMsg(Request(CmdSetChannelRange, len, channel - 1, data[..len]), nBytesReply);
        if nBytes < 0 {
          errors := errors + 1;
        }
      }
      return 0;
    }

    /**
     * The bridge loop, over the frames delivered so far: each frame is
     * handled in order, whatever became of the transfers before it.
     * `replies[i]` is the device's answer to frame i's transfer.
     */
    method Serve(frames: seq<Frame>, replies: seq<int>)
      requires AllValid(frames)
      requires |replies| == |frames|
      modifies this
      ensures transfers == old(transfers) + TranslateAll(frames)
      ensures errors == old(errors) + Failures(frames, replies)
    {
      var k := 0;
      while k < |frames|
        invariant 0 <= k <= |frames|
        invariant transfers == old(transfers) + TranslateAll(frames[..k])
        invariant errors == old(errors) + Failures(frames[..k], replies[..k])
      {
        var result := DmxHandler(frames[k].data, frames[k].len, replies[k]);
        ServeStep(frames, replies, k);
        k := k + 1;
      }
      assert frames[..k] == frames && replies[..k] == replies;
    }
  }

  lemma {:induction false} FailuresAppend(a: seq<Frame>, b: seq<Frame>, ra: seq<int>, rb: seq<int>)
    requires |ra| == |a| && |rb| == |b|
    ensures Failures(a + b, ra + rb) == Failures(a, ra) + Failures(b, rb)
  {
    if a == [] {
      assert a + b == b && ra + rb == rb;
    } else {
      assert (a + b)[1..] == a[1..] + b && (ra + rb)[1..] == ra[1..] + rb;
      FailuresAppend(a[1..], b, ra[1..], rb);
    }
  }

  /** At most one error message per transfer: only frames that put a request on the wire can fail. */
  lemma {:induction false} FailuresAtMostTransfers(frames: seq<Frame>, replies: seq<int>)
    requires |replies| == |frames|
    ensures Failures(frames, replies) <= TransferCount(frames)
  {
    if frames != [] {
      FailuresAtMostTransfers(frames[1..], replies[1..]);
    }
  }

  /** Every frame of length `len > 0` puts exactly one request on the wire, no more. */
  lemma {:induction false} TransfersPerFrame(frames: seq<Frame>)
    requires AllValid(frames)
    ensures |TranslateAll(frames)| == TransferCount(frames)
  {
    if frames != [] {
      TransfersPerFrame(frames[1..]);
    }
  }
}
