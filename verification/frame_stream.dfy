/** The camera server's frame loop (`generate_frames`) and the
    `/video_feed` response that carries it. The device read and the JPEG
    encoder are opaque: each loop iteration is given as its outcome. */
module FrameStream {
  import opened Wrappers
  import opened Multipart
  import Camera

  /** What one iteration of the loop observed: the read failed, the read
      succeeded but JPEG encoding failed, or the encoder produced `jpeg`. */
  datatype Capture = ReadFailed | EncodeFailed | Encoded(jpeg: Bytes)

  /** Index of the first failed read, or `|captures|` when every read succeeded. */
  function FirstFailedRead(captures: seq<Capture>): (n: nat)
    ensures n <= |captures|
    ensures forall i | 0 <= i < n :: !captures[i].ReadFailed?
    ensures n < |captures| ==> captures[n].ReadFailed?
  {
    if captures == [] || captures[0].ReadFailed? then 0
    else 1 + FirstFailedRead(captures[1..])
  }

  /** The encoder output of every `Encoded` capture, in capture order. */
  function Payloads(captures: seq<Capture>): seq<Bytes>
  {
    if captures == [] then []
    else (if captures[0].Encoded? then [captures[0].jpeg] else []) + Payloads(captures[1..])
  }

  /** Positions of the `Encoded` captures, in increasing order. */
  function EncodedIndices(captures: seq<Capture>): (idx: seq<nat>)
    ensures forall k | 0 <= k < |idx| :: idx[k] < |captures| && captures[idx[k]].Encoded?
    ensures forall k, l | 0 <= k < l < |idx| :: idx[k] < idx[l]
    ensures forall i | 0 <= i < |captures| && captures[i].Encoded? :: i in idx
  {
    if captures == [] then []
    else
      var last := |captures| - 1;
      var front := captures[..last];
      var rest := EncodedIndices(front);
      assert forall i | 0 <= i < last :: front[i] == captures[i];
      rest + (if captures[last].Encoded? then [last] else [])
  }

  /** Each payload framed as one multipart part. */
  function Frame(payloads: seq<Bytes>): (parts: seq<Bytes>)
    ensures |parts| == |payloads|
    ensures forall k | 0 <= k < |parts| :: ParsePart(parts[k]) == Some(payloads[k])
  {
    seq(|payloads|, k requires 0 <= k < |payloads| => ParseOfPart(payloads[k]); Part(payloads[k]))
  }

  /** `generate_frames` run over `captures`: the parts it yields, in order.
      It stops at a failed read and yields nothing for a failed encode. */
  function GenerateFrames(captures: seq<Capture>): (parts: seq<Bytes>)
    ensures |parts| <= |captures|
    ensures forall k | 0 <= k < |parts| :: ParsePart(parts[k]).Some?
  {
    if captures == [] then []
    else match captures[0]
      case ReadFailed => []
      case EncodeFailed => GenerateFrames(captures[1..])
      case Encoded(jpeg) => ParseOfPart(jpeg); [Part(jpeg)] + GenerateFrames(captures[1..])
  }

  /** The generator frames exactly the encoder output that precedes the
      first failed read. */
  lemma {:induction false} GenerateFramesIsFramedPayloads(captures: seq<Capture>)
    ensures GenerateFrames(captures) == Frame(Payloads(captures[..FirstFailedRead(captures)]))
  {
    var n := FirstFailedRead(captures);
    if captures == [] || captures[0].ReadFailed? {
      assert captures[..n] == [];
    } else {
      var tail := captures[1..];
      GenerateFramesIsFramedPayloads(tail);
      assert captures[..n][0] == captures[0];
      assert captures[..n][1..] == tail[..FirstFailedRead(tail)];
      var p := Payloads(tail[..FirstFailedRead(tail)]);
      if captures[0].Encoded? {
        assert Payloads(captures[..n]) == [captures[0].jpeg] + p;
        assert Frame([captures[0].jpeg] + p) == [Part(captures[0].jpeg)] + Frame(p);
      } else {
        assert Payloads(captures[..n]) == p;
      }
    }
  }

  /** Payloads picks the encoder output at the encoded positions, unchanged. */
  lemma {:induction false} PayloadsAtEncodedIndices(captures: seq<Capture>)
    ensures |Payloads(captures)| == |EncodedIndices(captures)|
    ensures forall k | 0 <= k < |Payloads(captures)| ::
              Payloads(captures)[k] == captures[EncodedIndices(captures)[k]].jpeg
  {
    if captures != [] {
      var last := |captures| - 1;
      var front := captures[..last];
      assert captures == front + [captures[last]];
      PayloadsAtEncodedIndices(front);
      PayloadsAppend(front, captures[last]);
      var p := Payloads(captures);
      var idx := EncodedIndices(captures);
      forall k | 0 <= k < |p|
        ensures p[k] == captures[idx[k]].jpeg
      {
        if k < |Payloads(front)| {
          assert p[k] == Payloads(front)[k];
          assert idx[k] == EncodedIndices(front)[k];
          assert front[idx[k]] == captures[idx[k]];
        }
      }
    }
  }

  /** The parts of one stream, stated against the captures: there is one
      part per successful encode before the first failed read, the parts
      follow capture order, and each carries the encoder's bytes unchanged. */
  lemma PartsFollowCaptures(captures: seq<Capture>)
    ensures var parts := GenerateFrames(captures);
            var n := FirstFailedRead(captures);
            var idx := EncodedIndices(captures[..n]);
            && |parts| == |idx|
            && (forall k | 0 <= k < |idx| :: idx[k] < n && captures[idx[k]].Encoded?)
            && (forall k, l | 0 <= k < l < |idx| :: idx[k] < idx[l])
            && (forall i | 0 <= i < n && captures[i].Encoded? :: i in idx)
            && (forall k | 0 <= k < |parts| :: parts[k] == Part(captures[idx[k]].jpeg))
  {
    var n := FirstFailedRead(captures);
    var pre := captures[..n];
    GenerateFramesIsFramedPayloads(captures);
    PayloadsAtEncodedIndices(pre);
    var idx := EncodedIndices(pre);
    assert forall i | 0 <= i < n :: pre[i] == captures[i];
    forall i | 0 <= i < n && captures[i].Encoded?
      ensures i in idx
    {
      assert pre[i].Encoded?;
    }
  }

  /** Nothing comes from a failed read or from anything after it. */
  lemma {:induction false} StopsAtFailedRead(before: seq<Capture>, after: seq<Capture>)
    ensures GenerateFrames(before + [ReadFailed] + after) == GenerateFrames(before)
  {
    var c := before + [ReadFailed] + after;
    if before == [] {
      assert c[0] == ReadFailed;
    } else {
      assert c[0] == before[0];
      assert c[1..] == before[1..] + [ReadFailed] + after;
      StopsAtFailedRead(before[1..], after);
    }
  }

  /** A failed encode yields nothing and the loop carries on with the next
      read: dropping it anywhere leaves the output unchanged. */
  lemma {:induction false} SkipsFailedEncode(before: seq<Capture>, after: seq<Capture>)
    ensures GenerateFrames(before + [EncodeFailed] + after) == GenerateFrames(before + after)
  {
    var c := before + [EncodeFailed] + after;
    if before == [] {
      assert c[1..] == after;
      assert before + after == after;
    } else {
      assert c[0] == before[0] && (before + after)[0] == before[0];
      assert c[1..] == before[1..] + [EncodeFailed] + after;
      assert (before + after)[1..] == before[1..] + after;
      SkipsFailedEncode(before[1..], after);
    }
  }

  /** Later captures never revise what was already sent: the output for a
      prefix of the captures is a prefix of the output for all of them. */
  lemma {:induction false} OutputExtendsWithCaptures(earlier: seq<Capture>, later: seq<Capture>)
    ensures var parts := GenerateFrames(earlier);
            parts <= GenerateFrames(earlier + later)
  {
    if earlier != [] {
      var c := earlier + later;
      assert c[0] == earlier[0];
      assert c[1..] == earlier[1..] + later;
      OutputExtendsWithCaptures(earlier[1..], later);
    }
  }

  lemma {:induction false} PayloadsAppend(captures: seq<Capture>, last: Capture)
    ensures Payloads(captures + [last])
            == Payloads(captures) + (if last.Encoded? then [last.jpeg] else [])
  {
    if captures == [] {
      assert captures + [last] == [last];
    } else {
      assert (captures + [last])[0] == captures[0];
      assert (captures + [last])[1..] == captures[1..] + [last];
      PayloadsAppend(captures[1..], last);
    }
  }

  /** The generator as the loop the server runs: read, stop on a failed
      read, skip a failed encode, otherwise send one part. */
  method StreamFrames(captures: seq<Capture>) returns (parts: seq<Bytes>)
    ensures parts == Frame(Payloads(captures[..FirstFailedRead(captures)]))
    ensures parts == GenerateFrames(captures)
  {
    parts := [];
    var i := 0;
    while i < |captures|
      invariant i <= FirstFailedRead(captures)
      invariant parts == Frame(Payloads(captures[..i]))
    {
      var c := captures[i];
      if c.ReadFailed? {
        break;
      }
      assert captures[..i + 1] == captures[..i] + [c];
      PayloadsAppend(captures[..i], c);
      if c.EncodeFailed? {
        i := i + 1;
        continue;
      }
      parts := parts + [Part(c.jpeg)];
      i := i + 1;
    }
    GenerateFramesIsFramedPayloads(captures);
  }

  /** The `/video_feed` response: the handle the frames were read from, the
      camera slot afterwards, the device calls made, the declared media type
      and the parts of the body. */
  datatype Feed = Feed(
    slot: Camera.Slot,
    camera: Camera.Handle,
    calls: seq<Camera.DeviceCall>,
    mimetype: string,
    parts: seq<Bytes>)

  /** One request to `/video_feed`: obtain the shared camera (`device` is the
      capture object opening it would yield), then stream `captures` read
      from it, declaring boundary `frame`. */
  function VideoFeed(slot: Camera.Slot, device: Camera.Handle, captures: seq<Capture>): (f: Feed)
    ensures f.slot == Camera.Configured(f.camera)
    ensures BoundaryParameter(f.mimetype) == Some("frame")
    ensures slot.Configured? ==> f.camera == slot.handle && f.calls == []
    ensures slot.Uninitialised? ==>
              && f.camera == device
              && Camera.OpenCount(f.calls) == 1
              && Camera.Settings(f.calls) == Camera.RequestedSettings
    ensures f.parts == Frame(Payloads(captures[..FirstFailedRead(captures)]))
  {
    var a := Camera.GetCamera(slot, device);
    DelimiterMatchesDeclaredBoundary();
    GenerateFramesIsFramedPayloads(captures);
    Feed(a.slot, a.camera, a.calls, Mimetype, GenerateFrames(captures))
  }

  /** Every part of a response opens with `--` and the boundary that the
      response's media type declares. */
  lemma PartsUseDeclaredBoundary(slot: Camera.Slot, device: Camera.Handle, captures: seq<Capture>)
    ensures var f := VideoFeed(slot, device, captures);
            forall k | 0 <= k < |f.parts| ::
              Ascii("--" + BoundaryParameter(f.mimetype).value + "\r\n") <= f.parts[k]
  {
  }

  /** A second viewer shares the camera the first request opened and
      causes no further device calls. */
  lemma SecondViewerSharesCamera(
    device: Camera.Handle, other: Camera.Handle, first: seq<Capture>, second: seq<Capture>)
    ensures var f := VideoFeed(Camera.Uninitialised, device, first);
            var g := VideoFeed(f.slot, other, second);
            && f.camera == device && g.camera == device
            && g.slot == f.slot && g.calls == []
  {
  }
}
