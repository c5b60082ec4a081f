/** The camera server's lazily opened, process-wide capture handle
    (`get_camera`), modelled sequentially as a two-state slot. */
module Camera {

  /** Module-level configuration of the server. */
  const CameraIndex: int := 0
  const FrameWidth: int := 640
  const FrameHeight: int := 480
  const Fps: int := 30

  /** Capture buffer depth requested on first initialisation. */
  const BufferSize: int := 1

  /** The capture properties the server sets. */
  datatype Property = FrameWidthProp | FrameHeightProp | FpsProp | BufferSizeProp

  /** A call made on the capture device: opening it, or setting a property. */
  datatype DeviceCall = Open(index: int) | Set(property: Property, value: int)

  /** The opaque capture object that opening the device returns. */
  datatype Handle = Handle(id: nat)

  /** The global `camera` variable: not yet created, or holding the configured handle. */
  datatype Slot = Uninitialised | Configured(handle: Handle)

  /** The effect of one `get_camera` call: the slot afterwards, the handle
      returned, and the device calls performed, in order. */
  datatype Access = Access(slot: Slot, camera: Handle, calls: seq<DeviceCall>)

  /** Property values a device holds after `calls`: opening the device starts
      from its defaults, and the last setting of a property wins. */
  function Settings(calls: seq<DeviceCall>): map<Property, int>
  {
    if calls == [] then map[]
    else match calls[|calls| - 1]
      case Open(_) => map[]
      case Set(p, v) => Settings(calls[..|calls| - 1])[p := v]
  }

  /** How many times `calls` opens the device. */
  function OpenCount(calls: seq<DeviceCall>): nat
  {
    if calls == [] then 0
    else (if calls[0].Open? then 1 else 0) + OpenCount(calls[1..])
  }

  /** The configuration the server asks for on first use. */
  const RequestedSettings: map<Property, int> :=
    map[FrameWidthProp := FrameWidth, FrameHeightProp := FrameHeight,
        FpsProp := Fps, BufferSizeProp := BufferSize]

  /** `get_camera`: on an uninitialised slot, open device `CameraIndex` (the
      capture object it yields is `device`) and configure it; otherwise hand
      back the stored handle and touch nothing. */
  function GetCamera(slot: Slot, device: Handle): (a: Access)
    ensures a.slot == Configured(a.camera)
    ensures slot.Configured? ==> a.slot == slot && a.calls == []
    ensures slot.Uninitialised? ==>
              && a.camera == device
              && |a.calls| > 0 && a.calls[0] == Open(CameraIndex)
              && OpenCount(a.calls) == 1
              && Settings(a.calls) == RequestedSettings
  {
    match slot
    case Configured(h) => Access(slot, h, [])
    case Uninitialised =>
      var c1 := [Open(CameraIndex)];
      var c2 := c1 + [Set(FrameWidthProp, FrameWidth)];
      var c3 := c2 + [Set(FrameHeightProp, FrameHeight)];
      var c4 := c3 + [Set(FpsProp, Fps)];
      var calls := c4 + [Set(BufferSizeProp, BufferSize)];
      assert c2[..1] == c1 && c3[..2] == c2 && c4[..3] == c3 && calls[..4] == c4;
      assert Settings(c1) == map[];
      assert Settings(c2) == map[FrameWidthProp := FrameWidth];
      assert Settings(c3) == map[FrameWidthProp := FrameWidth, FrameHeightProp := FrameHeight];
      assert Settings(c4) == RequestedSettings - {BufferSizeProp};
      assert OpenCount(calls[4..]) == 0 by { assert calls[4..][1..] == []; }
      assert OpenCount(calls[3..]) == 0 by { assert calls[3..][1..] == calls[4..]; }
      assert OpenCount(calls[2..]) == 0 by { assert calls[2..][1..] == calls[3..]; }
      assert OpenCount(calls[1..]) == 0 by { assert calls[1..][1..] == calls[2..]; }
      Access(Configured(device), device, calls)
  }

  /** A second `get_camera` returns the same handle, leaves the slot as it
      was and performs no device call. */
  lemma GetCameraIdempotent(slot: Slot, device: Handle, other: Handle)
    ensures var a := GetCamera(slot, device);
            var b := GetCamera(a.slot, other);
            b.camera == a.camera && b.slot == a.slot && b.calls == []
  {
  }

  /** The result of `n` successive `get_camera` calls, where call `k` would
      obtain `devices[k]` if it had to open the device. */
  datatype History = History(slot: Slot, cameras: seq<Handle>, calls: seq<DeviceCall>)

  /** Every call after the first returns the handle the first call left in
      the slot; a slot that was already configured is never changed. */
  function GetCameraRepeatedly(slot: Slot, devices: seq<Handle>): (h: History)
    ensures |h.cameras| == |devices|
    ensures |devices| > 0 ==> h.slot == Configured(h.cameras[0])
    ensures forall k | 0 <= k < |h.cameras| :: h.cameras[k] == h.cameras[0]
    ensures slot.Configured? ==> h.slot == slot && h.calls == []
    decreases |devices|
  {
    if devices == [] then History(slot, [], [])
    else
      var a := GetCamera(slot, devices[0]);
      var rest := GetCameraRepeatedly(a.slot, devices[1..]);
      var cameras := [a.camera] + rest.cameras;
      assert forall k | 0 <= k < |cameras| :: cameras[k] == a.camera by {
        forall k | 0 <= k < |cameras|
          ensures cameras[k] == a.camera
        {
          if k > 0 {
            assert cameras[k] == rest.cameras[k - 1] == rest.cameras[0];
          }
        }
      }
      History(rest.slot, cameras, a.calls + rest.calls)
  }

  lemma {:induction false} OpenCountAppend(a: seq<DeviceCall>, b: seq<DeviceCall>)
    ensures OpenCount(a + b) == OpenCount(a) + OpenCount(b)
  {
    if a == [] {
      assert a + b == b;
    } else {
      assert (a + b)[0] == a[0];
      assert (a + b)[1..] == a[1..] + b;
      OpenCountAppend(a[1..], b);
    }
  }

  /** However many requests call `get_camera`, the device is opened at most
      once, and exactly once if the slot started empty and anything called it. */
  lemma {:induction false} OpenedAtMostOnce(slot: Slot, devices: seq<Handle>)
    ensures var h := GetCameraRepeatedly(slot, devices);
            OpenCount(h.calls) == (if slot.Uninitialised? && |devices| > 0 then 1 else 0)
    decreases |devices|
  {
    if devices != [] {
      var a := GetCamera(slot, devices[0]);
      var rest := GetCameraRepeatedly(a.slot, devices[1..]);
      OpenedAtMostOnce(a.slot, devices[1..]);
      OpenCountAppend(a.calls, rest.calls);
    }
  }
}
