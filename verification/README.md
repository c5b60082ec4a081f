# LELA camera stream and Gamaforce drop calculator — a Dafny model

This project models the two small sequential cores of the repository.

**Motion-JPEG streaming (`LELA_camera_streaming_server.py`).** `/video_feed`
answers with media type `multipart/x-mixed-replace; boundary=frame`. Its body
comes from the generator `generate_frames`. The generator takes the shared
camera from `get_camera`. It then loops: read a frame, stop at the first
failed read, skip a frame whose JPEG encode fails, and otherwise yield one
part. A part is `--frame\r\n`, then `Content-Type: image/jpeg\r\n\r\n`, then
the encoder's bytes, then `\r\n`. `get_camera` creates the capture object
once, on first use. At that point it opens device 0 and sets width 640,
height 480, 30 fps and buffer size 1.

- `Multipart` holds the byte layout of one part and its parser. It also
  reads the boundary parameter out of the declared media type and checks
  that boundary against section 5.1.1 of RFC 2046.
- `Camera` models the global `camera` as a two-state slot
  (`Uninitialised`, `Configured(handle)`). Each `get_camera` call reports
  the device calls it makes as a list of `Open`/`Set` calls.
- `FrameStream` models the generator as a pure function of the loop
  outcomes. Each outcome is one of `ReadFailed`, `EncodeFailed` or
  `Encoded(jpeg)`. It also gives the same loop as a method with `break` and
  `continue`, and the `/video_feed` response.

**Package drop (`Gamaforce_C5.py`).** `hitung_jarak_penjatuhan` computes three
things from speed v, height h and gravity g:

- the fall time t = √(2h/g);
- the package's horizontal travel v·t;
- the remaining distance to the release point, (target − aircraft) − v·t.

It then classifies that distance as too late, drop now or keep flying.
`main` rejects a non-positive speed or height. Otherwise it derives the
release position and the time left to reach it. `DropCalculation` models
both over Dafny `real`. The square root is a parameter `sqrt`, and the
ghost predicate `IsSqrt` requires it to return the exact non-negative root.

The server has no producer thread, no shared frame slot and no subscriber
list. Every `/video_feed` request runs its own `generate_frames`, which
reads the shared capture object directly.

## Model

| member | source | states |
|---|---|---|
| Multipart.Part | LELA_camera_streaming_server.py:72-73 | A part is the delimiter line, the content-type header and blank line, the payload unchanged, and a closing CRLF. It is exactly 39 bytes longer than the payload. |
| Multipart.ParseOfPart | LELA_camera_streaming_server.py:72-73 | Parsing a framed part gives back exactly the payload it was built from. |
| Multipart.PartOfParse | LELA_camera_streaming_server.py:72-73 | Any byte string that parses as a part is the framing of the payload the parser returns. |
| Multipart.PartInjective | LELA_camera_streaming_server.py:72-73 | Different payloads always give different parts. |
| Multipart.BoundaryParameter | LELA_camera_streaming_server.py:79-80 | The boundary token exists exactly when the media type starts with `multipart/x-mixed-replace; boundary=`. The media type is that prefix followed by the token. |
| Multipart.DelimiterMatchesDeclaredBoundary | LELA_camera_streaming_server.py:72-80 | The declared boundary is `frame`. The delimiter line the generator writes is `--` + that boundary + CRLF. `frame` is a legal boundary under section 5.1.1 of RFC 2046. |
| Camera.GetCamera | LELA_camera_streaming_server.py:24-47 | After the call the slot holds the returned handle. On an uninitialised slot the call opens device 0 exactly once, first of all. The settings it leaves are width 640, height 480, fps 30 and buffer 1. On a configured slot it returns the stored handle and makes no device call. |
| Camera.GetCameraIdempotent | LELA_camera_streaming_server.py:38-47 | A second call returns the same handle, keeps the slot, and makes no device call. |
| Camera.GetCameraRepeatedly | LELA_camera_streaming_server.py:30-47 | Over any number of sequential calls, every call returns the handle the first call left in the slot, and the slot ends holding it. A slot that was already configured stays unchanged, and no device call is made. |
| Camera.OpenedAtMostOnce | LELA_camera_streaming_server.py:30-47 | Over any number of sequential calls, the device is opened at most once. It is opened exactly once when the slot starts empty and some call is made. |
| FrameStream.FirstFailedRead | LELA_camera_streaming_server.py:57-60 | The index found has no failed read before it. It is a failed read itself unless it is the end of the captures. |
| FrameStream.EncodedIndices | LELA_camera_streaming_server.py:64-67 | The positions listed are strictly increasing. They are exactly the positions whose encode succeeded. |
| FrameStream.GenerateFrames | LELA_camera_streaming_server.py:50-73 | The generator yields at most one part per capture, and every yielded item parses as a part. |
| FrameStream.GenerateFramesIsFramedPayloads | LELA_camera_streaming_server.py:57-73 | The output is the framing of the encoder output that comes before the first failed read, in capture order. |
| FrameStream.PayloadsAtEncodedIndices | LELA_camera_streaming_server.py:64-73 | The k-th payload is the encoder's bytes at the k-th successful encode, unchanged. |
| FrameStream.PartsFollowCaptures | LELA_camera_streaming_server.py:57-73 | There is one part per successful encode before the first failed read. The parts keep capture order, and each carries its encoder bytes unchanged. |
| FrameStream.StopsAtFailedRead | LELA_camera_streaming_server.py:57-60 | Nothing is emitted from a failed read or from any capture after it. |
| FrameStream.SkipsFailedEncode | LELA_camera_streaming_server.py:64-67 | A failed encode emits nothing, and the loop goes on. Removing it from anywhere in the captures leaves the output unchanged. |
| FrameStream.OutputExtendsWithCaptures | LELA_camera_streaming_server.py:50-73 | The output for a prefix of the captures is a prefix of the output for all of them. Parts already sent are never revised. |
| FrameStream.StreamFrames | LELA_camera_streaming_server.py:57-73 | The imperative loop with `break` and `continue` produces exactly the framed encoder output before the first failed read. It agrees with the generator function. |
| FrameStream.VideoFeed | LELA_camera_streaming_server.py:55-80 | A request leaves the camera configured with the handle it read from. Its media type declares boundary `frame`. Its body is the framed encoder output before the first failed read, in capture order. On an empty slot it opens the device once and leaves width 640, height 480, fps 30 and buffer 1. On an already-configured camera it reuses the stored handle and makes no device call. |
| FrameStream.PartsUseDeclaredBoundary | LELA_camera_streaming_server.py:72-80 | Every part of a response starts with `--`, then the boundary declared in that response's media type, then CRLF. |
| FrameStream.SecondViewerSharesCamera | LELA_camera_streaming_server.py:35-58 | A second request reads from the handle the first request opened, and makes no device call. |
| DropCalculation.Classify | Gamaforce_C5.py:47-52 | The status is too late iff the drop distance is ≤ 0, drop now iff 0 < distance < v, and keep flying iff the distance is > 0 and ≥ v. So exactly one status holds. |
| DropCalculation.MessageInjective | Gamaforce_C5.py:47-52 | `Message` gives each status the exact string the source returns, and the three strings are pairwise different, so the status value loses nothing against the returned text. |
| DropCalculation.ComputeDrop | Gamaforce_C5.py:3-54 | g = 0 raises a division error. 2h/g < 0 raises a square-root domain error. Otherwise t ≥ 0 and g·t² = 2h, travel = v·t, and drop distance = (target − aircraft) − v·t. Releasing after the drop distance lands exactly on the target. The status is the classification of the drop distance. |
| DropCalculation.FallTimeSolvesFreeFall | Gamaforce_C5.py:31-33 | For g > 0 and h ≥ 0 the calculation succeeds, and its fall time t ≥ 0 satisfies ½·g·t² = h. |
| DropCalculation.AdviceProgressesAsPlaneAdvances | Gamaforce_C5.py:40-52 | Moving the aircraft forward by d reduces the drop distance by exactly d. The advice only moves from keep flying towards drop now and too late. |
| DropCalculation.TargetBehindIsTooLate | Gamaforce_C5.py:40-48 | With v ≥ 0, h ≥ 0 and default gravity, a target at or behind the aircraft is always reported too late. |
| DropCalculation.ExampleOneKeepFlying | Gamaforce_C5.py:155-174 | 50 m/s, 500 m, from 0 m to 600 m: the drop distance lies in (90, 100] m and the advice is keep flying. |
| DropCalculation.ExampleTwoDropNow | Gamaforce_C5.py:176-195 | 100 m/s, 1000 m, from 500 m to 2000 m: the drop distance lies in (50, 80] m and the advice is drop now. |
| DropCalculation.ExampleThreeTooLate | Gamaforce_C5.py:197-215 | 80 m/s, 200 m, from 1000 m to a target behind at 800 m: too late. |
| DropCalculation.PlanDrop | Gamaforce_C5.py:99-130 | The input is rejected iff v ≤ 0 or h ≤ 0. Otherwise the plan is the calculation under g = 9.8. The release position is target − v·t in both branches. A waiting time is given iff the drop distance is > 0; it then satisfies time·v = distance, and it is below 1 s iff the advice is drop now. |

## Left out

- The OpenCV calls (`cv2.VideoCapture`, `read`, `imencode`, `set`) are opaque. A loop iteration is given as its outcome. The capture object is an abstract `Handle` supplied by the caller. A property setting is recorded as the request the code makes; whether the driver honours it is not modelled.
- JPEG quality 70 is passed to the encoder, which is opaque, so it has no effect in the model.
- The capture loop runs until a read fails, so it can be infinite. The model takes a finite sequence of outcomes, which is a prefix of the stream. `OutputExtendsWithCaptures` ties the prefixes together.
- The lock and double-checked locking around `get_camera`, and concurrent viewers, are concurrency. `get_camera` is modelled as sequential calls only.
- The parser reads one part back, not a whole stream body. The JPEG bytes are not escaped, so a payload that happens to contain `\r\n--frame` would make the stream ambiguous for a boundary-scanning client. Splitting a stream body is not modelled.
- The `/` HTML page, the `/status` JSON, local IP discovery, Waitress and Flask start-up, the `gethostname` monkeypatch and the start-up `isOpened` check are server plumbing and console I/O. None of them is modelled.
- Console input parsing (`float(input(...))` with its `ValueError`), printing, `tampilkan_visualisasi` and the printing in `contoh_kasus` are left out. The three `contoh_kasus` inputs are kept as example lemmas.
- DropCalculation.ComputeDrop: numbers are exact reals, 9.8 is exact, and `math.sqrt` is any exact non-negative square root. IEEE rounding, infinities and NaN are not modelled; in Python a NaN input would pass the `<= 0` check in `main`.
- `B1.py`, `image_filters.py` and `binary_mask.py` are image-processing scripts built on OpenCV, NumPy and matplotlib. They are not part of this model.
