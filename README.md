# QtYuv frame pipeline, modelled in Dafny

QtYuv plays a raw, headerless yuv420p (I420) file. A reader thread cuts the file
into frames of `12*W*H/8` bytes and stamps frame `i` with `round(i*1000/fps)`
milliseconds. It pushes each frame into a blocking queue of capacity 3. On every
paint tick the display item looks at the head of the queue. When the playback
clock has reached the head's timestamp, the item dequeues it and binds it to its
material. The material's shader cuts the bound frame into its Y, U and V planes
and uploads each plane into its own texture. A fragment shader samples the three
textures through texture units 0, 1 and 2.

The model has five modules, one per file:

- `Frames` (`frames.dfy`): the value types of `yuvdisplay.h`: `Size`, `VideoFrame`, and `Option` for `std::optional`.
- `FrameQueues` (`frame_queue.dfy`): `LQTBlockingQueue<VideoFrame>` as a class. It holds the waiting items, the capacity and a disposed flag. It also keeps the ghost history of frames taken in and handed out, which states first-in-first-out order. A call that would block is excluded by its precondition.
- `StreamReading` (`stream_reader.dfy`): the frame size, the timestamps and the stream a file yields (`ReadFrames`, `Stream`). The class `StreamReader` runs the reading loop. A call of `Run` stands for the thread being scheduled. It runs until the thread ends or would wait inside `enqueue`. In that case the frame already read is kept in `pending`, and the next call resumes the enqueue.
- `Shading` (`yuv_shader.dfy`): the plane layout of `updateState` and its bounds. The OpenGL state the shader touches is a value: the active unit, the unit-to-texture bindings, the texture images and the sampler-to-unit uniforms. `initialize` and `updateState` are loops over the three planes.
- `Display` (`yuv_display.dfy`): the pacing tick as a function, with lemmas over runs of ticks. The class `YuvDisplay` has `Play`, `UpdatePaintNode` and the destructor `Destroy`.

The pipeline invariant is `YuvDisplay.Valid` together with `StreamReader.Valid`. It says that the queue has taken in exactly the frames the reader offered, in file order, or a prefix of them once the queue is disposed. From this, every frame the tick swaps in is the next frame of the file.

## Model

| member | source | states |
|---|---|---|
| `StreamReading.FrameByteSize` | Qt5Yuv/yuvdisplay.cpp:34 | The frame size is floor(3·W·H/2) bytes. It is at least the W·H luma bytes and less than 2·W·H. |
| `StreamReading.TruncDiv` | Qt5Yuv/yuvdisplay.cpp:34 | The `/ 8` of a C++ `int` truncates toward zero: the quotient of a non-negative dividend is the largest r ≥ 0 with r·d ≤ x, and that of a negative dividend the smallest r ≤ 0 with x ≤ r·d. |
| `StreamReading.FrameByteSizeAsWritten` | Qt5Yuv/yuvdisplay.cpp:34 | The constructor's expression evaluated as written: both products wrap to 32 bits before a truncating `/ 8`, so the result always lies in [−2²⁸, 2²⁸−1], whatever the video size. |
| `StreamReading.AsWrittenAgreesWithoutOverflow` | Qt5Yuv/yuvdisplay.cpp:34 | Evaluated in 32-bit `int`, the constructor's expression equals the frame size whenever 12·W·H fits in an `int`. |
| `StreamReading.AsWrittenOverflowsAt16K` | Qt5Yuv/yuvdisplay.cpp:34 | For a 16384×16384 video the 32-bit expression gives −134217728 instead of 402653184. |
| `StreamReading.StreamReader.constructor` | Qt5Yuv/yuvdisplay.cpp:27-35 | The frame size is computed once, from the video size. The reader starts at position 0 with counter 0, not started, not interrupted. |
| `StreamReading.Pts` | Qt5Yuv/yuvdisplay.cpp:49 | The timestamp is an integer within half a millisecond of i·1000/fps, with ties rounded up. |
| `StreamReading.PtsUnique` | Qt5Yuv/yuvdisplay.cpp:49 | Any integer that close to i·1000/fps is the timestamp, so `Pts` is the rounding. |
| `StreamReading.PtsFirstIsZero` | Qt5Yuv/yuvdisplay.cpp:49 | Frame 0 has pts 0. |
| `StreamReading.PtsMonotonic` | Qt5Yuv/yuvdisplay.cpp:49 | Timestamps never decrease as i grows. |
| `StreamReading.PtsAtOneFps` | Qt5Yuv/yuvdisplay.cpp:49 | At 1 fps frame i has pts 1000·i. |
| `StreamReading.ReadFrames` | Qt5Yuv/yuvdisplay.cpp:43-54 | The read loop from frame number i on: a short read ends it, a full read becomes a frame stamped Pts(i) and the loop continues. Every frame it emits has exactly fs bytes and the configured size. |
| `StreamReading.Stream` | Qt5Yuv/yuvdisplay.cpp:43-54 | The loop started at i = 0 on the whole file with the constructor's frame size. Every frame has exactly that many bytes and the configured size. |
| `StreamReading.ReadFramesSlices` | Qt5Yuv/yuvdisplay.cpp:43-54 | The read-until-short-read loop yields ⌊L/fs⌋ frames. Frame k is bytes [k·fs, (k+1)·fs) with pts Pts(i+k) and the configured size. The trailing partial frame is never emitted. |
| `StreamReading.ReadFramesLength` | Qt5Yuv/yuvdisplay.cpp:43-54 | The loop emits exactly one frame per whole block of fs bytes; a trailing short block yields none. |
| `StreamReading.ReadFramesAt` | Qt5Yuv/yuvdisplay.cpp:43-54 | Whenever k+1 whole blocks are present, frame k of the loop's output is block k stamped Pts(i+k). |
| `StreamReading.StreamFrames` | Qt5Yuv/yuvdisplay.cpp:43-54 | A file of L bytes yields ⌊L/fs⌋ frames. Frame k is the k-th block of fs bytes, stamped Pts(k), with the configured size. |
| `StreamReading.NextFrame` | Qt5Yuv/yuvdisplay.cpp:45-52 | A full read at frame boundary k is frame k of the stream. |
| `StreamReading.LastFrame` | Qt5Yuv/yuvdisplay.cpp:45-47 | A short read at frame boundary k means the stream has exactly k frames. |
| `StreamReading.StreamFramesAreWhole` | Qt5Yuv/yuvdisplay.cpp:45-51 | Every emitted frame has exactly fs bytes and the configured size. |
| `StreamReading.StreamPtsNonDecreasing` | Qt5Yuv/yuvdisplay.cpp:49 | Along the stream, pts starts at 0 and never decreases. |
| `StreamReading.StreamReader.Start` | Qt5Yuv/yuvdisplay.cpp:158 | The thread is marked started; nothing else changes. |
| `StreamReading.StreamReader.RequestInterruption` | Qt5Yuv/yuvdisplay.cpp:176 | The interruption flag is set; nothing else changes. |
| `StreamReading.StreamReader.ReadAt` | Qt5Yuv/yuvdisplay.cpp:45 | A read returns the next min(n, remaining) bytes of the file: exactly n bytes when that many remain, and otherwise all the remaining bytes. |
| `StreamReading.StreamReader.ResumeEnqueue` | Qt5Yuv/yuvdisplay.cpp:53 | A waiting enqueue stays blocked exactly while the queue is full and open. Otherwise the frame goes in, or is dropped by a disposed queue. |
| `StreamReading.StreamReader.ReadNext` | Qt5Yuv/yuvdisplay.cpp:45-53 | One loop body. A short read ends the thread with the counter unchanged, equal to the number of frames in the stream. A full read advances the position by one frame size and the counter by one. The frame read, stream frame `old(counter)`, is appended to an open queue, or held in `pending` while the queue is full and open. A disposed queue keeps its items. |
| `StreamReading.StreamReader.Run` | Qt5Yuv/yuvdisplay.cpp:37-57 | The thread only appends to the queue, and waits only on a full, open queue. A frame waiting on a full, open queue keeps waiting even when interruption is requested. When it ends at the file's end on a never-disposed queue, the queue has taken in exactly the whole stream. Once interruption is requested it reads no further frame: the counter is unchanged and it never returns EndOfStream. Once it is interrupted and the queue is disposed, it returns Interrupted without waiting. |
| `StreamReading.StreamReader.Wait` | Qt5Yuv/yuvdisplay.cpp:178 | Once interruption is requested and the queue is disposed, waiting for the thread ends. The thread is then finished and the queue is unchanged. |
| `FrameQueues.FrameQueue.constructor` | Qt5Yuv/yuvdisplay.cpp:163 | The queue starts empty and open with the given capacity (3 in the item). |
| `FrameQueues.FrameQueue.Enqueue` | Qt5Yuv/yuvdisplay.cpp:53 | Appends at the tail of an open queue with room. A disposed queue drops the frame. A full open queue would block, so the precondition excludes it. |
| `FrameQueues.FrameQueue.Dequeue` | Qt5Yuv/yuvdisplay.cpp:207 | Removes and returns the head of an open queue. A disposed queue returns no value. Order is first in, first out. |
| `FrameQueues.FrameQueue.Peek` | Qt5Yuv/yuvdisplay.cpp:203 | Returns a value exactly when the queue is open and non-empty. That value is the head, a frame that was enqueued. |
| `FrameQueues.FrameQueue.RequestDispose` | Qt5Yuv/yuvdisplay.cpp:177 | The queue is disposed and its contents and history are unchanged. |
| `Shading.PlaneLayout` | Qt5Yuv/yuvdisplay.cpp:96-117 | There are three planes: Y (W×H at 0), U ((W/2)×(H/2) at W·H) and V ((W/2)×(H/2) at W·H+W·H/4). |
| `Shading.ChromaQuarter` | Qt5Yuv/yuvdisplay.cpp:99-106 | A chroma plane's (W/2)·(H/2) bytes are at most W·H/4, and exactly W·H/4 for even W and H. |
| `Shading.PlanesFitInFrame` | Qt5Yuv/yuvdisplay.cpp:103-117 | Each plane ends within the 12·W·H/8-byte frame, for odd W or H too. |
| `Shading.PlanesInOrder` | Qt5Yuv/yuvdisplay.cpp:103-107 | Y starts at 0 and ends where U starts. U ends at or before V's start, so no planes overlap. |
| `Shading.EvenSizeTilesFrame` | Qt5Yuv/yuvdisplay.cpp:103-117 | For even W and H, U ends where V starts and V ends at the frame's end. |
| `Shading.LayoutOf4x2` | Qt5Yuv/yuvdisplay.cpp:96-117 | For 4×2: Y = [0,8), U = [8,10), V = [10,12), in a 12-byte frame. |
| `Shading.PlaneImage` | Qt5Yuv/yuvdisplay.cpp:103-121 | The image uploaded for plane i has exactly width·height bytes, cut from inside the frame. |
| `Shading.PlaneIndex` | Qt5Yuv/yuvdisplay.cpp:149-151 | The Y, U and V samplers map to indices 0, 1 and 2. |
| `Shading.WiredUnits` | Qt5Yuv/yuvdisplay.cpp:130-132 | With the samplers wired, units 0, 1 and 2 hold textures 0, 1 and 2. |
| `Shading.Initialize` | Qt5Yuv/yuvdisplay.cpp:125-152 | Texture i is bound on unit i, and the Y/U/V samplers read units 0/1/2. Unit 2 is left active. Images and units above 2 are untouched. |
| `Shading.UpdateState` | Qt5Yuv/yuvdisplay.cpp:85-123 | The result is exactly `UploadedState`. Nothing is uploaded without a frame or with empty data. Otherwise texture i receives plane i, and the active unit ends up holding texture 2. |
| `Shading.UploadedImagesHold` | Qt5Yuv/yuvdisplay.cpp:119-122 | After the first n uploads, textures below n hold their planes. Other textures are unchanged. |
| `Shading.UploadedState` | Qt5Yuv/yuvdisplay.cpp:85-123 | What `updateState` leaves behind. Without a frame or with empty data nothing changes. Otherwise the active unit and the sampler uniforms are kept, and only the active unit's binding changes; the textures receive the planes (`UploadFillsTextures`). |
| `Shading.UploadFillsTextures` | Qt5Yuv/yuvdisplay.cpp:119-122 | For a frame with data, textures 0, 1 and 2 end up holding the Y, U and V plane images. |
| `Shading.UploadKeepsSamplersOnTheirPlanes` | Qt5Yuv/yuvdisplay.cpp:119-122 | After `initialize`'s wiring, with unit 2 (or higher) still active, each sampler reads its own plane after the upload. |
| `Shading.LumaSamplerReadsVPlaneWhenUnitZeroActive` | Qt5Yuv/yuvdisplay.cpp:119-121 | With unit 0 active at entry, the Y sampler reads the V plane's image, which differs from the Y plane's. |
| `Shading.UpdateStateSelectingUnits` | Qt5Yuv/yuvdisplay.cpp:119-122 | With unit i selected before each bind, every sampler reads its own plane whatever unit was active before. |
| `Display.Tick` | Qt5Yuv/yuvdisplay.cpp:203-216 | A tick swaps iff the queue has a head and elapsed ≥ head.pts. A swap binds the head and drops exactly it. Otherwise queue and frame are unchanged. Geometry is always dirty, the material iff swapped. |
| `Display.Playback` | Qt5Yuv/yuvdisplay.cpp:203-211 | A run of ticks records one swap flag and one bound frame per tick. |
| `Display.PlaybackKeepsOrder` | Qt5Yuv/yuvdisplay.cpp:203-211 | Over any run of ticks, the presented frames followed by the remaining queue are the original queue. At most one frame is consumed per tick, and the bound frame is the last one presented. |
| `Display.PlaybackNeverEarly` | Qt5Yuv/yuvdisplay.cpp:205-210 | A swapping tick binds a frame whose pts ≤ that tick's elapsed time. A non-swapping tick keeps the previous frame. |
| `Display.TwoFramesAtOneFps` | Qt5Yuv/yuvdisplay.cpp:43-54 | A two-frame 2×2 file at 1 fps has pts 0 and 1000. Ticks at 0, 600, 1100 and 1600 swap exactly at 0 and 1100. |
| `Display.YuvMaterial.constructor` | Qt5Yuv/yuvdisplay.cpp:191 | A new material has no frame. |
| `Display.YuvDisplay.constructor` | Qt5Yuv/yuvdisplay.cpp:163-171 | The queue has capacity 3 and starts empty and open. There is no reader and no call has been made. |
| `Display.YuvDisplay.Play` | Qt5Yuv/yuvdisplay.cpp:154-161 | Without a reader, `play` creates a fresh reader, starts it, then starts the clock. With a reader it changes nothing. |
| `Display.YuvDisplay.UpdatePaintNode` | Qt5Yuv/yuvdisplay.cpp:184-219 | Another update is always requested, and the material is created on the first tick. The queue, the frame and the dirty bits follow `Tick`, and frameSwapped is emitted iff a swap happened. The frame swapped in is the next frame of the file. |
| `Display.YuvDisplay.NextIsStreamFrame` | Qt5Yuv/yuvdisplay.cpp:203-207 | The head of the open queue is the stream frame right after those already dequeued. |
| `Display.YuvDisplay.Destroy` | Qt5Yuv/yuvdisplay.cpp:173-182 | With a reader, the destructor requests interruption, disposes the queue, waits, in that order. The thread is then finished and the reader deleted. The queue's contents and history, the update request and the swap count are kept. Without a reader neither the item nor the queue changes. |
| `Display.PlayTwice` | Qt5Yuv/yuvdisplay.cpp:154-161 | Calling `play` twice starts one reader and one clock. |
| `Display.DestroyWhileReaderWaits` | Qt5Yuv/yuvdisplay.cpp:173-182 | A 5-frame file fills the queue, and the reader then waits with the fourth frame. Destroying the item still ends the thread. |

## Findings

| source | as written | input that shows it | evidently intended | confidence | as-written member | corrected member |
|---|---|---|---|---|---|---|
| Qt5Yuv/yuvdisplay.cpp:34 | `12*W*H` is computed in 32-bit `int` before the division by 8, so it overflows once 12·W·H exceeds 2³¹−1 | a 16384×16384 video: `m_frameSize` becomes −134217728 | 402653184 = 3·W·H/2 bytes per frame | medium (signed overflow is undefined; two's-complement wrap assumed), not executed | `StreamReading.AsWrittenOverflowsAt16K` (on `StreamReading.FrameByteSizeAsWritten`) | `StreamReading.FrameByteSize` |
| Qt5Yuv/yuvdisplay.cpp:119-121 | `updateState` binds texture i without selecting unit i first, so all three binds land on whatever unit is active | the active texture unit is 0 when `updateState` runs (for instance left there by another material's shader) | each sampler reads its own plane (Y on unit 0, U on 1, V on 2) | low: it depends on the renderer changing the active unit between `initialize` and `updateState`; not executed | `Shading.LumaSamplerReadsVPlaneWhenUnitZeroActive` (on `Shading.UpdateState`) | `Shading.UpdateStateSelectingUnits` |

## Left out

- StreamReading.Pts: this is the exact value i·1000/fps rounded half up. The source computes `qRound(i*(1.0/fps)*1000.0)` in double precision, which can differ from the exact value at .5 boundaries.
- Real threads and blocking. Each call of `Run` stands for the reader being scheduled. A call that would block on the queue either returns `Blocked` (the reader) or is excluded by a precondition (the queue's own operations). Fairness, wake-ups and the lock are not modelled.
- The source of `LQTBlockingQueue` (lqtutils_bqueue.h) is not available, so `FrameQueues.FrameQueue` is a modelling choice for its behaviour after dispose: peek and dequeue return no value, and enqueue drops the frame.
- File I/O. The file at `videoPath` is the byte sequence `file`, and opening it is assumed to succeed. A failed open is an `assert` in the source.
- `QElapsedTimer`. Elapsed milliseconds are a parameter of the tick, and starting the clock is recorded as a call.
- OpenGL calls are not modelled, except for the offsets, sizes, texture names and unit numbers they receive. Not modelled: texture generation and deletion (`~YuvShader`), filter parameters, unpack alignment, uniform lookups and their asserts, and matrix and opacity uniforms (yuvdisplay.cpp:87-90).
- Shader sources, vertex attributes, the geometry and node flags of `updatePaintNode` (yuvdisplay.cpp:188-201), and the unused `m_currentFrame` field.
- 32-bit arithmetic is modelled only for the frame size, in the finding. Elsewhere integers are unbounded, including the `uint` products of `updateState`.
- The launcher Qt5Yuv/main.cpp (argument parsing, QML engine) is not modelled. Its checks W > 0 and H > 0 (Qt5Yuv/main.cpp:61-63) become preconditions, and so does fps > 0. The launcher does not check fps: fps = 0 would divide by zero in the pts formula.
- `videoPath`, `videoSize` and `videoFps` are QML properties set after construction in the source. Here they are constructor arguments.
- `Destroy` ends the item's life, so it does not re-establish `Valid`.
- LQTFreqMeter sampling, signal/slot wiring and logging. The `frameSwapped` signal is a counter.
- yuvmaterial.h holds a leftover declaration with no logic.
- Chroma planes are the (W/2)×(H/2) images `updateState` uploads. For odd sizes they are smaller than W·H/4 bytes.
