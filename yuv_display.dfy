/** The display item (YuvDisplay): starts the reader on play(), paces
    presentation against the playback clock on every paint tick, and tears the
    reader down when it is destroyed. */
module Display {
  import opened Frames
  import opened FrameQueues
  import opened StreamReading

  // ---------------------------------------------------------------------------
  // The pacing tick as a function

  /** The QSGNode::DirtyState bits a tick marks. */
  datatype DirtyState = DirtyState(geometry: bool, material: bool)

  /** What one tick leaves: the frames still queued, the material's frame,
      whether a frame was swapped in, and the dirty bits. */
  datatype TickOutcome = TickOutcome(queue: seq<VideoFrame>, bound: Option<VideoFrame>,
                                     swapped: bool, dirty: DirtyState)

  /** The head of the queue, if any. */
  function Head(queue: seq<VideoFrame>): Option<VideoFrame> {
    if queue == [] then None else Some(queue[0])
  }

  /** One paint tick over what the consumer sees of the queue (nothing once it
      is disposed), the material's frame and the elapsed milliseconds: a head
      that is due is dequeued and bound; otherwise nothing changes. Geometry is
      always dirty, the material only after a swap. */
  function Tick(queue: seq<VideoFrame>, bound: Option<VideoFrame>, elapsed: int): (o: TickOutcome)
    ensures o.swapped <==> queue != [] && elapsed >= queue[0].pts
    ensures o.swapped ==> o.bound == Some(queue[0]) && o.queue == queue[1..]
    ensures !o.swapped ==> o.bound == bound && o.queue == queue
    ensures o.dirty.geometry && (o.dirty.material <==> o.swapped)
  {
    match Head(queue)
    case Some(next) =>
      if elapsed >= next.pts
      then TickOutcome(queue[1..], Some(next), true, DirtyState(true, true))
      else TickOutcome(queue, bound, false, DirtyState(true, false))
    case None => TickOutcome(queue, bound, false, DirtyState(true, false))
  }

  /** A run of ticks: for each tick whether it swapped and the frame bound
      after it; the frames presented, in order; and the final queue and frame. */
  datatype Timeline = Timeline(swaps: seq<bool>, shown: seq<Option<VideoFrame>>,
                               presented: seq<VideoFrame>, queue: seq<VideoFrame>,
                               bound: Option<VideoFrame>)

  /** Ticks at the given elapsed times, with no frame arriving in between. */
  function Playback(queue: seq<VideoFrame>, bound: Option<VideoFrame>, ticks: seq<int>): (t: Timeline)
    ensures |t.swaps| == |ticks| == |t.shown|
    decreases |ticks|
  {
    if ticks == [] then Timeline([], [], [], queue, bound)
    else
      var o := Tick(queue, bound, ticks[0]);
      var rest := Playback(o.queue, o.bound, ticks[1..]);
      Timeline([o.swapped] + rest.swaps, [o.bound] + rest.shown,
               (if o.swapped then [queue[0]] else []) + rest.presented, rest.queue, rest.bound)
  }

  /** Playback loses and reorders nothing: the frames presented followed by
      those still queued are the original queue; each tick presents at most
      one frame; the bound frame is the last one presented. */
  lemma {:induction false} PlaybackKeepsOrder(queue: seq<VideoFrame>, bound: Option<VideoFrame>, ticks: seq<int>)
    ensures Playback(queue, bound, ticks).presented + Playback(queue, bound, ticks).queue == queue
    ensures |Playback(queue, bound, ticks).presented| <= |ticks|
    ensures Playback(queue, bound, ticks).bound ==
      if Playback(queue, bound, ticks).presented == [] then bound
      else Some(Playback(queue, bound, ticks).presented[|Playback(queue, bound, ticks).presented| - 1])
    decreases |ticks|
  {
    if ticks != [] {
      var o := Tick(queue, bound, ticks[0]);
      PlaybackKeepsOrder(o.queue, o.bound, ticks[1..]);
      var rest := Playback(o.queue, o.bound, ticks[1..]);
      if o.swapped {
        assert [queue[0]] + rest.presented + rest.queue == [queue[0]] + (rest.presented + rest.queue);
      }
    }
  }

  /** No frame is shown before its time: a tick that swaps binds a frame whose
      pts has been reached, and a tick that does not swap keeps the frame. */
  lemma {:induction false} PlaybackNeverEarly(queue: seq<VideoFrame>, bound: Option<VideoFrame>, ticks: seq<int>)
    ensures forall k :: 0 <= k < |ticks| && Playback(queue, bound, ticks).swaps[k] ==>
      Playback(queue, bound, ticks).shown[k].Some? && Playback(queue, bound, ticks).shown[k].value.pts <= ticks[k]
    ensures forall k :: 0 < k < |ticks| && !Playback(queue, bound, ticks).swaps[k] ==>
      Playback(queue, bound, ticks).shown[k] == Playback(queue, bound, ticks).shown[k - 1]
    ensures 0 < |ticks| && !Playback(queue, bound, ticks).swaps[0] ==> Playback(queue, bound, ticks).shown[0] == bound
    decreases |ticks|
  {
    PlaybackKeepsOrder(queue, bound, ticks);
    if ticks != [] {
      var o := Tick(queue, bound, ticks[0]);
      PlaybackNeverEarly(o.queue, o.bound, ticks[1..]);
      PlaybackKeepsOrder(o.queue, o.bound, ticks[1..]);
      var t, rest := Playback(queue, bound, ticks), Playback(o.queue, o.bound, ticks[1..]);
      forall k | 0 < k < |ticks|
        ensures t.swaps[k] == rest.swaps[k - 1] && t.shown[k] == rest.shown[k - 1]
      {
      }
      forall k | 1 < k < |ticks|
        ensures ticks[k] == ticks[1..][k - 1]
      {
      }
    }
  }

  /** Two frames of a 2x2 video at one frame per second are stamped 0 and 1000;
      ticks at 0, 600, 1100 and 1600 ms swap exactly at 0 and at 1100. */
  lemma TwoFramesAtOneFps(file: seq<bv8>)
    requires |file| == 12
    ensures |Stream(file, Size(2, 2), 1)| == 2
    ensures Stream(file, Size(2, 2), 1)[0].pts == 0 && Stream(file, Size(2, 2), 1)[1].pts == 1000
    ensures Playback(Stream(file, Size(2, 2), 1), None, [0, 600, 1100, 1600]).swaps == [true, false, true, false]
  {
    var s := Stream(file, Size(2, 2), 1);
    assert FrameByteSize(Size(2, 2)) == 6;
    StreamFrames(file, Size(2, 2), 1);
    PtsAtOneFps(0);
    PtsAtOneFps(1);
    assert s == [s[0], s[1]];
  }

  // ---------------------------------------------------------------------------
  // The item

  /** The calls the item makes on its collaborators, in the order made. */
  datatype Call = StartReader | StartClock | InterruptReader | DisposeQueue | WaitReader

  /** The scene-graph material: holds the frame the shader uploads. */
  class YuvMaterial {
    var frame: Option<VideoFrame>

    constructor ()
      ensures frame == None
    {
      frame := None;
    }
  }

  class YuvDisplay {
    /** The bytes at videoPath, and the configured size and rate. */
    const videoFile: seq<bv8>
    const videoSize: Size
    const videoFps: int
    /** m_queue, created with capacity 3. */
    const queue: FrameQueue
    /** m_reader: null until play(). */
    var reader: StreamReader?
    /** Calls made on the reader, the clock and the queue. */
    var calls: seq<Call>
    /** How often frameSwapped was emitted. */
    var frameSwaps: nat
    /** Set by update(): another paint tick has been requested. */
    var updateRequested: bool

    /** The queue has capacity 3; before play() nothing was ever enqueued; after
        it the reader feeds this queue from this file, and its thread runs. */
    ghost predicate Valid()
      reads this, queue, reader
    {
      queue.Valid() && queue.capacity == 3 && videoSize.IsValid() && videoFps > 0 &&
      (reader == null ==> queue.accepted == [] && !queue.disposed) &&
      (reader != null ==>
         reader.buffer == queue && reader.file == videoFile && reader.videoSize == videoSize &&
         reader.fps == videoFps && reader.started && reader.Valid())
    }

    /** Every frame of the video, in file order. */
    ghost function VideoStream(): seq<VideoFrame>
      requires videoSize.IsValid() && videoFps > 0
    {
      Stream(videoFile, videoSize, videoFps)
    }

    /** The launcher has checked the size and rate. */
    constructor (videoFile: seq<bv8>, videoSize: Size, videoFps: int)
      requires videoSize.IsValid() && videoFps > 0
      ensures Valid() && fresh(queue)
      ensures this.videoFile == videoFile && this.videoSize == videoSize && this.videoFps == videoFps
      ensures reader == null && calls == [] && frameSwaps == 0 && !updateRequested
      ensures queue.items == [] && !queue.disposed
    {
      this.videoFile := videoFile;
      this.videoSize := videoSize;
      this.videoFps := videoFps;
      queue := new FrameQueue(3);
      reader := null;
      calls := [];
      frameSwaps := 0;
      updateRequested := false;
    }

    /** play(): creates and starts the reader and starts the clock, only while
        there is no reader; a second call changes nothing. */
    method Play()
      requires Valid()
      modifies this
      ensures Valid()
      ensures old(reader) != null ==> unchanged(this)
      ensures old(reader) == null ==>
        fresh(reader) && reader.counter == 0 && reader.pending == None &&
        !reader.finished && !reader.interruptionRequested &&
        calls == old(calls) + [StartReader, StartClock] &&
        frameSwaps == old(frameSwaps) && updateRequested == old(updateRequested)
    {
      if reader == null {
        reader := new StreamReader(videoFile, videoSize, videoFps, queue);
        reader.Start();
        calls := calls + [StartReader];
        calls := calls + [StartClock];
      }
    }

    /** updatePaintNode(): requests the next tick, creates the material on the
        first call, then runs Tick on the queue, the material's frame and the
        elapsed time, emitting frameSwapped on a swap. */
    method UpdatePaintNode(node: YuvMaterial?, elapsed: int) returns (n: YuvMaterial, dirty: DirtyState)
      requires Valid()
      modifies this, queue, node
      ensures Valid()
      ensures node != null ==> n == node
      ensures node == null ==> fresh(n)
      ensures updateRequested
      ensures reader == old(reader) && calls == old(calls)
      ensures queue.accepted == old(queue.accepted) && queue.disposed == old(queue.disposed)
      ensures
        var o := Tick(if old(queue.disposed) then [] else old(queue.items),
                      if node == null then None else old(node.frame), elapsed);
        n.frame == o.bound && dirty == o.dirty &&
        queue.items == (if o.swapped then old(queue.items)[1..] else old(queue.items)) &&
        frameSwaps == old(frameSwaps) + (if o.swapped then 1 else 0)
      // The frame swapped in is the next frame of the file.
      ensures dirty.material ==>
        (reader != null && |old(queue.taken)| < |VideoStream()| &&
         n.frame == Some(VideoStream()[|old(queue.taken)|]))
    {
      updateRequested := true;
      if node == null {
        n := new YuvMaterial();
      } else {
        n := node;
      }
      var nextFrame := queue.Peek();
      var swapped := false;
      if nextFrame.Some? {
        if elapsed >= nextFrame.value.pts {
          NextIsStreamFrame();
          n.frame := queue.Dequeue();
          frameSwaps := frameSwaps + 1;
          swapped := true;
        }
      }
      dirty := DirtyState(true, false);
      if swapped {
        dirty := dirty.(material := true);
      }
    }

    /** The head of the open queue is the next frame of the file. */
    lemma NextIsStreamFrame()
      requires Valid() && !queue.disposed && queue.items != []
      ensures reader != null && |queue.taken| < |VideoStream()|
      ensures queue.items[0] == VideoStream()[|queue.taken|]
    {
      var k := |queue.taken|;
      assert queue.accepted[k] == queue.items[0];
      assert queue.accepted <= reader.Offered() <= reader.Expected();
    }

    /** The destructor: with a reader, request its interruption, dispose the
        queue, then wait for the thread, in that order, and delete the reader.
        Without one, nothing happens. */
    method Destroy()
      requires Valid()
      modifies this, queue, reader
      ensures old(reader) == null ==> unchanged(this) && unchanged(queue)
      ensures old(reader) != null ==>
        calls == old(calls) + [InterruptReader, DisposeQueue, WaitReader] &&
        old(reader).finished && old(reader).pending == None && queue.disposed && reader == null
      ensures queue.items == old(queue.items) && queue.taken == old(queue.taken)
      ensures frameSwaps == old(frameSwaps)
      ensures updateRequested == old(updateRequested) && queue.accepted == old(queue.accepted)
    {
      if reader != null {
        reader.RequestInterruption();
        calls := calls + [InterruptReader];
        queue.RequestDispose();
        calls := calls + [DisposeQueue];
        reader.Wait();
        calls := calls + [WaitReader];
        reader := null;
      }
    }
  }

  /** play() twice yields one reader, started once, together with one clock
      start. */
  method PlayTwice(videoFile: seq<bv8>, videoSize: Size, videoFps: int) returns (starts: seq<Call>)
    requires videoSize.IsValid() && videoFps > 0
    ensures starts == [StartReader, StartClock]
  {
    var display := new YuvDisplay(videoFile, videoSize, videoFps);
    display.Play();
    var first := display.reader;
    display.Play();
    assert display.reader == first;
    starts := display.calls;
  }

  /** A 5-frame file: the reader fills the queue and waits inside enqueue with
      the fourth frame; destroying the item still ends the thread. */
  method DestroyWhileReaderWaits(videoFile: seq<bv8>) returns (exit: RunExit, ended: bool)
    requires |videoFile| == 5 * 6
    ensures exit == Blocked && ended
  {
    var display := new YuvDisplay(videoFile, Size(2, 2), 25);
    display.Play();
    var reader := display.reader;
    StreamFrames(videoFile, Size(2, 2), 25);
    assert |reader.Expected()| == 5;
    exit := reader.Run();
    if exit == EndOfStream {
      // Five frames taken in and none handed out would overfill the queue.
      assert false;
    }
    assert exit == Blocked;
    display.Destroy();
    ended := reader.finished;
  }
}
