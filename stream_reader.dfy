/** The producer thread (StreamReader): cuts the raw yuv420p file into frames of
    a fixed byte size, stamps each with its presentation time and pushes it into
    the shared queue. */
module StreamReading {
  import opened Frames
  import opened FrameQueues

  // ---------------------------------------------------------------------------
  // Frame byte size

  /** Bytes of one yuv420p frame (12 bits per pixel), computed once by the
      constructor: a full-resolution luma plane plus two quarter-size chroma
      planes, rounded down. */
  function FrameByteSize(size: Size): (r: nat)
    requires size.IsValid()
    ensures r == 3 * (size.width * size.height) / 2
    ensures size.width * size.height <= r < 2 * (size.width * size.height)
  {
    12 * size.width * size.height / 8
  }

  const IntMin: int := -0x8000_0000
  const IntMax: int := 0x7fff_ffff

  /** A 32-bit signed result of a wrapping multiplication or addition. */
  function Wrap32(x: int): (r: int)
    ensures IntMin <= r <= IntMax
    ensures (x - r) % 0x1_0000_0000 == 0
    ensures IntMin <= x <= IntMax ==> r == x
  {
    var m := x % 0x1_0000_0000;
    if m > IntMax then m - 0x1_0000_0000 else m
  }

  /** C++ integer division by a positive constant truncates toward zero. */
  function TruncDiv(x: int, d: int): (r: int)
    requires d > 0
    ensures x >= 0 ==> 0 <= r && r * d <= x < r * d + d
    ensures x < 0 ==> r <= 0 && r * d - d < x <= r * d
  {
    if x >= 0 then FloorQuotient(x, d); x / d
    else FloorQuotient(-x, d); -((-x) / d)
  }

  /** The quotient of a natural number brackets it between two multiples. */
  lemma FloorQuotient(x: nat, d: int)
    requires d > 0
    ensures 0 <= x / d && (x / d) * d <= x < (x / d) * d + d
    ensures (-(x / d)) * d == -((x / d) * d)
  {
    var q, m := x / d, x % d;
    assert x == q * d + m && 0 <= m < d;
  }

  /** The constructor's expression evaluated in 32-bit int, as written: both
      products wrap before the division. */
  function FrameByteSizeAsWritten(size: Size): (r: int)
    requires size.IsValid() && size.width <= IntMax && size.height <= IntMax
    ensures -0x1000_0000 <= r <= 0x0fff_ffff
  {
    TruncDiv(Wrap32(Wrap32(12 * size.width) * size.height), 8)
  }

  /** As long as 12*W*H fits in an int the 32-bit computation is the intended
      frame size. */
  lemma AsWrittenAgreesWithoutOverflow(size: Size)
    requires size.IsValid() && 12 * size.width * size.height <= IntMax
    ensures FrameByteSizeAsWritten(size) == FrameByteSize(size)
  {
    var w, h := size.width, size.height;
    assert 12 * w <= 12 * w * h by {
      assert 12 * w * h == (12 * w) * h;
    }
    assert Wrap32(12 * w) == 12 * w;
    assert Wrap32(12 * w * h) == 12 * w * h;
  }

  /** A 16384x16384 video overflows: the reader would use a negative frame size
      instead of 402653184 bytes. */
  lemma AsWrittenOverflowsAt16K()
    ensures FrameByteSizeAsWritten(Size(16384, 16384)) == -134217728
    ensures FrameByteSize(Size(16384, 16384)) == 402653184
  {
  }

  // ---------------------------------------------------------------------------
  // Presentation timestamps

  /** pts of the i-th frame: i*1000/fps milliseconds rounded to the nearest
      integer, halves upward (qRound of a non-negative value). */
  function Pts(i: nat, fps: int): (r: nat)
    requires fps > 0
    ensures -fps < 2 * (fps * r - 1000 * i) <= fps
  {
    (2000 * i + fps) / (2 * fps)
  }

  /** Multiplying by a positive factor keeps a strict order. */
  lemma CancelPositiveFactor(c: int, a: int, b: int)
    requires c > 0 && c * a < c * b
    ensures a < b
  {
  }

  /** Only one integer is that close to i*1000/fps. */
  lemma PtsUnique(i: nat, fps: int, r: int)
    requires fps > 0 && -fps < 2 * (fps * r - 1000 * i) <= fps
    ensures r == Pts(i, fps)
  {
    var p := Pts(i, fps);
    assert fps * (r + 1) == fps * r + fps && fps * (p + 1) == fps * p + fps;
    CancelPositiveFactor(fps, p, r + 1);
    CancelPositiveFactor(fps, r, p + 1);
  }

  lemma PtsFirstIsZero(fps: int)
    requires fps > 0
    ensures Pts(0, fps) == 0
  {
    PtsUnique(0, fps, 0);
  }

  /** Timestamps never go backwards. */
  lemma PtsMonotonic(i: nat, j: nat, fps: int)
    requires fps > 0 && i <= j
    ensures Pts(i, fps) <= Pts(j, fps)
  {
    var a, b := Pts(i, fps), Pts(j, fps);
    assert fps * (b + 1) == fps * b + fps;
    CancelPositiveFactor(fps, a, b + 1);
  }

  /** At one frame per second the frames are a whole second apart. */
  lemma PtsAtOneFps(i: nat)
    ensures Pts(i, 1) == 1000 * i
  {
    PtsUnique(i, 1, 1000 * i);
  }

  // ---------------------------------------------------------------------------
  // The stream of frames a file yields

  /** What the reading loop produces from the bytes still ahead of it, the next
      frame being number i: read fs bytes; a short read ends the stream; a full
      one becomes a frame. */
  function ReadFrames(data: seq<bv8>, fs: nat, size: Size, fps: int, i: nat): (r: seq<VideoFrame>)
    requires fs > 0 && fps > 0
    ensures forall f :: f in r ==> |f.frameData| == fs && f.frameSize == size
    decreases |data|
  {
    if |data| < fs then []
    else [VideoFrame(Pts(i, fps), data[..fs], size)] + ReadFrames(data[fs..], fs, size, fps, i + 1)
  }

  /** Every frame a file of this video size and rate yields, in file order. */
  function Stream(file: seq<bv8>, size: Size, fps: int): (r: seq<VideoFrame>)
    requires size.IsValid() && fps > 0
    ensures forall f :: f in r ==> |f.frameData| == FrameByteSize(size) && f.frameSize == size
  {
    ReadFrames(file, FrameByteSize(size), size, fps, 0)
  }

  /** (k+1)*fs bytes are available exactly when k is below the number of whole
      frames. */
  lemma WholeFrames(len: nat, fs: nat, k: nat)
    requires fs > 0
    ensures (k + 1) * fs <= len <==> k < len / fs
  {
    var q := len / fs;
    assert q * fs <= len < (q + 1) * fs;
    if k < q {
      assert (k + 1) * fs <= q * fs by {
        assert q * fs - (k + 1) * fs == (q - (k + 1)) * fs;
      }
    } else {
      assert (q + 1) * fs <= (k + 1) * fs by {
        assert (k + 1) * fs - (q + 1) * fs == (k - q) * fs;
      }
    }
  }

  /** Block k of the data: bytes [k*fs, (k+1)*fs), one of the |data|/fs whole
      blocks. */
  function Block(data: seq<bv8>, fs: nat, k: nat): (b: seq<bv8>)
    requires fs > 0 && k < |data| / fs
    ensures (k + 1) * fs <= |data| && b == data[k * fs..(k + 1) * fs]
  {
    WholeFrames(|data|, fs, k);
    data[k * fs..(k + 1) * fs]
  }

  /** The reading loop cuts the data into |data|/fs back-to-back blocks of fs
      bytes: frame k is block k, stamped Pts(i+k), with the configured size;
      the trailing partial frame is never emitted. */
  lemma {:induction false} ReadFramesSlices(data: seq<bv8>, fs: nat, size: Size, fps: int, i: nat)
    requires fs > 0 && fps > 0
    ensures |ReadFrames(data, fs, size, fps, i)| == |data| / fs
    ensures forall k :: 0 <= k < |data| / fs ==>
      ReadFrames(data, fs, size, fps, i)[k] == VideoFrame(Pts(i + k, fps), Block(data, fs, k), size)
  {
    ReadFramesLength(data, fs, size, fps, i);
    forall k | 0 <= k < |data| / fs {
      ReadFramesBlock(data, fs, size, fps, i, k);
    }
  }

  /** Block k exists when k is below the number of whole blocks, and is frame k. */
  lemma ReadFramesBlock(data: seq<bv8>, fs: nat, size: Size, fps: int, i: nat, k: nat)
    requires fs > 0 && fps > 0 && k < |data| / fs
    ensures (k + 1) * fs <= |data| && k < |ReadFrames(data, fs, size, fps, i)|
    ensures ReadFrames(data, fs, size, fps, i)[k] == VideoFrame(Pts(i + k, fps), data[k * fs..(k + 1) * fs], size)
  {
    WholeFrames(|data|, fs, k);
    ReadFramesAt(data, fs, size, fps, i, k);
  }

  /** The loop emits one frame per whole block of fs bytes. */
  lemma {:induction false} ReadFramesLength(data: seq<bv8>, fs: nat, size: Size, fps: int, i: nat)
    requires fs > 0 && fps > 0
    ensures |ReadFrames(data, fs, size, fps, i)| == |data| / fs
    decreases |data|
  {
    if |data| < fs {
      assert |data| / fs == 0;
    } else {
      var rest := data[fs..];
      ReadFramesLength(rest, fs, size, fps, i + 1);
      assert |ReadFrames(data, fs, size, fps, i)| == 1 + |ReadFrames(rest, fs, size, fps, i + 1)|;
      assert |data| == |rest| + fs;
      DivPlusOne(|rest|, fs);
    }
  }

  /** Frame k of the loop's output is block k of the data, stamped Pts(i+k). */
  lemma {:induction false} ReadFramesAt(data: seq<bv8>, fs: nat, size: Size, fps: int, i: nat, k: nat)
    requires fs > 0 && fps > 0 && (k + 1) * fs <= |data|
    ensures k < |ReadFrames(data, fs, size, fps, i)|
    ensures ReadFrames(data, fs, size, fps, i)[k] == VideoFrame(Pts(i + k, fps), data[k * fs..(k + 1) * fs], size)
    decreases k
  {
    if k > 0 {
      ShiftedSlice(data, fs, k);
      ReadFramesAt(data[fs..], fs, size, fps, i + 1, k - 1);
    }
  }

  /** Block k of the data is block k-1 of what follows the first block. */
  lemma ShiftedSlice(data: seq<bv8>, fs: nat, k: nat)
    requires 0 < k && (k + 1) * fs <= |data|
    ensures fs <= |data| && k * fs <= |data[fs..]|
    ensures data[fs..][(k - 1) * fs..k * fs] == data[k * fs..(k + 1) * fs]
  {
    assert k * fs == (k - 1) * fs + fs && (k + 1) * fs == k * fs + fs;
  }

  lemma DivPlusOne(n: nat, d: nat)
    requires d > 0
    ensures (n + d) / d == n / d + 1
  {
    var q, m := n / d, n % d;
    assert n == q * d + m && 0 <= m < d;
    assert n + d == (q + 1) * d + m;
    DivUnique(n + d, d, q + 1, m);
  }

  /** Quotient and remainder are determined by the division identity. */
  lemma DivUnique(x: nat, d: nat, q: nat, m: nat)
    requires d > 0 && x == q * d + m && m < d
    ensures x / d == q
  {
    var q', m' := x / d, x % d;
    assert x == q' * d + m' && m' < d;
    if q' < q {
      MulAtLeast(q - q', d);
    } else if q' > q {
      MulAtLeast(q' - q, d);
    }
  }

  lemma MulAtLeast(a: int, d: nat)
    requires a >= 1
    ensures a * d >= d
  {
  }

  /** The stream of a file: exactly floor(L / frame size) frames; frame k is the
      k-th block of the file, stamped Pts(k), and carries the configured size. */
  lemma StreamFrames(file: seq<bv8>, size: Size, fps: int)
    requires size.IsValid() && fps > 0
    ensures |Stream(file, size, fps)| == |file| / FrameByteSize(size)
    ensures forall k :: 0 <= k < |Stream(file, size, fps)| ==>
      Stream(file, size, fps)[k] == VideoFrame(Pts(k, fps), Block(file, FrameByteSize(size), k), size)
  {
    ReadFramesSlices(file, FrameByteSize(size), size, fps, 0);
  }

  /** The next full read at frame boundary k is frame k of the stream. */
  lemma NextFrame(file: seq<bv8>, size: Size, fps: int, k: nat)
    requires size.IsValid() && fps > 0
    requires (k + 1) * FrameByteSize(size) <= |file|
    ensures k < |Stream(file, size, fps)|
    ensures Stream(file, size, fps)[k] ==
      VideoFrame(Pts(k, fps), file[k * FrameByteSize(size)..(k + 1) * FrameByteSize(size)], size)
  {
    StreamFrames(file, size, fps);
    WholeFrames(|file|, FrameByteSize(size), k);
  }

  /** A short read at frame boundary k means the stream had exactly k frames. */
  lemma LastFrame(file: seq<bv8>, size: Size, fps: int, k: nat)
    requires size.IsValid() && fps > 0 && k <= |Stream(file, size, fps)|
    requires (k + 1) * FrameByteSize(size) > |file|
    ensures k == |Stream(file, size, fps)|
  {
    StreamFrames(file, size, fps);
    WholeFrames(|file|, FrameByteSize(size), k);
  }

  /** Every frame of the stream is whole: exactly one frame size of bytes. */
  lemma StreamFramesAreWhole(file: seq<bv8>, size: Size, fps: int)
    requires size.IsValid() && fps > 0
    ensures forall f :: f in Stream(file, size, fps) ==>
      |f.frameData| == FrameByteSize(size) && f.frameSize == size
  {
    StreamFrames(file, size, fps);
  }

  /** Presentation times along the stream never decrease and start at 0. */
  lemma StreamPtsNonDecreasing(file: seq<bv8>, size: Size, fps: int)
    requires size.IsValid() && fps > 0
    ensures forall i, j :: 0 <= i <= j < |Stream(file, size, fps)| ==>
      Stream(file, size, fps)[i].pts <= Stream(file, size, fps)[j].pts
    ensures Stream(file, size, fps) != [] ==> Stream(file, size, fps)[0].pts == 0
  {
    var s := Stream(file, size, fps);
    StreamFrames(file, size, fps);
    forall i, j | 0 <= i <= j < |s|
      ensures s[i].pts <= s[j].pts
    {
      PtsMonotonic(i, j, fps);
    }
    PtsFirstIsZero(fps);
  }

  // ---------------------------------------------------------------------------
  // The reader thread

  /** With the consumer's side fixed, a queue whose history only grew has only
      grown at its tail. */
  lemma OnlyAppended(taken: seq<VideoFrame>, items0: seq<VideoFrame>, accepted0: seq<VideoFrame>,
                     items: seq<VideoFrame>, accepted: seq<VideoFrame>)
    requires accepted0 == taken + items0 && accepted == taken + items && accepted0 <= accepted
    ensures items == items0 + accepted[|accepted0|..]
  {
    var n := |taken|;
    assert items == accepted[n..] && items0 == accepted0[n..];
    assert accepted[n..] == accepted[n..|accepted0|] + accepted[|accepted0|..];
    assert accepted[n..|accepted0|] == accepted0[n..];
  }

  /** Why a call of Run came back: the producer is waiting inside enqueue on a
      full queue, the loop saw the interruption request, or a short read ended
      the file. */
  datatype RunExit = Blocked | Interrupted | EndOfStream

  /** The reader thread. The file is the bytes of the video path, opened
      successfully. The thread's body is Run; a call of Run stands for the
      thread being scheduled until it finishes or has to wait for the consumer,
      and the next call resumes where it waited. */
  class StreamReader {
    const file: seq<bv8>
    const videoSize: Size
    /** Bytes read per frame, fixed by the constructor. */
    const frameSize: nat
    const fps: int
    /** The queue shared with the display. */
    const buffer: FrameQueue
    /** Read position in the file. */
    var pos: nat
    /** The loop counter i: frames read so far. */
    var counter: nat
    /** A frame already read whose enqueue is waiting for room. */
    var pending: Option<VideoFrame>
    var interruptionRequested: bool
    var started: bool
    var finished: bool

    /** Every frame the file yields. */
    ghost function Expected(): seq<VideoFrame>
      requires videoSize.IsValid() && fps > 0
    {
      Stream(file, videoSize, fps)
    }

    /** The frames the loop has handed to enqueue so far. */
    ghost function Offered(): seq<VideoFrame>
      reads this
      requires videoSize.IsValid() && fps > 0
      requires counter <= |Expected()| && (pending.Some? ==> counter > 0)
    {
      Expected()[..if pending.Some? then counter - 1 else counter]
    }

    /** The loop has read the first `counter` frames of the stream, the queue
        took in exactly the frames offered to it (a prefix of them once it is
        disposed), and a waiting frame is the last one read. */
    ghost predicate Valid()
      reads this, buffer
    {
      buffer.Valid() && videoSize.IsValid() && fps > 0 &&
      frameSize == FrameByteSize(videoSize) &&
      pos <= |file| &&
      counter <= |Expected()| &&
      (!finished ==> pos == counter * frameSize) &&
      (pending.Some? ==>
         started && !finished && counter > 0 && pending.value == Expected()[counter - 1]) &&
      buffer.accepted <= Offered() &&
      (!buffer.disposed ==> buffer.accepted == Offered())
    }

    /** The frame byte size is computed here, once, from the video size. */
    constructor (file: seq<bv8>, frameSize: Size, fps: int, buffer: FrameQueue)
      requires frameSize.IsValid() && fps > 0
      requires buffer.Valid() && buffer.accepted == []
      ensures Valid()
      ensures this.file == file && videoSize == frameSize && this.fps == fps && this.buffer == buffer
      ensures this.frameSize == FrameByteSize(frameSize)
      ensures pos == 0 && counter == 0 && pending == None
      ensures !interruptionRequested && !started && !finished
    {
      this.file := file;
      videoSize := frameSize;
      this.frameSize := FrameByteSize(frameSize);
      this.fps := fps;
      this.buffer := buffer;
      pos := 0;
      counter := 0;
      pending := None;
      interruptionRequested := false;
      started := false;
      finished := false;
    }

    /** QThread::start: the thread begins running Run. */
    method Start()
      requires Valid() && !started
      modifies this
      ensures Valid() && started
      ensures pos == old(pos) && counter == old(counter) && pending == old(pending)
      ensures interruptionRequested == old(interruptionRequested) && finished == old(finished)
    {
      started := true;
    }

    /** QThread::requestInterruption: the loop stops at its next check. */
    method RequestInterruption()
      requires Valid()
      modifies this
      ensures Valid() && interruptionRequested
      ensures pos == old(pos) && counter == old(counter) && pending == old(pending)
      ensures started == old(started) && finished == old(finished)
    {
      interruptionRequested := true;
    }

    /** The bytes of one read: at most n bytes from the current position. */
    function ReadAt(p: nat, n: nat): (r: seq<bv8>)
      requires p <= |file|
      ensures |r| <= n && p + |r| <= |file|
      ensures |r| < n <==> |file| - p < n
      ensures |r| == if |file| - p < n then |file| - p else n
      ensures r == file[p..p + |r|]
    {
      if |file| - p < n then file[p..] else file[p..p + n]
    }

    /** Completes an enqueue that was waiting for room: on a queue that is
        still full and open it keeps waiting; otherwise the frame goes in, or
        is dropped by a disposed queue. */
    method ResumeEnqueue() returns (blocked: bool)
      requires Valid() && started && !finished
      modifies this, buffer
      ensures Valid() && started && !finished
      ensures interruptionRequested == old(interruptionRequested)
      ensures counter == old(counter) && pos == old(pos)
      ensures buffer.disposed == old(buffer.disposed) && buffer.taken == old(buffer.taken)
      ensures old(buffer.accepted) <= buffer.accepted
      ensures old(buffer.disposed) ==> buffer.accepted == old(buffer.accepted)
      ensures blocked <==> old(pending).Some? && old(buffer.IsFull()) && !buffer.disposed
      ensures blocked ==> pending == old(pending) && buffer.items == old(buffer.items)
      ensures !blocked ==> pending == None
    {
      blocked := false;
      if pending.Some? {
        if buffer.IsFull() && !buffer.disposed {
          return true;
        }
        buffer.Enqueue(pending.value);
        pending := None;
      }
    }

    /** One pass of the loop body once the interruption check has passed:
        read one frame size of bytes; a short read ends the thread; a full
        one is stamped with the counter's pts and enqueued, or held while the
        queue is full and open. No value means the loop goes round again. */
    method ReadNext() returns (exit: Option<RunExit>)
      requires Valid() && started && !finished && pending == None
      modifies this, buffer
      ensures Valid() && started
      ensures interruptionRequested == old(interruptionRequested)
      ensures buffer.disposed == old(buffer.disposed) && buffer.taken == old(buffer.taken)
      ensures old(buffer.accepted) <= buffer.accepted
      ensures old(buffer.disposed) ==> buffer.accepted == old(buffer.accepted)
      ensures old(counter) <= counter
      // A pass reads exactly one frame, unless the read was short.
      ensures exit != Some(EndOfStream) ==>
        counter == old(counter) + 1 && pos == old(pos) + frameSize && old(counter) < |Expected()|
      ensures exit == Some(EndOfStream) ==> counter == old(counter)
      ensures exit == None ==> !finished && pending == None && old(pos) < pos
      ensures exit == None && !buffer.disposed ==>
        buffer.items == old(buffer.items) + [Expected()[old(counter)]]
      ensures buffer.disposed ==> buffer.items == old(buffer.items)
      ensures exit == Some(Blocked) ==>
        pending == Some(Expected()[old(counter)]) && buffer.items == old(buffer.items)
      ensures exit == Some(Blocked) ==> !finished && pending.Some? && buffer.IsFull() && !buffer.disposed
      ensures exit == Some(EndOfStream) ==> finished && pending == None && counter == |Expected()|
      ensures exit != Some(Interrupted)
    {
      var frameData := ReadAt(pos, frameSize);
      assert (counter + 1) * frameSize == pos + frameSize;
      if |frameData| < frameSize {
        LastFrame(file, videoSize, fps, counter);
        pos := pos + |frameData|;
        finished := true;
        return Some(EndOfStream);
      }
      NextFrame(file, videoSize, fps, counter);
      var frame := VideoFrame(Pts(counter, fps), frameData, videoSize);
      assert frame == Expected()[counter];
      pos := pos + frameSize;
      counter := counter + 1;
      if buffer.IsFull() && !buffer.disposed {
        pending := Some(frame);
        return Some(Blocked);
      }
      buffer.Enqueue(frame);
      exit := None;
    }

    /** The thread body: first finish an enqueue left waiting, then loop while
        no interruption is requested. */
    method Run() returns (exit: RunExit)
      requires Valid() && started && !finished
      modifies this, buffer
      ensures Valid() && started
      ensures interruptionRequested == old(interruptionRequested)
      ensures buffer.disposed == old(buffer.disposed) && buffer.taken == old(buffer.taken)
      ensures old(buffer.accepted) <= buffer.accepted
      ensures old(buffer.disposed) ==> buffer.accepted == old(buffer.accepted)
      ensures old(counter) <= counter
      // The producer only appends to the queue.
      ensures buffer.items == old(buffer.items) + buffer.accepted[|old(buffer.accepted)|..]
      ensures exit == Blocked <==> !finished
      // It waits only on a full queue that is still open, holding the frame it read.
      ensures exit == Blocked ==> pending.Some? && buffer.IsFull() && !buffer.disposed
      ensures exit != Blocked ==> pending == None
      // A frame waiting on a full, open queue keeps waiting, interruption or not.
      ensures old(pending).Some? && old(buffer.IsFull()) && !buffer.disposed ==>
        exit == Blocked && counter == old(counter) && buffer.items == old(buffer.items)
      ensures exit == Interrupted ==> interruptionRequested
      ensures exit == EndOfStream ==> counter == |Expected()|
      // Uninterrupted and never disposed, the queue has taken in the whole stream.
      ensures exit == EndOfStream && !buffer.disposed ==> buffer.accepted == Expected()
      // Once interrupted and disposed, the thread returns without waiting.
      ensures interruptionRequested && buffer.disposed ==> exit == Interrupted
      // A requested interruption stops the loop before another read.
      ensures interruptionRequested ==> exit != EndOfStream && counter == old(counter)
    {
      ghost var items0, accepted0 := buffer.items, buffer.accepted;
      var blocked := ResumeEnqueue();
      if blocked {
        return Blocked;
      }
      while !interruptionRequested
        invariant Valid() && started && !finished && pending == None
        invariant interruptionRequested == old(interruptionRequested)
        invariant buffer.disposed == old(buffer.disposed) && buffer.taken == old(buffer.taken)
        invariant old(buffer.accepted) <= buffer.accepted && old(counter) <= counter
        invariant buffer.disposed ==> buffer.accepted == old(buffer.accepted)
        invariant interruptionRequested ==> counter == old(counter)
        decreases |file| - pos
      {
        var step := ReadNext();
        if step.Some? {
          exit := step.value;
          OnlyAppended(buffer.taken, items0, accepted0, buffer.items, buffer.accepted);
          return;
        }
      }
      finished := true;
      exit := Interrupted;
      OnlyAppended(buffer.taken, items0, accepted0, buffer.items, buffer.accepted);
    }

    /** QThread::wait: blocks until Run has returned. After the interruption
        request and the queue's dispose, Run returns at once, so waiting ends. */
    method Wait()
      requires Valid() && started && interruptionRequested && buffer.disposed
      modifies this, buffer
      ensures Valid() && finished && pending == None
      ensures buffer.items == old(buffer.items) && buffer.accepted == old(buffer.accepted)
      ensures buffer.taken == old(buffer.taken) && buffer.disposed
    {
      if !finished {
        var exit := Run();
      }
    }
  }
}
