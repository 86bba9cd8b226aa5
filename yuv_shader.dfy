/** The material shader (YuvShader): splits a bound frame into its Y, U and V
    planes and uploads each into its own single-channel texture, which the
    fragment shader samples through three sampler uniforms. Only the offsets,
    sizes, texture names and unit numbers handed to OpenGL are modelled; the
    OpenGL state they act on is a value passed in and returned. */
module Shading {
  import opened Frames
  import opened StreamReading

  // ---------------------------------------------------------------------------
  // Plane layout

  /** A plane of the frame buffer: where it starts and the image it forms. */
  datatype Plane = Plane(offset: nat, width: nat, height: nat) {
    /** One past its last byte (rows are tightly packed: unpack alignment 1). */
    function End(): nat {
      offset + width * height
    }
  }

  /** The planes, widths and heights arrays of updateState: Y is the full W x H
      image at offset 0, U is (W/2) x (H/2) at offset W*H, V the same size at
      offset W*H + W*H/4. */
  function PlaneLayout(size: Size): (planes: seq<Plane>)
    requires size.IsValid()
    ensures |planes| == 3
  {
    var w, h := size.width, size.height;
    var pixels := w * h;
    [Plane(0, w, h), Plane(pixels, w / 2, h / 2), Plane(pixels + pixels / 4, w / 2, h / 2)]
  }

  /** A chroma plane holds at most a quarter of the luma bytes (exactly a
      quarter when both dimensions are even). */
  lemma ChromaQuarter(w: nat, h: nat)
    ensures 4 * ((w / 2) * (h / 2)) <= w * h
    ensures (w / 2) * (h / 2) <= (w * h) / 4
    ensures w % 2 == 0 && h % 2 == 0 ==> (w / 2) * (h / 2) == (w * h) / 4
  {
    var a, b := w / 2, h / 2;
    assert 2 * a <= w && 2 * b <= h;
    assert 4 * (a * b) == (2 * a) * (2 * b);
    MulMonotone(2 * a, w, 2 * b, h);
    if w % 2 == 0 && h % 2 == 0 {
      assert w * h == (2 * a) * (2 * b);
    }
  }

  lemma MulMonotone(a: nat, b: nat, c: nat, d: nat)
    requires a <= b && c <= d
    ensures a * c <= b * d
  {
    assert a * c <= b * c by {
      assert b * c - a * c == (b - a) * c;
    }
    assert b * c <= b * d by {
      assert b * d - b * c == b * (d - c);
    }
  }

  /** Every plane lies inside a frame buffer of FrameByteSize bytes, odd
      dimensions included. */
  lemma PlanesFitInFrame(size: Size)
    requires size.IsValid()
    ensures forall i :: 0 <= i < 3 ==> PlaneLayout(size)[i].End() <= FrameByteSize(size)
  {
    var w, h := size.width, size.height;
    var p := w * h;
    ChromaQuarter(w, h);
    assert FrameByteSize(size) == p + p / 2;
  }

  /** The planes come in the order Y, U, V without overlapping; Y starts the
      buffer and U starts right after it. */
  lemma PlanesInOrder(size: Size)
    requires size.IsValid()
    ensures PlaneLayout(size)[0].offset == 0
    ensures PlaneLayout(size)[0].End() == PlaneLayout(size)[1].offset
    ensures PlaneLayout(size)[1].End() <= PlaneLayout(size)[2].offset
  {
    ChromaQuarter(size.width, size.height);
  }

  /** With even dimensions the three planes tile the frame exactly. */
  lemma EvenSizeTilesFrame(size: Size)
    requires size.IsValid() && size.width % 2 == 0 && size.height % 2 == 0
    ensures PlaneLayout(size)[1].End() == PlaneLayout(size)[2].offset
    ensures PlaneLayout(size)[2].End() == FrameByteSize(size)
  {
    var p := size.width * size.height;
    ChromaQuarter(size.width, size.height);
    assert p % 4 == 0 by {
      var a, b := size.width / 2, size.height / 2;
      assert p == 4 * (a * b) by {
        assert p == (2 * a) * (2 * b);
      }
    }
    assert FrameByteSize(size) == p + p / 2;
  }

  /** The 4x2 example: Y = [0,8), U = [8,10), V = [10,12) in a 12-byte frame. */
  lemma LayoutOf4x2()
    ensures PlaneLayout(Size(4, 2)) == [Plane(0, 4, 2), Plane(8, 2, 1), Plane(10, 2, 1)]
    ensures [PlaneLayout(Size(4, 2))[0].End(), PlaneLayout(Size(4, 2))[1].End(),
             PlaneLayout(Size(4, 2))[2].End()] == [8, 10, 12]
    ensures FrameByteSize(Size(4, 2)) == 12
  {
  }

  // ---------------------------------------------------------------------------
  // Frames and the images cut from them

  /** A frame as the reader makes it (StreamFramesAreWhole): a valid size and
      exactly one frame size of bytes. */
  predicate WellFormed(frame: VideoFrame) {
    frame.frameSize.IsValid() && |frame.frameData| == FrameByteSize(frame.frameSize)
  }

  /** A single-channel 8-bit texture image. */
  datatype Image = Image(width: nat, height: nat, pixels: seq<bv8>)

  /** The image of plane i of a frame: its bytes, in its dimensions. */
  function PlaneImage(frame: VideoFrame, i: nat): (img: Image)
    requires WellFormed(frame) && i < 3
    ensures |img.pixels| == img.width * img.height
  {
    PlanesFitInFrame(frame.frameSize);
    var plane := PlaneLayout(frame.frameSize)[i];
    Image(plane.width, plane.height, frame.frameData[plane.offset..plane.End()])
  }

  // ---------------------------------------------------------------------------
  // OpenGL texture state

  /** The three sampler uniforms of the fragment shader. */
  datatype Sampler = SamplerY | SamplerU | SamplerV

  /** The plane a sampler is meant to read; also its texture and its unit. */
  function PlaneIndex(s: Sampler): (i: nat)
    ensures i < 3
  {
    match s
    case SamplerY => 0
    case SamplerU => 1
    case SamplerV => 2
  }

  /** The OpenGL state the shader touches: the active texture unit, the
      texture bound to each unit, the image stored in each texture (textures
      0, 1, 2 are m_textures[0..3]) and the unit each sampler reads. */
  datatype GlState = GlState(activeUnit: nat, unitTexture: map<nat, nat>,
                             textureImage: map<nat, Image>, samplerUnit: map<Sampler, nat>)

  /** Sampler s reads unit s and unit s holds texture s, for all three. */
  predicate SamplersWired(gl: GlState) {
    forall s: Sampler :: s in gl.samplerUnit && gl.samplerUnit[s] == PlaneIndex(s) &&
      PlaneIndex(s) in gl.unitTexture && gl.unitTexture[PlaneIndex(s)] == PlaneIndex(s)
  }

  /** Wired samplers mean units 0, 1 and 2 hold textures 0, 1 and 2. */
  lemma WiredUnits(gl: GlState)
    requires SamplersWired(gl)
    ensures forall u :: 0 <= u < 3 ==> u in gl.unitTexture && gl.unitTexture[u] == u
  {
    assert PlaneIndex(SamplerY) == 0 && PlaneIndex(SamplerU) == 1 && PlaneIndex(SamplerV) == 2;
  }

  /** The image a sampler sees at draw time, if any. */
  function Sampled(gl: GlState, s: Sampler): Option<Image> {
    if s in gl.samplerUnit && gl.samplerUnit[s] in gl.unitTexture &&
       gl.unitTexture[gl.samplerUnit[s]] in gl.textureImage
    then Some(gl.textureImage[gl.unitTexture[gl.samplerUnit[s]]])
    else None
  }

  /** initialize: texture i is bound on unit i (selected before each bind),
      and the Y, U and V samplers are set to units 0, 1 and 2. The last unit
      selected, 2, stays active. */
  method Initialize(gl: GlState) returns (gl': GlState)
    ensures SamplersWired(gl') && gl'.activeUnit == 2
    ensures gl'.textureImage == gl.textureImage
    ensures forall u :: u in gl.unitTexture && u >= 3 ==> u in gl'.unitTexture && gl'.unitTexture[u] == gl.unitTexture[u]
  {
    gl' := gl;
    for i := 0 to 3
      invariant gl'.textureImage == gl.textureImage
      invariant forall u :: 0 <= u < i ==> u in gl'.unitTexture && gl'.unitTexture[u] == u
      invariant forall u :: u in gl.unitTexture && u >= i ==> u in gl'.unitTexture && gl'.unitTexture[u] == gl.unitTexture[u]
      invariant i > 0 ==> gl'.activeUnit == i - 1
    {
      gl' := gl'.(activeUnit := i);
      gl' := gl'.(unitTexture := gl'.unitTexture[gl'.activeUnit := i]);
    }
    gl' := gl'.(samplerUnit := gl'.samplerUnit[SamplerY := 0][SamplerU := 1][SamplerV := 2]);
    forall s: Sampler
      ensures s in gl'.samplerUnit && gl'.samplerUnit[s] == PlaneIndex(s)
      ensures PlaneIndex(s) in gl'.unitTexture && gl'.unitTexture[PlaneIndex(s)] == PlaneIndex(s)
    {
      match s {
        case SamplerY =>
        case SamplerU =>
        case SamplerV =>
      }
    }
  }

  /** The texture images after planes 0 .. n-1 of a frame went into textures
      0 .. n-1. */
  function UploadedImages(images: map<nat, Image>, frame: VideoFrame, n: nat): map<nat, Image>
    requires WellFormed(frame) && n <= 3
  {
    if n == 0 then images else UploadedImages(images, frame, n - 1)[n - 1 := PlaneImage(frame, n - 1)]
  }

  /** After planes 0 .. n-1 went in, texture t < n holds plane t and every
      other texture is as it was. */
  lemma {:induction false} UploadedImagesHold(images: map<nat, Image>, frame: VideoFrame, n: nat)
    requires WellFormed(frame) && n <= 3
    ensures forall t :: 0 <= t < n ==>
      t in UploadedImages(images, frame, n) && UploadedImages(images, frame, n)[t] == PlaneImage(frame, t)
    ensures forall t :: t in images && t >= n ==>
      t in UploadedImages(images, frame, n) && UploadedImages(images, frame, n)[t] == images[t]
  {
    if n > 0 {
      UploadedImagesHold(images, frame, n - 1);
    }
  }

  /** What updateState leaves behind, as written: each texture i holds plane
      i, and texture i was bound on whatever unit was active, so that unit
      ends up holding texture 2. Nothing is uploaded without a frame or with
      an empty one. */
  function UploadedState(gl: GlState, frame: Option<VideoFrame>): (g: GlState)
    requires frame.Some? && frame.value.frameData != [] ==> WellFormed(frame.value)
    ensures g.activeUnit == gl.activeUnit && g.samplerUnit == gl.samplerUnit
    ensures forall u :: u in gl.unitTexture && u != gl.activeUnit ==>
      u in g.unitTexture && g.unitTexture[u] == gl.unitTexture[u]
    ensures frame.None? || frame.value.frameData == [] ==> g == gl
  {
    if frame.None? || frame.value.frameData == [] then gl
    else gl.(unitTexture := gl.unitTexture[gl.activeUnit := 2],
             textureImage := UploadedImages(gl.textureImage, frame.value, 3))
  }

  /** updateState: binds texture i on the active unit and uploads plane i
      into it, for the three planes. */
  method UpdateState(gl: GlState, frame: Option<VideoFrame>) returns (gl': GlState)
    requires frame.Some? && frame.value.frameData != [] ==> WellFormed(frame.value)
    ensures gl' == UploadedState(gl, frame)
  {
    if frame.None? || frame.value.frameData == [] {
      return gl;
    }
    var f := frame.value;
    gl' := gl;
    for i := 0 to 3
      invariant gl'.activeUnit == gl.activeUnit && gl'.samplerUnit == gl.samplerUnit
      invariant i == 0 ==> gl'.unitTexture == gl.unitTexture
      invariant i > 0 ==> gl'.unitTexture == gl.unitTexture[gl.activeUnit := i - 1]
      invariant gl'.textureImage == UploadedImages(gl.textureImage, f, i)
    {
      gl' := gl'.(unitTexture := gl'.unitTexture[gl'.activeUnit := i]);
      gl' := gl'.(textureImage := gl'.textureImage[gl'.unitTexture[gl'.activeUnit] := PlaneImage(f, i)]);
    }
  }

  /** Each texture receives its own plane. */
  lemma UploadFillsTextures(gl: GlState, frame: VideoFrame)
    requires WellFormed(frame)
    ensures forall t :: 0 <= t < 3 ==>
      t in UploadedState(gl, Some(frame)).textureImage &&
      UploadedState(gl, Some(frame)).textureImage[t] == PlaneImage(frame, t)
  {
    PlanesFitInFrame(frame.frameSize);
    assert frame.frameData != [];
    UploadedImagesHold(gl.textureImage, frame, 3);
  }

  /** As long as initialize's last unit (or one above 2) is still active, the
      upload leaves every sampler reading its own plane. */
  lemma UploadKeepsSamplersOnTheirPlanes(gl: GlState, frame: VideoFrame)
    requires WellFormed(frame) && SamplersWired(gl) && gl.activeUnit >= 2
    ensures forall s :: Sampled(UploadedState(gl, Some(frame)), s) == Some(PlaneImage(frame, PlaneIndex(s)))
  {
    UploadFillsTextures(gl, frame);
    var gl' := UploadedState(gl, Some(frame));
    forall s
      ensures Sampled(gl', s) == Some(PlaneImage(frame, PlaneIndex(s)))
    {
      var i := PlaneIndex(s);
      assert gl'.samplerUnit[s] == i;
      assert gl'.unitTexture[i] == i;
    }
  }

  /** If unit 0 is active when updateState runs (for instance because another
      material selected it), unit 0 ends up holding texture 2: the Y sampler
      then reads the V plane, whose image differs from the Y plane's. */
  lemma LumaSamplerReadsVPlaneWhenUnitZeroActive(gl: GlState, frame: VideoFrame)
    requires WellFormed(frame) && SamplersWired(gl) && gl.activeUnit == 0
    ensures Sampled(UploadedState(gl, Some(frame)), SamplerY) == Some(PlaneImage(frame, 2))
    ensures PlaneImage(frame, 2) != PlaneImage(frame, 0)
  {
    UploadFillsTextures(gl, frame);
    var w := frame.frameSize.width;
    assert PlaneImage(frame, 2).width == w / 2 < w == PlaneImage(frame, 0).width;
  }

  /** updateState with each plane's unit selected before its bind, as
      initialize does: every sampler reads its own plane whatever unit was
      active before, and textures bound on units above 2 are left alone. */
  method UpdateStateSelectingUnits(gl: GlState, frame: Option<VideoFrame>) returns (gl': GlState)
    requires frame.Some? && frame.value.frameData != [] ==> WellFormed(frame.value)
    requires SamplersWired(gl)
    ensures SamplersWired(gl') && gl'.samplerUnit == gl.samplerUnit
    ensures frame.None? || frame.value.frameData == [] ==> gl' == gl
    ensures frame.Some? && frame.value.frameData != [] ==>
      forall s :: Sampled(gl', s) == Some(PlaneImage(frame.value, PlaneIndex(s)))
    ensures forall u :: u in gl.unitTexture && u >= 3 ==> u in gl'.unitTexture && gl'.unitTexture[u] == gl.unitTexture[u]
  {
    if frame.None? || frame.value.frameData == [] {
      return gl;
    }
    var f := frame.value;
    WiredUnits(gl);
    gl' := gl;
    for i := 0 to 3
      invariant gl'.samplerUnit == gl.samplerUnit
      invariant forall u :: u in gl.unitTexture ==> u in gl'.unitTexture
      invariant forall u :: u in gl.unitTexture && u >= 3 ==> gl'.unitTexture[u] == gl.unitTexture[u]
      invariant forall u :: 0 <= u < 3 ==> u in gl'.unitTexture && gl'.unitTexture[u] == u
      invariant gl'.textureImage == UploadedImages(gl.textureImage, f, i)
    {
      gl' := gl'.(activeUnit := i);
      gl' := gl'.(unitTexture := gl'.unitTexture[gl'.activeUnit := i]);
      gl' := gl'.(textureImage := gl'.textureImage[gl'.unitTexture[gl'.activeUnit] := PlaneImage(f, i)]);
    }
    UploadedImagesHold(gl.textureImage, f, 3);
    forall s
      ensures Sampled(gl', s) == Some(PlaneImage(f, PlaneIndex(s)))
    {
      assert gl'.samplerUnit[s] == PlaneIndex(s);
    }
  }
}
