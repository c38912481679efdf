/**
 * Model of the synthetic-video muxer of video_muxing/video_muxing.cpp: the
 * codec parameters chosen when a stream is added, the test pattern painted into
 * a YUV 4:2:0 picture, and the frame counter and timestamp stepping of the
 * frame-writing loop. Calls into libav are parameters (their answers) or are
 * left out.
 */
module VideoMuxing {
  import opened Base

  /** STREAM_DURATION, in seconds (the double 200.0, an exact integer). */
  const StreamDuration: int := 200
  /** STREAM_FRAME_RATE, in images per second. */
  const StreamFrameRate: int := 25
  /** STREAM_NB_FRAMES: (int)(200.0 * 25), exact. */
  const StreamNbFrames: int := StreamDuration * StreamFrameRate

  /** AVFMT_GLOBALHEADER, a bit of the output format's flags. */
  const AvfmtGlobalHeader: bv32 := 0x0040
  /** CODEC_FLAG_GLOBAL_HEADER, a bit of the codec context's flags. */
  const CodecFlagGlobalHeader: bv32 := 0x0040_0000

  // ---------------------------------------------------------------------------
  // Codec parameters (add_stream)
  // ---------------------------------------------------------------------------

  datatype Rational = Rational(num: int, den: int)

  /** The media type of the encoder libav finds for a codec id. */
  datatype MediaType = AudioMedia | VideoMedia | OtherMedia

  datatype CodecId = Mpeg1Video | Mpeg2Video | OtherCodec(code: int)

  datatype PixelFormat = Yuv420p | OtherPixelFormat(code: int)

  /** The fields of AVCodecContext that add_stream reads or assigns. */
  datatype CodecSettings = CodecSettings(
    codecId: CodecId,
    bitRate: int,
    width: int,
    height: int,
    timeBase: Rational,
    gopSize: int,
    pixFmt: PixelFormat,
    maxBFrames: int,
    mbDecision: int,
    sampleFmt: SampleFormat,
    sampleRate: int,
    channels: int,
    flags: bv32)

  datatype MuxError = EncoderNotFound | StreamAllocFailed | ConversionContextFailed | FrameWriteFailed

  /** The stream add_stream returns: its id and its configured codec context. */
  datatype NewStream = NewStream(id: int, codec: CodecSettings)

  /** The video branch of add_stream, applied to the context's prior values. */
  function VideoSettings(d: CodecSettings, codecId: CodecId): CodecSettings
  {
    var c := d.(codecId := codecId, bitRate := 400000, width := 352, height := 288,
                timeBase := Rational(1, StreamFrameRate), gopSize := 12, pixFmt := Yuv420p);
    var c := if c.codecId == Mpeg2Video then c.(maxBFrames := 2) else c;
    if c.codecId == Mpeg1Video then c.(mbDecision := 2) else c
  }

  /** The audio branch of add_stream, applied to the context's prior values. */
  function AudioSettings(d: CodecSettings): CodecSettings
  {
    d.(sampleFmt := S16, bitRate := 64000, sampleRate := 44100, channels := 2)
  }

  /**
   * add_stream. `nbStreams` is oc->nb_streams before the call, `encoder` the media
   * type of the encoder avcodec_find_encoder returns (None: not found),
   * `streamCreated` whether avformat_new_stream succeeds (it appends the stream, so
   * oc->nb_streams - 1 is then the old count), and `defaults` the values libav
   * gives the fresh codec context. Both failures are exit(1) in the source.
   */
  function AddStream(nbStreams: nat, formatFlags: bv32, codecId: CodecId, encoder: Option<MediaType>,
                     streamCreated: bool, defaults: CodecSettings): (r: Result<NewStream, MuxError>)
    ensures r.Failure? <==> encoder.None? || !streamCreated
    ensures encoder.None? ==> r == Failure(EncoderNotFound)
    ensures encoder.Some? && !streamCreated ==> r == Failure(StreamAllocFailed)
  {
    if encoder.None? then Failure(EncoderNotFound)
    else if !streamCreated then Failure(StreamAllocFailed)
    else
      var id := nbStreams;
      var (id, c) := match encoder.value
        case AudioMedia => (1, AudioSettings(defaults))
        case VideoMedia => (id, VideoSettings(defaults, codecId))
        case OtherMedia => (id, defaults);
      var flags := if formatFlags & AvfmtGlobalHeader != 0 then c.flags | CodecFlagGlobalHeader else c.flags;
      Success(NewStream(id, c.(flags := flags)))
  }

  /** A video stream gets the fixed encoder parameters and the index of the new stream as its id. */
  lemma AddStreamVideo(nbStreams: nat, formatFlags: bv32, codecId: CodecId, defaults: CodecSettings)
    ensures var r := AddStream(nbStreams, formatFlags, codecId, Some(VideoMedia), true, defaults);
      && r.Success? && r.value.id == nbStreams
      && var c := r.value.codec;
      && c.codecId == codecId && c.bitRate == 400000 && c.width == 352 && c.height == 288
      && c.timeBase == Rational(1, StreamFrameRate) && c.gopSize == 12 && c.pixFmt == Yuv420p
      && c.sampleFmt == defaults.sampleFmt && c.sampleRate == defaults.sampleRate && c.channels == defaults.channels
  {
  }

  /** An audio stream gets id 1 and the fixed audio parameters; the video fields keep their values. */
  lemma AddStreamAudio(nbStreams: nat, formatFlags: bv32, codecId: CodecId, defaults: CodecSettings)
    ensures var r := AddStream(nbStreams, formatFlags, codecId, Some(AudioMedia), true, defaults);
      && r.Success? && r.value.id == 1
      && var c := r.value.codec;
      && c.sampleFmt == S16 && c.bitRate == 64000 && c.sampleRate == 44100 && c.channels == 2
      && c.codecId == defaults.codecId && c.width == defaults.width && c.height == defaults.height
      && c.timeBase == defaults.timeBase && c.gopSize == defaults.gopSize && c.pixFmt == defaults.pixFmt
      && c.maxBFrames == defaults.maxBFrames && c.mbDecision == defaults.mbDecision
  {
  }

  /** A stream of any other media type keeps every parameter but the flags. */
  lemma AddStreamOtherMedia(nbStreams: nat, formatFlags: bv32, codecId: CodecId, defaults: CodecSettings)
    ensures var r := AddStream(nbStreams, formatFlags, codecId, Some(OtherMedia), true, defaults);
      r.Success? && r.value.id == nbStreams && r.value.codec == defaults.(flags := r.value.codec.flags)
  {
  }

  /** max_b_frames is set (to 2) only for MPEG-2 video, mb_decision (to 2) only for MPEG-1 video. */
  lemma AddStreamMpegTuning(nbStreams: nat, formatFlags: bv32, codecId: CodecId, encoder: Option<MediaType>,
                            streamCreated: bool, defaults: CodecSettings)
    requires AddStream(nbStreams, formatFlags, codecId, encoder, streamCreated, defaults).Success?
    ensures var c := AddStream(nbStreams, formatFlags, codecId, encoder, streamCreated, defaults).value.codec;
      && c.maxBFrames == (if encoder == Some(VideoMedia) && codecId == Mpeg2Video then 2 else defaults.maxBFrames)
      && c.mbDecision == (if encoder == Some(VideoMedia) && codecId == Mpeg1Video then 2 else defaults.mbDecision)
  {
  }

  /**
   * CODEC_FLAG_GLOBAL_HEADER is set exactly when the output format asks for global
   * headers or the context already had it; every other flag bit is kept.
   */
  lemma AddStreamGlobalHeader(nbStreams: nat, formatFlags: bv32, codecId: CodecId, encoder: Option<MediaType>,
                              streamCreated: bool, defaults: CodecSettings)
    requires AddStream(nbStreams, formatFlags, codecId, encoder, streamCreated, defaults).Success?
    ensures var f := AddStream(nbStreams, formatFlags, codecId, encoder, streamCreated, defaults).value.codec.flags;
      && (f & CodecFlagGlobalHeader != 0 <==>
            formatFlags & AvfmtGlobalHeader != 0 || defaults.flags & CodecFlagGlobalHeader != 0)
      && f & !CodecFlagGlobalHeader == defaults.flags & !CodecFlagGlobalHeader
  {
  }

  // ---------------------------------------------------------------------------
  // The test pattern (fill_yuv_image)
  // ---------------------------------------------------------------------------

  datatype PlaneKind = Luma | Cb | Cr

  /**
   * The byte fill_yuv_image stores at column x, row y of a plane for frame i:
   * the int expression of the source, truncated to uint8_t (reduction modulo 256).
   */
  function Sample(p: PlaneKind, x: int, y: int, i: int): (b: byte)
  {
    match p
    case Luma => ((x + y + i * 3) % 256) as byte
    case Cb => ((128 + y + i * 2) % 256) as byte
    case Cr => ((64 + x + i * 5) % 256) as byte
  }

  /** C's int division by 2, which truncates toward zero. */
  function Half(n: int): (h: int)
    ensures n >= 0 ==> 0 <= h && h + h <= n < h + h + 2
    ensures n < 0 ==> h <= 0
  {
    if n >= 0 then n / 2 else -((-n) / 2)
  }

  /** Index of column `col` of row `row` in a plane whose rows are `linesize` bytes apart. */
  function Offset(linesize: int, row: int, col: int): int
  {
    row * linesize + col
  }

  /** Whether index k of a plane lies in its first `rows` rows and first `w` columns. */
  ghost predicate Covers(linesize: int, w: int, rows: int, k: int)
  {
    0 < w <= linesize && 0 <= k && k / linesize < rows && k % linesize < w
  }

  /**
   * The painted plane: the first h rows and w columns hold the pattern of plane p
   * for frame i, every other byte (stride padding, rows below) is as before.
   */
  ghost predicate Painted(s: seq<byte>, before: seq<byte>, linesize: int, w: int, h: int, p: PlaneKind, i: int)
  {
    |s| == |before| &&
    forall k :: 0 <= k < |s| ==>
      s[k] == if Covers(linesize, w, h, k) then Sample(p, k % linesize, k / linesize, i) else before[k]
  }

  /** As Painted, with row y painted only in its first x columns. */
  ghost predicate PaintedUpTo(s: seq<byte>, before: seq<byte>, linesize: int, w: int, y: int, x: int, p: PlaneKind, i: int)
  {
    |s| == |before| &&
    forall k :: 0 <= k < |s| ==>
      s[k] == if Covers(linesize, w, y, k) then Sample(p, k % linesize, k / linesize, i)
              else if Offset(linesize, y, 0) <= k < Offset(linesize, y, 0) + x then Sample(p, k - Offset(linesize, y, 0), y, i)
              else before[k]
  }

  /** A plane of `length` bytes holds h rows of w columns at the given line size. */
  predicate PlaneFits(length: int, linesize: int, w: int, h: int)
  {
    w <= linesize && (0 < w && 0 < h ==> Offset(linesize, h - 1, w) <= length)
  }

  // Arithmetic on row-major offsets.

  lemma MulLe(a: int, b: int, m: int)
    requires a <= b && 0 <= m
    ensures a * m <= b * m
  {
    assert b * m - a * m == (b - a) * m;
  }

  lemma DivModUnique(k: int, m: int, q: int, r: int)
    requires 0 < m && 0 <= r < m && k == q * m + r
    ensures k / m == q && k % m == r
  {
    var q', r' := k / m, k % m;
    assert k == q' * m + r';
    assert (q - q') * m == r' - r;
    if q > q' {
      MulLe(1, q - q', m);
    } else if q < q' {
      MulLe(1, q' - q, m);
    }
  }

  lemma DivNonneg(k: int, m: int)
    requires 0 <= k && 0 < m
    ensures k / m >= 0
  {
    assert k == (k / m) * m + k % m;
    assert (k / m + 1) * m == k - k % m + m > 0;
  }

  lemma OffsetDivMod(linesize: int, row: int, col: int)
    requires 0 <= col < linesize
    ensures Offset(linesize, row, col) / linesize == row && Offset(linesize, row, col) % linesize == col
  {
    DivModUnique(Offset(linesize, row, col), linesize, row, col);
  }

  /** Bytes of the first y rows come before row y. */
  lemma CoveredBeforeRow(linesize: int, w: int, y: int, k: int)
    requires Covers(linesize, w, y, k)
    ensures k < Offset(linesize, y, 0)
  {
    var q := k / linesize;
    assert k == q * linesize + k % linesize;
    MulLe(q + 1, y, linesize);
  }

  /** Row y adds exactly the w bytes starting at Offset(linesize, y, 0). */
  lemma CoversNextRow(linesize: int, w: int, y: int, k: int)
    requires 0 < w <= linesize && 0 <= y && 0 <= k
    ensures Covers(linesize, w, y + 1, k) <==>
              Covers(linesize, w, y, k) || Offset(linesize, y, 0) <= k < Offset(linesize, y, 0) + w
    ensures Offset(linesize, y, 0) <= k < Offset(linesize, y, 0) + w ==>
              k / linesize == y && k % linesize == k - Offset(linesize, y, 0)
  {
    var base := Offset(linesize, y, 0);
    if base <= k < base + w {
      DivModUnique(k, linesize, y, k - base);
    }
    if Covers(linesize, w, y + 1, k) && !Covers(linesize, w, y, k) {
      DivModUnique(k, linesize, k / linesize, k % linesize);
      assert k / linesize == y;
    }
  }

  /** A painted position of a plane that fits lies inside the plane. */
  lemma OffsetInPlane(length: int, linesize: int, w: int, h: int, row: int, col: int)
    requires PlaneFits(length, linesize, w, h) && 0 <= row < h && 0 <= col < w
    ensures 0 <= Offset(linesize, row, col) < length
  {
    MulLe(0, row, linesize);
    MulLe(row, h - 1, linesize);
  }

  lemma StartRow(s: seq<byte>, before: seq<byte>, linesize: int, w: int, y: int, p: PlaneKind, i: int)
    requires Painted(s, before, linesize, w, y, p, i)
    ensures PaintedUpTo(s, before, linesize, w, y, 0, p, i)
  {
  }

  lemma FinishRow(s: seq<byte>, before: seq<byte>, linesize: int, w: int, y: int, x: int, p: PlaneKind, i: int)
    requires 0 <= y && w <= linesize && (x == w || (w <= 0 && x == 0))
    requires PaintedUpTo(s, before, linesize, w, y, x, p, i)
    ensures Painted(s, before, linesize, w, y + 1, p, i)
  {
    if 0 < w {
      forall k | 0 <= k < |s|
        ensures s[k] == if Covers(linesize, w, y + 1, k) then Sample(p, k % linesize, k / linesize, i) else before[k]
      {
        CoversNextRow(linesize, w, y, k);
      }
    }
  }

  /** Writing the byte of column x of row y extends the painted prefix of row y. */
  lemma PaintStep(s: seq<byte>, before: seq<byte>, linesize: int, w: int, y: int, x: int, p: PlaneKind, i: int)
    requires 0 <= y && 0 <= x < w <= linesize
    requires 0 <= Offset(linesize, y, x) < |s|
    requires PaintedUpTo(s, before, linesize, w, y, x, p, i)
    ensures PaintedUpTo(s[Offset(linesize, y, x) := Sample(p, x, y, i)], before, linesize, w, y, x + 1, p, i)
  {
    if Covers(linesize, w, y, Offset(linesize, y, x)) {
      CoveredBeforeRow(linesize, w, y, Offset(linesize, y, x));
    }
  }

  /** Before the first row nothing is painted. */
  lemma Unpainted(s: seq<byte>, linesize: int, w: int, p: PlaneKind, i: int)
    ensures Painted(s, s, linesize, w, 0, p, i)
  {
    forall k | 0 <= k < |s|
      ensures !Covers(linesize, w, 0, k)
    {
      if 0 < w <= linesize {
        DivNonneg(k, linesize);
      }
    }
  }

  lemma NoRowsPainted(s: seq<byte>, before: seq<byte>, linesize: int, w: int, h: int, p: PlaneKind, i: int)
    requires h <= 0 && Painted(s, before, linesize, w, 0, p, i)
    ensures Painted(s, before, linesize, w, h, p, i)
  {
    forall k | 0 <= k < |s|
      ensures !Covers(linesize, w, h, k) && !Covers(linesize, w, 0, k)
    {
      if 0 < w <= linesize {
        DivNonneg(k, linesize);
      }
    }
  }

  // ---------------------------------------------------------------------------
  // What a painted plane holds
  // ---------------------------------------------------------------------------

  /** Every byte of the w x h area holds the pattern of its column and row. */
  lemma PaintedSampleAt(s: seq<byte>, before: seq<byte>, linesize: int, w: int, h: int, p: PlaneKind, i: int,
                        row: int, col: int)
    requires Painted(s, before, linesize, w, h, p, i) && PlaneFits(|s|, linesize, w, h)
    requires 0 <= row < h && 0 <= col < w
    ensures 0 <= Offset(linesize, row, col) < |s|
    ensures s[Offset(linesize, row, col)] == Sample(p, col, row, i)
  {
    OffsetInPlane(|s|, linesize, w, h, row, col);
    OffsetDivMod(linesize, row, col);
  }

  /** Stride padding (column w and beyond) and the rows below h keep their bytes. */
  lemma PaintedElsewhereUnchanged(s: seq<byte>, before: seq<byte>, linesize: int, w: int, h: int, p: PlaneKind, i: int,
                                  row: int, col: int)
    requires Painted(s, before, linesize, w, h, p, i)
    requires 0 <= row && 0 <= col < linesize && Offset(linesize, row, col) < |s|
    requires row >= h || col >= w
    ensures s[Offset(linesize, row, col)] == before[Offset(linesize, row, col)]
  {
    MulLe(0, row, linesize);
    OffsetDivMod(linesize, row, col);
  }

  /** A picture: the three plane buffers of an AVPicture and their line sizes. */
  datatype Picture = Picture(luma: array<byte>, cb: array<byte>, cr: array<byte>,
                             lumaLinesize: int, cbLinesize: int, crLinesize: int)
  {
    function Planes(): set<array<byte>>
    {
      {luma, cb, cr}
    }

    /** The three planes are distinct and hold a width x height 4:2:0 picture. */
    predicate Fits(width: int, height: int)
    {
      luma != cb && luma != cr && cb != cr &&
      PlaneFits(luma.Length, lumaLinesize, width, height) &&
      PlaneFits(cb.Length, cbLinesize, Half(width), Half(height)) &&
      PlaneFits(cr.Length, crLinesize, Half(width), Half(height))
    }
  }

  /** The three planes' contents, in the order luma, Cb, Cr. */
  datatype PictureBytes = PictureBytes(luma: seq<byte>, cb: seq<byte>, cr: seq<byte>)

  ghost function Contents(pict: Picture): PictureBytes
    reads pict.luma, pict.cb, pict.cr
  {
    PictureBytes(pict.luma[..], pict.cb[..], pict.cr[..])
  }

  /** A whole picture painted with frame i's pattern over `before`. */
  ghost predicate PictureFilled(pict: Picture, now: PictureBytes, before: PictureBytes, i: int, width: int, height: int)
  {
    Painted(now.luma, before.luma, pict.lumaLinesize, width, height, Luma, i) &&
    Painted(now.cb, before.cb, pict.cbLinesize, Half(width), Half(height), Cb, i) &&
    Painted(now.cr, before.cr, pict.crLinesize, Half(width), Half(height), Cr, i)
  }

  /** Painting a plane's area again shows only the later pattern over the original bytes. */
  lemma Repaint(s2: seq<byte>, s1: seq<byte>, s0: seq<byte>, linesize: int, w: int, h: int, p: PlaneKind, i1: int, i2: int)
    requires Painted(s1, s0, linesize, w, h, p, i1) && Painted(s2, s1, linesize, w, h, p, i2)
    ensures Painted(s2, s0, linesize, w, h, p, i2)
  {
    forall k | 0 <= k < |s2|
      ensures s2[k] == if Covers(linesize, w, h, k) then Sample(p, k % linesize, k / linesize, i2) else s0[k]
    {
      assert s1[k] == if Covers(linesize, w, h, k) then Sample(p, k % linesize, k / linesize, i1) else s0[k];
    }
  }

  /** Repaint, for the three planes of a picture. */
  lemma RepaintPicture(pict: Picture, now: PictureBytes, mid: PictureBytes, before: PictureBytes,
                       i1: int, i2: int, width: int, height: int)
    requires PictureFilled(pict, mid, before, i1, width, height) && PictureFilled(pict, now, mid, i2, width, height)
    ensures PictureFilled(pict, now, before, i2, width, height)
  {
    Repaint(now.luma, mid.luma, before.luma, pict.lumaLinesize, width, height, Luma, i1, i2);
    Repaint(now.cb, mid.cb, before.cb, pict.cbLinesize, Half(width), Half(height), Cb, i1, i2);
    Repaint(now.cr, mid.cr, before.cr, pict.crLinesize, Half(width), Half(height), Cr, i1, i2);
  }

  /**
   * fill_yuv_image: paints the luma plane in one row-by-row loop nest, then both
   * chroma planes over half the width and half the height in a second.
   */
  method FillYuvImage(pict: Picture, frameIndex: int, width: int, height: int)
    requires pict.Fits(width, height)
    modifies pict.luma, pict.cb, pict.cr
    ensures PictureFilled(pict, Contents(pict), old(Contents(pict)), frameIndex, width, height)
  {
    FillLuma(pict, frameIndex, width, height);
    FillChroma(pict, frameIndex, width, height);
  }

  /** The Y loop nest of fill_yuv_image. */
  method FillLuma(pict: Picture, i: int, width: int, height: int)
    requires pict.Fits(width, height)
    modifies pict.luma
    ensures Painted(pict.luma[..], old(pict.luma[..]), pict.lumaLinesize, width, height, Luma, i)
  {
    var ls := pict.lumaLinesize;
    Unpainted(pict.luma[..], ls, width, Luma, i);
    var y := 0;
    while y < height
      invariant y == 0 || 0 < y <= height  // the loop does not run when height <= 0
      invariant Painted(pict.luma[..], old(pict.luma[..]), ls, width, y, Luma, i)
    {
      StartRow(pict.luma[..], old(pict.luma[..]), ls, width, y, Luma, i);
      var x := 0;
      while x < width
        invariant x == 0 || 0 < x <= width  // nor this one when width <= 0
        invariant PaintedUpTo(pict.luma[..], old(pict.luma[..]), ls, width, y, x, Luma, i)
      {
        OffsetInPlane(pict.luma.Length, ls, width, height, y, x);
        PaintStep(pict.luma[..], old(pict.luma[..]), ls, width, y, x, Luma, i);
        pict.luma[Offset(ls, y, x)] := Sample(Luma, x, y, i);
        x := x + 1;
      }
      FinishRow(pict.luma[..], old(pict.luma[..]), ls, width, y, x, Luma, i);
      y := y + 1;
    }
    if height < 0 {
      NoRowsPainted(pict.luma[..], old(pict.luma[..]), ls, width, height, Luma, i);
    }
  }

  /** The Cb and Cr loop nest of fill_yuv_image: both planes, row by row, over half the size. */
  method FillChroma(pict: Picture, i: int, width: int, height: int)
    requires pict.Fits(width, height)
    modifies pict.cb, pict.cr
    ensures Painted(pict.cb[..], old(pict.cb[..]), pict.cbLinesize, Half(width), Half(height), Cb, i)
    ensures Painted(pict.cr[..], old(pict.cr[..]), pict.crLinesize, Half(width), Half(height), Cr, i)
  {
    var ls1, ls2 := pict.cbLinesize, pict.crLinesize;
    var cw, ch := Half(width), Half(height);
    Unpainted(pict.cb[..], ls1, cw, Cb, i);
    Unpainted(pict.cr[..], ls2, cw, Cr, i);
    var y := 0;
    while y < ch
      invariant y == 0 || 0 < y <= ch  // the loop does not run when Half(height) <= 0
      invariant Painted(pict.cb[..], old(pict.cb[..]), ls1, cw, y, Cb, i)
      invariant Painted(pict.cr[..], old(pict.cr[..]), ls2, cw, y, Cr, i)
    {
      StartRow(pict.cb[..], old(pict.cb[..]), ls1, cw, y, Cb, i);
      StartRow(pict.cr[..], old(pict.cr[..]), ls2, cw, y, Cr, i);
      var x := 0;
      while x < cw
        invariant x == 0 || 0 < x <= cw  // nor this one when Half(width) <= 0
        invariant PaintedUpTo(pict.cb[..], old(pict.cb[..]), ls1, cw, y, x, Cb, i)
        invariant PaintedUpTo(pict.cr[..], old(pict.cr[..]), ls2, cw, y, x, Cr, i)
      {
        OffsetInPlane(pict.cb.Length, ls1, cw, ch, y, x);
        OffsetInPlane(pict.cr.Length, ls2, cw, ch, y, x);
        ghost var cbNow, crNow := pict.cb[..], pict.cr[..];
        PaintStep(cbNow, old(pict.cb[..]), ls1, cw, y, x, Cb, i);
        PaintStep(crNow, old(pict.cr[..]), ls2, cw, y, x, Cr, i);
        pict.cb[Offset(ls1, y, x)] := Sample(Cb, x, y, i);
        pict.cr[Offset(ls2, y, x)] := Sample(Cr, x, y, i);
        assert pict.cb[..] == cbNow[Offset(ls1, y, x) := Sample(Cb, x, y, i)];
        assert pict.cr[..] == crNow[Offset(ls2, y, x) := Sample(Cr, x, y, i)];
        x := x + 1;
      }
      FinishRow(pict.cb[..], old(pict.cb[..]), ls1, cw, y, x, Cb, i);
      FinishRow(pict.cr[..], old(pict.cr[..]), ls2, cw, y, x, Cr, i);
      y := y + 1;
    }
    if ch < 0 {
      NoRowsPainted(pict.cb[..], old(pict.cb[..]), ls1, cw, ch, Cb, i);
      NoRowsPainted(pict.cr[..], old(pict.cr[..]), ls2, cw, ch, Cr, i);
    }
  }

  // ---------------------------------------------------------------------------
  // The frame-writing state (write_video_frame and the main loop)
  // ---------------------------------------------------------------------------

  /**
   * The muxer's static video state: the configured codec context, the picture
   * handed to the encoder (dst_picture), the YUV420P picture converted from when
   * the codec wants another pixel format (src_picture, allocated only then), the
   * static frame_count, frame->pts and whether the static scaler context exists.
   */
  /**
   * The pattern number of the last picture painted by `n` successful calls of
   * write_video_frame starting at frame_count `first` (n > 0, first < STREAM_NB_FRAMES):
   * painting stops once frame_count reaches STREAM_NB_FRAMES.
   */
  function LastPattern(first: int, n: int): (i: int)
    requires first < StreamNbFrames && 0 < n
    ensures first <= i < first + n && i < StreamNbFrames
    ensures i == first + n - 1 || i == StreamNbFrames - 1
  {
    if first + n <= StreamNbFrames then first + n - 1 else StreamNbFrames - 1
  }

  class VideoOutput {
    const codec: CodecSettings
    const dst: Picture
    const src: Option<Picture>
    var frameCount: int
    var framePts: int
    var swsReady: bool

    ghost predicate Valid()
      reads this
    {
      0 <= frameCount &&
      dst.Fits(codec.width, codec.height) &&
      (src.Some? <==> codec.pixFmt != Yuv420p) &&
      (src.Some? ==> src.value.Fits(codec.width, codec.height) && src.value.Planes() !! dst.Planes())
    }

    /** Every plane buffer the state may write. */
    ghost function Buffers(): set<object>
    {
      dst.Planes() + if src.Some? then src.value.Planes() else {}
    }

    /** The state open_video leaves: frame_count is 0 and no scaler context exists yet. */
    constructor (codec: CodecSettings, dst: Picture, src: Option<Picture>)
      requires dst.Fits(codec.width, codec.height)
      requires src.Some? <==> codec.pixFmt != Yuv420p
      requires src.Some? ==> src.value.Fits(codec.width, codec.height) && src.value.Planes() !! dst.Planes()
      ensures Valid()
      ensures this.codec == codec && this.dst == dst && this.src == src
      ensures frameCount == 0 && !swsReady
    {
      // frame->pts is left unset here; the main loop sets it to 0 before the first frame.
      this.codec, this.dst, this.src := codec, dst, src;
      frameCount, swsReady := 0, false;
    }

    /**
     * write_video_frame. Before STREAM_NB_FRAMES frames the picture is repainted
     * with pattern number frame_count (into src_picture when the codec's pixel
     * format needs conversion, creating the scaler context on first use); after
     * that it is left as it is. `swsAvailable` is whether sws_getContext succeeds
     * and `packetWritten` whether encoding and writing the frame succeed; each
     * failure is an exit(1). A frame that is written counts once.
     */
    method WriteVideoFrame(swsAvailable: bool, packetWritten: bool) returns (r: Outcome<MuxError>)
      requires Valid()
      modifies this, Buffers()
      ensures Valid() && framePts == old(framePts)
      ensures var refill := old(frameCount) < StreamNbFrames;
        var noScaler := refill && codec.pixFmt != Yuv420p && !old(swsReady) && !swsAvailable;
        && r == (if noScaler then Fail(ConversionContextFailed) else if !packetWritten then Fail(FrameWriteFailed) else Pass)
        && frameCount == (if r.Pass? then old(frameCount) + 1 else old(frameCount))
        && swsReady == (old(swsReady) || (refill && codec.pixFmt != Yuv420p && swsAvailable))
        && (codec.pixFmt == Yuv420p && refill ==>
              PictureFilled(dst, Contents(dst), old(Contents(dst)), old(frameCount), codec.width, codec.height))
        && (!refill ==> Contents(dst) == old(Contents(dst)))
        && (src.Some? ==>
              if refill && !noScaler then PictureFilled(src.value, Contents(src.value), old(Contents(src.value)), old(frameCount), codec.width, codec.height)
              else Contents(src.value) == old(Contents(src.value)))
    {
      if frameCount >= StreamNbFrames {
        // No more frames: the encoder is given the same picture again.
      } else if codec.pixFmt != Yuv420p {
        if !swsReady {
          if !swsAvailable {
            return Fail(ConversionContextFailed);
          }
          swsReady := true;
        }
        FillYuvImage(src.value, frameCount, codec.width, codec.height);
        // sws_scale then converts src_picture into dst_picture; that conversion is not modelled.
      } else {
        FillYuvImage(dst, frameCount, codec.width, codec.height);
      }
      if !packetWritten {
        return Fail(FrameWriteFailed);
      }
      frameCount := frameCount + 1;
      r := Pass;
    }

    /**
     * The frame loop of main: frame->pts starts at 0 and every written frame adds
     * the same rescale step (av_rescale_q of one codec tick into the stream time
     * base). `iterations` stands for the floating-point duration test that ends the
     * loop; `packetsWritten[j]` is the write result of the j-th frame. Returns how
     * many frames were written before the loop ended or a write failed.
     */
    method RunFrames(iterations: nat, step: int, swsAvailable: bool, packetsWritten: seq<bool>)
      returns (r: Outcome<MuxError>, written: nat)
      requires Valid() && |packetsWritten| >= iterations
      modifies this, Buffers()
      ensures Valid()
      ensures written <= iterations && frameCount == old(frameCount) + written
      ensures framePts == written * step
      ensures forall j :: 0 <= j < written ==> packetsWritten[j]
      ensures r.Pass? <==> written == iterations
      ensures r == Fail(FrameWriteFailed) ==> !packetsWritten[written]
      ensures r == Fail(ConversionContextFailed) ==> codec.pixFmt != Yuv420p && !swsAvailable
      ensures old(frameCount) >= StreamNbFrames ==>
                Contents(dst) == old(Contents(dst)) &&
                (src.Some? ==> Contents(src.value) == old(Contents(src.value)))
      ensures r.Pass? && 0 < written && old(frameCount) < StreamNbFrames ==>
                var last := LastPattern(old(frameCount), written);
                && (codec.pixFmt == Yuv420p ==>
                      PictureFilled(dst, Contents(dst), old(Contents(dst)), last, codec.width, codec.height))
                && (src.Some? ==>
                      PictureFilled(src.value, Contents(src.value), old(Contents(src.value)), last, codec.width, codec.height))
      ensures r.Pass? ==>
                swsReady == (old(swsReady) ||
                             (codec.pixFmt != Yuv420p && swsAvailable && 0 < written && old(frameCount) < StreamNbFrames))
    {
      framePts := 0;
      written := 0;
      while written < iterations
        invariant Valid()
        invariant written <= iterations && frameCount == old(frameCount) + written
        invariant framePts == written * step
        invariant forall j :: 0 <= j < written ==> packetsWritten[j]
        invariant old(frameCount) >= StreamNbFrames || written == 0 ==>
                    Contents(dst) == old(Contents(dst)) &&
                    (src.Some? ==> Contents(src.value) == old(Contents(src.value)))
        invariant 0 < written && old(frameCount) < StreamNbFrames ==>
                    var last := LastPattern(old(frameCount), written);
                    && (codec.pixFmt == Yuv420p ==>
                          PictureFilled(dst, Contents(dst), old(Contents(dst)), last, codec.width, codec.height))
                    && (src.Some? ==>
                          PictureFilled(src.value, Contents(src.value), old(Contents(src.value)), last, codec.width, codec.height))
        invariant swsReady == (old(swsReady) ||
                               (codec.pixFmt != Yuv420p && swsAvailable && 0 < written && old(frameCount) < StreamNbFrames))
      {
        ghost var mid := Contents(dst);
        ghost var midSrc := if src.Some? then Contents(src.value) else mid;
        r := WriteVideoFrame(swsAvailable, packetsWritten[written]);
        if r.Fail? {
          return;
        }
        if 0 < written && frameCount - 1 < StreamNbFrames {
          // This call painted pattern frameCount - 1 over the earlier painting.
          if codec.pixFmt == Yuv420p {
            RepaintPicture(dst, Contents(dst), mid, old(Contents(dst)),
                           LastPattern(old(frameCount), written), frameCount - 1, codec.width, codec.height);
          }
          if src.Some? {
            RepaintPicture(src.value, Contents(src.value), midSrc, old(Contents(src.value)),
                           LastPattern(old(frameCount), written), frameCount - 1, codec.width, codec.height);
          }
        }
        framePts := framePts + step;
        written := written + 1;
      }
      r := Pass;
    }
  }
}
