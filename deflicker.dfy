/**
 * Model of the demux/decode driver of filedeflicker/filedeflicker.cpp: the
 * FileDeflicker object's counters, buffers and output, its two-phase decode
 * loop (reading packets, then draining the decoder's cached frames), stream
 * selection, and the sample-format name table. libav stays outside: every call
 * into it is represented by the answer it gives.
 */
module Deflicker {
  import opened Base

  /** The runtime_error exceptions the driver throws, by cause. */
  datatype DeflickerError =
    | SourceOpenFailed
    | StreamInfoMissing
    | StreamNotFound
    | DecoderNotFound
    | DecoderOpenFailed
    | DestinationOpenFailed
    | RawBufferAllocFailed
    | FrameAllocFailed
    | DecodeFailed
    | UnsupportedSampleFormat(sampleFmt: SampleFormat)

  /** A demuxed packet (AVPacket): its stream index and payload. */
  datatype Packet = Packet(streamIndex: int, data: seq<byte>)

  /**
   * What avcodec_decode_video2 reports for one call: the length it returns, the
   * got_frame flag it stores, and the decoded picture as av_image_copy lays it
   * out in the tightly packed destination buffer.
   */
  datatype DecodeReply = DecodeReply(len: int, gotFrame: bool, picture: seq<byte>)

  /** One successful av_read_frame: the packet, with the reply the decoder gives if it is fed that packet. */
  datatype PacketRead = PacketRead(packet: Packet, reply: DecodeReply)

  /** The "video_frame:" line printed for an emitted frame: its number and whether it came from the drain phase. */
  datatype FrameNote = FrameNote(index: int, cached: bool)

  /**
   * How decode ends: "Demuxing succeeded", the "Error decoding video frame"
   * exception, or a drain loop that never ends (see DrainNotFed).
   */
  datatype DecodeEnd = Demuxed | DecodeError | Spins

  // ---------------------------------------------------------------------------
  // The decode loops, as functions of the decoder's replies
  // ---------------------------------------------------------------------------

  /** Frames emitted by a loop, whether it ended by a decode error, and the last got_frame value. */
  datatype Phase = Phase(frames: seq<seq<byte>>, failed: bool, gotFrame: bool)

  /**
   * The reading loop: every packet on the selected stream goes to the decoder,
   * others are skipped and leave got_frame as it was; a negative length stops
   * everything.
   */
  function ReadLoop(packets: seq<PacketRead>, streamIdx: int, gotFrame: bool): Phase
    decreases |packets|
  {
    if packets == [] then Phase([], false, gotFrame)
    else if packets[0].packet.streamIndex != streamIdx then ReadLoop(packets[1..], streamIdx, gotFrame)
    else
      var rep := packets[0].reply;
      if rep.len < 0 then Phase([], true, rep.gotFrame)
      else
        var rest := ReadLoop(packets[1..], streamIdx, rep.gotFrame);
        rest.(frames := (if rep.gotFrame then [rep.picture] else []) + rest.frames)
  }

  /** A drain call ends the drain loop: a decode error, or no frame. */
  predicate Stops(rep: DecodeReply)
  {
    rep.len < 0 || !rep.gotFrame
  }

  /** The decoder eventually answers a drain call with no frame (or an error). */
  predicate EventuallyStops(replies: seq<DecodeReply>)
    decreases |replies|
  {
    |replies| > 0 && (Stops(replies[0]) || EventuallyStops(replies[1..]))
  }

  /** The drain loop when the leftover packet is on the selected stream: one decoder call per iteration. */
  function DrainLoop(replies: seq<DecodeReply>): Phase
    requires EventuallyStops(replies)
    decreases |replies|
  {
    var rep := replies[0];
    if rep.len < 0 then Phase([], true, rep.gotFrame)
    else if !rep.gotFrame then Phase([], false, false)
    else
      var rest := DrainLoop(replies[1..]);
      rest.(frames := [rep.picture] + rest.frames)
  }

  /** Frames read, frames drained (printed "(cached)"), and how decode ends. */
  datatype Run = Run(read: seq<seq<byte>>, cached: seq<seq<byte>>, end: DecodeEnd)

  /**
   * FileDeflicker::decode as a function of what libav answers: the packets read,
   * the stream index the packet holds once av_read_frame reports the end,
   * the drain replies, and got_frame's indeterminate initial value.
   */
  function DecodeRun(packets: seq<PacketRead>, streamIdx: int, eofStreamIndex: int,
                     drain: seq<DecodeReply>, initialGotFrame: bool): Run
    requires eofStreamIndex == streamIdx ==> EventuallyStops(drain)
  {
    var rd := ReadLoop(packets, streamIdx, initialGotFrame);
    if rd.failed then Run(rd.frames, [], DecodeError)
    else if eofStreamIndex != streamIdx then
      // decode_packet does nothing, so do ... while (got_frame) tests a stale value.
      Run(rd.frames, [], if rd.gotFrame then Spins else Demuxed)
    else
      var dr := DrainLoop(drain);
      Run(rd.frames, dr.frames, if dr.failed then DecodeError else Demuxed)
  }

  /** Concatenation of frame buffers, as successive fwrite calls leave them in the file. */
  function Flatten(frames: seq<seq<byte>>): seq<byte>
    decreases |frames|
  {
    if frames == [] then [] else frames[0] + Flatten(frames[1..])
  }

  /** The packets of one stream, in read order. */
  function OnStream(packets: seq<PacketRead>, streamIdx: int): (r: seq<PacketRead>)
    decreases |packets|
  {
    if packets == [] then []
    else (if packets[0].packet.streamIndex == streamIdx then [packets[0]] else []) + OnStream(packets[1..], streamIdx)
  }

  /** The notes printed for n frames numbered from first on, all fresh or all cached. */
  function Notes(first: int, n: nat, cached: bool): (r: seq<FrameNote>)
    ensures |r| == n
    ensures forall k :: 0 <= k < n ==> r[k] == FrameNote(first + k, cached)
    decreases n
  {
    if n == 0 then [] else Notes(first, n - 1, cached) + [FrameNote(first + n - 1, cached)]
  }

  /** n references to the same buffer. */
  function Repeat(b: array<byte>, n: nat): (r: seq<array<byte>>)
    ensures |r| == n && forall k :: 0 <= k < n ==> r[k] == b
  {
    seq(n, _ => b)
  }

  /**
   * The destination buffer's bytes once each picture of `frames` has been copied
   * into it in turn, starting from `before`: the last one, if any.
   */
  function LastPicture(frames: seq<seq<byte>>, before: seq<byte>): seq<byte>
  {
    if frames == [] then before else frames[|frames| - 1]
  }

  /** Copying the pictures of a then those of b leaves what copying a + b leaves. */
  lemma LastPictureAppend(a: seq<seq<byte>>, b: seq<seq<byte>>, before: seq<byte>)
    ensures LastPicture(a + b, before) == LastPicture(b, LastPicture(a, before))
  {
    if b == [] {
      assert a + b == a;
    } else {
      assert (a + b)[|a + b| - 1] == b[|b| - 1];
    }
  }

  // ---------------------------------------------------------------------------
  // Properties of the decode loops
  // ---------------------------------------------------------------------------

  /** n buffers of `size` bytes each make n * size bytes of output. */
  lemma {:induction false} FlattenLength(frames: seq<seq<byte>>, size: int)
    requires forall k :: 0 <= k < |frames| ==> |frames[k]| == size
    ensures |Flatten(frames)| == |frames| * size
    decreases |frames|
  {
    if frames != [] {
      FlattenLength(frames[1..], size);
      assert |frames| * size == size + (|frames| - 1) * size;
    }
  }

  lemma {:induction false} FlattenAppend(a: seq<seq<byte>>, b: seq<seq<byte>>)
    ensures Flatten(a + b) == Flatten(a) + Flatten(b)
    decreases |a|
  {
    if a == [] {
      assert a + b == b;
    } else {
      assert (a + b)[0] == a[0] && (a + b)[1..] == a[1..] + b;
      FlattenAppend(a[1..], b);
    }
  }

  lemma FlattenSnoc(a: seq<seq<byte>>, b: seq<byte>)
    ensures Flatten(a + [b]) == Flatten(a) + b
  {
    FlattenAppend(a, [b]);
    assert [b][1..] == [];
  }

  /** Recording one more emitted frame extends the output, _img and the notes by that frame. */
  lemma RecordFrame(frames: seq<seq<byte>>, pic: seq<byte>, buf: array<byte>, first: int, cached: bool,
                    output0: seq<byte>, img0: seq<array<byte>>, log0: seq<FrameNote>)
    ensures output0 + Flatten(frames) + pic == output0 + Flatten(frames + [pic])
    ensures img0 + Repeat(buf, |frames|) + [buf] == img0 + Repeat(buf, |frames + [pic]|)
    ensures log0 + Notes(first, |frames|, cached) + [FrameNote(first + |frames|, cached)]
              == log0 + Notes(first, |frames + [pic]|, cached)
  {
    FlattenSnoc(frames, pic);
    assert Repeat(buf, |frames|) + [buf] == Repeat(buf, |frames| + 1);
  }

  /** The frames of the reading loop followed by those of the drain loop, as recorded one after the other. */
  lemma CombineRuns(read: seq<seq<byte>>, cached: seq<seq<byte>>, buf: array<byte>, first: int,
                    output0: seq<byte>, img0: seq<array<byte>>, log0: seq<FrameNote>)
    ensures output0 + Flatten(read) + Flatten(cached) == output0 + Flatten(read + cached)
    ensures img0 + Repeat(buf, |read|) + Repeat(buf, |cached|) == img0 + Repeat(buf, |read| + |cached|)
  {
    FlattenAppend(read, cached);
    RepeatAppend(buf, |read|, |cached|);
    AppendAssoc(output0, Flatten(read), Flatten(cached));
    AppendAssoc(img0, Repeat(buf, |read|), Repeat(buf, |cached|));
  }

  lemma AppendAssoc<T>(a: seq<T>, b: seq<T>, c: seq<T>)
    ensures a + b + c == a + (b + c)
  {
  }

  lemma RepeatAppend(b: array<byte>, m: nat, n: nat)
    ensures Repeat(b, m + n) == Repeat(b, m) + Repeat(b, n)
  {
    var l, r := Repeat(b, m + n), Repeat(b, m) + Repeat(b, n);
    forall k | 0 <= k < m + n
      ensures l[k] == r[k]
    {
      if k >= m {
        assert r[k] == Repeat(b, n)[k - m];
      }
    }
  }

  /**
   * A run that drains nothing records only the frames of the reading loop. These
   * sequence identities are stated apart so that decode's proof stays small.
   */
  lemma EmptyDrain(read: seq<seq<byte>>, buf: array<byte>, first: int,
                   output0: seq<byte>, img0: seq<array<byte>>, log0: seq<FrameNote>)
    ensures read + [] == read
    ensures output0 + Flatten(read) == output0 + Flatten(read + [])
    ensures img0 + Repeat(buf, |read|) == img0 + Repeat(buf, |read| + 0)
    ensures log0 + Notes(first, |read|, false) == log0 + Notes(first, |read|, false) + Notes(first + |read|, 0, true)
  {
    assert read + [] == read;
    var notes := log0 + Notes(first, |read|, false);
    assert Notes(first + |read|, 0, true) == [];
    assert notes + [] == notes;
  }

  /** The reading loop has emitted `read` and is left with packets n.. and got_frame `gotFrame`. */
  ghost predicate ReadSoFar(packets: seq<PacketRead>, n: nat, streamIdx: int, gotFrame0: bool, gotFrame: bool,
                            read: seq<seq<byte>>)
    requires n <= |packets|
  {
    var rest := ReadLoop(packets[n..], streamIdx, gotFrame);
    ReadLoop(packets, streamIdx, gotFrame0) == rest.(frames := read + rest.frames)
  }

  /** One pass of the reading loop, case by case, as the loop's invariant needs it. */
  lemma ReadLoopStep(packets: seq<PacketRead>, n: nat, streamIdx: int, gotFrame0: bool, gotFrame: bool,
                     read: seq<seq<byte>>)
    requires n < |packets| && ReadSoFar(packets, n, streamIdx, gotFrame0, gotFrame, read)
    ensures var p := packets[n];
      && (p.packet.streamIndex != streamIdx ==> ReadSoFar(packets, n + 1, streamIdx, gotFrame0, gotFrame, read))
      && (p.packet.streamIndex == streamIdx && p.reply.len < 0 ==>
            ReadLoop(packets, streamIdx, gotFrame0) == Phase(read, true, p.reply.gotFrame))
      && (p.packet.streamIndex == streamIdx && p.reply.len >= 0 && !p.reply.gotFrame ==>
            ReadSoFar(packets, n + 1, streamIdx, gotFrame0, false, read))
      && (p.packet.streamIndex == streamIdx && p.reply.len >= 0 && p.reply.gotFrame ==>
            ReadSoFar(packets, n + 1, streamIdx, gotFrame0, true, read + [p.reply.picture]))
  {
    assert packets[n..][0] == packets[n] && packets[n..][1..] == packets[n + 1..];
    var p := packets[n];
    if p.packet.streamIndex == streamIdx && p.reply.len >= 0 && p.reply.gotFrame {
      var rest := ReadLoop(packets[n + 1..], streamIdx, true);
      assert read + ([p.reply.picture] + rest.frames) == (read + [p.reply.picture]) + rest.frames;
    } else if p.packet.streamIndex == streamIdx && p.reply.len < 0 {
      assert read + [] == read;
    } else if p.packet.streamIndex == streamIdx {
      var rest := ReadLoop(packets[n + 1..], streamIdx, false);
      assert [] + rest.frames == rest.frames;
    }
  }

  /** One pass of the drain loop, as the loop's invariant needs it. */
  lemma DrainStep(drain: seq<DecodeReply>, j: nat, cached: seq<seq<byte>>)
    requires j <= |drain| && EventuallyStops(drain) && EventuallyStops(drain[j..])
    requires var rest := DrainLoop(drain[j..]);
      DrainLoop(drain) == rest.(frames := cached + rest.frames)
    ensures j < |drain|
    ensures var rep := drain[j];
      && (rep.len < 0 ==> DrainLoop(drain) == Phase(cached, true, rep.gotFrame))
      && (rep.len >= 0 && !rep.gotFrame ==> DrainLoop(drain) == Phase(cached, false, false))
      && (rep.len >= 0 && rep.gotFrame ==>
            EventuallyStops(drain[j + 1..]) &&
            var rest := DrainLoop(drain[j + 1..]);
            DrainLoop(drain) == rest.(frames := (cached + [rep.picture]) + rest.frames))
  {
    assert drain[j..][0] == drain[j] && drain[j..][1..] == drain[j + 1..];
    var rep := drain[j];
    if rep.len >= 0 && rep.gotFrame {
      var rest := DrainLoop(drain[j + 1..]);
      assert cached + ([rep.picture] + rest.frames) == (cached + [rep.picture]) + rest.frames;
    } else {
      assert cached + [] == cached;
    }
  }

  /** Packets of other streams have no effect on the reading loop: it is the loop over the selected stream's packets. */
  lemma {:induction false} ReadLoopOnStream(packets: seq<PacketRead>, streamIdx: int, gotFrame: bool)
    ensures ReadLoop(packets, streamIdx, gotFrame) == ReadLoop(OnStream(packets, streamIdx), streamIdx, gotFrame)
    decreases |packets|
  {
    if packets != [] {
      var rest := OnStream(packets[1..], streamIdx);
      if packets[0].packet.streamIndex == streamIdx {
        assert OnStream(packets, streamIdx) == [packets[0]] + rest;
        assert ([packets[0]] + rest)[1..] == rest;
        ReadLoopOnStream(packets[1..], streamIdx, packets[0].reply.gotFrame);
      } else {
        assert OnStream(packets, streamIdx) == rest;
        ReadLoopOnStream(packets[1..], streamIdx, gotFrame);
      }
    }
  }

  /** A packet yields at most one frame: the reading loop emits no more frames than the stream has packets. */
  lemma {:induction false} ReadLoopAtMostOneFramePerPacket(packets: seq<PacketRead>, streamIdx: int, gotFrame: bool)
    ensures |ReadLoop(packets, streamIdx, gotFrame).frames| <= |OnStream(packets, streamIdx)|
    decreases |packets|
  {
    if packets != [] {
      ReadLoopAtMostOneFramePerPacket(packets[1..], streamIdx, if packets[0].packet.streamIndex == streamIdx then packets[0].reply.gotFrame else gotFrame);
    }
  }

  /**
   * The drain loop emits the frames of the replies before the first one that
   * stops it, which is the first drain call without a frame (or an error).
   */
  lemma {:induction false} DrainLoopStopsAtFirstStop(replies: seq<DecodeReply>, j: nat)
    requires j < |replies| && Stops(replies[j])
    requires forall k :: 0 <= k < j ==> !Stops(replies[k])
    ensures EventuallyStops(replies)
    ensures DrainLoop(replies).frames == seq(j, k requires 0 <= k < j => replies[k].picture)
    ensures DrainLoop(replies).failed == (replies[j].len < 0)
    decreases j
  {
    if j > 0 {
      DrainLoopStopsAtFirstStop(replies[1..], j - 1);
      assert forall k :: 0 <= k < j - 1 ==> replies[1..][k] == replies[k + 1];
    }
  }

  /** Draining a decoder that holds no frame ends after one call, with nothing emitted. */
  lemma DrainEmptyDecoder(replies: seq<DecodeReply>)
    requires |replies| > 0 && replies[0].len >= 0 && !replies[0].gotFrame
    ensures EventuallyStops(replies) && DrainLoop(replies) == Phase([], false, false)
  {
  }

  /** No packet of the selected stream makes the decoder report an error. */
  predicate DecodesCleanly(packets: seq<PacketRead>, streamIdx: int)
  {
    forall k :: 0 <= k < |packets| && packets[k].packet.streamIndex == streamIdx ==> packets[k].reply.len >= 0
  }

  /** got_frame as the last decoder call over `calls` left it, starting from `g`. */
  function LastGot(calls: seq<PacketRead>, g: bool): bool
  {
    if calls == [] then g else calls[|calls| - 1].reply.gotFrame
  }

  /**
   * The reading loop fails exactly when a packet of the selected stream makes the
   * decoder report an error; otherwise it leaves got_frame as the last packet of
   * that stream set it, or as it was when no such packet was read.
   */
  /** DecodesCleanly, one packet at a time. */
  lemma DecodesCleanlyCons(packets: seq<PacketRead>, streamIdx: int)
    requires packets != []
    ensures DecodesCleanly(packets, streamIdx) <==>
              (packets[0].packet.streamIndex == streamIdx ==> packets[0].reply.len >= 0) &&
              DecodesCleanly(packets[1..], streamIdx)
  {
    var tail := packets[1..];
    if (packets[0].packet.streamIndex == streamIdx ==> packets[0].reply.len >= 0) && DecodesCleanly(tail, streamIdx) {
      forall k | 0 <= k < |packets| && packets[k].packet.streamIndex == streamIdx
        ensures packets[k].reply.len >= 0
      {
        if k > 0 {
          assert packets[k] == tail[k - 1];
        }
      }
    }
    if DecodesCleanly(packets, streamIdx) {
      forall k | 0 <= k < |tail| && tail[k].packet.streamIndex == streamIdx
        ensures tail[k].reply.len >= 0
      {
        assert tail[k] == packets[k + 1];
      }
    }
  }

  /** A call in front of further calls decides got_frame only if no further call follows. */
  lemma LastGotCons(call: PacketRead, rest: seq<PacketRead>, g: bool)
    ensures LastGot([call] + rest, g) == LastGot(rest, call.reply.gotFrame)
  {
    if rest != [] {
      assert ([call] + rest)[|[call] + rest| - 1] == rest[|rest| - 1];
    }
  }

  /**
   * The reading loop fails exactly when a packet of the selected stream makes the
   * decoder report an error; otherwise it leaves got_frame as the last packet of
   * that stream set it, or as it was when no such packet was read.
   */
  lemma {:induction false} ReadLoopOutcome(packets: seq<PacketRead>, streamIdx: int, gotFrame: bool)
    ensures ReadLoop(packets, streamIdx, gotFrame).failed <==> !DecodesCleanly(packets, streamIdx)
    ensures DecodesCleanly(packets, streamIdx) ==>
              ReadLoop(packets, streamIdx, gotFrame).gotFrame == LastGot(OnStream(packets, streamIdx), gotFrame)
    decreases |packets|
  {
    if packets != [] {
      var p := packets[0];
      DecodesCleanlyCons(packets, streamIdx);
      if p.packet.streamIndex != streamIdx {
        ReadLoopOutcome(packets[1..], streamIdx, gotFrame);
        assert OnStream(packets, streamIdx) == [] + OnStream(packets[1..], streamIdx);
      } else if p.reply.len >= 0 {
        ReadLoopOutcome(packets[1..], streamIdx, p.reply.gotFrame);
        LastGotCons(p, OnStream(packets[1..], streamIdx), gotFrame);
      }
    }
  }

  /**
   * When the leftover packet is on another stream the drain loop never calls the
   * decoder, so nothing is drained. Unless a packet failed to decode, decode then
   * ends at once if the last packet read on the selected stream gave no frame,
   * and never ends if it gave one; with no such packet, the initial got_frame
   * decides.
   */
  lemma DrainNotFed(packets: seq<PacketRead>, streamIdx: int, eofStreamIndex: int,
                    drain: seq<DecodeReply>, initialGotFrame: bool)
    requires eofStreamIndex != streamIdx
    ensures var run := DecodeRun(packets, streamIdx, eofStreamIndex, drain, initialGotFrame);
      && run.cached == []
      && run.end == (if !DecodesCleanly(packets, streamIdx) then DecodeError
                     else if LastGot(OnStream(packets, streamIdx), initialGotFrame) then Spins
                     else Demuxed)
  {
    ReadLoopOutcome(packets, streamIdx, initialGotFrame);
  }

  // ---------------------------------------------------------------------------
  // The FileDeflicker object
  // ---------------------------------------------------------------------------

  /**
   * The fields of FileDeflicker that decoding packets or updates. Native handles
   * are represented by whether they are open; _dst_data[0] is an array, _img the
   * pointers pushed to it, and the destination file the bytes written to it.
   */
  class FileDeflicker {
    const srcFilename: string
    const dstFilename: string
    var inputOpen: bool      // _fmt_ctx != nullptr
    var decoderOpen: bool    // _dec_ctx != nullptr, opened
    var hasStream: bool      // _stream != nullptr
    var hasFrame: bool       // _frame != nullptr
    var dstFileOpen: bool    // _dst_file != nullptr
    var pkt: Packet
    var dstData: array?<byte>
    var img: seq<array<byte>>
    var output: seq<byte>
    var log: seq<FrameNote>
    var dstBufsize: int
    var streamIdx: int
    var frameCount: int

    /**
     * Every emitted frame has been counted, printed with its number, appended
     * to _img as the one destination buffer, and written as _dst_bufsize bytes.
     */
    ghost predicate Valid()
      reads this`dstData, this`dstBufsize, this`frameCount, this`img, this`output, this`log
    {
      0 <= dstBufsize &&
      (dstData != null ==> dstData.Length == dstBufsize) &&
      frameCount == |img| == |log| &&
      |output| == frameCount * dstBufsize &&
      (forall k :: 0 <= k < |log| ==> log[k].index == k) &&
      (forall k :: 0 <= k < |img| ==> img[k] == dstData)
    }

    /** The constructor: no frames, no stream selected, a zero-sized buffer and null handles. */
    constructor (srcFilename: string, dstFilename: string)
      ensures Valid()
      ensures this.srcFilename == srcFilename && this.dstFilename == dstFilename
      ensures frameCount == 0 && streamIdx == -1 && dstBufsize == 0
      ensures !inputOpen && !decoderOpen && !hasStream && !hasFrame && !dstFileOpen && dstData == null
      ensures img == [] && output == [] && log == []
    {
      this.srcFilename, this.dstFilename := srcFilename, dstFilename;
      inputOpen, decoderOpen, hasStream, hasFrame, dstFileOpen := false, false, false, false, false;
      pkt := Packet(0, []);
      dstData := null;
      img, output, log := [], [], [];
      dstBufsize, streamIdx, frameCount := 0, -1, 0;
    }

    /**
     * open_codec_context: `bestStream` is what av_find_best_stream returns,
     * `decoderFound` whether avcodec_find_decoder finds one and `openRet` what
     * avcodec_open2 returns. The stream index is stored before the decoder checks.
     */
    method OpenCodecContext(bestStream: int, decoderFound: bool, openRet: int) returns (r: Outcome<DeflickerError>)
      modifies this`streamIdx, this`decoderOpen
      ensures r == (if bestStream < 0 then Fail(StreamNotFound)
                    else if !decoderFound then Fail(DecoderNotFound)
                    else if openRet < 0 then Fail(DecoderOpenFailed)
                    else Pass)
      ensures streamIdx == (if bestStream < 0 then old(streamIdx) else bestStream)
      ensures decoderOpen == (old(decoderOpen) || r.Pass?)
    {
      if bestStream < 0 {
        return Fail(StreamNotFound);
      }
      streamIdx := bestStream;
      if !decoderFound {
        return Fail(DecoderNotFound);
      }
      if openRet < 0 {
        return Fail(DecoderOpenFailed);
      }
      decoderOpen := true;
      r := Pass;
    }

    /**
     * init, on a freshly constructed object: open the input, select a video
     * stream and its decoder, open the destination file and allocate the packed
     * destination buffer, whose size av_image_alloc returns.
     */
    method Init(inputOpens: bool, streamInfoFound: bool, bestStream: int, decoderFound: bool, openRet: int,
                dstFileOpens: bool, imageAllocRet: int, frameAllocated: bool) returns (r: Outcome<DeflickerError>)
      requires Valid() && frameCount == 0
      modifies this
      ensures Valid() && frameCount == 0 && img == [] && output == [] && log == []
      ensures r.Pass? <==> inputOpens && streamInfoFound && bestStream >= 0 && decoderFound && openRet >= 0 &&
                           dstFileOpens && imageAllocRet >= 0 && frameAllocated
      ensures r == (if !inputOpens then Fail(SourceOpenFailed)
                    else if !streamInfoFound then Fail(StreamInfoMissing)
                    else if bestStream < 0 then Fail(StreamNotFound)
                    else if !decoderFound then Fail(DecoderNotFound)
                    else if openRet < 0 then Fail(DecoderOpenFailed)
                    else if !dstFileOpens then Fail(DestinationOpenFailed)
                    else if imageAllocRet < 0 then Fail(RawBufferAllocFailed)
                    else if !frameAllocated then Fail(FrameAllocFailed)
                    else Pass)
      ensures !(inputOpens && streamInfoFound && bestStream >= 0 && decoderFound && openRet >= 0) ==>
                dstFileOpen == old(dstFileOpen) && dstData == old(dstData)
      ensures r.Pass? ==>
                && inputOpen && streamIdx == bestStream && dstBufsize == imageAllocRet && fresh(dstData)
                && hasStream && decoderOpen && hasFrame && dstFileOpen && pkt.data == []
    {
      if !inputOpens {
        return Fail(SourceOpenFailed);
      }
      inputOpen := true;
      if !streamInfoFound {
        return Fail(StreamInfoMissing);
      }
      r := OpenCodecContext(bestStream, decoderFound, openRet);
      if r.Fail? {
        return;
      }
      hasStream := true;
      dstFileOpen := dstFileOpens;
      if !dstFileOpens {
        return Fail(DestinationOpenFailed);
      }
      if imageAllocRet < 0 {
        return Fail(RawBufferAllocFailed);
      }
      dstData := new byte[imageAllocRet];
      dstBufsize := imageAllocRet;
      // The "no stream" check cannot fail here: a stream was selected above.
      hasFrame := frameAllocated;
      if !frameAllocated {
        return Fail(FrameAllocFailed);
      }
      pkt := pkt.(data := []);
      r := Pass;
    }

    /**
     * decode_packet, for the packet in _pkt. `reply` is what the decoder answers
     * if it is called; `gotFrame` is the caller's got_frame, which is written
     * only when the packet is on the selected stream.
     */
    method DecodePacket(gotFrame: bool, cached: bool, reply: DecodeReply) returns (got: bool, r: Outcome<DeflickerError>)
      requires Valid() && dstData != null && |reply.picture| == dstBufsize
      modifies this`frameCount, this`img, this`output, this`log, dstData
      ensures Valid()
      ensures pkt.streamIndex != streamIdx ==> got == gotFrame && r.Pass?
      ensures pkt.streamIndex == streamIdx ==> got == reply.gotFrame
      ensures pkt.streamIndex == streamIdx && reply.len < 0 ==> r == Fail(DecodeFailed)
      ensures pkt.streamIndex == streamIdx && reply.len >= 0 ==> r.Pass?
      ensures pkt.streamIndex == streamIdx && reply.len >= 0 && reply.gotFrame ==>
                && frameCount == old(frameCount) + 1
                && log == old(log) + [FrameNote(old(frameCount), cached)]
                && img == old(img) + [dstData]
                && output == old(output) + reply.picture
                && dstData[..] == reply.picture
      ensures !(pkt.streamIndex == streamIdx && reply.len >= 0 && reply.gotFrame) ==>
                frameCount == old(frameCount) && log == old(log) && img == old(img) && output == old(output) &&
                dstData[..] == old(dstData[..])
    {
      got := gotFrame;
      r := Pass;
      if pkt.streamIndex == streamIdx {
        got := reply.gotFrame;
        if reply.len < 0 {
          return got, Fail(DecodeFailed);
        }
        if got {
          log := log + [FrameNote(frameCount, cached)];
          frameCount := frameCount + 1;
          // av_image_copy into the packed destination buffer
          forall k | 0 <= k < dstData.Length {
            dstData[k] := reply.picture[k];
          }
          output := output + dstData[..dstBufsize];
          img := img + [dstData];
        }
      }
    }
  
    /**
     * decode: feed every packet read to decode_packet, then drain the decoder
     * with an empty packet (printed "(cached)") until a drain call reports no
     * frame. `packets` are the packets av_read_frame delivers before it fails,
     * `eofStreamIndex` the stream index _pkt holds after that failure, `drain`
     * the decoder's replies to the drain calls and `initialGotFrame` the value
     * of the uninitialised got_frame.
     */
    method Decode(packets: seq<PacketRead>, eofStreamIndex: int, drain: seq<DecodeReply>, initialGotFrame: bool)
      returns (end: DecodeEnd)
      requires Valid() && dstData != null
      requires forall k :: 0 <= k < |packets| ==> |packets[k].reply.picture| == dstBufsize
      requires forall k :: 0 <= k < |drain| ==> |drain[k].picture| == dstBufsize
      requires eofStreamIndex == streamIdx ==> EventuallyStops(drain)
      modifies this`pkt, this`frameCount, this`img, this`output, this`log, dstData
      ensures Valid()
      ensures var run := DecodeRun(packets, streamIdx, eofStreamIndex, drain, initialGotFrame);
        && end == run.end
        && frameCount == old(frameCount) + |run.read| + |run.cached|
        && output == old(output) + Flatten(run.read + run.cached)
        && img == old(img) + Repeat(dstData, |run.read| + |run.cached|)
        && log == old(log) + Notes(old(frameCount), |run.read|, false)
                           + Notes(old(frameCount) + |run.read|, |run.cached|, true)
        && dstData[..] == LastPicture(run.read + run.cached, old(dstData[..]))
      ensures !ReadLoop(packets, streamIdx, initialGotFrame).failed ==> pkt == Packet(eofStreamIndex, [])
    {
      var gotFrame, failed, read := ReadPackets(packets, initialGotFrame);
      if failed {
        EmptyDrain(read, dstData, old(frameCount), old(output), old(img), old(log));
        return DecodeError;
      }
      // flush cached frames
      pkt := Packet(eofStreamIndex, []);
      if pkt.streamIndex != streamIdx {
        // Each decode_packet call returns at once and leaves got_frame as it was:
        // the do ... while loop ends after one pass if it is clear, and never if it is set.
        EmptyDrain(read, dstData, old(frameCount), old(output), old(img), old(log));
        return if gotFrame then Spins else Demuxed;
      }
      ghost var cached;
      failed, cached := DrainDecoder(drain);
      CombineRuns(read, cached, dstData, old(frameCount), old(output), old(img), old(log));
      LastPictureAppend(read, cached, old(dstData[..]));
      end := if failed then DecodeError else Demuxed;
    }

    /** The while (av_read_frame ...) loop of decode. */
    method ReadPackets(packets: seq<PacketRead>, gotFrame0: bool)
      returns (gotFrame: bool, failed: bool, ghost read: seq<seq<byte>>)
      requires Valid() && dstData != null
      requires forall k :: 0 <= k < |packets| ==> |packets[k].reply.picture| == dstBufsize
      modifies this`pkt, this`frameCount, this`img, this`output, this`log, dstData
      ensures Valid()
      ensures ReadLoop(packets, streamIdx, gotFrame0) == Phase(read, failed, gotFrame)
      ensures frameCount == old(frameCount) + |read|
      ensures output == old(output) + Flatten(read)
      ensures img == old(img) + Repeat(dstData, |read|)
      ensures log == old(log) + Notes(old(frameCount), |read|, false)
      ensures dstData[..] == LastPicture(read, old(dstData[..]))
    {
      gotFrame := gotFrame0;
      read := [];
      var r: Outcome<DeflickerError>;
      var n := 0;
      while n < |packets|
        invariant 0 <= n <= |packets|
        invariant Valid()
        invariant ReadSoFar(packets, n, streamIdx, gotFrame0, gotFrame, read)
        invariant frameCount == old(frameCount) + |read|
        invariant output == old(output) + Flatten(read)
        invariant img == old(img) + Repeat(dstData, |read|)
        invariant log == old(log) + Notes(old(frameCount), |read|, false)
        invariant dstData[..] == LastPicture(read, old(dstData[..]))
      {
        pkt := packets[n].packet;
        ReadLoopStep(packets, n, streamIdx, gotFrame0, gotFrame, read);
        ghost var emits := pkt.streamIndex == streamIdx && packets[n].reply.len >= 0 && packets[n].reply.gotFrame;
        gotFrame, r := DecodePacket(gotFrame, false, packets[n].reply);
        if r.Fail? {
          return gotFrame, true, read;
        }
        assert emits <==> pkt.streamIndex == streamIdx && gotFrame;
        if emits {
          RecordFrame(read, packets[n].reply.picture, dstData, old(frameCount), false, old(output), old(img), old(log));
          read := read + [packets[n].reply.picture];
        }
        pkt := pkt.(data := []);  // av_free_packet
        n := n + 1;
      }
      assert read + [] == read;
      failed := false;
    }

    /** The do { decode_packet(&got_frame, 1) } while (got_frame) loop of decode, on the selected stream. */
    method DrainDecoder(drain: seq<DecodeReply>) returns (failed: bool, ghost cached: seq<seq<byte>>)
      requires Valid() && dstData != null && pkt.streamIndex == streamIdx && EventuallyStops(drain)
      requires forall k :: 0 <= k < |drain| ==> |drain[k].picture| == dstBufsize
      modifies this`frameCount, this`img, this`output, this`log, dstData
      ensures Valid()
      ensures DrainLoop(drain).frames == cached && DrainLoop(drain).failed == failed
      ensures frameCount == old(frameCount) + |cached|
      ensures output == old(output) + Flatten(cached)
      ensures img == old(img) + Repeat(dstData, |cached|)
      ensures log == old(log) + Notes(old(frameCount), |cached|, true)
      ensures dstData[..] == LastPicture(cached, old(dstData[..]))
    {
      var gotFrame: bool;
      var r: Outcome<DeflickerError>;
      cached := [];
      var j := 0;
      while true
        invariant 0 <= j <= |drain| && EventuallyStops(drain[j..])
        invariant Valid()
        invariant var rest := DrainLoop(drain[j..]);
          DrainLoop(drain) == rest.(frames := cached + rest.frames)
        invariant frameCount == old(frameCount) + |cached|
        invariant output == old(output) + Flatten(cached)
        invariant img == old(img) + Repeat(dstData, |cached|)
        invariant log == old(log) + Notes(old(frameCount), |cached|, true)
        invariant dstData[..] == LastPicture(cached, old(dstData[..]))
        decreases |drain| - j
      {
        DrainStep(drain, j, cached);
        gotFrame, r := DecodePacket(true, true, drain[j]);
        if r.Fail? {
          assert cached + [] == cached;
          return true, cached;
        }
        if !gotFrame {
          assert cached + [] == cached;
          return false, cached;
        }
        RecordFrame(cached, drain[j].picture, dstData, old(frameCount), true, old(output), old(img), old(log));
        cached := cached + [drain[j].picture];
        j := j + 1;
      }
    }
  }

  // ---------------------------------------------------------------------------
  // Raw PCM format names (get_format_from_sample_fmt)
  // ---------------------------------------------------------------------------

  /** A row of the sample-format table: the format and its big- and little-endian names. */
  datatype SampleFmtEntry = SampleFmtEntry(sampleFmt: SampleFormat, fmtBe: string, fmtLe: string)

  const SampleFmtEntries: seq<SampleFmtEntry> := [
    SampleFmtEntry(U8, "u8", "u8"),
    SampleFmtEntry(S16, "s16be", "s16le"),
    SampleFmtEntry(S32, "s32be", "s32le"),
    SampleFmtEntry(Flt, "f32be", "f32le"),
    SampleFmtEntry(Dbl, "f64be", "f64le")
  ]

  /**
   * The raw PCM format name of a sample format on a host of the given byte
   * order, stated format by format; None for a format without one.
   */
  function PcmFormatName(f: SampleFormat, bigEndian: bool): Option<string>
  {
    match f
    case U8 => Some("u8")
    case S16 => Some(if bigEndian then "s16be" else "s16le")
    case S32 => Some(if bigEndian then "s32be" else "s32le")
    case Flt => Some(if bigEndian then "f32be" else "f32le")
    case Dbl => Some(if bigEndian then "f64be" else "f64le")
    case _ => None
  }

  /**
   * get_format_from_sample_fmt: clears *fmt, searches the table and picks the
   * name for the native byte order (AV_NE); throws for a format not in the table.
   * The exception's message is not modelled, nor the case of AV_SAMPLE_FMT_NONE,
   * whose missing name makes building that message undefined behaviour.
   */
  method GetFormatFromSampleFmt(sampleFmt: SampleFormat, bigEndian: bool)
    returns (fmt: Option<string>, r: Outcome<DeflickerError>)
    ensures fmt == PcmFormatName(sampleFmt, bigEndian)
    ensures r == if fmt.Some? then Pass else Fail(UnsupportedSampleFormat(sampleFmt))
  {
    fmt := None;
    var i := 0;
    while i < |SampleFmtEntries|
      invariant 0 <= i <= |SampleFmtEntries|
      invariant forall k :: 0 <= k < i ==> SampleFmtEntries[k].sampleFmt != sampleFmt
    {
      var entry := SampleFmtEntries[i];
      if sampleFmt == entry.sampleFmt {
        // Case split over the table's rows, so the solver relates the entry to PcmFormatName.
        assert i == 0 || i == 1 || i == 2 || i == 3 || i == 4;
        fmt := Some(if bigEndian then entry.fmtBe else entry.fmtLe);
        return fmt, Pass;
      }
      i := i + 1;
    }
    // Every row was missed: spelled out row by row for the solver.
    assert SampleFmtEntries[0].sampleFmt != sampleFmt && SampleFmtEntries[1].sampleFmt != sampleFmt;
    assert SampleFmtEntries[2].sampleFmt != sampleFmt && SampleFmtEntries[3].sampleFmt != sampleFmt;
    assert SampleFmtEntries[4].sampleFmt != sampleFmt;
    r := Fail(UnsupportedSampleFormat(sampleFmt));
  }
}
