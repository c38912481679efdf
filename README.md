# Synthetic-video muxer and decode driver, modelled in Dafny

This project models the two pieces of logic in the repository that are more
than glue around libav:

* **The muxing example** (`video_muxing/video_muxing.cpp`), in module `VideoMuxing`:
  * how `add_stream` configures a new stream's codec context, by media type and codec id;
  * how `fill_yuv_image` paints frame `i`'s test pattern into the three strided planes of a YUV 4:2:0 picture;
  * the static frame counter of `write_video_frame`, and its rule that no picture is repainted after
    `STREAM_NB_FRAMES` (200 × 25 = 5000) frames;
  * the `frame->pts` stepping of the main loop.
* **The demux/decode driver** `FileDeflicker` (`filedeflicker/filedeflicker.cpp`), in module `Deflicker`:
  * the object's initial state;
  * `init` and `open_codec_context`: opening the input, choosing the stream, opening the decoder;
  * `decode_packet` and the two loops of `decode`: reading packets, then draining the decoder's
    cached frames;
  * `get_format_from_sample_fmt`, a table lookup.
* Module `Base` holds the shared value types: `Option`, `Result`, `Outcome`, `byte` and the
  sample-format enumeration.

**How libav is represented.** Every libav call is replaced by the answer it gives. That answer is
a parameter of the model:
* whether an encoder or decoder is found;
* the stream index `av_find_best_stream` returns;
* the buffer size `av_image_alloc` returns;
* for each packet, the reply of `avcodec_decode_video2` (length, got-frame flag, and the picture
  as `av_image_copy` lays it out);
* whether a frame write succeeds.

**How state is represented.**
* `fill_yuv_image` works in place on three `array<byte>` planes. Its loops carry `Painted`
  invariants:
  * bytes inside the painted area hold the pattern;
  * every other byte keeps its old value.
* The muxer's static variables form the `VideoOutput` class.
* `FileDeflicker` is a class:
  * the destination buffer is an array;
  * `_img` is a sequence of references to that same buffer;
  * the output file is the sequence of bytes written to it;
  * the printed "video_frame:" lines are a sequence of `FrameNote`s.

**What the decode proofs say.**
* `Decode` is proved against `DecodeRun`, a function of the libav answers.
* The class invariant `Valid` keeps the driver's bookkeeping in step: `_frame_count`, the number
  of printed notes (numbered 0, 1, 2, …) and `|_img|` are equal, and the output holds exactly
  `_frame_count × _dst_bufsize` bytes.

**The leftover stream index.** Once `av_read_frame` fails, the drain loop's behaviour depends on
the stream index left in `_pkt`, which is not known.
* The model takes that index as a parameter (`eofStreamIndex`).
* If it differs from the selected stream, `decode_packet` never writes `got_frame`. The
  `do … while (got_frame)` loop then tests a stale value: it ends after one pass when the value is
  clear, and never ends when it is set. The model states this as the outcome `Spins`.
* If the index matches, decode requires that the decoder eventually answers a drain call with no
  frame or an error (`EventuallyStops`).
* `got_frame` is uninitialised in the source; its initial value is the parameter `initialGotFrame`.

**Where comment and code disagree.** The comment above `STREAM_DURATION` says "5 seconds", but
the constant is 200.0. The model follows the code: 200 seconds, 5000 frames.

## Model

| member | source | states |
|---|---|---|
| VideoMuxing.AddStream | video_muxing/video_muxing.cpp:48-106 | Fails exactly when no encoder is found or the stream cannot be allocated; a missing encoder gives the encoder error, and a failed stream allocation after a found encoder the allocation error |
| VideoMuxing.AddStreamVideo | video_muxing/video_muxing.cpp:64-87 | A video stream gets id nb_streams-1 (the old stream count), the codec id asked for, 400000 b/s, 352x288, time base 1/25, GOP 12 and YUV420P; the audio fields keep their values |
| VideoMuxing.AddStreamAudio | video_muxing/video_muxing.cpp:67-73 | An audio stream gets id 1, S16 samples, 64000 b/s, 44100 Hz and 2 channels; the video fields keep their values |
| VideoMuxing.AddStreamOtherMedia | video_muxing/video_muxing.cpp:99-101 | A stream of any other media type keeps every codec field except the flags |
| VideoMuxing.AddStreamMpegTuning | video_muxing/video_muxing.cpp:88-97 | max_b_frames becomes 2 only for MPEG-2 video and mb_decision becomes 2 only for MPEG-1 video; otherwise both keep their values |
| VideoMuxing.AddStreamGlobalHeader | video_muxing/video_muxing.cpp:103-104 | CODEC_FLAG_GLOBAL_HEADER is set exactly when the format has AVFMT_GLOBALHEADER or the context already had it; every other flag bit is preserved |
| VideoMuxing.Half | video_muxing/video_muxing.cpp:160-161 | C's width/2 and height/2: for n >= 0 the result is the floor of n/2, so an odd last column or row of chroma is not painted |
| VideoMuxing.FillYuvImage | video_muxing/video_muxing.cpp:150-166 | Afterwards every plane is Painted with frame i's pattern: luma over width x height, Cb and Cr over the halved sizes; all other bytes are as before |
| VideoMuxing.FillLuma | video_muxing/video_muxing.cpp:155-158 | The Y loop nest paints the first height rows and width columns of the luma plane, with the other bytes unchanged |
| VideoMuxing.FillChroma | video_muxing/video_muxing.cpp:159-165 | The chroma loop nest paints both Cb and Cr over half the width and half the height, with the other bytes unchanged |
| VideoMuxing.Repaint | video_muxing/video_muxing.cpp:173-196 | Painting a plane's area with one frame's pattern and then with another's leaves the later pattern over the original bytes, as when write_video_frame fills the same picture on every call |
| VideoMuxing.PaintedSampleAt | video_muxing/video_muxing.cpp:156-164 | In a painted plane, the byte at y*linesize+x (for x < w, y < h) is in bounds and equals (x+y+3i), (128+y+2i) or (64+x+5i) mod 256 |
| VideoMuxing.PaintedElsewhereUnchanged | video_muxing/video_muxing.cpp:156-165 | Stride padding (column >= w) and every row at or below h keep their previous bytes |
| VideoMuxing.VideoOutput.constructor | video_muxing/video_muxing.cpp:110-147 | The state open_video leaves: frame_count 0, no scaler context yet, and a src picture exactly when the pixel format is not YUV420P |
| VideoMuxing.VideoOutput.WriteVideoFrame | video_muxing/video_muxing.cpp:168-233 | A successful call adds exactly 1 to frame_count and a failed one leaves it unchanged; below 5000 frames the picture is repainted with pattern frame_count (src, with the scaler created on first use, when conversion is needed; otherwise dst); from 5000 on nothing is repainted; a missing scaler context and a failed write are the two errors |
| VideoMuxing.VideoOutput.RunFrames | video_muxing/video_muxing.cpp:313-328 | Starting from pts 0, after n written frames pts equals n times the rescale step and frame_count has grown by n; the loop stops early at the first failed write. A run that starts at 5000 frames or more leaves the pictures untouched. A successful run of at least one frame that starts below 5000 leaves the painted picture (dst for YUV420P, src otherwise) holding the pattern of its last frame below 5000, over the original bytes, however far past 5000 it goes; the scaler then exists exactly when it existed before or was needed and created |
| Deflicker.FileDeflicker.constructor | filedeflicker/filedeflicker.cpp:12-23 | A fresh object has frame count 0, stream index -1, buffer size 0, null handles, and no frames, output or log |
| Deflicker.FileDeflicker.OpenCodecContext | filedeflicker/filedeflicker.cpp:139-157 | Fails with "stream not found" for a negative best stream. Otherwise it stores the index, then fails if no decoder is found or the decoder does not open; only success marks the decoder open |
| Deflicker.FileDeflicker.Init | filedeflicker/filedeflicker.cpp:34-76 | Succeeds exactly when every step succeeds; each failure gives its own error; on success the input is open and the stream, decoder, destination file and frame are set, the buffer has av_image_alloc's size and the packet is empty; nothing is counted or written. A failure before the stream is chosen leaves the destination file handle and the buffer as they were |
| Deflicker.FileDeflicker.DecodePacket | filedeflicker/filedeflicker.cpp:110-132 | A packet of another stream changes nothing, not even got_frame. A negative length on the selected stream is the decode error. An emitted frame adds 1 to the count, one note with the next frame number, one _img entry (the destination buffer) and exactly that buffer's bytes to the output; a call that emits no frame leaves count, notes, _img, output and the destination buffer's bytes unchanged |
| Deflicker.FileDeflicker.Decode | filedeflicker/filedeflicker.cpp:84-108 | The outcome and the frames read and drained are those of DecodeRun. The count grows by their number, the output by their concatenated bytes and _img by that many buffer references. The notes are numbered on from the old count, and drained frames are marked cached. The destination buffer, which every _img entry references, ends holding the last frame emitted, or its old bytes if none was. Unless reading failed, _pkt ends as the leftover empty packet |
| Deflicker.FileDeflicker.ReadPackets | filedeflicker/filedeflicker.cpp:92-95 | The reading loop emits exactly ReadLoop's frames, ends with its error flag and got_frame, and records each frame in count, output, _img and notes; the destination buffer ends holding the last frame read, or its old bytes |
| Deflicker.FileDeflicker.DrainDecoder | filedeflicker/filedeflicker.cpp:96-101 | The drain loop emits exactly DrainLoop's frames, all marked cached, and fails exactly when DrainLoop does; the destination buffer ends holding the last drained frame, or its old bytes |
| Deflicker.FlattenLength | filedeflicker/filedeflicker.cpp:126-127 | n frames of _dst_bufsize bytes each make n × _dst_bufsize bytes of output |
| Deflicker.ReadLoopOnStream | filedeflicker/filedeflicker.cpp:92-95 | Packets of other streams have no effect: the reading loop equals the loop over the selected stream's packets alone |
| Deflicker.ReadLoopAtMostOneFramePerPacket | filedeflicker/filedeflicker.cpp:112-128 | The reading loop emits at most one frame per packet of the selected stream |
| Deflicker.DrainLoopStopsAtFirstStop | filedeflicker/filedeflicker.cpp:99-101 | Draining emits the pictures of the replies before the first one with no frame or an error, stops there, and fails exactly when that reply's length is negative |
| Deflicker.DrainEmptyDecoder | filedeflicker/filedeflicker.cpp:99-101 | A decoder holding no frame is called once and emits nothing |
| Deflicker.ReadLoopOutcome | filedeflicker/filedeflicker.cpp:92-95 | The reading loop fails exactly when some packet of the selected stream decodes with a negative length; otherwise its final got_frame is the one the last packet of that stream reported, or the initial value when there was none |
| Deflicker.DrainNotFed | filedeflicker/filedeflicker.cpp:92-101 | With the leftover packet on another stream nothing is drained. Without a decode error, decode ends at once if the last selected-stream packet gave no frame and never ends if it gave one; with no such packet the initial got_frame decides |
| Deflicker.GetFormatFromSampleFmt | filedeflicker/filedeflicker.cpp:159-186 | Maps U8 to "u8", and each of S16, S32, FLT and DBL to its big- or little-endian name by native byte order, and passes. Any other format gets no name and the unsupported-format error |

## Left out

- libav and libswscale: every call is an oracle parameter, and their internal stride and rescale arithmetic is not modelled.
  - This covers opening the input, reading packets, decoding, image allocation and copy, encoding, writing frames, `av_rescale_q` and `av_dump_format`.
  - `av_image_copy` is represented by the packed picture the decoder reply carries.
- VideoMuxing.VideoOutput.WriteVideoFrame: the path that encodes the packet and writes it is reduced to one "written" flag.
  - That path uses the uninitialised `got_packet`, a deprecated encode call and `sizeof(AVPicture)` as the packet size.
  - `sws_scale`'s conversion of src_picture into dst_picture is not modelled either, so when conversion is needed below 5000 frames dst's new contents are left unspecified (from 5000 on dst is proved unchanged).
- VideoMuxing.VideoOutput.constructor: the three `exit(1)` paths of `open_video` (the codec does not open, the frame or a picture cannot be allocated) are not modelled; the constructor is the state after they all succeed. It leaves frame->pts unspecified, since the default `avcodec_alloc_frame` gives it is libav's; the main loop sets it to 0.
- VideoMuxing.VideoOutput.RunFrames: the floating-point `video_pts >= STREAM_DURATION` test is not modelled; the number of iterations is a parameter instead. The audio float globals are left out too.
- VideoMuxing.FillYuvImage: separate arrays for the three planes.
  - The three planes are distinct arrays, not pointers into one `avpicture_alloc` block.
  - The `int` arithmetic is unbounded: `frame_index * 5` does not overflow for the frame counts the program reaches (at most 5000).
- Deflicker.FileDeflicker.DecodePacket: every `fwrite` is assumed to write all `_dst_bufsize` bytes; short writes are not modelled.
  - The printed lines keep only the frame number and the "(cached)" mark. They do not keep coded_picture_number or pts.
- Deflicker.FileDeflicker.Decode: no drain calls are modelled when the leftover packet is on another stream. The never-ending loop becomes the `Spins` outcome instead.
  - The ffplay hint and "Demuxing succeeded." messages are not modelled.
- `FileDeflicker::encode`: it is an empty stub, so it is not modelled.
- Teardown and I/O are not modelled: the destructor, `close_video`, `avio_open`/`avio_close`, file handles and logging set-up.
- The two `main` programs are not modelled: their command-line checks and usage text, the output format guess, and `process`.
- `filedeflicker/filedeflicker.h` only declares fields, so it is not modelled. Those fields appear as the class members of `FileDeflicker`.
