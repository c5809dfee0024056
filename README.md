# xtc-length: the XTC frame walker, modelled and verified in Dafny

`xtc-length.c` counts the frames of a GROMACS XTC trajectory and reports its
atom count. An XTC file is a chain of frames. Each frame starts with a 92-byte
header. Bytes 4..7 of the header hold the atom count and bytes 88..91 hold the
payload's byte count, both as big-endian unsigned 32-bit integers (XDR, RFC 4506
section 4.2). The payload follows the header as an XDR opaque: its bytes, then
zero bytes up to a multiple of 4 (RFC 4506 section 4.10).

`get_xtc_num_frames` reads the first header and takes the atom count from it.
It then repeats three steps: seek past the payload, read the next header, count
it. It stops at the first header that cannot be read in full. The model has
four modules:

- `Xdr` (`xdr.dfy`): `u4_from_buffer` on `bv32` words. A word's number,
  `Value`, is read off its four bytes. The module also has the inverse encoder
  and the two round trips. It shows how `uint32_t` `+1` and `+3` wrap.
- `Padding` (`padding.dfy`): the source's skip `(frame_size + 3) & ~4` on
  32-bit words (`MaskSkip`, `AsWrittenSkip`). It also has the round-up to a
  multiple of 4 that the comment on line 30 describes (`RoundUp4`,
  `IntendedSkip`). Lemmas say exactly what the mask computes and when the two
  skips agree.
- `FrameWalk` (`walk.dfy`): the file is a `seq<bv8>` and the stream position
  is a number that may run past its end. `HeaderChain` lists the positions of
  the headers the walk reads. `GetXtcNumFrames` is the imperative loop, with a
  `header` array that each read refills, proved against `HeaderChain`. Both
  take the skip rule as a parameter.
- `Trajectory` (`trajectory.dfy`): files built from well-formed frames,
  possibly followed by the start of a further header. With the intended
  padding, the walk finds every frame. With the source's mask, it can miss
  frames.

Three points of the code decide what the model computes:
- The atom count is read from the first header (xtc-length.c:25), and nothing
  later in the loop changes it.
- When no complete first header can be read, the function returns -1 and leaves
  both outputs unwritten (xtc-length.c:21-23).
- The skip is the literal mask `(frame_size + 3) & ~4` (xtc-length.c:31). That
  is not the round-up that the comment on line 30 and the padding rule of
  RFC 4506 section 4.10 describe. "## Findings" below gives an input on which
  the two differ.

## Model

| member | source | states |
|---|---|---|
| Xdr.U4FromBuffer | xtc-length.c:10-12 | `u4_from_buffer`, written with the same shifts and ors. Its value is stated by `Xdr.U4FromBufferValue`, and `Xdr.DecodeEncode` and `Xdr.EncodeDecode` show that it inverts the big-endian encoding. |
| Xdr.Value | xtc-length.c:10 | The number a `uint32_t` stands for is below 2^32. |
| Xdr.U4FromBufferValue | xtc-length.c:10-12 | The decoded word is `b[0]*2^24 + b[1]*2^16 + b[2]*2^8 + b[3]`. Only `b[0..4]` is read. |
| Xdr.U4FromBufferReadsFourBytes | xtc-length.c:11 | Two buffers decode to the same word if and only if their first four bytes are equal. |
| Xdr.DecodeEncode | xtc-length.c:11 | Decoding the big-endian encoding of any word gives the word back. |
| Xdr.EncodeDecode | xtc-length.c:11 | Encoding a decoded word gives back exactly the four bytes it was read from. |
| Xdr.ValueInc | xtc-length.c:31 | Below the largest word, `uint32_t` increment adds one to the value. |
| Xdr.ValueAdd3 | xtc-length.c:31 | `frame_size + 3` on `uint32_t` is `(frame_size + 3) mod 2^32`. |
| Padding.MaskSkip | xtc-length.c:31 | The skip expression exactly as written, on `uint32_t`. `Padding.ClearBit2Value` and `Padding.AsWrittenSkipValue` state its value. |
| Padding.AsWrittenSkip | xtc-length.c:31-33 | The number of bytes the source seeks past a payload: the value of the masked word. `Padding.AsWrittenSkipValue` gives it in closed form. |
| Padding.RoundUp4 | xtc-length.c:30 | The round-up is a multiple of 4. It lies in `[n, n + 4)` and equals `n` when `n` is a multiple of 4. |
| Padding.RoundUp4IsLeast | xtc-length.c:30 | The round-up is the least multiple of 4 that is at least `n`. |
| Padding.IntendedSkip | xtc-length.c:30 | The skip the comment describes: the payload size rounded up to a multiple of 4. `Padding.IntendedSkipCoversPayload` states its bounds. |
| Padding.IntendedSkipCoversPayload | xtc-length.c:30 | The intended skip is a multiple of 4 that covers the payload, with fewer than 4 padding bytes. |
| Padding.ClearBit2Value | xtc-length.c:31 | `& ~4` subtracts 4 when bit 2 is set and leaves the value unchanged otherwise. |
| Padding.AsWrittenSkipValue | xtc-length.c:31 | The source's skip is `x = (size + 3) mod 2^32`, less 4 exactly when bit 2 of `x` is set. |
| Padding.AsWrittenSkipAgreesIff | xtc-length.c:30-31 | The source's skip equals the round-up if and only if `size mod 8 == 5` and `size + 3` does not wrap. |
| Padding.AsWrittenSkipAlignment | xtc-length.c:31 | For every size, wrap included, the source's skip is congruent to `size + 3` modulo 4. It is not word-aligned unless `size mod 4 == 1`. |
| Padding.SkipTable | xtc-length.c:30-31 | Sizes 0,1,2,3,4,5,8 give source skips 3,0,1,2,3,8,11 and intended skips 0,4,4,4,4,8,8. |
| FrameWalk.AtomCountAt | xtc-length.c:25 | The atom count of the header at a position: the word at bytes 4..7. `FrameWalk.HeaderFields` shows it is what the code decodes from its buffer. |
| FrameWalk.PayloadSizeAt | xtc-length.c:26 | The payload byte count of the header at a position: the word at bytes 88..91. `FrameWalk.HeaderFields` shows it is what the code decodes from its buffer. |
| FrameWalk.NextHeader | xtc-length.c:31-35 | Where the next header read begins: past the 92-byte header and the skip. `FrameWalk.ChainLinks` shows the walk follows it. |
| FrameWalk.HeaderChain | xtc-length.c:29-38 | The walk reads no header exactly when none fits at the start. Otherwise it begins at the start, every header it reads fits in the file, and at most the file length divided by 92 headers are read. |
| FrameWalk.ChainLinks | xtc-length.c:31-36 | Header k+1 starts at `start_k + 92 + skip(size_k)`, where `size_k` is the word at offset 88 of header k. |
| FrameWalk.ChainEnds | xtc-length.c:33-35 | The walk stops because the header after the last one read does not fit, including a seek past the end. |
| FrameWalk.ChainIncreasing | xtc-length.c:29-38 | The headers read are in increasing order and never overlap. |
| FrameWalk.HeaderChainCharacterised | xtc-length.c:29-38 | `HeaderChain` is the one sequence that starts at 0, links each header to the next through its size and ends at the first header that does not fit. |
| FrameWalk.ChainReadsOnlySizes | xtc-length.c:26-36 | For two files of the same length, the walk depends only on bytes 88..91 of the headers it visits. Atom counts, times and payloads do not change it. |
| FrameWalk.ReadHeader | xtc-length.c:35 | `fread` of 92 bytes succeeds exactly when 92 bytes remain. On success the buffer holds those bytes, and the position moves past what was read. |
| FrameWalk.HeaderFields | xtc-length.c:25-26 | The fields decoded from the buffer are the atom count and size of the header in the file. |
| FrameWalk.GetXtcNumFrames | xtc-length.c:14-42 | Returns -1, with the outputs unwritten, exactly when the file cannot be opened or has no complete header. Otherwise returns 0, the first header's atom count, and a frame count equal to the walk's header count, with `1 <= nframes` and `nframes * 92` at most the file length. |
| Trajectory.WalkFindsChunks | xtc-length.c:29-38 | For any skip rule: when each chunk's header plus skip ends exactly at the next chunk, and fewer than 92 bytes follow, the walk visits every chunk start and nothing else. |
| Trajectory.EncodedPayloadSize | xtc-length.c:26 | The word at offset 88 of an encoded frame is the frame's payload byte count. |
| Trajectory.EncodedFrameSpans | xtc-length.c:30 | With the intended padding, one step of the walk crosses an encoded frame exactly. |
| Trajectory.EncodedFrameSpansAsWritten | xtc-length.c:31 | With the source's mask, one step crosses an encoded frame exactly if and only if its payload size is 5 modulo 8, without wrap. |
| Trajectory.IntendedWalkFindsFrames | xtc-length.c:29-38 | On n well-formed frames, possibly followed by a partial header, the intended walk reads the n frame headers, so it counts n. |
| Trajectory.ReportedAtomCount | xtc-length.c:25 | On a file of well-formed frames, the reported atom count is the first frame's. |
| Trajectory.AsWrittenWalkFindsFramesWhen | xtc-length.c:31 | The source's walk still finds every frame when every payload size is 5 modulo 8 and `size + 3` does not wrap. |
| Trajectory.AsWrittenWalkMissesFrame | xtc-length.c:31 | In a 192-byte file of two frames (payloads of 8 and 0 bytes), the source's walk counts 1 frame and the intended walk counts 2. |

## Left out

- `main` (xtc-length.c:44-58) is not modelled. It checks arguments and prints results.
- `fopen` and `fclose` are not modelled as calls. Whether `fopen` succeeds is the input `fopenSucceeds`, and closing the file has no effect in the model.
- A read error is not told apart from end of file. `fread` fails only when fewer than 92 bytes remain, and `fseek` always succeeds.
- FrameWalk.GetXtcNumFrames: assumes that `long` holds every `uint32_t` value, as it does on LP64 platforms. `fseek` takes a `long` offset. Where `long` has 32 bits (ILP32, or LLP64 as on Windows), converting a skip of 2^31 or more is implementation-defined and can give a negative offset. The seek then fails and leaves the position unchanged, or moves backwards. The model always moves forward by the full skip, so it does not capture either outcome. It also does not capture that a backward seek can stop the loop from ending.
- The file may not change while it is read, and no other process may share it.
- FrameWalk.GetXtcNumFrames: `nframes` is an unbounded integer. It does not model overflow of the C `int` after 2^31 - 1 frames.
- FrameWalk.GetXtcNumFrames: `natoms` is the `uint32_t` word itself. It does not model the implementation-defined conversion into `int *natoms` for values of 2^31 and above.
- Xdr.U4FromBuffer: the bytes are widened to `uint32_t` before shifting. In C, `b[0] << 24` shifts a promoted `int`, which overflows for bytes of 128 and above. The model gives the unsigned big-endian value the code evidently means.
- Simulation time, the step number and the magic number are not modelled, because the code never reads them.
- A progress estimate is not modelled, because this code has none.
- Trajectory.WalkFindsChunks, Trajectory.IntendedWalkFindsFrames: files are built from whole frames followed by fewer than 92 bytes. Other trailing garbage is covered only by the general `FrameWalk` lemmas.

## Findings

| source | as written | input that shows it | evidently intended | confidence | as-written member | corrected member |
|---|---|---|---|---|---|---|
| xtc-length.c:31 | `skip = (frame_size+3) & ~((uint32_t)4)` clears bit 2 of `frame_size + 3` and does not round up to a multiple of 4. | A payload of 8 bytes gives skip 11 instead of 8. A 192-byte file of two frames, with payloads of 8 and 0 bytes, is counted as 1 frame. | Round up to the next multiple of 4, as the comment on line 30 says (`(frame_size + 3) & ~3` when `frame_size + 3` does not wrap). | high (not executed) | Trajectory.AsWrittenWalkMissesFrame | Trajectory.IntendedWalkFindsFrames |

`Padding.AsWrittenSkipAgreesIff` proves that the two skips agree only for payload sizes that are 5 modulo 8. `GetXtcNumFrames` takes the skip rule as a parameter. With `Padding.IntendedSkip` it counts the frames of every well-formed file (`Trajectory.IntendedWalkFindsFrames`).
