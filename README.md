# Remote filesystem daemon — a verified model of its client core

The daemon mounts a user-space filesystem at `/storage` and forwards each file
operation to a remote server over one TCP stream. This project models the
deterministic core of that daemon (`container_src/fsdaemon.rs`) in Dafny and
proves its properties:

- **Frame codec** (`frame.dfy`, module `Frame`). Every message is framed as a
  4-byte little-endian `u32` length followed by that many payload bytes. The
  encoder is modelled as a function on byte sequences. The decoder is modelled
  twice: as a function (`DecodeFrame`), and as the reader loop's two
  `read_exact` calls (`Client.ReadFrame`), which fill a length buffer and
  then a payload buffer byte by byte from a cursor into the stream. The JSON
  payload is opaque bytes.
- **Request correlation** (`client.dfy`, module `Client`). Request ids come
  from a counter that starts at 0 and is incremented before each use. Each
  request's waiter goes into a pending table keyed by id. The reader loop
  takes responses off the stream, removes the entry under each response's id
  and hands the response to that waiter. It drops responses whose id is not
  pending, and payloads that do not parse. The class
  `RemoteFsClient<W>` holds the counter, the table (`map<nat, W>`), the
  bytes written and the hand-offs made. `W` stands for the sending half of a
  one-shot channel.
- **Response check** (`Client.Complete`). A reply counts as a success only
  when its `error` field is empty.
- **Attributes, directory paging, file handles** (`fs.dfy`, module `Fs`):
  `get_attr_from_stat`, the `readdir` loop, and the `next_fh` counter of
  `open` and `create`.

`messages.dfy` declares the request and response records and `wrappers.dfy`
the `Option`/`Result` types.

Two points of the daemon's behaviour that the model keeps as the code has them:

- The reader puts no bound on the length prefix: it allocates and reads
  whatever length the prefix declares, up to 2^32 − 1 bytes. The model has
  no bound either.
- The daemon registers the waiter *before* encoding and writing the request,
  and never removes it on a write failure or a timeout. `SendRequest` keeps
  the waiter registered in every case.

Two points where the model applies the corrections from "## Findings" rather
than the code: `SendRequest` frames with the corrected encoder, which refuses
a payload of 2^32 bytes or more, and `AttrFromStat` counts blocks without the
u64 wrap. The daemon's own behaviour on those inputs is modelled separately
(`EncodeFrameAsWritten`, `BlocksAsWritten`).

## Model

| member | source | states |
|---|---|---|
| `Frame.FromLe` | container_src/fsdaemon.rs:99 | the value read from k little-endian bytes is below 256^k |
| `Frame.FromLeOfLeBytes` | container_src/fsdaemon.rs:148 | reading back the little-endian bytes of any n below 256^k gives n |
| `Frame.LeBytesOfFromLe` | container_src/fsdaemon.rs:99 | writing out the value of any byte string in as many bytes gives the same bytes, so the prefix encoding is a bijection |
| `Frame.Prefix` | container_src/fsdaemon.rs:148 | the length prefix is exactly 4 bytes and reads back as the length |
| `Frame.EncodeFrame` | container_src/fsdaemon.rs:147-153 | a frame exists exactly when the payload is shorter than 2^32; it is 4 + n bytes, its prefix reads as n and the rest is the payload unchanged |
| `Frame.EncodeFrameAsWritten` | container_src/fsdaemon.rs:148-153 | the daemon's encoder writes 4 + n bytes whose prefix reads as n mod 2^32 |
| `Frame.AsWrittenAgreesBelowLimit` | container_src/fsdaemon.rs:148-153 | below 2^32 bytes the daemon's encoder and the corrected one write the same frame |
| `Frame.TruncatedPrefixMisframes` | container_src/fsdaemon.rs:148 | with the daemon's encoder, a 2^32-byte payload decodes as an empty message followed by the payload as unread bytes |
| `Frame.DecodeFrame` | container_src/fsdaemon.rs:92-104 | decoding fails exactly when fewer than 4 bytes remain or fewer than the declared length follow; otherwise the payload has the declared length (below 2^32) and the rest is strictly shorter than the input |
| `Frame.DecodeFrameInverse` | container_src/fsdaemon.rs:92-104 | whatever decodes is an encoded frame followed by the rest |
| `Frame.DecodeEncode` | container_src/fsdaemon.rs:92-104 | round trip: a frame followed by any bytes decodes to its payload and leaves exactly those bytes |
| `Frame.FramesCover` | container_src/fsdaemon.rs:91-104 | the reader consumes whole frames only: the stream is its decoded frames re-encoded plus a leftover that holds no complete frame |
| `Frame.FramesOfEncoded` | container_src/fsdaemon.rs:91-104 | decoding a run of encoded frames followed by any bytes yields those payloads first, in order, with the same leftover |
| `Client.Deliver` | container_src/fsdaemon.rs:110 | after a response the table lacks its id, every other entry is kept with its waiter, and an unknown id leaves the table unchanged |
| `Client.ParseAll` | container_src/fsdaemon.rs:108 | payloads that do not parse are dropped, so there are never more responses than payloads |
| `Client.ParseAllMembers` | container_src/fsdaemon.rs:108 | a response is among those parsed exactly when some payload parses to it |
| `Client.ParseAllAppend` | container_src/fsdaemon.rs:91-113 | parsing keeps the stream's order: the responses of two runs of payloads are those of the first followed by those of the second |
| `Client.DeliverAllRemovesAnswered` | container_src/fsdaemon.rs:108-113 | after a run of responses the pending ids are exactly the old ones minus the ids answered, each with its old waiter |
| `Client.HandoffsToRegistered` | container_src/fsdaemon.rs:110-111 | every response is handed to the waiter registered under its id |
| `Client.HandoffsOncePerId` | container_src/fsdaemon.rs:110-111 | no waiter gets two responses: the hand-offs answer pairwise distinct ids |
| `Client.HandoffsAnswerPending` | container_src/fsdaemon.rs:110-111 | exactly the ids that were pending and that some response answers are handed a response |
| `Client.Complete` | container_src/fsdaemon.rs:156-165 | success exactly when a response arrived with an empty error, and then it is that response; a non-empty error is returned as the error; a closed channel and a timeout give their messages |
| `Client.RequestRoundTrip` | container_src/fsdaemon.rs:108-113 | when the response frame to a fresh request arrives, that request's waiter gets it and the table is as it was before the send |
| `Client.ReadExact` | container_src/fsdaemon.rs:95-104 | filling an n-byte buffer from a cursor succeeds exactly when n more bytes remain, and then the buffer is those bytes and the cursor moves past them; otherwise it fails, and the buffer then holds the rest of the stream, which is this model's choice since `read_exact` leaves it unspecified |
| `Client.ReadFrame` | container_src/fsdaemon.rs:92-104 | reading the 4-byte length buffer and then a buffer of the declared length gives exactly the codec's decoded frame, and fails exactly when the codec does |
| `Client.RemoteFsClient.constructor` | container_src/fsdaemon.rs:70-71 | the counter starts at 0 with no request pending and nothing sent or delivered |
| `Client.RemoteFsClient.SendRequest` | container_src/fsdaemon.rs:127-153 | the id is the old counter plus 1, above every pending id; the waiter is added under it and nothing else in the table changes; the request's frame is appended to the stream; with the corrected encoder, a payload of 2^32 bytes or more is refused and nothing is written |
| `Client.RemoteFsClient.Dispatch` | container_src/fsdaemon.rs:109-112 | a pending id's waiter is removed and handed the response; an unknown id changes nothing |
| `Client.RemoteFsClient.ReaderLoop` | container_src/fsdaemon.rs:87-115 | consumes every complete frame and stops at a leftover that holds none; the table and the hand-offs become those of matching the parsed responses in order; counter and outbound bytes unchanged |
| `Fs.Blocks` | container_src/fsdaemon.rs:187 | the block count is size divided by 512, rounded up: the least b with size <= 512 b |
| `Fs.BlocksAsWritten` | container_src/fsdaemon.rs:187 | the daemon's u64 `(size + 511) / 512` equals the rounded-up count whenever the sum does not wrap |
| `Fs.BlocksWrapAtTop` | container_src/fsdaemon.rs:187 | for the largest u64 size the daemon reports 0 blocks where 2^55 are needed |
| `Fs.AttrFromStat` | container_src/fsdaemon.rs:183-201 | size kept, blocks rounded up, all four timestamps equal to mtime, regular file with 0o644 exactly when `isFile` and directory with 0o755 otherwise, inode 1, one link, block size 4096, owner passed through |
| `Fs.CreatedAttr` | container_src/fsdaemon.rs:341-357 | a created file is reported as inode 2, empty, no blocks, regular, mode 0o644, one link, block size 4096, rdev and flags 0, the caller's owner, and each timestamp its own clock reading |
| `Fs.CreatedAttrIsEmptyFileStat` | container_src/fsdaemon.rs:341-357 | with equal clock readings, those attributes are the stat-derived attributes of an empty file, apart from the inode |
| `Fs.ListingClosedForm` | container_src/fsdaemon.rs:305-309 | walking n files emits exactly those from the clamped offset on, in index order, with inode i + 2 and next offset i + 1 |
| `Fs.PageClosedForm` | container_src/fsdaemon.rs:305-309 | a page holds every file from the clamped offset on, in order, with inode i + 2 and next offset i + 1 |
| `Fs.PageResume` | container_src/fsdaemon.rs:305-309 | resuming from any entry's next offset gives exactly the rest of the page: no file is skipped or repeated (for a reply buffer without a capacity limit) |
| `Fs.Readdir` | container_src/fsdaemon.rs:303-313 | on a successful reply the loop emits the page of the file list from the offset; on a failed request the reply is EIO |
| `Fs.RemoteFs.constructor` | container_src/fsdaemon.rs:179 | the handle counter starts at 1 with no handle issued |
| `Fs.RemoteFs.AllocateHandle` | container_src/fsdaemon.rs:317-321 | the handle is the old counter plus 1, at least 2, above every handle issued before and so never reused |
| `Fs.RemoteFs.Open` | container_src/fsdaemon.rs:316-323 | every open gets a fresh handle, one more than the last |
| `Fs.RemoteFs.Create` | container_src/fsdaemon.rs:338-366 | when the creating write succeeds: the invented attributes and a fresh handle; when it fails: EIO, and no handle is used up |

## Left out

- TCP listener, accept and the stream's reads and writes are I/O. The incoming stream is a byte sequence and the outgoing one a field that frames are appended to. The OS stream reassembles partial reads (`read_exact`), so splitting the stream at arbitrary points is not modelled.
- Threads, the mutexes, the tokio runtime and the one-shot channels exist for concurrency. Sending and reading are separate sequential methods. The awaited outcome (response, closed channel, 30-second timeout) is an input to `Complete`. This hides a lock-order hazard. `reader_loop` holds the stream mutex through its blocking `read_exact` (container_src/fsdaemon.rs:93-106), and `send_request` needs the same mutex to write (line 151). Read as written, a server that only ever answers requests leaves the first request waiting on the reader for good. Separate sequential methods cannot show this.
- JSON serialisation and parsing come from a foreign library. They are `serialize`/`parse` function parameters over opaque payload bytes.
- The FUSE mount, the `reply.*` calls and `libc::getuid`/`getgid` are foreign calls. The user and group ids are parameters.
- `reply.add` reports a full buffer, and the loop ignores it. The kernel buffer's capacity is not modelled. This hides a skipped entry. The reply refuses an entry that does not fit, the loop carries on, and a later, shorter name can still be added. The kernel then resumes from that later entry's offset and never sees the refused file. `Fs.PageResume` ("no file is skipped") holds only for a buffer without a capacity limit.
- `getattr`, `read` and `write` send hard-coded paths (`"/"`, `"/unknown"`); `lookup` sends `"/" + name` (container_src/fsdaemon.rs:206). `lookup` and `getattr` turn a returned stat into attributes with `get_attr_from_stat` (modelled as `Fs.AttrFromStat`). They answer ENOENT on an error or on a reply without `stat` (lines 211-218, 228-235). `read` and `write` answer EIO on an error. None of these handlers is modelled, and neither are their casts `offset as u64` and `bytes_written as u32`.
- `Fs.RemoteFs.Create` takes the awaited result of its empty `write` request as a parameter. Building that request (path `"/" + name`) is not modelled.
- Conversion of `mtime` to `SystemTime` and `SystemTime::now()` are clock glue. Timestamps are millisecond counts, and the clock readings are parameters.
- `Client.RemoteFsClient.SendRequest` applies the correction of the Findings row for container_src/fsdaemon.rs:148. For a serialised request of 2^32 bytes or more, the daemon writes a truncated prefix and the payload and then waits. The model instead writes nothing and returns an error the daemon never produces. `Frame.EncodeFrameAsWritten` and `Frame.TruncatedPrefixMisframes` model the daemon's behaviour.
- `Fs.AttrFromStat` applies the correction of the Findings row for container_src/fsdaemon.rs:187. For a size above 2^64 − 512 it reports the rounded-up block count, while the daemon's u64 sum wraps. `Fs.BlocksAsWritten` models the daemon's count and agrees with it at every other size.
- `Client.RemoteFsClient.SendRequest`: the request-id counter is unbounded, so a u64 wrap after 2^64 requests is not modelled.
- `Fs.RemoteFs.AllocateHandle`: the handle counter is unbounded, so a u64 wrap after 2^64 opens is not modelled.
- `container_src/main.go` is HTTP glue (environment printing, a deliberate panic, random bytes). The server's file table, its persistence and its session handling are not part of this model.

## Findings

| source | as written | input that shows it | evidently intended | confidence | as-written member | corrected member |
|---|---|---|---|---|---|---|
| container_src/fsdaemon.rs:148 | the prefix is `message_data.len() as u32`, which keeps only the low 32 bits of the length | a payload of exactly 2^32 bytes: its prefix reads 0, so the reader takes an empty message and then reads the payload's own bytes as further frames | a payload that does not fit the prefix is refused, never sent with a wrong length | low: needs a 4 GiB request; not executed | `Frame.TruncatedPrefixMisframes` | `Frame.EncodeFrame` |
| container_src/fsdaemon.rs:187 | `(stat.size + 511) / 512` on u64 wraps when size > 2^64 − 512 (release builds; debug builds panic) | size 2^64 − 1 gives 0 blocks instead of 2^55 | size divided by 512, rounded up | low: needs a reported size within 511 of 2^64; not executed | `Fs.BlocksWrapAtTop` | `Fs.Blocks` |
