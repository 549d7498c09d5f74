# bnd-socket in Dafny

A model of `src/bond_tcp.rs` from bnd-socket. That file bonds several TCP connections into one byte stream behind `std::net`-like types.

- **`BondTcpStream`** keeps:
  - the bonded connections (`streams`);
  - a round-robin cursor (`next_stream`);
  - the number of bytes of the current frame still to be read (`readable`).
- **`write`** sends the whole call to the connection under the cursor, then moves the cursor on. A call shorter than `FRAGMENT_SIZE` (8192) goes out behind a 4-byte little-endian length. A longer call goes out as consecutive slices of at most 8192 bytes, with no length. A call of exactly 8192 bytes sends nothing, because the slicing loop's guard `sup < buf.len()` fails at once.
- **`read`** always fills the caller's buffer. It first reads what is left of the current frame, as much as fits in the buffer; the frame is finished only when the buffer is at least that long. If room remains, it decodes one more length and reads the rest of the buffer from the connection it then points at. It moves the cursor as it goes.
- **`BondTcpListener::accept`** groups incoming connections by the 16-byte connection id each one presents:
  - An unknown id gets a fresh id. The listener writes back `stream_num` and that id, and the connection starts a one-link group.
  - A known id joins its group.
  - A group that reaches `stream_num` links leaves the map and becomes a bonded stream.
- **`BondTcpStream::connect`** is the client side of that exchange.

Each TCP connection is a `Stream.Link`: every byte the peer will ever send on it that has not been read yet (`inbound`), and every byte written to the connection (`outbound`). `write_loop` and `read_loop` move exactly the requested number of bytes to or from the link under the cursor. Because `inbound` holds everything the peer will ever send, a `read_loop` that needs more bytes than it holds would wait in its poll loop forever. `ReadLoop` and `ReadFrameLen` return `Err(Starved)` instead and change nothing. `Read` and `ReadFrame` can starve after earlier steps of the same call have already taken effect. Their contracts state those earlier effects only on success.

The length prefix is little-endian and frames carry no sequence numbers. The model also keeps the code's read-side quirks:

- When a decoded frame fits, `read` still reads the rest of the buffer, not the frame's length.
- `read` moves the cursor once more after its loop.

For these reasons no write/read round trip is claimed. The properties proved are local to each operation.

Files:

- `wire.dfy` (module `Wire`): the byte formats. It holds the length prefix, the fragment layout of a long write, and the listener's reply to a client.
- `stream.dfy` (module `Stream`): the class `BondTcpStream` and `Connect`.
- `listener.dfy` (module `Listener`): the grouping state machine of `accept`, both as a function on values and as the class `BondTcpListener`.

## Model

| member | source | states |
|---|---|---|
| `Wire.EncodeLe32` | src/bond_tcp.rs:471 | `u32::to_le_bytes` of a length below 2^32 is 4 bytes |
| `Wire.DecodeLe32` | src/bond_tcp.rs:419 | `u32::from_le_bytes` of 4 bytes is a value below 2^32 |
| `Wire.DecodeEncode` | src/bond_tcp.rs:416-421 | decoding the prefix that `write` emits gives back the length, for every length below 2^32 |
| `Wire.EncodeDecode` | src/bond_tcp.rs:471 | every 4 bytes are the prefix of exactly the length they decode to, so the prefix is a bijection |
| `Wire.Split` | src/bond_tcp.rs:475-482 | the slices of a long write are non-empty, at most FRAGMENT_SIZE long, and concatenate back to the buffer |
| `Wire.SplitCount` | src/bond_tcp.rs:475-482 | the number of slices is the length divided by FRAGMENT_SIZE, rounded up |
| `Wire.SplitAt` | src/bond_tcp.rs:478-481 | slice k is `buf[k*8192 .. min((k+1)*8192, len)]` |
| `Wire.FragmentsLayout` | src/bond_tcp.rs:474-482 | a write longer than 8192 bytes sends at least two slices, each the range above, together equal to the buffer, with no prefix |
| `Wire.Fragments` | src/bond_tcp.rs:474-482 | the slices the long-write loop hands to `write_loop`: none for a buffer of at most 8192 bytes (so exactly 8192 sends nothing); above that, non-empty slices of at most 8192 bytes that concatenate to the buffer |
| `Wire.WriteBytes` | src/bond_tcp.rs:470-482 | below 8192 bytes a call sends a prefix that decodes to the length, then the buffer; at exactly 8192 it sends nothing; above, it sends the buffer unchanged |
| `Wire.ReplyBytes` | src/bond_tcp.rs:142-146 | the reply to a new client is 17 bytes: `stream_num`, then the 16 bytes of the assigned id |
| `Wire.ConnectLinkCount` | src/bond_tcp.rs:248-262 | `connect` opens the first link plus one per value of `1..ns`: always at least one link, one for `ns` 0 and `ns` otherwise |
| `Wire.ParseReply` | src/bond_tcp.rs:240-244 | `connect` reads a link count and an id exactly when the listener sent at least 17 bytes |
| `Wire.ParseReplyBytes` | src/bond_tcp.rs:142-146 | the client reads back the `stream_num` byte and the 16 id bytes the listener wrote, whatever follows them |
| `Stream.Next` | src/bond_tcp.rs:484 | the round-robin step stays below the number of links and is `i + 1` until it wraps |
| `Stream.BondTcpStream.constructor` | src/bond_tcp.rs:273 | a bonded or connected stream has at least one link and starts at link 0 with `readable` 0 |
| `Stream.BondTcpStream.WriteLoop` | src/bond_tcp.rs:372-393 | appends exactly `buf` to the current link, leaves every other link, the cursor and `readable` alone, and returns `buf.len()` |
| `Stream.BondTcpStream.ReadLoop` | src/bond_tcp.rs:395-415 | fills `buf[lo..hi]` with the next `hi - lo` bytes of the current link and removes them, touching nothing else; it succeeds exactly when the link holds that many |
| `Stream.BondTcpStream.ReadFrameLen` | src/bond_tcp.rs:416-421 | returns the little-endian value of the current link's next 4 bytes and consumes exactly those |
| `Stream.BondTcpStream.ReadReadable` | src/bond_tcp.rs:423-437 | with `readable` 0 returns 0 and changes nothing. Otherwise it consumes `m = min(readable, len)` bytes into `buf[..m]`. If `m == readable`, `readable` becomes 0 and the cursor advances; otherwise `readable` drops by `m`. `readable` never grows |
| `Stream.BondTcpStream.ReadFrame` | src/bond_tcp.rs:447-456 | one pass of the loop in `read`: decodes a length, fills the rest of the buffer from the same link, and sets `readable` to the unread part of a frame that does not fit. A frame that fits sets `readable` to 0 and advances the cursor |
| `Stream.BondTcpStream.Read` | src/bond_tcp.rs:442-462 | returns `buf.len()` and fills the whole buffer: first what is left of the current frame, then bytes after one more decoded length. States the resulting links, `readable` and cursor, with the extra cursor step after the loop; the cursor stays below the link count |
| `Stream.BondTcpStream.Write` | src/bond_tcp.rs:468-487 | returns `buf.len()`, appends exactly `WriteBytes(buf)` to the link under the cursor and nothing elsewhere, and advances the cursor once, round robin |
| `Stream.Connect` | src/bond_tcp.rs:222-274 | presents `tid` on the first link, fails with `UnexpectedEof` on a reply shorter than 17 bytes, and otherwise opens `ConnectLinkCount(ns)` links in all, each later one presenting the assigned id; starts at link 0 with `readable` 0 |
| `Listener.ReadCid` | src/bond_tcp.rs:98-103 | one `read` into a zeroed 16-byte buffer, taken to return every byte it can (see "## Left out"): a connection that sent 16 bytes presents exactly those as its id and they are consumed; nothing is written |
| `Listener.Greeted` | src/bond_tcp.rs:142-147 | the first link of a new client has had `stream_num` and then the assigned id written to it, and its inbound bytes are untouched |
| `Listener.AcceptStepAsWritten` | src/bond_tcp.rs:105-150 | the loop body as written: a bond holds `stream_num` links and its id leaves the map, and waiting never drops a pending id |
| `Listener.AcceptStep` | src/bond_tcp.rs:105-150 | the loop body with bond sizes 0 and 1 handled: a bond holds as many links as the client opens, and only its id leaves the map |
| `Listener.AcceptRun` | src/bond_tcp.rs:97-153 | `accept` over a sequence of connections, with the corrected step (a new client is bonded on its single link when `stream_num` is 0 or 1, where the source never returns): stops at the first bond, which holds `ConnectLinkCount(stream_num)` links; uses every connection when nothing bonds |
| `Listener.AcceptStepUnknown` | src/bond_tcp.rs:132-150 | an unknown id is answered with `stream_num` and the fresh id; for `stream_num >= 2` its link becomes a one-link group under the fresh id and every other group is unchanged |
| `Listener.AcceptStepCompletes` | src/bond_tcp.rs:105-120 | a known id whose group has `size + 1 == stream_num` removes that group and bonds exactly `stream_num` links, the new one last |
| `Listener.AcceptStepGrows` | src/bond_tcp.rs:121-130 | any other known id grows its group by the one link and changes nothing else |
| `Listener.AcceptStepKeepsBounded` | src/bond_tcp.rs:105-150 | for `stream_num >= 2`, one connection keeps every pending group between 1 and `stream_num - 1` links |
| `Listener.AcceptStepKeepsNonEmpty` | src/bond_tcp.rs:105-150 | pending groups never become empty |
| `Listener.AcceptRunKeepsBounded` | src/bond_tcp.rs:97-153 | for `stream_num >= 2`, pending groups hold between 1 and `stream_num - 1` links after any number of connections |
| `Listener.JoinCompletes` | src/bond_tcp.rs:105-130 | connections that present the id of a group needing exactly that many more links bond the whole group in arrival order, and the id leaves the map |
| `Listener.ClientSessionBonds` | src/bond_tcp.rs:94-155 | a client that opens as many links as the reply tells it is bonded by `accept` on exactly those links, in order, with other clients' groups untouched |
| `Listener.SingleLinkNeverBondsAsWritten` | src/bond_tcp.rs:105-150 | as written, with `stream_num` 0 or 1 every connection leaves the listener waiting, with all groups non-empty, so nothing is ever bonded |
| `Listener.AcceptStepCorrectsOnlySingleLink` | src/bond_tcp.rs:132-150 | the corrected step differs from the source exactly on a new client's first link when `stream_num` is 0 or 1 |
| `Listener.BondTcpListener.Bind` | src/bond_tcp.rs:76-83 | a new listener keeps `stream_num` and has no pending groups |
| `Listener.BondTcpListener.AcceptOne` | src/bond_tcp.rs:98-150 | one pass of the loop in `accept` on the object, with the correction for `stream_num` 0 or 1 that `AcceptStep` makes: the new map and any bonded stream are those `AcceptStep` gives; a bonded stream is fresh, starts at link 0 with `readable` 0, and the group bound is kept |
| `Listener.BondTcpListener.Accept` | src/bond_tcp.rs:94-155 | `accept` with the correction for `stream_num` 0 or 1 (see Findings): the new map, the number of connections taken and the bonded stream are those of `AcceptRun`; the bond has `ConnectLinkCount(stream_num)` links; the group bound is kept |

## Left out

- Sockets and readiness polling are not modelled. This covers `TcpListener::bind` and `accept`, `TcpStream::connect`, `set_nonblocking` and the `polling::Poller` calls. A link is a pair of byte queues, and connections arrive as a sequence parameter. Resolving the address is not modelled either.
- I/O errors that the source propagates with `?` are not modelled. This covers `write`, `write_all`, `flush` and `read` failing, and the listener failing to accept. `Connect` keeps only a reply that ends early (`UnexpectedEof`) and a missing further connection (`ConnectFailed`).
- Blocking is not modelled. Where the source waits forever for bytes, the model returns `Err(Starved)`. `ReadLoop`, `ReadFrameLen` and `ReadReadable` change nothing when they starve. `Read` and `ReadFrame` may already have consumed a frame length and set `readable` (src/bond_tcp.rs:447-451) before the read that starves. Their contracts do not describe the state after such a failure, which the source never reaches. `accept` waits for more connections when no group completes; `AcceptRun` stops with nothing bonded when the given connections run out.
- `Listener.ReadCid` and `Stream.Connect` take each handshake `read` and `write` to move all the bytes it can. The listener reads the id with a single `read` (src/bond_tcp.rs:101), and `connect` sends ids with `write` calls whose byte counts it ignores (src/bond_tcp.rs:238, src/bond_tcp.rs:259). A short read there would give an id padded with zeros and leave the rest of the id at the head of the link. A short write would send a cut-off id. The model captures neither.
- `Stream.BondTcpStream.WriteLoop` and `Stream.BondTcpStream.ReadLoop` move one byte per step. This is one schedule of the partial reads and writes the source may see. After a partial write, the outer `loop` in `write_loop` has no exit, and the model does not capture that.
- The first `read` in `read_loop` turns an error into 0 bytes. That error handling is not modelled.
- Connection ids are the 16 bytes of a UUID in little-endian field order. Keying the map on those bytes is the same as keying on the `Uuid`, because `from_bytes_le` is a bijection. UUID generation is not modelled: `newIds` supplies the id each `new_v4` call would return, and the lemmas that need fresh ids require them.
- `Listener.AcceptRun`, `Listener.BondTcpListener.AcceptOne` and `Listener.BondTcpListener.Accept` use the corrected step `Listener.AcceptStep`. With `stream_num` 0 or 1 they bond a new client's single link, where the source's `accept` files it and never returns (src/bond_tcp.rs:107, src/bond_tcp.rs:149). The source's own step is `Listener.AcceptStepAsWritten`, and `Listener.SingleLinkNeverBondsAsWritten` states its behaviour.
- Logging is not modelled, and neither are the `todo!()` stubs: `incoming` and its iterator, `connect_timeout`, `peer_addr`, the stream's `local_addr`, `shutdown`, the timeouts, `peek`, the TTL, nodelay and nonblocking options, `take_error`, `flush`. The listener's `local_addr` is a socket query and is left out. The stream's `try_clone` is one more `todo!()` stub. The listener's `try_clone` is left out because it only returns an `Unsupported` error.
- The rest of the crate is not part of this model: `src/lib.rs`, the benchmark binaries and the examples.

## Findings

| source | as written | input that shows it | evidently intended | confidence | as-written member | corrected member |
|---|---|---|---|---|---|---|
| src/bond_tcp.rs:107-149 | A new id always starts a one-link group. A group bonds only when `size + 1 == stream_num`, and a group's size is at least 1. | A listener bound with `stream_num` 1 (or 0) and a client that connects: `connect` opens a single link and returns, while the listener files that link as a pending group and waits for a second connection with the same id that never comes. | A client told to open one link is bonded on that link (`Listener.ClientSessionBonds` proves this for every `stream_num`). | not executed; follows from the two branches of the `match` | `Listener.SingleLinkNeverBondsAsWritten` | `Listener.AcceptStep` |
