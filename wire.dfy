/** Byte formats of the bonded TCP stream: the little-endian u32 length prefix
    of a short write, the fragment layout of a long write, and the reply the
    listener sends on the first connection of a client. */
module Wire {

  newtype byte = x: int | 0 <= x < 256

  /** A connection id as it travels on the wire: the 16 bytes of a UUID in
      little-endian field order. */
  type Cid = s: seq<byte> | |s| == 16 witness [0, 0, 0, 0, 0, 0, 0, 0, 0, 0, 0, 0, 0, 0, 0, 0]

  datatype Option<T> = None | Some(value: T)

  /** The failures the model keeps. */
  datatype IoError =
    | Starved        // a link holds fewer bytes than a read needs (the stream waits for them forever)
    | UnexpectedEof  // `read_exact` met the end of the connection
    | ConnectFailed  // opening one more TCP connection failed

  datatype Result<T> = Ok(value: T) | Err(error: IoError)

  /** Writes shorter than this go out behind a length prefix, longer ones as
      fragments without one; a write of exactly this length sends nothing. */
  const FRAGMENT_SIZE: nat := 8192

  const U32_LIMIT: nat := 0x1_0000_0000

  function Min(a: nat, b: nat): nat { if a <= b then a else b }

  // ---------------------------------------------------------------------------
  // The length prefix: `u32::to_le_bytes` and `u32::from_le_bytes`

  function EncodeLe32(n: nat): (r: seq<byte>)
    requires n < U32_LIMIT
    ensures |r| == 4
  {
    [(n % 256) as byte, (n / 0x100 % 256) as byte, (n / 0x1_0000 % 256) as byte, (n / 0x100_0000) as byte]
  }

  function DecodeLe32(b: seq<byte>): (r: nat)
    requires |b| == 4
    ensures r < U32_LIMIT
  {
    b[0] as nat + 0x100 * b[1] as nat + 0x1_0000 * b[2] as nat + 0x100_0000 * b[3] as nat
  }

  /** Decoding inverts encoding for every length a u32 can hold. */
  lemma DecodeEncode(n: nat)
    requires n < U32_LIMIT
    ensures DecodeLe32(EncodeLe32(n)) == n
  {
    var b := EncodeLe32(n);
    assert n == n % 256 + 0x100 * (n / 0x100);
    assert n / 0x100 == n / 0x100 % 256 + 0x100 * (n / 0x1_0000);
    assert n / 0x1_0000 == n / 0x1_0000 % 256 + 0x100 * (n / 0x100_0000);
  }

  /** Encoding inverts decoding: every 4-byte prefix is the encoding of its value. */
  lemma EncodeDecode(b: seq<byte>)
    requires |b| == 4
    ensures EncodeLe32(DecodeLe32(b)) == b
  {
    var n := DecodeLe32(b);
    var e := EncodeLe32(n);
    assert n / 0x100 == b[1] as nat + 0x100 * b[2] as nat + 0x1_0000 * b[3] as nat;
    assert n / 0x1_0000 == b[2] as nat + 0x100 * b[3] as nat;
    assert n / 0x100_0000 == b[3] as nat;
    assert e[0] == b[0] && e[1] == b[1] && e[2] == b[2] && e[3] == b[3];
  }

  // ---------------------------------------------------------------------------
  // The fragment layout of a long write

  function Concat(parts: seq<seq<byte>>): seq<byte>
  {
    if parts == [] then [] else parts[0] + Concat(parts[1..])
  }

  lemma {:induction false} ConcatAppend(parts: seq<seq<byte>>, last: seq<byte>)
    ensures Concat(parts + [last]) == Concat(parts) + last
  {
    if parts == [] {
      assert parts + [last] == [last];
    } else {
      assert (parts + [last])[1..] == parts[1..] + [last];
      ConcatAppend(parts[1..], last);
    }
  }

  /** Cuts `rest` into consecutive chunks of FRAGMENT_SIZE bytes, the last one
      possibly shorter; together they are `rest` again. */
  function Split(rest: seq<byte>): (r: seq<seq<byte>>)
    decreases |rest|
    ensures forall k :: 0 <= k < |r| ==> 0 < |r[k]| <= FRAGMENT_SIZE
    ensures Concat(r) == rest
  {
    if |rest| == 0 then []
    else if |rest| <= FRAGMENT_SIZE then [rest]
    else
      var tail := Split(rest[FRAGMENT_SIZE..]);
      assert ([rest[..FRAGMENT_SIZE]] + tail)[1..] == tail;
      [rest[..FRAGMENT_SIZE]] + tail
  }

  /** The number of chunks is the length divided by FRAGMENT_SIZE, rounded up. */
  lemma {:induction false} SplitCount(rest: seq<byte>)
    ensures (|Split(rest)| - 1) * FRAGMENT_SIZE < |rest| <= |Split(rest)| * FRAGMENT_SIZE
  {
    if |rest| > FRAGMENT_SIZE {
      SplitCount(rest[FRAGMENT_SIZE..]);
      assert |Split(rest)| == 1 + |Split(rest[FRAGMENT_SIZE..])|;
    }
  }

  /** Chunk k is the slice [k * FRAGMENT_SIZE, min((k + 1) * FRAGMENT_SIZE, len)). */
  lemma {:induction false} SplitAt(rest: seq<byte>, k: nat)
    requires k < |Split(rest)|
    ensures k * FRAGMENT_SIZE < |rest|
    ensures Split(rest)[k] == rest[k * FRAGMENT_SIZE .. Min((k + 1) * FRAGMENT_SIZE, |rest|)]
  {
    if k > 0 {
      assert |rest| > FRAGMENT_SIZE;
      var tail := rest[FRAGMENT_SIZE..];
      assert Split(rest) == [rest[..FRAGMENT_SIZE]] + Split(tail);
      SplitAt(tail, k - 1);
      var lo, hi := (k - 1) * FRAGMENT_SIZE, Min(k * FRAGMENT_SIZE, |tail|);
      assert k * FRAGMENT_SIZE == lo + FRAGMENT_SIZE;
      assert (k + 1) * FRAGMENT_SIZE == k * FRAGMENT_SIZE + FRAGMENT_SIZE;
      assert Split(rest)[k] == tail[lo..hi];
      SliceOfSuffix(rest, FRAGMENT_SIZE, lo, hi);
      assert FRAGMENT_SIZE + hi == Min((k + 1) * FRAGMENT_SIZE, |rest|);
    } else {
      assert k * FRAGMENT_SIZE == 0 && (k + 1) * FRAGMENT_SIZE == FRAGMENT_SIZE;
      if |rest| <= FRAGMENT_SIZE {
        assert Split(rest) == [rest];
        assert rest[0..|rest|] == rest;
      } else {
        assert Split(rest)[0] == rest[..FRAGMENT_SIZE];
      }
    }
  }

  lemma SliceOfSuffix(s: seq<byte>, d: nat, lo: nat, hi: nat)
    requires d <= |s| && lo <= hi <= |s| - d
    ensures s[d..][lo..hi] == s[d + lo .. d + hi]
  {
  }

  /** The slices the long-write path of `write` hands to `write_loop`, in
      order. Its loop only runs while the slice end is below the length, so a
      buffer of exactly FRAGMENT_SIZE bytes yields no slice at all. */
  function Fragments(buf: seq<byte>): (r: seq<seq<byte>>)
    ensures |buf| <= FRAGMENT_SIZE ==> r == []
    ensures |buf| > FRAGMENT_SIZE ==>
      Concat(r) == buf && forall k :: 0 <= k < |r| ==> 0 < |r[k]| <= FRAGMENT_SIZE
  {
    if |buf| <= FRAGMENT_SIZE then [] else Split(buf)
  }

  /** A long write's fragments are buf itself, cut at multiples of
      FRAGMENT_SIZE, each non-empty and at most FRAGMENT_SIZE long. */
  lemma FragmentsLayout(buf: seq<byte>)
    requires |buf| > FRAGMENT_SIZE
    ensures Concat(Fragments(buf)) == buf
    ensures |Fragments(buf)| >= 2
    ensures (|Fragments(buf)| - 1) * FRAGMENT_SIZE < |buf| <= |Fragments(buf)| * FRAGMENT_SIZE
    ensures forall k :: 0 <= k < |Fragments(buf)| ==>
      0 < |Fragments(buf)[k]| <= FRAGMENT_SIZE &&
      Fragments(buf)[k] == buf[k * FRAGMENT_SIZE .. Min((k + 1) * FRAGMENT_SIZE, |buf|)]
  {
    SplitCount(buf);
    forall k | 0 <= k < |Fragments(buf)|
      ensures Fragments(buf)[k] == buf[k * FRAGMENT_SIZE .. Min((k + 1) * FRAGMENT_SIZE, |buf|)]
    {
      SplitAt(buf, k);
    }
  }

  /** Every byte one `write(buf)` call sends on its link: a short buffer
      behind its length prefix, a long one as its fragments. */
  function WriteBytes(buf: seq<byte>): (r: seq<byte>)
    ensures |buf| < FRAGMENT_SIZE ==>
      |r| == 4 + |buf| && DecodeLe32(r[..4]) == |buf| && r[4..] == buf
    ensures |buf| == FRAGMENT_SIZE ==> r == []
    ensures |buf| > FRAGMENT_SIZE ==> r == buf
  {
    if |buf| < FRAGMENT_SIZE then
      var prefix := EncodeLe32(|buf|);
      DecodeEncode(|buf|);
      assert (prefix + buf)[..4] == prefix;
      prefix + buf
    else
      Concat(Fragments(buf))
  }

  // ---------------------------------------------------------------------------
  // The listener's reply to a client's first connection

  /** One byte `stream_num`, then the 16 bytes of the id the listener chose. */
  function ReplyBytes(streamNum: byte, cid: Cid): (r: seq<byte>)
    ensures |r| == 17 && r[0] == streamNum && r[1..] == cid
  {
    [streamNum] + cid
  }

  /** What `connect` takes from the first 17 bytes the listener sends: the
      number of links to open and the id to present on each further link. */
  function ParseReply(bytes: seq<byte>): (r: Option<(byte, Cid)>)
    ensures r.Some? <==> |bytes| >= 17
  {
    if |bytes| < 17 then None
    else
      var cid: Cid := bytes[1..17];
      Some((bytes[0], cid))
  }

  /** The client reads back exactly what the listener sent, whatever follows it. */
  lemma ParseReplyBytes(streamNum: byte, cid: Cid, rest: seq<byte>)
    ensures ParseReply(ReplyBytes(streamNum, cid) + rest) == Some((streamNum, cid))
  {
    assert (ReplyBytes(streamNum, cid) + rest)[1..17] == cid;
  }

  /** How many links `connect` opens in all when the listener announces
      `ns`: the first one plus one per value of `1..ns`. */
  function ConnectLinkCount(ns: byte): (r: nat)
    ensures 1 <= r
    ensures ns == 0 ==> r == 1
    ensures 1 <= ns ==> r == ns as nat
  {
    if ns == 0 then 1 else ns as nat
  }
}
