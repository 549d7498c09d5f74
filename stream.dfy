/** The bonded stream: a round-robin writer and a framed reader over the links
    of one bond. Each TCP link is a pair of byte queues; the model moves bytes
    between those queues and the caller's buffers. */
module Stream {
  import opened Wire

  /** One TCP connection of a bond: the bytes the peer has sent that are not
      read yet, and every byte written to the connection so far. */
  datatype Link = Link(inbound: seq<byte>, outbound: seq<byte>)

  /** The links after link i has delivered its next k bytes. */
  function Take(links: seq<Link>, i: nat, k: nat): (r: seq<Link>)
    requires i < |links| && k <= |links[i].inbound|
    ensures |r| == |links| && r[i].inbound == links[i].inbound[k..]
    ensures forall j :: 0 <= j < |r| && j != i ==> r[j] == links[j]
  {
    links[i := links[i].(inbound := links[i].inbound[k..])]
  }

  /** The links after `bytes` have been written to link i. */
  function Send(links: seq<Link>, i: nat, bytes: seq<byte>): (r: seq<Link>)
    requires i < |links|
    ensures |r| == |links| && r[i].outbound == links[i].outbound + bytes
    ensures forall j :: 0 <= j < |r| && j != i ==> r[j] == links[j]
  {
    links[i := links[i].(outbound := links[i].outbound + bytes)]
  }

  lemma SendNothing(links: seq<Link>, i: nat)
    requires i < |links|
    ensures Send(links, i, []) == links
  {
    assert links[i].outbound + [] == links[i].outbound;
  }

  lemma SendTwice(links: seq<Link>, i: nat, a: seq<byte>, b: seq<byte>)
    requires i < |links|
    ensures Send(Send(links, i, a), i, b) == Send(links, i, a + b)
  {
    assert links[i].outbound + a + b == links[i].outbound + (a + b);
  }

  lemma TakeTwice(links: seq<Link>, i: nat, a: nat, b: nat)
    requires i < |links| && a + b <= |links[i].inbound|
    ensures Take(Take(links, i, a), i, b) == Take(links, i, a + b)
  {
    assert links[i].inbound[a..][b..] == links[i].inbound[a + b..];
  }

  /** The round-robin cursor after one step over `count` links. */
  function Next(i: nat, count: nat): (r: nat)
    requires count > 0
    ensures r < count
    ensures i + 1 < count ==> r == i + 1
  {
    (i + 1) % count
  }

  class BondTcpStream {
    /** The bonded connections, in the order they were grouped. */
    var links: seq<Link>
    /** The link the next write goes to and the next read comes from. */
    var nextStream: nat
    /** Bytes of the current frame that are still to be read. */
    var readable: nat

    ghost predicate Valid()
      reads this
    {
      0 < |links| && nextStream < |links|
    }

    /** A freshly bonded or connected stream starts at the first link with no
        frame in progress. */
    constructor (links: seq<Link>)
      requires 0 < |links|
      ensures Valid()
      ensures this.links == links && nextStream == 0 && readable == 0
    {
      this.links := links;
      nextStream := 0;
      readable := 0;
    }

    /** Sends all of `buf` on the current link and reports `buf.len()`; the
        model completes the write in one go, where the source never returns
        after a partial write. */
    method WriteLoop(buf: seq<byte>) returns (n: nat)
      requires Valid()
      modifies this
      ensures Valid() && nextStream == old(nextStream) && readable == old(readable)
      ensures n == |buf|
      ensures links == Send(old(links), nextStream, buf)
    {
      var index := 0;
      SendNothing(links, nextStream);
      while index < |buf|
        invariant index <= |buf|
        invariant Valid() && nextStream == old(nextStream) && readable == old(readable)
        invariant links == Send(old(links), nextStream, buf[..index])
      {
        assert buf[..index + 1] == buf[..index] + [buf[index]];
        SendTwice(old(links), nextStream, buf[..index], [buf[index]]);
        links := Send(links, nextStream, [buf[index]]);
        index := index + 1;
      }
      assert buf[..index] == buf;
      n := |buf|;
    }

    /** Fills buf[lo..hi] with the next bytes of the current link. When the
        link holds fewer, the source waits for them forever; the model reports
        `Starved` and changes nothing. */
    method ReadLoop(buf: array<byte>, lo: nat, hi: nat) returns (r: Result<nat>)
      requires Valid() && lo <= hi <= buf.Length
      modifies this, buf
      ensures Valid() && nextStream == old(nextStream) && readable == old(readable)
      ensures r.Ok? <==> hi - lo <= |old(links)[old(nextStream)].inbound|
      ensures r.Ok? ==>
        && r.value == hi - lo
        && buf[lo..hi] == old(links)[old(nextStream)].inbound[..hi - lo]
        && buf[..lo] == old(buf[..lo]) && buf[hi..] == old(buf[hi..])
        && links == Take(old(links), old(nextStream), hi - lo)
      ensures r.Err? ==> r.error == Starved && links == old(links) && buf[..] == old(buf[..])
    {
      var want := hi - lo;
      if |links[nextStream].inbound| < want {
        return Err(Starved);
      }
      ghost var source := links[nextStream].inbound;
      var n := 0;
      while n < want
        invariant n <= want
        invariant Valid() && nextStream == old(nextStream) && readable == old(readable)
        invariant links == Take(old(links), nextStream, n)
        invariant forall j :: lo <= j < lo + n ==> buf[j] == source[j - lo]
        invariant forall j :: 0 <= j < buf.Length && !(lo <= j < lo + n) ==> buf[j] == old(buf[j])
      {
        buf[lo + n] := links[nextStream].inbound[0];
        links := Take(links, nextStream, 1);
        assert source[n..][1..] == source[n + 1..];
        n := n + 1;
      }
      assert buf[lo..hi] == source[..want];
      assert buf[..lo] == old(buf[..lo]);
      assert buf[hi..] == old(buf[hi..]);
      r := Ok(want);
    }

    /** Reads the 4-byte little-endian length that starts a frame on the
        current link. */
    method ReadFrameLen() returns (r: Result<nat>)
      requires Valid()
      modifies this
      ensures Valid() && nextStream == old(nextStream) && readable == old(readable)
      ensures r.Ok? <==> 4 <= |old(links)[old(nextStream)].inbound|
      ensures r.Ok? ==>
        && r.value == DecodeLe32(old(links)[old(nextStream)].inbound[..4])
        && r.value < U32_LIMIT
        && links == Take(old(links), old(nextStream), 4)
      ensures r.Err? ==> links == old(links)
    {
      var lenBs := new byte[4](_ => 0);
      var got := ReadLoop(lenBs, 0, 4);
      if got.Err? {
        return Err(got.error);
      }
      assert lenBs[..] == lenBs[0..4];
      r := Ok(DecodeLe32(lenBs[..]));
    }

    /** Delivers what is left of the current frame, as much as fits in buf.
        Finishing the frame moves the cursor to the next link. */
    method ReadReadable(buf: array<byte>) returns (r: Result<nat>)
      requires Valid()
      modifies this, buf
      ensures Valid()
      ensures readable <= old(readable)
      ensures old(readable) == 0 ==>
        r == Ok(0) && links == old(links) && nextStream == old(nextStream) && readable == 0 && buf[..] == old(buf[..])
      ensures old(readable) > 0 ==>
        var m := Min(old(readable), buf.Length);
        && (r.Ok? <==> m <= |old(links)[old(nextStream)].inbound|)
        && (r.Ok? ==>
              && r.value == m
              && buf[..m] == old(links)[old(nextStream)].inbound[..m]
              && buf[m..] == old(buf[m..])
              && links == Take(old(links), old(nextStream), m)
              && (m == old(readable) ==> readable == 0 && nextStream == Next(old(nextStream), |links|))
              && (m < old(readable) ==> readable == old(readable) - m && nextStream == old(nextStream)))
        && (r.Err? ==>
              links == old(links) && nextStream == old(nextStream) && readable == old(readable) && buf[..] == old(buf[..]))
    {
      if readable > 0 {
        var len := Min(readable, buf.Length);
        var got := ReadLoop(buf, 0, len);
        if got.Err? {
          return Err(got.error);
        }
        var n := got.value;
        if n == readable {
          nextStream := Next(nextStream, |links|);
          readable := 0;
        } else {
          readable := readable - n;
        }
        r := Ok(n);
      } else {
        r := Ok(0);
      }
    }

    /** One pass of the loop in `read`: decodes a frame length on the current
        link and fills buf[n..] from the same link. A frame longer than that
        space leaves its remainder in `readable`; a frame that fits moves the
        cursor on, although the bytes read are the rest of the buffer and not
        the frame's own length. */
    method ReadFrame(buf: array<byte>, n: nat) returns (r: Result<nat>)
      requires Valid() && n < buf.Length
      modifies this, buf
      ensures Valid() && |links| == |old(links)|
      ensures r.Ok? <==> 4 + (buf.Length - n) <= |old(links)[old(nextStream)].inbound|
      ensures r.Ok? ==>
        var frame, space := old(links)[old(nextStream)].inbound, buf.Length - n;
        var frameLen := DecodeLe32(frame[..4]);
        && r.value == space
        && buf[..n] == old(buf[..n])
        && buf[n..] == frame[4..4 + space]
        && links == Take(old(links), old(nextStream), 4 + space)
        && (frameLen > space ==> readable == frameLen - space && nextStream == old(nextStream))
        && (frameLen <= space ==> readable == 0 && nextStream == Next(old(nextStream), |links|))
    {
      ghost var c, frame, space := nextStream, links[nextStream].inbound, buf.Length - n;
      var len := ReadFrameLen();
      if len.Err? {
        return Err(len.error);
      }
      assert links[c].inbound == frame[4..];
      var got: Result<nat>;
      if len.value > buf.Length - n {
        readable := len.value - (buf.Length - n);
        got := ReadLoop(buf, n, buf.Length);
        if got.Err? {
          return Err(got.error);
        }
      } else {
        readable := 0;
        got := ReadLoop(buf, n, buf.Length);
        if got.Err? {
          return Err(got.error);
        }
        nextStream := Next(nextStream, |links|);
      }
      TakeTwice(old(links), c, 4, space);
      assert frame[4..][..space] == frame[4..4 + space];
      r := Ok(got.value);
    }

    /** `read`: always fills the whole buffer. It first reads what is left of
        the current frame, as much as fits, and finishes that frame only when
        the buffer is at least that long; if room is left it decodes one more
        frame length on the link it then points at and reads the rest of the
        buffer from that link, keeping the part of the frame that did not fit in `readable`.
        The cursor then moves on once more. */
    method Read(buf: array<byte>) returns (r: Result<nat>)
      requires Valid()
      modifies this, buf
      ensures Valid() && |links| == |old(links)|
      ensures r.Ok? ==> r.value == buf.Length
      ensures
        var c0, m := old(nextStream), Min(old(readable), buf.Length);
        var c1 := if 0 < m == old(readable) then Next(c0, |old(links)|) else c0;
        r.Ok? <==>
          && m <= |old(links)[c0].inbound|
          && (m < buf.Length ==> 4 + (buf.Length - m) <= |Take(old(links), c0, m)[c1].inbound|)
      ensures r.Ok? ==>
        var c0, m := old(nextStream), Min(old(readable), buf.Length);
        var c1 := if 0 < m == old(readable) then Next(c0, |old(links)|) else c0;
        var links1 := Take(old(links), c0, m);
        && buf[..m] == old(links)[c0].inbound[..m]
        && (m == buf.Length ==>
              links == links1 && readable == old(readable) - m && nextStream == Next(c1, |links|))
        && (m < buf.Length ==>
              var frame, space := links1[c1].inbound, buf.Length - m;
              var frameLen := DecodeLe32(frame[..4]);
              && buf[m..] == frame[4..4 + space]
              && links == Take(links1, c1, 4 + space)
              && (frameLen > space ==> readable == frameLen - space && nextStream == Next(c1, |links|))
              && (frameLen <= space ==> readable == 0 && nextStream == Next(Next(c1, |links|), |links|)))
    {
      ghost var c0, m := nextStream, Min(readable, buf.Length);
      ghost var c1 := if 0 < m == readable then Next(c0, |links|) else c0;
      var got := ReadReadable(buf);
      if got.Err? {
        return Err(got.error);
      }
      ghost var links1 := Take(old(links), c0, m);
      ghost var frame, space := links1[c1].inbound, buf.Length - m;
      ghost var frameLen := if 4 <= |frame| then DecodeLe32(frame[..4]) else 0;
      var n := got.value;
      assert n == m && nextStream == c1 && links == links1;
      ghost var framed := false;
      while n < buf.Length
        invariant Valid() && |links| == |old(links)|
        invariant buf[..m] == old(links)[c0].inbound[..m]
        invariant !framed ==> n == m && nextStream == c1 && links == links1 && readable == old(readable) - m
        invariant framed ==> n == buf.Length && m < buf.Length && 4 + space <= |frame|
        invariant framed ==> buf[m..] == frame[4..4 + space] && links == Take(links1, c1, 4 + space)
        invariant framed && frameLen > space ==> readable == frameLen - space && nextStream == c1
        invariant framed && frameLen <= space ==> readable == 0 && nextStream == Next(c1, |links|)
        decreases buf.Length - n
      {
        var got2 := ReadFrame(buf, n);
        if got2.Err? {
          return Err(got2.error);
        }
        n := n + got2.value;
        framed := true;
      }
      assert framed <==> m < buf.Length;
      nextStream := Next(nextStream, |links|);
      r := Ok(buf.Length);
    }

    /** `write`: a buffer shorter than FRAGMENT_SIZE goes out behind its
        length, a longer one as fragments; everything goes to the current
        link, and the cursor then moves on once. */
    method Write(buf: seq<byte>) returns (n: nat)
      requires Valid()
      modifies this
      ensures Valid() && readable == old(readable)
      ensures n == |buf|
      ensures links == Send(old(links), old(nextStream), WriteBytes(buf))
      ensures nextStream == Next(old(nextStream), |links|)
    {
      if |buf| < FRAGMENT_SIZE {
        var lenBs := EncodeLe32(|buf|);
        SendTwice(old(links), nextStream, lenBs, buf);
        var _ := WriteLoop(lenBs);
        var _ := WriteLoop(buf);
      } else {
        ghost var parts := Fragments(buf);
        if |buf| > FRAGMENT_SIZE {
          FragmentsLayout(buf);
        }
        var sup := FRAGMENT_SIZE;
        var k := 0;
        assert parts[..0] == [];
        SendNothing(links, nextStream);
        while sup < |buf|
          invariant Valid() && nextStream == old(nextStream) && readable == old(readable)
          invariant k <= |parts|
          invariant sup == if k == 0 then FRAGMENT_SIZE else Min(k * FRAGMENT_SIZE, |buf|)
          invariant links == Send(old(links), nextStream, Concat(parts[..k]))
          decreases |buf| - k
        {
          var inf := k * FRAGMENT_SIZE;
          k := k + 1;
          sup := Min(k * FRAGMENT_SIZE, |buf|);
          assert parts[k - 1] == buf[inf..sup];
          ConcatAppend(parts[..k - 1], parts[k - 1]);
          assert parts[..k] == parts[..k - 1] + [parts[k - 1]];
          SendTwice(old(links), nextStream, Concat(parts[..k - 1]), parts[k - 1]);
          var _ := WriteLoop(buf[inf..sup]);
        }
        assert k == |parts| by {
          if |buf| > FRAGMENT_SIZE {
            assert (|parts| - 1) * FRAGMENT_SIZE < |buf|;
          }
        }
        assert parts[..k] == parts;
      }
      nextStream := Next(nextStream, |links|);
      n := |buf|;
    }
  }

  /** `connect`: presents a fresh id `tid` on the first link, reads back the
      number of links and the id the listener assigned, then opens the other
      links (taken from `dial`, in order) and presents that id on each. */
  method Connect(tid: Cid, first: Link, dial: seq<Link>) returns (r: Result<BondTcpStream>)
    ensures var reply := ParseReply(first.inbound);
      r.Ok? <==> reply.Some? && ConnectLinkCount(reply.value.0) - 1 <= |dial|
    ensures |first.inbound| < 17 ==> r == Err(UnexpectedEof)
    ensures r.Err? && |first.inbound| >= 17 ==> r.error == ConnectFailed
    ensures r.Ok? ==>
      var (ns, cid) := ParseReply(first.inbound).value;
      var s := r.value;
      && fresh(s) && s.Valid() && s.nextStream == 0 && s.readable == 0
      && |s.links| == ConnectLinkCount(ns)
      && s.links[0] == Link(first.inbound[17..], first.outbound + tid)
      && forall i :: 1 <= i < |s.links| ==> s.links[i] == Link(dial[i - 1].inbound, dial[i - 1].outbound + cid)
  {
    var stream := first.(outbound := first.outbound + tid);
    // one `read` into a zeroed one-byte buffer: 0 when the listener closed
    var ns: byte := 0;
    if |stream.inbound| > 0 {
      ns := stream.inbound[0];
      stream := stream.(inbound := stream.inbound[1..]);
    }
    if |stream.inbound| < 16 {
      return Err(UnexpectedEof);
    }
    assert ParseReply(first.inbound) == Some((ns, first.inbound[1..17]));
    var cid: Cid := stream.inbound[..16];
    stream := stream.(inbound := stream.inbound[16..]);
    assert first.inbound[1..][..16] == first.inbound[1..17];
    var streams := [stream];
    for i := 1 to ConnectLinkCount(ns)
      invariant |streams| == i
      invariant streams[0] == stream
      invariant i - 1 <= |dial|
      invariant forall j :: 1 <= j < i ==> j - 1 < |dial| && streams[j] == Link(dial[j - 1].inbound, dial[j - 1].outbound + cid)
    {
      if i - 1 >= |dial| {
        assert ConnectLinkCount(ns) - 1 > |dial|;
        return Err(ConnectFailed);
      }
      var s := dial[i - 1];
      s := s.(outbound := s.outbound + cid);
      streams := streams + [s];
    }
    var bonded := new BondTcpStream(streams);
    r := Ok(bonded);
  }
}
