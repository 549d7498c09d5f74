/** The listener side of bonding: incoming TCP connections are grouped by the
    connection id they present until a group holds `stream_num` links, and
    that group becomes one bonded stream. */
module Listener {
  import opened Wire
  import opened Stream

  /** Pending groups, keyed by connection id. */
  type Groups = map<Cid, seq<Link>>

  /** What the listener does with one incoming connection. */
  datatype Step =
    | Waiting(groups: Groups)
    | Bonded(groups: Groups, links: seq<Link>)

  /** The outcome of accepting connections one after another until a group
      is complete: the pending groups, the bonded links if any, and how many
      connections were taken. */
  datatype Run = Run(groups: Groups, bonded: Option<seq<Link>>, used: nat)

  /** The id a new connection presents: one `read` of at most 16 bytes into a
      zeroed buffer, so a short read leaves trailing zeros. */
  function ReadCid(conn: Link): (r: (Cid, Link))
    ensures |conn.inbound| >= 16 ==> r.0 == conn.inbound[..16] && r.1.inbound == conn.inbound[16..]
    ensures r.1.outbound == conn.outbound
  {
    var k := Min(16, |conn.inbound|);
    var cid: Cid := conn.inbound[..k] + seq(16 - k, _ => 0 as byte);
    (cid, conn.(inbound := conn.inbound[k..]))
  }

  /** The first link of a new client after the listener has told it the bond
      size and the id it assigned. */
  function Greeted(link: Link, streamNum: byte, cid: Cid): (r: Link)
    ensures r.inbound == link.inbound
    ensures r.outbound == link.outbound + [streamNum] + cid
  {
    link.(outbound := link.outbound + ReplyBytes(streamNum, cid))
  }

  /** One pass of the loop in `accept`, as the source writes it. A known id
      grows its group and, when the group reaches `streamNum`, the group
      leaves the map and is bonded. An unknown id gets the fresh id
      `freshCid`, the reply, and a one-link group. */
  function AcceptStepAsWritten(groups: Groups, streamNum: byte, conn: Link, freshCid: Cid): (r: Step)
    ensures r.Bonded? ==> |r.links| == streamNum as nat && r.groups.Keys == groups.Keys - {ReadCid(conn).0}
    ensures r.Waiting? ==> r.groups.Keys >= groups.Keys
  {
    var (cid, link) := ReadCid(conn);
    if cid in groups then
      var pending := groups[cid] + [link];
      if |groups[cid]| + 1 == streamNum as nat then Bonded(groups - {cid}, pending)
      else Waiting(groups[cid := pending])
    else
      Waiting(groups[freshCid := [Greeted(link, streamNum, freshCid)]])
  }

  /** One pass of the loop in `accept`, with the bond sizes 0 and 1 handled:
      the client then opens a single link, so the first connection of a new
      client is bonded on its own instead of waiting for a second one. */
  function AcceptStep(groups: Groups, streamNum: byte, conn: Link, freshCid: Cid): (r: Step)
    ensures r.Bonded? ==> |r.links| == ConnectLinkCount(streamNum)
    ensures r.Bonded? ==> r.groups == groups - {ReadCid(conn).0}
  {
    var (cid, link) := ReadCid(conn);
    if cid !in groups && streamNum <= 1 then Bonded(groups, [Greeted(link, streamNum, freshCid)])
    else AcceptStepAsWritten(groups, streamNum, conn, freshCid)
  }

  /** `accept` over the connections `conns`, in arrival order; `newIds[i]` is
      the id a fresh UUID would give `conns[i]` if it needs one. When the
      connections run out before a group completes, the source keeps waiting
      for more; the model stops there with nothing bonded. A bonded stream
      has as many links as a client told `streamNum` opens. */
  function AcceptRun(groups: Groups, streamNum: byte, conns: seq<Link>, newIds: seq<Cid>): (r: Run)
    requires |newIds| == |conns|
    decreases |conns|
    ensures r.used <= |conns|
    ensures r.bonded.None? ==> r.used == |conns|
    ensures r.bonded.Some? ==> 0 < r.used && |r.bonded.value| == ConnectLinkCount(streamNum)
  {
    if conns == [] then Run(groups, None, 0)
    else
      match AcceptStep(groups, streamNum, conns[0], newIds[0])
      case Bonded(g, links) => Run(g, Some(links), 1)
      case Waiting(g) =>
        var rest := AcceptRun(g, streamNum, conns[1..], newIds[1..]);
        rest.(used := rest.used + 1)
  }

  /** A run whose first connection leaves the listener waiting goes on from
      the groups that connection left. */
  lemma AcceptRunWaiting(groups: Groups, streamNum: byte, conns: seq<Link>, newIds: seq<Cid>)
    requires |newIds| == |conns| && 0 < |conns|
    requires AcceptStep(groups, streamNum, conns[0], newIds[0]).Waiting?
    ensures var rest := AcceptRun(AcceptStep(groups, streamNum, conns[0], newIds[0]).groups, streamNum, conns[1..], newIds[1..]);
      AcceptRun(groups, streamNum, conns, newIds) == rest.(used := rest.used + 1)
  {
  }

  /** A run whose first connection completes a bond stops there. */
  lemma AcceptRunBonded(groups: Groups, streamNum: byte, conns: seq<Link>, newIds: seq<Cid>)
    requires |newIds| == |conns| && 0 < |conns|
    requires AcceptStep(groups, streamNum, conns[0], newIds[0]).Bonded?
    ensures var s := AcceptStep(groups, streamNum, conns[0], newIds[0]);
      AcceptRun(groups, streamNum, conns, newIds) == Run(s.groups, Some(s.links), 1)
  {
  }

  /** Every pending group holds at least one link. */
  ghost predicate NonEmptyGroups(groups: Groups)
  {
    forall cid :: cid in groups ==> 0 < |groups[cid]|
  }

  /** Every pending group holds between 1 and streamNum - 1 links. */
  ghost predicate PendingBounded(groups: Groups, streamNum: byte)
  {
    forall cid :: cid in groups ==> 0 < |groups[cid]| < streamNum as nat
  }

  // ---------------------------------------------------------------------------
  // One connection

  /** An unknown id is answered with the bond size and the fresh id. With a
      bond size of at least 2 its link becomes a one-link group under the
      fresh id and every other group is left as it was; with a bond size of
      0 or 1 the link is bonded on its own and the map is unchanged. */
  lemma AcceptStepUnknown(groups: Groups, streamNum: byte, conn: Link, freshCid: Cid)
    requires ReadCid(conn).0 !in groups && freshCid !in groups
    ensures var s := AcceptStep(groups, streamNum, conn, freshCid);
      var greeted := Greeted(ReadCid(conn).1, streamNum, freshCid);
      && greeted.outbound == conn.outbound + [streamNum] + freshCid
      && (2 <= streamNum ==>
            && s.Waiting?
            && s.groups.Keys == groups.Keys + {freshCid}
            && s.groups[freshCid] == [greeted]
            && forall cid :: cid in groups ==> s.groups[cid] == groups[cid])
      && (streamNum <= 1 ==> s == Bonded(groups, [greeted]))
  {
  }

  /** A known id whose group is one short of streamNum takes the group out of
      the map and bonds exactly streamNum links, the new one last. */
  lemma AcceptStepCompletes(groups: Groups, streamNum: byte, conn: Link, freshCid: Cid)
    requires ReadCid(conn).0 in groups && |groups[ReadCid(conn).0]| + 1 == streamNum as nat
    ensures var (cid, link) := ReadCid(conn);
      var s := AcceptStep(groups, streamNum, conn, freshCid);
      && s == Bonded(groups - {cid}, groups[cid] + [link])
      && |s.links| == streamNum as nat
      && s.groups.Keys == groups.Keys - {cid}
      && forall c :: c in s.groups ==> s.groups[c] == groups[c]
  {
  }

  /** Any other known id adds the connection to its group and nothing else. */
  lemma AcceptStepGrows(groups: Groups, streamNum: byte, conn: Link, freshCid: Cid)
    requires ReadCid(conn).0 in groups && |groups[ReadCid(conn).0]| + 1 != streamNum as nat
    ensures var (cid, link) := ReadCid(conn);
      var s := AcceptStep(groups, streamNum, conn, freshCid);
      && s == Waiting(groups[cid := groups[cid] + [link]])
      && s.groups.Keys == groups.Keys
      && forall c :: c in groups && c != cid ==> s.groups[c] == groups[c]
  {
  }

  /** With a bond size of at least 2, one connection keeps every pending group
      between 1 and streamNum - 1 links, and a bonded group has streamNum links. */
  lemma AcceptStepKeepsBounded(groups: Groups, streamNum: byte, conn: Link, freshCid: Cid)
    requires 2 <= streamNum && PendingBounded(groups, streamNum)
    ensures PendingBounded(AcceptStep(groups, streamNum, conn, freshCid).groups, streamNum)
  {
  }

  /** Pending groups never become empty. */
  lemma AcceptStepKeepsNonEmpty(groups: Groups, streamNum: byte, conn: Link, freshCid: Cid)
    requires NonEmptyGroups(groups)
    ensures NonEmptyGroups(AcceptStep(groups, streamNum, conn, freshCid).groups)
  {
  }

  // ---------------------------------------------------------------------------
  // Many connections

  /** The bound on pending groups holds after any number of connections. */
  lemma {:induction false} AcceptRunKeepsBounded(groups: Groups, streamNum: byte, conns: seq<Link>, newIds: seq<Cid>)
    requires |newIds| == |conns|
    requires 2 <= streamNum && PendingBounded(groups, streamNum)
    ensures PendingBounded(AcceptRun(groups, streamNum, conns, newIds).groups, streamNum)
    decreases |conns|
  {
    if conns != [] {
      var s := AcceptStep(groups, streamNum, conns[0], newIds[0]);
      AcceptStepKeepsBounded(groups, streamNum, conns[0], newIds[0]);
      if s.Waiting? {
        AcceptRunKeepsBounded(s.groups, streamNum, conns[1..], newIds[1..]);
      }
    }
  }

  /** The links a sequence of connections contributes once each has presented
      its id. */
  function Presented(conns: seq<Link>): (r: seq<Link>)
    ensures |r| == |conns|
    ensures forall i :: 0 <= i < |conns| ==> r[i] == ReadCid(conns[i]).1
  {
    if conns == [] then [] else [ReadCid(conns[0]).1] + Presented(conns[1..])
  }

  lemma LinksAssoc(a: seq<Link>, link: Link, b: seq<Link>)
    ensures a + [link] + b == a + ([link] + b)
  {
  }

  /** The later connections of a client all present the id `cid` of a pending
      group that needs exactly that many more links: the last one bonds the
      whole group, in arrival order, and the id leaves the map. */
  lemma {:induction false} JoinCompletes(groups: Groups, streamNum: byte, cid: Cid, conns: seq<Link>, newIds: seq<Cid>)
    requires |newIds| == |conns| && 0 < |conns|
    requires cid in groups && |groups[cid]| + |conns| == streamNum as nat
    requires forall i :: 0 <= i < |conns| ==> ReadCid(conns[i]).0 == cid
    ensures AcceptRun(groups, streamNum, conns, newIds) ==
      Run(groups - {cid}, Some(groups[cid] + Presented(conns)), |conns|)
    decreases |conns|
  {
    var link := ReadCid(conns[0]).1;
    var tail := Presented(conns[1..]);
    assert Presented(conns) == [link] + tail;
    if |conns| > 1 {
      var g := groups[cid := groups[cid] + [link]];
      AcceptStepGrows(groups, streamNum, conns[0], newIds[0]);
      AcceptRunWaiting(groups, streamNum, conns, newIds);
      forall i | 0 <= i < |conns[1..]| ensures ReadCid(conns[1..][i]).0 == cid {
        assert conns[1..][i] == conns[i + 1];
      }
      JoinCompletes(g, streamNum, cid, conns[1..], newIds[1..]);
      assert g - {cid} == groups - {cid} by {
        assert (g - {cid}).Keys == (groups - {cid}).Keys;
      }
      LinksAssoc(groups[cid], link, tail);
    } else {
      assert tail == [];
      assert [link] + tail == [link];
      AcceptStepCompletes(groups, streamNum, conns[0], newIds[0]);
      AcceptRunBonded(groups, streamNum, conns, newIds);
    }
  }

  /** A whole client session is bonded. The client's first connection
      presents an id unknown to the listener and gets the reply carrying the
      bond size and the fresh id `newIds[0]`; the client then opens as many
      links in all as that reply tells it to, each later one presenting the
      fresh id. The listener bonds exactly these links, in arrival order,
      with the reply sent back on the first, and the pending groups of other
      clients are as before. */
  lemma ClientSessionBonds(groups: Groups, streamNum: byte, conns: seq<Link>, newIds: seq<Cid>)
    requires |newIds| == |conns| && 0 < |conns|
    requires |conns| == ConnectLinkCount(ParseReply(ReplyBytes(streamNum, newIds[0])).value.0)
    requires ReadCid(conns[0]).0 !in groups && newIds[0] !in groups
    requires forall i :: 1 <= i < |conns| ==> ReadCid(conns[i]).0 == newIds[0]
    ensures var run := AcceptRun(groups, streamNum, conns, newIds);
      && run.groups == groups
      && run.used == |conns|
      && run.bonded == Some([Greeted(ReadCid(conns[0]).1, streamNum, newIds[0])] + Presented(conns[1..]))
  {
    var cid := newIds[0];
    ParseReplyBytes(streamNum, cid, []);
    assert ReplyBytes(streamNum, cid) + [] == ReplyBytes(streamNum, cid);
    var first := Greeted(ReadCid(conns[0]).1, streamNum, cid);
    if streamNum <= 1 {
      assert |conns| == 1;
      assert AcceptStep(groups, streamNum, conns[0], cid) == Bonded(groups, [first]);
      assert [first] + Presented(conns[1..]) == [first];
      AcceptRunBonded(groups, streamNum, conns, newIds);
    } else {
      var g := groups[cid := [first]];
      assert AcceptStep(groups, streamNum, conns[0], cid) == Waiting(g);
      AcceptRunWaiting(groups, streamNum, conns, newIds);
      forall i | 0 <= i < |conns[1..]| ensures ReadCid(conns[1..][i]).0 == cid {
        assert conns[1..][i] == conns[i + 1];
      }
      JoinCompletes(g, streamNum, cid, conns[1..], newIds[1..]);
      assert g - {cid} == groups by {
        assert (g - {cid}).Keys == groups.Keys;
      }
    }
  }

  // ---------------------------------------------------------------------------
  // Bond sizes 0 and 1 as written

  /** As written, a listener with a bond size of 0 or 1 never bonds anything:
      every connection leaves it waiting with every group non-empty, because
      a new id only opens a one-link group and a known group of n >= 1 links
      is compared with n + 1 >= 2. A client told such a size opens a single
      link and waits, so both sides wait forever. */
  lemma SingleLinkNeverBondsAsWritten(groups: Groups, streamNum: byte, conn: Link, freshCid: Cid)
    requires streamNum <= 1 && NonEmptyGroups(groups)
    ensures AcceptStepAsWritten(groups, streamNum, conn, freshCid).Waiting?
    ensures NonEmptyGroups(AcceptStepAsWritten(groups, streamNum, conn, freshCid).groups)
  {
  }

  /** The corrected step differs from the source only on the first
      connection of a client whose bond size is 0 or 1. */
  lemma AcceptStepCorrectsOnlySingleLink(groups: Groups, streamNum: byte, conn: Link, freshCid: Cid)
    ensures AcceptStep(groups, streamNum, conn, freshCid) != AcceptStepAsWritten(groups, streamNum, conn, freshCid)
      <==> ReadCid(conn).0 !in groups && streamNum <= 1
  {
  }

  // ---------------------------------------------------------------------------
  // The listener object

  class BondTcpListener {
    /** How many links make one bond (a `u8`). */
    const streamNum: byte
    /** Groups of accepted links still waiting for the rest of their bond. */
    var acceptedConnections: Groups

    ghost predicate Valid()
      reads this
    {
      NonEmptyGroups(acceptedConnections) &&
      (2 <= streamNum ==> PendingBounded(acceptedConnections, streamNum))
    }

    /** `bind`: a listener with no pending groups. */
    constructor Bind(streamNum: byte)
      ensures Valid()
      ensures this.streamNum == streamNum && acceptedConnections == map[]
    {
      this.streamNum := streamNum;
      acceptedConnections := map[];
    }

    /** One pass of the loop in `accept`: reads the id `conn` presents and
        files the connection under it, answering a new client with the bond
        size and the id `newId`. Returns the bonded stream when the
        connection completes a group. */
    method AcceptOne(conn: Link, newId: Cid) returns (bonded: Option<BondTcpStream>)
      requires Valid()
      modifies this
      ensures Valid()
      ensures var step := AcceptStep(old(acceptedConnections), streamNum, conn, newId);
        && acceptedConnections == step.groups
        && (bonded.Some? <==> step.Bonded?)
        && (bonded.Some? ==>
              && fresh(bonded.value) && bonded.value.Valid()
              && bonded.value.links == step.links
              && bonded.value.nextStream == 0 && bonded.value.readable == 0)
    {
      ghost var before := acceptedConnections;
      ghost var step := AcceptStep(before, streamNum, conn, newId);
      AcceptStepKeepsNonEmpty(before, streamNum, conn, newId);
      if 2 <= streamNum {
        AcceptStepKeepsBounded(before, streamNum, conn, newId);
      }
      var (cid, stream) := ReadCid(conn);
      if cid in acceptedConnections {
        var streams := acceptedConnections[cid];
        acceptedConnections := acceptedConnections - {cid};
        if |streams| + 1 == streamNum as nat {
          streams := streams + [stream];
          var s := new BondTcpStream(streams);
          return Some(s);
        }
        streams := streams + [stream];
        acceptedConnections := acceptedConnections[cid := streams];
        assert step == Waiting(before[cid := before[cid] + [stream]]);
        assert acceptedConnections.Keys == before.Keys;
      } else {
        ghost var greeted := Greeted(stream, streamNum, newId);
        stream := stream.(outbound := stream.outbound + [streamNum]);
        stream := stream.(outbound := stream.outbound + newId);
        assert stream == greeted;
        if streamNum <= 1 {
          var s := new BondTcpStream([stream]);
          return Some(s);
        }
        acceptedConnections := acceptedConnections[newId := [stream]];
        assert step == Waiting(before[newId := [greeted]]);
      }
      bonded := None;
    }

    /** `accept`: takes connections from `conns` in arrival order until one
        completes a group, and returns that group as a new bonded stream
        starting at its first link with no frame in progress. A new client
        of a listener with bond size 0 or 1 is bonded on its first link. */
    method Accept(conns: seq<Link>, newIds: seq<Cid>) returns (bonded: Option<BondTcpStream>, used: nat)
      requires Valid() && |newIds| == |conns|
      modifies this
      ensures Valid()
      ensures var run := AcceptRun(old(acceptedConnections), streamNum, conns, newIds);
        && acceptedConnections == run.groups
        && used == run.used
        && (bonded.Some? <==> run.bonded.Some?)
        && (bonded.Some? ==>
              && fresh(bonded.value) && bonded.value.Valid()
              && bonded.value.links == run.bonded.value
              && |bonded.value.links| == ConnectLinkCount(streamNum)
              && bonded.value.nextStream == 0 && bonded.value.readable == 0)
    {
      var i := 0;
      while i < |conns|
        invariant i <= |conns| && Valid()
        invariant AcceptRun(old(acceptedConnections), streamNum, conns, newIds) ==
          var run := AcceptRun(acceptedConnections, streamNum, conns[i..], newIds[i..]);
          run.(used := run.used + i)
      {
        assert conns[i..][0] == conns[i] && newIds[i..][0] == newIds[i];
        assert conns[i..][1..] == conns[i + 1..] && newIds[i..][1..] == newIds[i + 1..];
        if AcceptStep(acceptedConnections, streamNum, conns[i], newIds[i]).Waiting? {
          AcceptRunWaiting(acceptedConnections, streamNum, conns[i..], newIds[i..]);
        } else {
          AcceptRunBonded(acceptedConnections, streamNum, conns[i..], newIds[i..]);
        }
        var s := AcceptOne(conns[i], newIds[i]);
        if s.Some? {
          return s, i + 1;
        }
        i := i + 1;
      }
      bonded, used := None, |conns|;
    }
  }
}
