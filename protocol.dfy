/** Properties that relate what one side sends to what the other side makes of
    it: discovery, the reliable exchange and the datagram transfer. */
module Protocol {
  import opened Wrappers
  import opened Wire
  import opened TcpLine
  import opened Server
  import opened Client

  // Discovery.

  /** The server's Offer, received from any address, starts exactly one
      session with the advertised ports in handle_offer's argument order. */
  lemma BroadcastStartsSession(from: Address, udpPort: int, tcpPort: int)
    requires 0 <= udpPort < 0x1_0000 && 0 <= tcpPort < 0x1_0000
    ensures PackOffer(udpPort, tcpPort).Ok?
    ensures Listen([Datagram(from, PackOffer(udpPort, tcpPort).value)])
         == Listening([Session(from.host, tcpPort, udpPort)], None)
  {
    OfferRoundTrip(udpPort, tcpPort);
    var d := Datagram(from, PackOffer(udpPort, tcpPort).value);
    assert [d][1..] == [];
  }

  // The reliable channel.

  function Pow10(k: nat): (r: nat)
    ensures r >= 1
  {
    if k == 0 then 1 else 10 * Pow10(k - 1)
  }

  lemma {:induction false} DecimalLength(n: nat, k: nat)
    requires 1 <= k && n < Pow10(k)
    ensures |Decimal(n)| <= k
  {
    if n >= 10 {
      DecimalLength(n / 10, k - 1);
    }
  }

  /** The client's line for any size whose digits fit the server's 1024-byte
      recv is answered with exactly that many 'A' bytes, none when the size is
      zero or negative, as long as the size fits a Py_ssize_t; a larger size
      gets no reply at all. */
  lemma TcpExchange(fileSize: int)
    requires |RequestLine(fileSize)| <= RecvSize
    ensures IndexSized(fileSize) ==> HandleTcpClient(RequestLine(fileSize)) == Ok(Repeat(FillerByte, fileSize))
    ensures IndexSized(fileSize) ==>
      |HandleTcpClient(RequestLine(fileSize)).value| == if fileSize <= 0 then 0 else fileSize
    ensures !IndexSized(fileSize) ==> HandleTcpClient(RequestLine(fileSize)) == Err(Overflow)
  {
    var line := RequestLine(fileSize);
    assert Truncate(line, RecvSize) == line;
    ParseRequestLine(fileSize);
    assert ParseInt(Truncate(line, RecvSize)) == Ok(fileSize);
  }

  /** The line for 2^63 parses, but the server's b'A' * n overflows and the
      client gets nothing back. */
  lemma TcpOverflow()
    ensures |RequestLine(MaxSize + 1)| == 20
    ensures HandleTcpClient(RequestLine(MaxSize + 1)) == Err(Overflow)
  {
    assert Pow10(6) == 1000000;
    assert Pow10(12) == 1000000000000;
    assert Pow10(18) == 1000000000000000000;
    assert Pow10(19) == 10000000000000000000;
    DecimalLength(MaxSize + 1, 19);
    DecimalAtLeast(MaxSize + 1, 19);
    TcpExchange(MaxSize + 1);
  }

  /** The 1 GiB test handle_offer starts: an 11-byte line, answered in full. */
  lemma ClientTcpExchange()
    ensures |RequestLine(Client.FileSize)| == 11
    ensures HandleTcpClient(RequestLine(Client.FileSize)) == Ok(Repeat(FillerByte, Client.FileSize))
  {
    assert Pow10(10) == 10000000000;
    DecimalLength(Client.FileSize, 10);
    assert Client.FileSize >= 10;
    assert |RequestLine(Client.FileSize)| == 11 by {
      var d := Decimal(Client.FileSize);
      assert |d| >= 10 by {
        assert Decimal(Client.FileSize) == Decimal(Client.FileSize / 10) + [Zero + Client.FileSize % 10];
        DecimalAtLeast(Client.FileSize / 10, 9);
      }
    }
    TcpExchange(Client.FileSize);
  }

  lemma {:induction false} DecimalAtLeast(n: nat, k: nat)
    requires 1 <= k && Pow10(k - 1) <= n
    ensures |Decimal(n)| >= k
  {
    if k > 1 {
      DecimalAtLeast(n / 10, k - 1);
    }
  }

  // The datagram channel.

  /** The client's Request is answered, to its sender, with the Payloads for
      segments 0, 1, ... up to the first failed send, file_size // 1024 of them
      when no send fails. */
  lemma ReplyToRequest(peer: Address, fileSize: int, sendFailsAt: Option<nat>)
    requires 0 <= fileSize < 0x1_0000_0000_0000_0000
    ensures PackRequest(fileSize).Ok?
    ensures var total := SegmentCount(fileSize);
      Replies(Arrival(Datagram(peer, PackRequest(fileSize).value), sendFailsAt))
      == Addressed(peer, PayloadStream(total)[..SentCount(total, sendFailsAt)])
    ensures sendFailsAt.None? ==>
      |Replies(Arrival(Datagram(peer, PackRequest(fileSize).value), sendFailsAt))| == fileSize / 1024
  {
    RequestRoundTrip(fileSize);
  }

  /** The server's total_segments and the client's expected_segments are the
      same number for the same file_size. */
  lemma TotalsAgree(peer: Address, fileSize: int, sendFailsAt: Option<nat>, inbox: seq<seq<Byte>>, headerSlice: nat)
    requires 0 <= fileSize < 0x1_0000_0000_0000_0000
    ensures UdpTestOutcome(fileSize, inbox, headerSlice).Finished? ==>
      UdpTestOutcome(fileSize, inbox, headerSlice).expected == SegmentCount(fileSize)
    ensures var replies := Replies(Arrival(Datagram(peer, PackRequest(fileSize).value), sendFailsAt));
      forall i :: 0 <= i < |replies| ==>
        UnpackPayloadHeader(replies[i].data[..21]).Ok? &&
        UnpackPayloadHeader(replies[i].data[..21]).value.totalSegments == SegmentCount(fileSize)
  {
    ClientExpects(fileSize, inbox, headerSlice);
    ServerTotals(peer, fileSize, sendFailsAt);
  }

  lemma ClientExpects(fileSize: int, inbox: seq<seq<Byte>>, headerSlice: nat)
    requires 0 <= fileSize < 0x1_0000_0000_0000_0000
    ensures UdpTestOutcome(fileSize, inbox, headerSlice).Finished? ==>
      UdpTestOutcome(fileSize, inbox, headerSlice).expected == SegmentCount(fileSize)
  {
  }

  lemma ServerTotals(peer: Address, fileSize: int, sendFailsAt: Option<nat>)
    requires 0 <= fileSize < 0x1_0000_0000_0000_0000
    ensures var replies := Replies(Arrival(Datagram(peer, PackRequest(fileSize).value), sendFailsAt));
      forall i :: 0 <= i < |replies| ==>
        UnpackPayloadHeader(replies[i].data[..21]).Ok? &&
        UnpackPayloadHeader(replies[i].data[..21]).value.totalSegments == SegmentCount(fileSize)
  {
    ReplyToRequest(peer, fileSize, sendFailsAt);
    var total := SegmentCount(fileSize);
    var replies := Replies(Arrival(Datagram(peer, PackRequest(fileSize).value), sendFailsAt));
    forall i | 0 <= i < |replies|
      ensures UnpackPayloadHeader(replies[i].data[..21]) == Ok(PayloadFields(MagicCookie, PayloadType, total, i))
    {
      PayloadLayout(total, i);
    }
  }

  /** The datagrams that reach the client when the network delivers the
      server's Payloads for the listed segments, in the listed order: any
      pattern of loss, duplication and reordering. */
  function Deliver(totalSegments: nat, delivered: seq<nat>): (inbox: seq<seq<Byte>>)
    requires totalSegments < 0x1_0000_0000_0000_0000
    requires forall j :: 0 <= j < |delivered| ==> delivered[j] < totalSegments
    ensures |inbox| == |delivered|
    ensures forall j :: 0 <= j < |inbox| ==> inbox[j] == Payload(totalSegments, delivered[j])
  {
    seq(|delivered|, j requires 0 <= j < |delivered| => Payload(totalSegments, delivered[j]))
  }

  /** The indices below n. */
  function Below(n: nat): (r: set<nat>)
    ensures |r| == n
    ensures forall i: nat :: i in r <==> i < n
  {
    if n == 0 then {} else Below(n - 1) + {n - 1}
  }

  /** With the 21-byte slice, the client ends with exactly the distinct
      segments the network delivered. */
  lemma {:induction false} CollectDelivered(received: set<nat>, totalSegments: nat, delivered: seq<nat>)
    requires totalSegments < 0x1_0000_0000_0000_0000
    requires forall j :: 0 <= j < |delivered| ==> delivered[j] < totalSegments
    ensures Collect(received, Deliver(totalSegments, delivered), CorrectedSlice)
         == Ok(received + (set x: nat | x in delivered))
    decreases |delivered|
  {
    var inbox := Deliver(totalSegments, delivered);
    if delivered == [] {
      assert inbox == [];
      assert (set x: nat | x in delivered) == {};
      assert received + {} == received;
    } else {
      var d := delivered[0];
      CollectDeliveredStep(received, totalSegments, delivered);
      CollectDelivered(received + {d}, totalSegments, delivered[1..]);
      ElementsCons(delivered);
      assert received + {d} + (set x: nat | x in delivered[1..]) == received + (set x: nat | x in delivered);
    }
  }

  /** One step of the corrected loop over delivered Payloads. */
  lemma CollectDeliveredStep(received: set<nat>, totalSegments: nat, delivered: seq<nat>)
    requires totalSegments < 0x1_0000_0000_0000_0000
    requires delivered != []
    requires forall j :: 0 <= j < |delivered| ==> delivered[j] < totalSegments
    ensures Collect(received, Deliver(totalSegments, delivered), CorrectedSlice)
         == Collect(received + {delivered[0]}, Deliver(totalSegments, delivered[1..]), CorrectedSlice)
  {
    var inbox := Deliver(totalSegments, delivered);
    assert inbox[0] == Payload(totalSegments, delivered[0]);
    TrackPayload(received, totalSegments, delivered[0]);
    assert inbox[1..] == Deliver(totalSegments, delivered[1..]);
  }

  /** The corrected loop adds a server Payload's segment to the set. */
  lemma TrackPayload(received: set<nat>, totalSegments: nat, segment: nat)
    requires segment < totalSegments < 0x1_0000_0000_0000_0000
    ensures Track(received, Payload(totalSegments, segment), CorrectedSlice) == Ok(received + {segment})
  {
    PayloadLayout(totalSegments, segment);
    assert Header(Payload(totalSegments, segment), CorrectedSlice) == Payload(totalSegments, segment)[..21];
  }

  lemma ElementsCons(s: seq<nat>)
    requires s != []
    ensures (set x: nat | x in s) == {s[0]} + (set x: nat | x in s[1..])
  {
  }

  /** The corrected test finishes with the set of delivered segments, and its
      success rate is at most 100 whatever the network did. */
  lemma CorrectedUdpTest(fileSize: int, delivered: seq<nat>)
    requires 0 <= fileSize < 0x1_0000_0000_0000_0000
    requires forall j :: 0 <= j < |delivered| ==> delivered[j] < SegmentCount(fileSize)
    ensures var total := SegmentCount(fileSize);
      && UdpTestOutcome(fileSize, Deliver(total, delivered), CorrectedSlice) == Finished((set x: nat | x in delivered), total)
      && SuccessRate(|set x: nat | x in delivered|, total) <= 100.0
  {
    var total := SegmentCount(fileSize);
    var got := set x: nat | x in delivered;
    CollectDelivered({}, total, delivered);
    assert {} + got == got;
    assert PackRequest(fileSize).Ok?;
    assert UdpTestOutcome(fileSize, Deliver(total, delivered), CorrectedSlice) == Finished(got, total);
    SubsetSize(got, Below(total));
  }

  /** A 2048-byte request makes two segments; if segment 1 is lost the
      corrected client reports 50%, and the code as written fails. */
  lemma HalfLost()
    ensures UdpTestOutcome(2048, Deliver(2, [0]), CorrectedSlice) == Finished({0}, 2)
    ensures SuccessRate(1, 2) == 50.0
    ensures UdpTestOutcome(2048, Deliver(2, [0]), AsWrittenSlice) == Failed(BufferSize(21, 20))
  {
    HalfLostCorrected();
    HalfLostAsWritten();
  }

  lemma HalfLostCorrected()
    ensures UdpTestOutcome(2048, Deliver(2, [0]), CorrectedSlice) == Finished({0}, 2)
  {
    CorrectedUdpTest(2048, [0]);
    assert (set x: nat | x in [0]) == {0};
  }

  lemma HalfLostAsWritten()
    ensures UdpTestOutcome(2048, Deliver(2, [0]), AsWrittenSlice) == Failed(BufferSize(21, 20))
  {
  }

  lemma {:induction false} SubsetSize<T>(a: set<T>, b: set<T>)
    requires a <= b
    ensures |a| <= |b|
    decreases |b|
  {
    if a != {} {
      var x :| x in a;
      SubsetSize(a - {x}, b - {x});
    }
  }

  /** The bytes of each datagram, in order: what the client's recvfrom calls
      return for the datagrams the server sent. */
  function DataOf(ds: seq<Datagram>): (r: seq<seq<Byte>>)
    ensures |r| == |ds|
    ensures forall i :: 0 <= i < |r| ==> r[i] == ds[i].data
  {
    seq(|ds|, i requires 0 <= i < |ds| => ds[i].data)
  }

  /** End to end: when every Payload the server sends for the client's
      Request arrives, the corrected client counts every segment (100% when
      there is at least one), while the code as written fails on the first. */
  lemma LosslessTransfer(peer: Address, fileSize: int)
    requires 0 <= fileSize < 0x1_0000_0000_0000_0000
    ensures PackRequest(fileSize).Ok?
    ensures var inbox := DataOf(Replies(Arrival(Datagram(peer, PackRequest(fileSize).value), None)));
      && UdpTestOutcome(fileSize, inbox, CorrectedSlice) == Finished(Below(SegmentCount(fileSize)), SegmentCount(fileSize))
      && (fileSize >= SegmentSize ==> UdpTestOutcome(fileSize, inbox, AsWrittenSlice).Failed?)
  {
    var total := SegmentCount(fileSize);
    var all := seq(total, i => i);
    AllReplies(peer, fileSize, all);
    CorrectedUdpTest(fileSize, all);
    BelowAll(total, all);
    AsWrittenFailsOnAnyDatagram(fileSize, DataOf(Replies(Arrival(Datagram(peer, PackRequest(fileSize).value), None))));
  }

  /** Without send failures the server's replies deliver every segment once, in order. */
  lemma AllReplies(peer: Address, fileSize: int, all: seq<nat>)
    requires 0 <= fileSize < 0x1_0000_0000_0000_0000
    requires |all| == SegmentCount(fileSize) && forall i :: 0 <= i < |all| ==> all[i] == i
    ensures PackRequest(fileSize).Ok?
    ensures DataOf(Replies(Arrival(Datagram(peer, PackRequest(fileSize).value), None))) == Deliver(|all|, all)
  {
    ReplyToRequest(peer, fileSize, None);
    var total := |all|;
    var replies := Replies(Arrival(Datagram(peer, PackRequest(fileSize).value), None));
    assert replies == Addressed(peer, PayloadStream(total));
    var inbox := DataOf(replies);
    forall i | 0 <= i < total ensures inbox[i] == Payload(total, all[i]) {
      assert replies[i].data == PayloadStream(total)[i];
    }
  }

  lemma BelowAll(n: nat, all: seq<nat>)
    requires |all| == n && forall i :: 0 <= i < n ==> all[i] == i
    ensures (set x: nat | x in all) == Below(n)
  {
    forall i | i in Below(n) ensures i in all { assert all[i] == i; }
  }
}
