/** The server: the Offer it broadcasts, the reliable-channel handler that
    answers a size line with filler, and the datagram handler that answers a
    Request with a stream of Payload segments. */
module Server {
  import opened Wrappers
  import opened Wire
  import opened TcpLine

  const ServerUdpPort: nat := 12345
  const ServerTcpPort: nat := 54321
  const FillerByte: Byte := 65  // 'A'
  /** The buffer size of the server's recv and recvfrom calls. */
  const RecvSize: nat := 1024

  /** The datagram broadcast_offers sends every second: the Offer, addressed
      to the broadcast address on the discovery port. */
  function BroadcastDatagram(udpPort: int, tcpPort: int): (r: Result<Datagram, StructError>)
    ensures r.Ok? <==> 0 <= udpPort < 0x1_0000 && 0 <= tcpPort < 0x1_0000
    ensures r.Ok? ==> r.value.peer.port == DiscoveryPort && |r.value.data| == 9
  {
    match PackOffer(udpPort, tcpPort)
    case Err(e) => Err(e)
    case Ok(offer) => Ok(Datagram(Address("<broadcast>", DiscoveryPort), offer))
  }

  /** With the ports start_server chooses, the broadcast Offer is these nine
      bytes. */
  lemma ServerOffer()
    ensures BroadcastDatagram(ServerUdpPort, ServerTcpPort).Ok?
    ensures BroadcastDatagram(ServerUdpPort, ServerTcpPort).value.data
         == [0xab, 0xcd, 0xdc, 0xba, 0x2, 0x30, 0x39, 0xd4, 0x31]
  {
    OfferLayout(ServerUdpPort, ServerTcpPort);
  }

  // The reliable channel.

  /** sys.maxsize on a 64-bit CPython: the largest Py_ssize_t. */
  const MaxSize: int := 0x7fff_ffff_ffff_ffff

  /** A repeat count b'A' * n accepts: one that fits a Py_ssize_t. Any other
      count makes the multiplication raise OverflowError. */
  predicate IndexSized(n: int) { -MaxSize - 1 <= n <= MaxSize }

  /** What ends handle_client without a reply: the ValueError of int(), or the
      OverflowError of b'A' * n. The handler catches both. */
  datatype TcpError = BadLine(cause: ValueError) | Overflow

  /** handle_client on the reliable channel: the bytes the server writes back
      for the bytes its first recv returned, or the error that closes the
      connection without a reply. */
  function HandleTcpClient(received: seq<Byte>): (r: Result<seq<Byte>, TcpError>)
    ensures r.Ok? ==> forall i :: 0 <= i < |r.value| ==> r.value[i] == FillerByte
    ensures r.Ok? <==> var p := ParseInt(Truncate(received, RecvSize)); p.Ok? && IndexSized(p.value)
    ensures ParseInt(Truncate(received, RecvSize)).Err? ==> r == Err(BadLine(ParseInt(Truncate(received, RecvSize)).error))
    ensures var p := ParseInt(Truncate(received, RecvSize)); p.Ok? && !IndexSized(p.value) ==> r == Err(Overflow)
    ensures r.Ok? ==> |r.value| == var n := ParseInt(Truncate(received, RecvSize)).value; if n <= 0 then 0 else n
  {
    match ParseInt(Truncate(received, RecvSize))
    case Err(e) => Err(BadLine(e))
    case Ok(n) => if IndexSized(n) then Ok(Repeat(FillerByte, n)) else Err(Overflow)
  }

  // The datagram channel.

  predicate IsRequest(r: RequestFields)
  {
    r.magicCookie == MagicCookie && r.messageType == RequestType
  }

  /** One Payload datagram: the header for segment of totalSegments, then
      SegmentSize filler bytes. */
  function Payload(totalSegments: nat, segment: nat): (p: seq<Byte>)
    requires segment < totalSegments < 0x1_0000_0000_0000_0000
    ensures |p| == 21 + SegmentSize
  {
    PackPayloadHeader(totalSegments, segment).value + Repeat(FillerByte, SegmentSize)
  }

  /** The Payloads for segments 0, 1, ..., totalSegments - 1, in that order. */
  function PayloadStream(totalSegments: nat): (s: seq<seq<Byte>>)
    requires totalSegments < 0x1_0000_0000_0000_0000
  {
    seq(totalSegments, i requires 0 <= i < totalSegments => Payload(totalSegments, i))
  }

  /** How many Payloads go out before the first sendto that raises. */
  function SentCount(totalSegments: nat, sendFailsAt: Option<nat>): (n: nat)
    ensures n <= totalSegments
    ensures sendFailsAt.None? ==> n == totalSegments
    ensures sendFailsAt.Some? && sendFailsAt.value < totalSegments ==> n == sendFailsAt.value
  {
    if sendFailsAt.Some? && sendFailsAt.value < totalSegments then sendFailsAt.value else totalSegments
  }

  function Addressed(peer: Address, packets: seq<seq<Byte>>): (r: seq<Datagram>)
    ensures |r| == |packets|
    ensures forall i :: 0 <= i < |r| ==> r[i] == Datagram(peer, packets[i])
  {
    seq(|packets|, i requires 0 <= i < |packets| => Datagram(peer, packets[i]))
  }

  /** The inner for loop of udp_server_handler: send every segment in order,
      and stop at the first send that raises. */
  method SendSegments(totalSegments: nat, sendFailsAt: Option<nat>) returns (sent: seq<seq<Byte>>)
    requires totalSegments < 0x1_0000_0000_0000_0000
    ensures sent == PayloadStream(totalSegments)[..SentCount(totalSegments, sendFailsAt)]
  {
    sent := [];
    for segment := 0 to totalSegments
      invariant sent == PayloadStream(totalSegments)[..segment]
      invariant sendFailsAt.Some? ==> segment <= sendFailsAt.value
    {
      if sendFailsAt == Some(segment) {
        assert SentCount(totalSegments, sendFailsAt) == segment;
        break;
      }
      StreamSnoc(totalSegments, segment);
      sent := sent + [Payload(totalSegments, segment)];
    }
  }

  lemma StreamSnoc(totalSegments: nat, k: nat)
    requires k < totalSegments < 0x1_0000_0000_0000_0000
    ensures PayloadStream(totalSegments)[..k + 1] == PayloadStream(totalSegments)[..k] + [Payload(totalSegments, k)]
  {
  }

  /** A datagram reaching the server's port, with the segment index (if any)
      whose sendto the network makes raise while answering it. */
  datatype Arrival = Arrival(datagram: Datagram, sendFailsAt: Option<nat>)

  /** What the server sends in answer to one arrival. A datagram that is not
      exactly 13 bytes makes struct.unpack raise, which the handler catches;
      a wrong cookie or type is ignored. */
  function Replies(a: Arrival): (r: seq<Datagram>)
    ensures r != [] ==> |a.datagram.data| == 13
    ensures forall i :: 0 <= i < |r| ==> r[i].peer == a.datagram.peer && |r[i].data| == 21 + SegmentSize
  {
    match UnpackRequest(Truncate(a.datagram.data, RecvSize))
    case Err(_) => []
    case Ok(request) =>
      if IsRequest(request) then
        var total := SegmentCount(request.fileSize);
        Addressed(a.datagram.peer, PayloadStream(total)[..SentCount(total, a.sendFailsAt)])
      else []
  }

  /** Everything the handler sends for a sequence of arrivals. */
  function Served(inbox: seq<Arrival>): (r: seq<Datagram>)
    ensures forall i :: 0 <= i < |r| ==> |r[i].data| == 21 + SegmentSize
    ensures forall d :: d in r ==> exists j :: 0 <= j < |inbox| && d in Replies(inbox[j])
  {
    if inbox == [] then [] else Served(inbox[..|inbox| - 1]) + Replies(inbox[|inbox| - 1])
  }

  /** udp_server_handler's outer loop over the datagrams it receives; the loop
      ends when no datagram is left. */
  method UdpServerHandler(inbox: seq<Arrival>) returns (outbox: seq<Datagram>)
    ensures outbox == Served(inbox)
  {
    outbox := [];
    for i := 0 to |inbox|
      invariant outbox == Served(inbox[..i])
    {
      var a := inbox[i];
      ghost var before := outbox;
      var request := UnpackRequest(Truncate(a.datagram.data, RecvSize));
      if request.Ok? && IsRequest(request.value) {
        var total := SegmentCount(request.value.fileSize);
        var sent := SendSegments(total, a.sendFailsAt);
        outbox := outbox + Addressed(a.datagram.peer, sent);
      }
      assert outbox == before + Replies(a);
      ServedSnoc(inbox, i);
    }
    assert inbox[..|inbox|] == inbox;
  }

  lemma ServedSnoc(inbox: seq<Arrival>, i: nat)
    requires i < |inbox|
    ensures Served(inbox[..i + 1]) == Served(inbox[..i]) + Replies(inbox[i])
  {
    assert inbox[..i + 1][..i] == inbox[..i];
  }

  /** Every Payload is 1045 bytes: a header naming the cookie, PAYLOAD_TYPE,
      totalSegments and the segment, then 1024 bytes of 'A'. */
  lemma PayloadLayout(totalSegments: nat, segment: nat)
    requires segment < totalSegments < 0x1_0000_0000_0000_0000
    ensures |Payload(totalSegments, segment)| == 1045
    ensures UnpackPayloadHeader(Payload(totalSegments, segment)[..21])
         == Ok(PayloadFields(MagicCookie, PayloadType, totalSegments, segment))
    ensures Payload(totalSegments, segment)[21..] == Repeat(FillerByte, SegmentSize)
  {
    PayloadHeaderRoundTrip(totalSegments, segment);
    var p := Payload(totalSegments, segment);
    assert p[..21] == PackPayloadHeader(totalSegments, segment).value;
  }

  /** A datagram is answered only if it is exactly a Request: 13 bytes, the
      cookie and REQUEST_TYPE. Every answer goes to the requester, carries the
      same totalSegments and the indices 0, 1, ... in order. */
  lemma RepliesOnlyToRequests(a: Arrival)
    requires Replies(a) != []
    ensures |a.datagram.data| == 13
    ensures UnpackRequest(a.datagram.data).Ok? && IsRequest(UnpackRequest(a.datagram.data).value)
    ensures var total := SegmentCount(UnpackRequest(a.datagram.data).value.fileSize);
      forall i :: 0 <= i < |Replies(a)| ==>
        && Replies(a)[i].peer == a.datagram.peer
        && UnpackPayloadHeader(Replies(a)[i].data[..21]) == Ok(PayloadFields(MagicCookie, PayloadType, total, i))
  {
    var data := Truncate(a.datagram.data, RecvSize);
    var request := UnpackRequest(data).value;
    var total := SegmentCount(request.fileSize);
    forall i | 0 <= i < |Replies(a)|
      ensures UnpackPayloadHeader(Replies(a)[i].data[..21]) == Ok(PayloadFields(MagicCookie, PayloadType, total, i))
    {
      PayloadLayout(total, i);
    }
  }
}
