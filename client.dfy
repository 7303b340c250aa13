/** The client: the discovery loop that turns Offers into transfer sessions,
    and the datagram test that counts the distinct segments it receives. */
module Client {
  import opened Wrappers
  import opened Wire

  /** The size handle_offer asks both transfers for: 1 GiB. */
  const FileSize: nat := 1024 * 1024 * 1024
  /** The buffer sizes of the client's two recvfrom calls. */
  const OfferRecvSize: nat := 1024
  const PayloadRecvSize: nat := 2048
  /** The slice udp_test unpacks, data[:20], and the header length the
      '!IBQQ' format needs. */
  const AsWrittenSlice: nat := 20
  const CorrectedSlice: nat := 21

  // Discovery.

  /** A call handle_offer(server_ip, tcp_port, udp_port). */
  datatype Session = Session(serverIp: string, tcpPort: nat, udpPort: nat)

  predicate IsOffer(o: OfferFields)
  {
    o.magicCookie == MagicCookie && o.messageType == OfferType
  }

  /** One pass of listen_for_offers' loop: the session the datagram starts, if
      any, or the struct.error its unpack raises. */
  function OfferStep(d: Datagram): (r: Result<Option<Session>, StructError>)
    ensures r.Ok? <==> |Truncate(d.data, OfferRecvSize)| == 9
    ensures r.Ok? && r.value.Some? ==> r.value.value.serverIp == d.peer.host
  {
    match UnpackOffer(Truncate(d.data, OfferRecvSize))
    case Err(e) => Err(e)
    case Ok(o) => Ok(if IsOffer(o) then Some(Session(d.peer.host, o.tcpPort, o.udpPort)) else None)
  }

  /** The sessions started, in order, and the error that ended the loop, if
      one did; nothing in listen_for_offers catches it. */
  datatype Listening = Listening(sessions: seq<Session>, failure: Option<StructError>)

  function Listen(inbox: seq<Datagram>): (r: Listening)
    ensures |r.sessions| <= |inbox|
    ensures inbox == [] ==> r == Listening([], None)
  {
    if inbox == [] then Listening([], None)
    else
      match OfferStep(inbox[0])
      case Err(e) => Listening([], Some(e))
      case Ok(s) =>
        var rest := Listen(inbox[1..]);
        Listening((if s.Some? then [s.value] else []) + rest.sessions, rest.failure)
  }

  /** listen_for_offers over the datagrams that reach the discovery port; the
      loop ends when none is left or an unpack raises. */
  method ListenForOffers(inbox: seq<Datagram>) returns (sessions: seq<Session>, failure: Option<StructError>)
    ensures Listening(sessions, failure) == Listen(inbox)
  {
    sessions := [];
    var i := 0;
    while i < |inbox|
      invariant 0 <= i <= |inbox|
      invariant Listen(inbox).sessions == sessions + Listen(inbox[i..]).sessions
      invariant Listen(inbox).failure == Listen(inbox[i..]).failure
    {
      ListenUnfold(inbox, i);
      var step := OfferStep(inbox[i]);
      if step.Err? {
        assert Listen(inbox[i..]).sessions == [];
        assert sessions + [] == sessions;
        return sessions, Some(step.error);
      }
      ghost var later := Listen(inbox[i + 1..]);
      if step.value.Some? {
        assert Listen(inbox[i..]).sessions == [step.value.value] + later.sessions;
        sessions := sessions + [step.value.value];
      } else {
        assert Listen(inbox[i..]).sessions == later.sessions;
      }
      i := i + 1;
    }
    assert inbox[i..] == [];
    assert sessions + [] == sessions;
    failure := None;
  }

  /** Listen on a suffix of the inbox, one datagram at a time. */
  lemma ListenUnfold(inbox: seq<Datagram>, i: nat)
    requires i < |inbox|
    ensures OfferStep(inbox[i]).Err? ==> Listen(inbox[i..]) == Listening([], Some(OfferStep(inbox[i]).error))
    ensures OfferStep(inbox[i]).Ok? ==>
      var s := OfferStep(inbox[i]).value;
      Listen(inbox[i..]) == Listening((if s.Some? then [s.value] else []) + Listen(inbox[i + 1..]).sessions,
                                      Listen(inbox[i + 1..]).failure)
  {
  }

  /** The loop ends with an error exactly when some datagram is not 9 bytes
      long, and every session it starts comes from an accepted Offer. */
  lemma {:induction false} ListenFailsIffMalformed(inbox: seq<Datagram>)
    ensures Listen(inbox).failure.Some?
        <==> exists j :: 0 <= j < |inbox| && |Truncate(inbox[j].data, OfferRecvSize)| != 9
  {
    if inbox != [] {
      ListenFailsIffMalformed(inbox[1..]);
      if OfferStep(inbox[0]).Ok? {
        forall j | 0 < j < |inbox| ensures inbox[j] == inbox[1..][j - 1] { }
      }
    }
  }

  /** A datagram whose first 1024 bytes are not 9 bytes long ends the loop at
      once, with the buffer-size error of its unpack and no session from any
      later datagram. */
  lemma StopsAtMalformed(d: Datagram, rest: seq<Datagram>)
    requires |Truncate(d.data, OfferRecvSize)| != 9
    ensures Listen([d] + rest) == Listening([], Some(BufferSize(9, |Truncate(d.data, OfferRecvSize)|)))
  {
  }

  /** The loop stops at the first malformed datagram j: its sessions are those
      of the datagrams before j, and its error is j's buffer-size error. */
  lemma {:induction false} ListenStopsAtFirstMalformed(inbox: seq<Datagram>, j: nat)
    requires j < |inbox| && |Truncate(inbox[j].data, OfferRecvSize)| != 9
    requires forall k :: 0 <= k < j ==> |Truncate(inbox[k].data, OfferRecvSize)| == 9
    ensures Listen(inbox)
         == Listening(Listen(inbox[..j]).sessions, Some(BufferSize(9, |Truncate(inbox[j].data, OfferRecvSize)|)))
  {
    if j == 0 {
      assert inbox == [inbox[0]] + inbox[1..];
      StopsAtMalformed(inbox[0], inbox[1..]);
    } else {
      var tail := inbox[1..];
      forall k | 0 <= k < j - 1 ensures |Truncate(tail[k].data, OfferRecvSize)| == 9 {
        assert tail[k] == inbox[k + 1];
      }
      assert tail[j - 1] == inbox[j];
      ListenStopsAtFirstMalformed(tail, j - 1);
      assert inbox[..j][0] == inbox[0] && inbox[..j][1..] == tail[..j - 1];
    }
  }

  lemma {:induction false} ListenSessionsFromOffers(inbox: seq<Datagram>)
    ensures forall s :: s in Listen(inbox).sessions ==>
      exists j :: 0 <= j < |inbox| && OfferStep(inbox[j]) == Ok(Some(s))
  {
    if inbox != [] && OfferStep(inbox[0]).Ok? {
      ListenSessionsFromOffers(inbox[1..]);
      forall s | s in Listen(inbox).sessions
        ensures exists j :: 0 <= j < |inbox| && OfferStep(inbox[j]) == Ok(Some(s))
      {
        if s !in Listen(inbox[1..]).sessions {
          assert OfferStep(inbox[0]) == Ok(Some(s));
        } else {
          var j :| 0 <= j < |inbox[1..]| && OfferStep(inbox[1..][j]) == Ok(Some(s));
          assert inbox[1..][j] == inbox[j + 1];
        }
      }
    }
  }

  /** A 9-byte datagram without the cookie or OFFER_TYPE is dropped silently. */
  lemma ListenSkipsForeign(d: Datagram, rest: seq<Datagram>)
    requires |d.data| == 9 && !IsOffer(UnpackOffer(d.data).value)
    ensures Listen([d] + rest) == Listen(rest)
  {
    assert ([d] + rest)[1..] == rest;
  }

  /** An accepted Offer starts handle_offer with the address it came from and
      its ports in the order tcp_port, udp_port. */
  lemma OfferStartsSession(d: Datagram, rest: seq<Datagram>)
    requires |d.data| == 9 && IsOffer(UnpackOffer(d.data).value)
    ensures Listen([d] + rest).sessions
         == [Session(d.peer.host, UnpackOffer(d.data).value.tcpPort, UnpackOffer(d.data).value.udpPort)] + Listen(rest).sessions
  {
    assert ([d] + rest)[1..] == rest;
  }

  // The datagram test.

  predicate IsPayload(p: PayloadFields)
  {
    p.magicCookie == MagicCookie && p.messageType == PayloadType
  }

  /** The bytes the loop unpacks: data[:headerSlice] of what recvfrom(2048)
      returned. */
  function Header(datagram: seq<Byte>, headerSlice: nat): (h: seq<Byte>)
    ensures |h| <= headerSlice && h <= datagram
    ensures headerSlice <= |datagram| && headerSlice <= PayloadRecvSize ==> h == datagram[..headerSlice]
  {
    Truncate(Truncate(datagram, PayloadRecvSize), headerSlice)
  }

  /** The datagram's segment is counted: its header unpacks and names the
      cookie and PAYLOAD_TYPE. */
  predicate Accepts(datagram: seq<Byte>, headerSlice: nat)
  {
    var p := UnpackPayloadHeader(Header(datagram, headerSlice));
    p.Ok? && IsPayload(p.value)
  }

  /** One pass of udp_test's receive loop: the new set of received segments,
      or the struct.error that escapes the loop. */
  function Track(received: set<nat>, datagram: seq<Byte>, headerSlice: nat): (r: Result<set<nat>, StructError>)
    ensures r.Ok? <==> |Header(datagram, headerSlice)| == 21
    ensures r.Ok? ==> received <= r.value && |r.value| <= |received| + 1
    ensures r.Ok? && !Accepts(datagram, headerSlice) ==> r.value == received
    ensures r.Ok? && Accepts(datagram, headerSlice) ==>
      r.value == received + {UnpackPayloadHeader(Header(datagram, headerSlice)).value.currentSegment}
  {
    match UnpackPayloadHeader(Header(datagram, headerSlice))
    case Err(e) => Err(e)
    case Ok(p) => Ok(if IsPayload(p) then received + {p.currentSegment} else received)
  }

  /** The receive loop over the datagrams that arrive before the timeout. */
  function Collect(received: set<nat>, inbox: seq<seq<Byte>>, headerSlice: nat): (r: Result<set<nat>, StructError>)
    ensures r.Ok? <==> forall j :: 0 <= j < |inbox| ==> |Header(inbox[j], headerSlice)| == 21
    ensures r.Ok? ==> received <= r.value
    decreases |inbox|
  {
    if inbox == [] then Ok(received)
    else
      match Track(received, inbox[0], headerSlice)
      case Err(e) => Err(e)
      case Ok(next) =>
        assert forall j :: 0 < j < |inbox| ==> inbox[j] == inbox[1..][j - 1];
        Collect(next, inbox[1..], headerSlice)
  }

  /** How udp_test ends: with the distinct segments received and the number
      expected, or with the error its outer handler reports. */
  datatype UdpOutcome = Finished(received: set<nat>, expected: nat) | Failed(error: StructError)

  function UdpTestOutcome(fileSize: int, inbox: seq<seq<Byte>>, headerSlice: nat): (r: UdpOutcome)
    ensures !(0 <= fileSize < 0x1_0000_0000_0000_0000) ==> r == Failed(OutOfRange)
    ensures r.Finished? ==> 0 <= fileSize && r.expected * SegmentSize <= fileSize < (r.expected + 1) * SegmentSize
    ensures r.Finished? <==>
      0 <= fileSize < 0x1_0000_0000_0000_0000 && forall j :: 0 <= j < |inbox| ==> |Header(inbox[j], headerSlice)| == 21
  {
    match PackRequest(fileSize)
    case Err(e) => Failed(e)
    case Ok(_) =>
      match Collect({}, inbox, headerSlice)
      case Err(e) => Failed(e)
      case Ok(r) => Finished(r, SegmentCount(fileSize))
  }

  /** udp_test: send the Request, then fold every datagram that arrives into
      the set of received segment indices. The slice of each datagram it
      unpacks is a parameter: AsWrittenSlice is the code's, CorrectedSlice the
      header length the format needs. */
  method UdpTest(fileSize: int, inbox: seq<seq<Byte>>, headerSlice: nat) returns (outcome: UdpOutcome)
    ensures outcome == UdpTestOutcome(fileSize, inbox, headerSlice)
  {
    var request := PackRequest(fileSize);
    if request.Err? {
      return Failed(request.error);
    }
    var received: set<nat> := {};
    var expected := SegmentCount(fileSize);
    var i := 0;
    while i < |inbox|
      invariant 0 <= i <= |inbox|
      invariant Collect({}, inbox, headerSlice) == Collect(received, inbox[i..], headerSlice)
    {
      assert inbox[i..][0] == inbox[i] && inbox[i..][1..] == inbox[i + 1..];
      var header := UnpackPayloadHeader(Header(inbox[i], headerSlice));
      if header.Err? {
        return Failed(header.error);
      }
      if IsPayload(header.value) {
        received := received + {header.value.currentSegment};
      }
      i := i + 1;
    }
    return Finished(received, expected);
  }

  /** The success rate udp_test reports, in percent, as an exact real. */
  function SuccessRate(received: nat, expected: nat): (rate: real)
    ensures expected == 0 ==> rate == 0.0
    ensures expected > 0 ==> rate * (expected as real) == (received as real) * 100.0
    ensures received <= expected ==> 0.0 <= rate <= 100.0
  {
    if expected > 0 then (received as real) / (expected as real) * 100.0 else 0.0
  }

  /** A segment index already in the set leaves the set, and so its size,
      unchanged. */
  lemma DuplicateKeepsSet(received: set<nat>, datagram: seq<Byte>, headerSlice: nat)
    requires Accepts(datagram, headerSlice)
    requires UnpackPayloadHeader(Header(datagram, headerSlice)).value.currentSegment in received
    ensures Track(received, datagram, headerSlice) == Ok(received)
  {
    var x := UnpackPayloadHeader(Header(datagram, headerSlice)).value.currentSegment;
    assert received + {x} == received;
  }

  /** The number of datagrams whose segment the loop counts. */
  function AcceptedCount(inbox: seq<seq<Byte>>, headerSlice: nat): nat
  {
    if inbox == [] then 0
    else (if Accepts(inbox[0], headerSlice) then 1 else 0) + AcceptedCount(inbox[1..], headerSlice)
  }

  /** The set only grows, and it never gains more elements than there are
      accepted datagrams. */
  lemma {:induction false} CollectBound(received: set<nat>, inbox: seq<seq<Byte>>, headerSlice: nat)
    requires Collect(received, inbox, headerSlice).Ok?
    ensures received <= Collect(received, inbox, headerSlice).value
    ensures |Collect(received, inbox, headerSlice).value| <= |received| + AcceptedCount(inbox, headerSlice)
    decreases |inbox|
  {
    if inbox != [] {
      CollectBound(Track(received, inbox[0], headerSlice).value, inbox[1..], headerSlice);
    }
  }

  /** As written, udp_test unpacks at most 20 bytes with a 21-byte format, so
      the first datagram that arrives ends it with a struct.error and no
      success rate is computed; only a test that receives nothing finishes. */
  lemma AsWrittenFailsOnAnyDatagram(fileSize: int, inbox: seq<seq<Byte>>)
    requires 0 <= fileSize < 0x1_0000_0000_0000_0000
    ensures inbox != [] ==>
      UdpTestOutcome(fileSize, inbox, AsWrittenSlice) == Failed(BufferSize(21, |Header(inbox[0], AsWrittenSlice)|))
    ensures inbox == [] ==> UdpTestOutcome(fileSize, inbox, AsWrittenSlice) == Finished({}, SegmentCount(fileSize))
  {
  }
}
