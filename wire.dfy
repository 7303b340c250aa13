/** The datagram wire format: fixed layouts of unsigned big-endian fields, packed
    and unpacked the way Python's struct module does with a '!' format string
    (network byte order, standard sizes, no padding). */
module Wire {
  import opened Wrappers

  type Byte = b: int | 0 <= b < 256

  const MagicCookie: nat := 0xabcddcba
  const OfferType: nat := 0x2
  const RequestType: nat := 0x3
  const PayloadType: nat := 0x4

  /** The well-known port Offers are broadcast to. */
  const DiscoveryPort: nat := 13117

  /** A struct format, given as the width in bytes of each field:
      'B' is 1, 'H' is 2, 'I' is 4 and 'Q' is 8. */
  type Format = seq<nat>

  const OfferFormat: Format := [4, 1, 2, 2]    // '!IBHH'
  const RequestFormat: Format := [4, 1, 8]     // '!IBQ'
  const PayloadFormat: Format := [4, 1, 8, 8]  // '!IBQQ'

  /** The struct.error raised by pack and unpack. */
  datatype StructError =
    | ArgCount(expected: nat, got: nat)   // pack given the wrong number of values
    | OutOfRange                          // pack given a value the field cannot hold
    | BufferSize(expected: nat, got: nat) // unpack given a buffer of the wrong length

  /** A datagram as handed to or returned from the socket layer. */
  datatype Address = Address(host: string, port: int)
  datatype Datagram = Datagram(peer: Address, data: seq<Byte>)

  function Pow256(n: nat): (r: nat)
    ensures r >= 1
  {
    if n == 0 then 1 else 256 * Pow256(n - 1)
  }

  /** struct.calcsize: the number of bytes a format occupies. */
  function CalcSize(format: Format): (size: nat)
    ensures format != [] ==> format[0] <= size
  {
    if format == [] then 0 else format[0] + CalcSize(format[1..])
  }

  /** The size of a format is at least each field's width, and at least its
      field count when no field is empty. */
  lemma {:induction false} CalcSizeBounds(format: Format)
    ensures forall i :: 0 <= i < |format| ==> format[i] <= CalcSize(format)
    ensures (forall i :: 0 <= i < |format| ==> format[i] >= 1) ==> CalcSize(format) >= |format|
  {
    if format != [] {
      CalcSizeBounds(format[1..]);
      assert forall i :: 0 < i < |format| ==> format[i] == format[1..][i - 1];
    }
  }

  /** The size of two formats written one after the other is the sum of their sizes. */
  lemma {:induction false} CalcSizeConcat(f: Format, g: Format)
    ensures CalcSize(f + g) == CalcSize(f) + CalcSize(g)
  {
    if f != [] {
      assert (f + g)[0] == f[0] && (f + g)[1..] == f[1..] + g;
      CalcSizeConcat(f[1..], g);
    } else {
      assert f + g == g;
    }
  }

  lemma FormatSizes()
    ensures CalcSize(OfferFormat) == 9
    ensures CalcSize(RequestFormat) == 13
    ensures CalcSize(PayloadFormat) == 21
  {
    assert OfferFormat[1..][1..][1..][1..] == [];
    assert RequestFormat[1..][1..][1..] == [];
    assert PayloadFormat[1..][1..][1..][1..] == [];
  }

  /** The first n elements of s, or all of s when it is shorter: the slice s[:n],
      and also what recvfrom(n) returns for a datagram s. */
  function Truncate(s: seq<Byte>, n: nat): (r: seq<Byte>)
    ensures |r| <= n && r <= s
    ensures |s| <= n ==> r == s
    ensures n <= |s| ==> |r| == n
  {
    if |s| <= n then s else s[..n]
  }

  /** x as width bytes, most significant first. */
  function EncodeBE(x: nat, width: nat): (r: seq<Byte>)
    requires x < Pow256(width)
    ensures |r| == width
  {
    if width == 0 then [] else EncodeBE(x / 256, width - 1) + [x % 256]
  }

  /** The unsigned integer whose big-endian bytes are s. */
  function DecodeBE(s: seq<Byte>): (r: nat)
    ensures r < Pow256(|s|)
  {
    if s == [] then 0 else DecodeBE(s[..|s| - 1]) * 256 + s[|s| - 1]
  }

  lemma {:induction false} DecodeEncodeBE(x: nat, width: nat)
    requires x < Pow256(width)
    ensures DecodeBE(EncodeBE(x, width)) == x
  {
    if width > 0 {
      var e := EncodeBE(x, width);
      assert e[..width - 1] == EncodeBE(x / 256, width - 1);
      DecodeEncodeBE(x / 256, width - 1);
    }
  }

  lemma {:induction false} EncodeDecodeBE(s: seq<Byte>)
    ensures EncodeBE(DecodeBE(s), |s|) == s
  {
    if s != [] {
      var init := s[..|s| - 1];
      EncodeDecodeBE(init);
      var x := DecodeBE(s);
      assert x / 256 == DecodeBE(init);
      assert x % 256 == s[|s| - 1];
      assert s == init + [s[|s| - 1]];
    }
  }

  /** Every value fits its field: what struct.pack checks before packing. */
  predicate InRange(format: Format, values: seq<int>)
    requires |values| == |format|
  {
    forall i :: 0 <= i < |format| ==> 0 <= values[i] < Pow256(format[i])
  }

  /** struct.pack with a '!' format of unsigned fields. */
  function Pack(format: Format, values: seq<int>): (r: Result<seq<Byte>, StructError>)
    ensures r.Ok? <==> |values| == |format| && InRange(format, values)
    ensures r.Ok? ==> |r.value| == CalcSize(format)
    ensures r.Err? && |values| == |format| ==> r.error == OutOfRange
  {
    if |values| != |format| then Err(ArgCount(|format|, |values|))
    else PackFields(format, values)
  }

  function PackFields(format: Format, values: seq<int>): (r: Result<seq<Byte>, StructError>)
    requires |values| == |format|
    ensures r.Ok? <==> InRange(format, values)
    ensures r.Ok? ==> |r.value| == CalcSize(format)
    ensures r.Err? ==> r.error == OutOfRange
  {
    if format == [] then Ok([])
    else if !(0 <= values[0] < Pow256(format[0])) then Err(OutOfRange)
    else
      match PackFields(format[1..], values[1..])
      case Err(e) => Err(e)
      case Ok(rest) =>
        assert InRange(format, values) by {
          forall i | 0 < i < |format| ensures 0 <= values[i] < Pow256(format[i]) {
            assert values[i] == values[1..][i - 1] && format[i] == format[1..][i - 1];
          }
        }
        Ok(EncodeBE(values[0], format[0]) + rest)
  }

  /** struct.unpack with a '!' format of unsigned fields: it accepts a buffer of
      exactly CalcSize(format) bytes and raises on anything else. */
  function Unpack(format: Format, data: seq<Byte>): (r: Result<seq<nat>, StructError>)
    ensures r.Ok? <==> |data| == CalcSize(format)
    ensures r.Err? ==> r.error == BufferSize(CalcSize(format), |data|)
    ensures r.Ok? ==> |r.value| == |format|
    ensures r.Ok? ==> forall i :: 0 <= i < |format| ==> r.value[i] < Pow256(format[i])
  {
    if |data| != CalcSize(format) then Err(BufferSize(CalcSize(format), |data|))
    else Ok(UnpackFields(format, data))
  }

  function UnpackFields(format: Format, data: seq<Byte>): (r: seq<nat>)
    requires |data| == CalcSize(format)
    ensures |r| == |format|
    ensures forall i :: 0 <= i < |format| ==> r[i] < Pow256(format[i])
  {
    if format == [] then []
    else [DecodeBE(data[..format[0]])] + UnpackFields(format[1..], data[format[0]..])
  }

  /** Unpacking what was packed gives back the values. */
  lemma {:induction false} UnpackPack(format: Format, values: seq<int>)
    requires Pack(format, values).Ok?
    ensures Unpack(format, Pack(format, values).value).Ok?
    ensures Unpack(format, Pack(format, values).value).value == values
  {
    UnpackPackFields(format, values);
  }

  lemma {:induction false} UnpackPackFields(format: Format, values: seq<int>)
    requires |values| == |format| && PackFields(format, values).Ok?
    ensures UnpackFields(format, PackFields(format, values).value) == values
  {
    if format != [] {
      var rest := PackFields(format[1..], values[1..]).value;
      var data := PackFields(format, values).value;
      assert data == EncodeBE(values[0], format[0]) + rest;
      assert data[..format[0]] == EncodeBE(values[0], format[0]);
      assert data[format[0]..] == rest;
      DecodeEncodeBE(values[0], format[0]);
      UnpackPackFields(format[1..], values[1..]);
    }
  }

  /** Packing what was unpacked gives back the buffer. */
  lemma {:induction false} PackUnpack(format: Format, data: seq<Byte>)
    requires Unpack(format, data).Ok?
    ensures Pack(format, Unpack(format, data).value) == Ok(data)
  {
    PackUnpackFields(format, data);
  }

  lemma {:induction false} PackUnpackFields(format: Format, data: seq<Byte>)
    requires |data| == CalcSize(format)
    ensures PackFields(format, UnpackFields(format, data)) == Ok(data)
  {
    if format != [] {
      var head, tail := data[..format[0]], data[format[0]..];
      var values := UnpackFields(format, data);
      assert |head| == format[0] && values[0] == DecodeBE(head);
      assert values[1..] == UnpackFields(format[1..], tail);
      PackUnpackFields(format[1..], tail);
      assert PackFields(format[1..], values[1..]) == Ok(tail);
      EncodeDecodeBE(head);
      assert EncodeBE(values[0], format[0]) == head;
      assert data == head + tail;
    }
  }

  // The three messages, as the fields struct.unpack returns for them.

  datatype OfferFields = OfferFields(magicCookie: nat, messageType: nat, udpPort: nat, tcpPort: nat)
  datatype RequestFields = RequestFields(magicCookie: nat, messageType: nat, fileSize: nat)
  datatype PayloadFields = PayloadFields(magicCookie: nat, messageType: nat, totalSegments: nat, currentSegment: nat)

  /** struct.pack('!IBHH', MAGIC_COOKIE, OFFER_TYPE, udp_port, tcp_port) */
  function PackOffer(udpPort: int, tcpPort: int): (r: Result<seq<Byte>, StructError>)
    ensures r.Ok? <==> 0 <= udpPort < 0x1_0000 && 0 <= tcpPort < 0x1_0000
    ensures r.Ok? ==> |r.value| == 9
  {
    FormatSizes();
    assert InRange(OfferFormat, [MagicCookie, OfferType, udpPort, tcpPort])
      <==> 0 <= udpPort < 0x1_0000 && 0 <= tcpPort < 0x1_0000;
    Pack(OfferFormat, [MagicCookie, OfferType, udpPort, tcpPort])
  }

  /** struct.pack('!IBQ', MAGIC_COOKIE, REQUEST_TYPE, file_size) */
  function PackRequest(fileSize: int): (r: Result<seq<Byte>, StructError>)
    ensures r.Ok? <==> 0 <= fileSize < 0x1_0000_0000_0000_0000
    ensures r.Ok? ==> |r.value| == 13
    ensures r.Err? ==> r.error == OutOfRange
  {
    FormatSizes();
    assert Pow256(8) == 0x1_0000_0000_0000_0000;
    assert InRange(RequestFormat, [MagicCookie, RequestType, fileSize])
      <==> 0 <= fileSize < 0x1_0000_0000_0000_0000;
    Pack(RequestFormat, [MagicCookie, RequestType, fileSize])
  }

  /** struct.pack('!IBQQ', MAGIC_COOKIE, PAYLOAD_TYPE, total_segments, segment) */
  function PackPayloadHeader(totalSegments: int, segment: int): (r: Result<seq<Byte>, StructError>)
    ensures r.Ok? <==> 0 <= totalSegments < 0x1_0000_0000_0000_0000 && 0 <= segment < 0x1_0000_0000_0000_0000
    ensures r.Ok? ==> |r.value| == 21
  {
    FormatSizes();
    assert Pow256(8) == 0x1_0000_0000_0000_0000;
    assert InRange(PayloadFormat, [MagicCookie, PayloadType, totalSegments, segment])
      <==> 0 <= totalSegments < 0x1_0000_0000_0000_0000 && 0 <= segment < 0x1_0000_0000_0000_0000;
    Pack(PayloadFormat, [MagicCookie, PayloadType, totalSegments, segment])
  }

  /** struct.unpack('!IBHH', data) */
  function UnpackOffer(data: seq<Byte>): (r: Result<OfferFields, StructError>)
    ensures r.Ok? <==> |data| == 9
    ensures r.Err? ==> r.error == BufferSize(9, |data|)
    ensures r.Ok? ==> r.value.udpPort < 0x1_0000 && r.value.tcpPort < 0x1_0000
  {
    FormatSizes();
    match Unpack(OfferFormat, data)
    case Err(e) => Err(e)
    case Ok(f) =>
      assert f[2] < Pow256(OfferFormat[2]) && f[3] < Pow256(OfferFormat[3]);
      Ok(OfferFields(f[0], f[1], f[2], f[3]))
  }

  /** struct.unpack('!IBQ', data) */
  function UnpackRequest(data: seq<Byte>): (r: Result<RequestFields, StructError>)
    ensures r.Ok? <==> |data| == 13
    ensures r.Err? ==> r.error == BufferSize(13, |data|)
    ensures r.Ok? ==> r.value.fileSize < 0x1_0000_0000_0000_0000
  {
    FormatSizes();
    match Unpack(RequestFormat, data)
    case Err(e) => Err(e)
    case Ok(f) =>
      assert f[2] < Pow256(RequestFormat[2]);
      assert Pow256(8) == 0x1_0000_0000_0000_0000;
      Ok(RequestFields(f[0], f[1], f[2]))
  }

  /** struct.unpack('!IBQQ', data) */
  function UnpackPayloadHeader(data: seq<Byte>): (r: Result<PayloadFields, StructError>)
    ensures r.Ok? <==> |data| == 21
    ensures r.Err? ==> r.error == BufferSize(21, |data|)
  {
    FormatSizes();
    match Unpack(PayloadFormat, data)
    case Err(e) => Err(e)
    case Ok(f) => Ok(PayloadFields(f[0], f[1], f[2], f[3]))
  }

  /** The Offer is nine bytes: the cookie, the type byte 0x2, then both ports
      big-endian, udp_port first. */
  lemma OfferLayout(udpPort: int, tcpPort: int)
    requires 0 <= udpPort < 0x1_0000 && 0 <= tcpPort < 0x1_0000
    ensures PackOffer(udpPort, tcpPort).Ok?
    ensures PackOffer(udpPort, tcpPort).value
         == [0xab, 0xcd, 0xdc, 0xba, 0x2, udpPort / 256, udpPort % 256, tcpPort / 256, tcpPort % 256]
  {
    var values := [MagicCookie, OfferType, udpPort, tcpPort];
    PackFieldsCons(OfferFormat, values);
    assert OfferFormat[1..] == [1, 2, 2] && values[1..] == [OfferType, udpPort, tcpPort];
    OfferTailBytes(udpPort, tcpPort);
    MagicCookieBytes();
  }

  /** The Offer after its cookie: the type byte, then both ports. */
  lemma OfferTailBytes(udpPort: int, tcpPort: int)
    requires 0 <= udpPort < 0x1_0000 && 0 <= tcpPort < 0x1_0000
    ensures PackFields([1, 2, 2], [OfferType, udpPort, tcpPort])
         == Ok([0x2, udpPort / 256, udpPort % 256, tcpPort / 256, tcpPort % 256])
  {
    PackFieldsCons([1, 2, 2], [OfferType, udpPort, tcpPort]);
    assert [1, 2, 2][1..] == [2, 2] && [OfferType, udpPort, tcpPort][1..] == [udpPort, tcpPort];
    PortBytes(udpPort, tcpPort);
    assert EncodeBE(OfferType, 1) == EncodeBE(0, 0) + [0x2] == [0x2];
    var ports := [udpPort / 256, udpPort % 256, tcpPort / 256, tcpPort % 256];
    assert PackFields([1, 2, 2], [OfferType, udpPort, tcpPort]).value == [0x2] + ports;
    assert [0x2] + ports == [0x2, udpPort / 256, udpPort % 256, tcpPort / 256, tcpPort % 256];
  }

  /** Two 16-bit ports, big-endian, one after the other. */
  lemma PortBytes(udpPort: int, tcpPort: int)
    requires 0 <= udpPort < 0x1_0000 && 0 <= tcpPort < 0x1_0000
    ensures PackFields([2, 2], [udpPort, tcpPort])
         == Ok([udpPort / 256, udpPort % 256, tcpPort / 256, tcpPort % 256])
  {
    PackFieldsCons([2, 2], [udpPort, tcpPort]);
    assert [2, 2][1..] == [2] && [udpPort, tcpPort][1..] == [tcpPort];
    PackFieldsCons([2], [tcpPort]);
    assert [2][1..] == [] && [tcpPort][1..] == [];
    assert PackFields([2], [tcpPort]).value == EncodeBE(tcpPort, 2) + [];
    PortEncoding(udpPort);
    PortEncoding(tcpPort);
    assert PackFields([2, 2], [udpPort, tcpPort]).value == EncodeBE(udpPort, 2) + EncodeBE(tcpPort, 2);
    assert EncodeBE(udpPort, 2) + EncodeBE(tcpPort, 2) == [udpPort / 256, udpPort % 256, tcpPort / 256, tcpPort % 256];
    assert PackFields([2, 2], [udpPort, tcpPort]).Ok?;
  }

  /** A 16-bit value as two big-endian bytes. */
  lemma PortEncoding(port: int)
    requires 0 <= port < 0x1_0000
    ensures EncodeBE(port, 2) == [port / 256, port % 256]
  {
  }

  /** The client's unpack of the Offer gives back both ports. */
  lemma OfferRoundTrip(udpPort: int, tcpPort: int)
    requires 0 <= udpPort < 0x1_0000 && 0 <= tcpPort < 0x1_0000
    ensures PackOffer(udpPort, tcpPort).Ok?
    ensures UnpackOffer(PackOffer(udpPort, tcpPort).value) == Ok(OfferFields(MagicCookie, OfferType, udpPort, tcpPort))
  {
    var values := [MagicCookie, OfferType, udpPort, tcpPort];
    UnpackPack(OfferFormat, values);
  }

  /** A successful pack is the first field's bytes followed by the rest. */
  lemma PackFieldsCons(format: Format, values: seq<int>)
    requires |values| == |format| && format != [] && PackFields(format, values).Ok?
    ensures PackFields(format[1..], values[1..]).Ok?
    ensures 0 <= values[0] < Pow256(format[0])
    ensures PackFields(format, values).value
         == EncodeBE(values[0], format[0]) + PackFields(format[1..], values[1..]).value
  {
  }

  lemma MagicCookieBytes()
    ensures EncodeBE(MagicCookie, 4) == [0xab, 0xcd, 0xdc, 0xba]
  {
    assert EncodeBE(0xab, 1) == [0xab];
    assert EncodeBE(0xabcd, 2) == [0xab, 0xcd];
    assert EncodeBE(0xabcddc, 3) == [0xab, 0xcd, 0xdc];
  }

  /** The Request is thirteen bytes: the cookie, the type byte 0x3, then
      file_size as eight big-endian bytes; unpacking it gives the fields back. */
  lemma RequestRoundTrip(fileSize: int)
    requires 0 <= fileSize < 0x1_0000_0000_0000_0000
    ensures PackRequest(fileSize).Ok?
    ensures PackRequest(fileSize).value == [0xab, 0xcd, 0xdc, 0xba, 0x3] + EncodeBE(fileSize, 8)
    ensures UnpackRequest(PackRequest(fileSize).value) == Ok(RequestFields(MagicCookie, RequestType, fileSize))
  {
    var values := [MagicCookie, RequestType, fileSize];
    UnpackPack(RequestFormat, values);
    assert Pow256(8) == 0x1_0000_0000_0000_0000;
    var tail2 := PackFields([8], [fileSize]).value;
    assert tail2 == EncodeBE(fileSize, 8);
    var tail1 := PackFields([1, 8], [RequestType, fileSize]).value;
    assert tail1 == EncodeBE(RequestType, 1) + tail2;
    assert PackRequest(fileSize).value == EncodeBE(MagicCookie, 4) + tail1;
    MagicCookieBytes();
    assert EncodeBE(RequestType, 1) == [0x3];
  }

  /** The 21-byte Payload header: the cookie, the type byte 0x4, then the two
      eight-byte counters; unpacking it gives the fields back. */
  lemma PayloadHeaderRoundTrip(totalSegments: int, segment: int)
    requires 0 <= totalSegments < 0x1_0000_0000_0000_0000 && 0 <= segment < 0x1_0000_0000_0000_0000
    ensures PackPayloadHeader(totalSegments, segment).Ok?
    ensures PackPayloadHeader(totalSegments, segment).value
         == [0xab, 0xcd, 0xdc, 0xba, 0x4] + EncodeBE(totalSegments, 8) + EncodeBE(segment, 8)
    ensures UnpackPayloadHeader(PackPayloadHeader(totalSegments, segment).value)
         == Ok(PayloadFields(MagicCookie, PayloadType, totalSegments, segment))
  {
    var values := [MagicCookie, PayloadType, totalSegments, segment];
    UnpackPack(PayloadFormat, values);
    assert Pow256(8) == 0x1_0000_0000_0000_0000;
    var tail3 := PackFields([8], [segment]).value;
    assert tail3 == EncodeBE(segment, 8);
    var tail2 := PackFields([8, 8], [totalSegments, segment]).value;
    assert tail2 == EncodeBE(totalSegments, 8) + tail3;
    var tail1 := PackFields([1, 8, 8], [PayloadType, totalSegments, segment]).value;
    assert tail1 == EncodeBE(PayloadType, 1) + tail2;
    assert PackPayloadHeader(totalSegments, segment).value == EncodeBE(MagicCookie, 4) + tail1;
    MagicCookieBytes();
    assert EncodeBE(PayloadType, 1) == [0x4];
  }

  /** The segment size both sides assume. */
  const SegmentSize: nat := 1024

  /** file_size // 1024: the number of whole segments in fileSize bytes. The
      server uses it as total_segments and the client as expected_segments. */
  function SegmentCount(fileSize: nat): (n: nat)
    ensures n * SegmentSize <= fileSize < (n + 1) * SegmentSize
  {
    fileSize / SegmentSize
  }

  /** bytes([b]) * n: n copies of b, and nothing when n is zero or negative. */
  function Repeat(b: Byte, n: int): (r: seq<Byte>)
    ensures |r| == if n <= 0 then 0 else n
    ensures forall i :: 0 <= i < |r| ==> r[i] == b
  {
    if n <= 0 then [] else [b] + Repeat(b, n - 1)
  }
}
