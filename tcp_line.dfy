/** The reliable channel's request: the client writes the requested byte count
    as decimal text ending in a newline, and the server reads it back with
    int(text.strip()). Text is ASCII, so a character is its byte. */
module TcpLine {
  import opened Wrappers
  import opened Wire

  const Newline: Byte := 10  // '\n'
  const Plus: Byte := 43     // '+'
  const Minus: Byte := 45    // '-'
  const Zero: Byte := 48     // '0'

  predicate IsDigit(b: Byte) { Zero <= b <= Zero + 9 }

  /** The ASCII characters Python's str.isspace() accepts. */
  predicate IsSpace(b: Byte) { b == 32 || 9 <= b <= 13 || 28 <= b <= 31 }

  predicate AllDigits(ds: seq<Byte>) { forall i :: 0 <= i < |ds| ==> IsDigit(ds[i]) }

  /** The value of a string of decimal digits, most significant first. */
  function DigitsValue(ds: seq<Byte>): nat
    requires AllDigits(ds)
  {
    if ds == [] then 0 else DigitsValue(ds[..|ds| - 1]) * 10 + (ds[|ds| - 1] - Zero)
  }

  /** str(n) for n >= 0: the shortest decimal digits of n. */
  function Decimal(n: nat): (r: seq<Byte>)
    ensures |r| >= 1 && AllDigits(r)
    ensures r[0] == Zero ==> n == 0
  {
    if n < 10 then [Zero + n] else Decimal(n / 10) + [Zero + n % 10]
  }

  /** str(n) for any integer n. */
  function Str(n: int): (r: seq<Byte>)
    ensures |r| >= 1 && IsDigit(r[|r| - 1])
    ensures (r[0] == Minus) <==> n < 0
    ensures forall i :: 1 <= i < |r| ==> IsDigit(r[i])
  {
    if n < 0 then [Minus] + Decimal(-n) else Decimal(n)
  }

  /** str(file_size).encode() + b"\n" */
  function RequestLine(fileSize: int): (r: seq<Byte>)
    ensures |r| >= 2 && r[|r| - 1] == Newline
    ensures forall i :: 0 <= i < |r| - 1 ==> r[i] != Newline
  {
    Str(fileSize) + [Newline]
  }

  /** s without its leading whitespace. */
  function StripLeading(s: seq<Byte>): (r: seq<Byte>)
    ensures |r| <= |s| && r == s[|s| - |r|..]
    ensures forall i :: 0 <= i < |s| - |r| ==> IsSpace(s[i])
    ensures r == [] || !IsSpace(r[0])
  {
    if s != [] && IsSpace(s[0]) then StripLeading(s[1..]) else s
  }

  /** s without its trailing whitespace. */
  function StripTrailing(s: seq<Byte>): (r: seq<Byte>)
    ensures |r| <= |s| && r == s[..|r|]
    ensures forall i :: |r| <= i < |s| ==> IsSpace(s[i])
    ensures r == [] || !IsSpace(r[|r| - 1])
  {
    if s != [] && IsSpace(s[|s| - 1]) then StripTrailing(s[..|s| - 1]) else s
  }

  /** str.strip() */
  function Strip(s: seq<Byte>): (r: seq<Byte>)
    ensures |r| <= |s|
    ensures r == [] || (!IsSpace(r[0]) && !IsSpace(r[|r| - 1]))
    ensures (forall i :: 0 <= i < |s| ==> IsSpace(s[i])) ==> r == []
    ensures s != [] && !IsSpace(s[0]) && !IsSpace(s[|s| - 1]) ==> r == s
  {
    StripTrailing(StripLeading(s))
  }

  /** The ValueError int() raises on text that is not a decimal literal. */
  datatype ValueError = InvalidLiteral

  function ParseDigits(ds: seq<Byte>): (r: Result<nat, ValueError>)
    ensures r.Ok? <==> ds != [] && AllDigits(ds)
  {
    if ds != [] && AllDigits(ds) then Ok(DigitsValue(ds)) else Err(InvalidLiteral)
  }

  /** int(text.strip()) restricted to ASCII: an optional sign, then at least
      one decimal digit, with whitespace around it. */
  function ParseInt(text: seq<Byte>): (r: Result<int, ValueError>)
    ensures r.Ok? ==> Strip(text) != [] && IsDigit(Strip(text)[|Strip(text)| - 1])
    ensures (forall i :: 0 <= i < |text| ==> IsSpace(text[i])) ==> r.Err?
  {
    var t := Strip(text);
    if |t| > 0 && (t[0] == Minus || t[0] == Plus) then
      match ParseDigits(t[1..])
      case Err(e) => Err(e)
      case Ok(v) => var n: int := v; Ok(if t[0] == Minus then -n else n)
    else
      match ParseDigits(t)
      case Err(e) => Err(e)
      case Ok(v) => Ok(v)
  }

  lemma {:induction false} DecimalValue(n: nat)
    ensures DigitsValue(Decimal(n)) == n
  {
    if n >= 10 {
      var d := Decimal(n);
      assert d[..|d| - 1] == Decimal(n / 10);
      DecimalValue(n / 10);
    }
  }

  /** For n >= 0 the request line is the decimal digits of n and then a single
      newline, the only newline in the line. */
  lemma RequestLineShape(n: nat)
    ensures var line := RequestLine(n);
      && line[|line| - 1] == Newline
      && AllDigits(line[..|line| - 1])
      && DigitsValue(line[..|line| - 1]) == n
      && forall i :: 0 <= i < |line| - 1 ==> line[i] != Newline
  {
    var line := RequestLine(n);
    assert line[..|line| - 1] == Decimal(n);
    DecimalValue(n);
  }

  /** Stripping a line whose text has no whitespace at either end removes
      exactly its final newline. */
  lemma StripLine(s: seq<Byte>)
    requires s != [] && !IsSpace(s[0]) && !IsSpace(s[|s| - 1])
    ensures Strip(s + [Newline]) == s
  {
  }

  /** The server's strip-then-int reading of the client's line gives back the
      number the client wrote, for every integer. */
  lemma ParseRequestLine(n: int)
    ensures ParseInt(RequestLine(n)) == Ok(n)
  {
    StripLine(Str(n));
    if n < 0 {
      ParseNegative(RequestLine(n), n);
    } else {
      ParseNonNegative(RequestLine(n), n);
    }
  }

  lemma ParseNegative(text: seq<Byte>, n: int)
    requires n < 0 && Strip(text) == Str(n)
    ensures ParseInt(text) == Ok(n)
  {
    var t := Strip(text);
    var m: nat := -n;
    assert t == [Minus] + Decimal(m);
    assert t[0] == Minus && t[1..] == Decimal(m);
    ParseDecimal(m);
    assert ParseDigits(t[1..]) == Ok(m);
  }

  lemma ParseNonNegative(text: seq<Byte>, n: nat)
    requires Strip(text) == Str(n)
    ensures ParseInt(text) == Ok(n)
  {
    var t := Strip(text);
    assert t == Decimal(n);
    ParseDecimal(n);
    assert IsDigit(t[0]);
  }

  lemma ParseDecimal(n: nat)
    ensures ParseDigits(Decimal(n)) == Ok(n)
  {
    DecimalValue(n);
  }
}
