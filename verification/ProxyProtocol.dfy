/** The PROXY protocol headers of proxy_protocol.go: the human-readable form of section 2.1 and the
    binary form of section 2.2 of the HAProxy PROXY protocol specification. */
module ProxyProtocol {
  import opened Bits
  import opened Wrappers
  import Wire

  type Text = seq<byte>

  const CR: byte := 13
  const LF: byte := 10
  const SPACE: byte := 32
  const PLUS: byte := 43
  const MINUS: byte := 45

  const PROXY: Text := [80, 82, 79, 88, 89]
  const UNKNOWN: Text := [85, 78, 75, 78, 79, 87, 78]
  const TCP4: Text := [84, 67, 80, 52]
  const TCP6: Text := [84, 67, 80, 54]
  const SIGNATURE: Text := [13, 10, 13, 10, 0, 13, 10, 81, 85, 73, 84, 10]

  const MAX_LINE_BYTES := 107

  datatype Addr = Addr(ip: seq<byte>, port: uint16)

  datatype Error = UnexpectedEnd | Malformed | NotPresent | Untrusted

  datatype Header = NoHeader | Header(source: Option<Addr>, dest: Option<Addr>)

  /** net.ParseIP, as sixteen bytes. */
  type ParseIP = Text -> Option<seq<byte>>

  // ----- version 1

  predicate IsSpace(b: byte) {
    b == SPACE || 9 <= b <= 13
  }

  function WordEnd(s: Text): (n: nat)
    ensures n <= |s| && (forall i | 0 <= i < n :: !IsSpace(s[i])) && (n < |s| ==> IsSpace(s[n]))
  {
    if s == [] || IsSpace(s[0]) then 0 else 1 + WordEnd(s[1..])
  }

  /** strings.Fields on ASCII: the words between white space. */
  function Fields(s: Text): seq<Text> {
    if s == [] then []
    else if IsSpace(s[0]) then Fields(s[1..])
    else [s[..WordEnd(s)]] + Fields(s[WordEnd(s)..])
  }

  predicate IsDigit(b: byte) {
    48 <= b <= 57
  }

  function Digits(s: Text): (n: nat)
  {
    if s == [] then 0 else Digits(s[..|s| - 1]) * 10 + if IsDigit(s[|s| - 1]) then (s[|s| - 1] - 48) as nat else 0
  }

  /** strconv.Atoi, but for values that overflow, which are no ports either. */
  function Atoi(s: Text): Option<int> {
    var digits := if s != [] && s[0] in {PLUS, MINUS} then s[1..] else s;
    if digits == [] || exists i | 0 <= i < |digits| :: !IsDigit(digits[i]) then None
    else
      var n: int := Digits(digits);
      Some(if s[0] == MINUS then -n else n)
  }

  function ParseAddr(parseIP: ParseIP, host: Text, port: Text): Result<Addr, Error> {
    if parseIP(host) == None then Err(Malformed)
    else match Atoi(port)
      case None => Err(Malformed)
      case Some(n) => if n < 0 || n > 65535 then Err(Malformed) else Ok(Addr(parseIP(host).value, n))
  }

  /** What a header line says, its line end cut off. */
  function ParseLine(parseIP: ParseIP, line: Text): Result<Header, Error> {
    var fields := Fields(line);
    if |fields| < 2 || fields[0] != PROXY then Err(Malformed)
    else if fields[1] == UNKNOWN then Ok(Header(None, None))
    else if |fields| != 6 || fields[1] !in {TCP4, TCP6} then Err(Malformed)
    else
      var source :- ParseAddr(parseIP, fields[2], fields[4]);
      var dest :- ParseAddr(parseIP, fields[3], fields[5]);
      Ok(Header(Some(source), Some(dest)))
  }

  /** The length of the first line, line feed included. */
  function LineLength(s: seq<byte>): (n: Option<nat>)
    ensures n.Some? ==> 0 < n.value <= |s| && s[n.value - 1] == LF && LF !in s[..n.value - 1]
    ensures n.None? ==> LF !in s
  {
    if s == [] then None
    else if s[0] == LF then Some(1)
    else match LineLength(s[1..])
      case None => None
      case Some(n) =>
        assert s[..n] == [s[0]] + s[1..][..n - 1];
        Some(n + 1)
  }

  // ----- version 2

  /** net.IPv4: the last four of sixteen bytes. */
  function MappedV4(ip: seq<byte>): seq<byte> {
    [0, 0, 0, 0, 0, 0, 0, 0, 0, 0, 0xff, 0xff] + ip
  }

  function Port(s: seq<byte>): uint16
    requires |s| == 2
  {
    var high: int := s[0];
    high * 0x100 + s[1]
  }

  function ParsePayload(command: nat, family: byte, payload: seq<byte>): Result<Header, Error> {
    if command == 0 then Ok(Header(None, None))
    else if command != 1 then Err(Malformed)
    else if family == 0x11 then
      if |payload| < 12 then Err(Malformed)
      else Ok(Header(Some(Addr(MappedV4(payload[0..4]), Port(payload[8..10]))),
                     Some(Addr(MappedV4(payload[4..8]), Port(payload[10..12])))))
    else if family == 0x21 then
      if |payload| < 36 then Err(Malformed)
      else Ok(Header(Some(Addr(payload[0..16], Port(payload[32..34]))),
                     Some(Addr(payload[16..32], Port(payload[34..36])))))
    else if family == 0 then Ok(Header(None, None))
    else Err(Malformed)
  }

  // ----- reading

  /** What the start of a stream says, and how many bytes say it. */
  function Parse(parseIP: ParseIP, s: seq<byte>): (r: Result<(Header, nat), Error>)
    ensures r.Ok? ==> r.value.1 <= |s|
  {
    if s == [] then Err(UnexpectedEnd)
    else if s[0] == PROXY[0] then
      if |s| < 6 then Err(UnexpectedEnd)
      else if s[..6] != PROXY + [SPACE] then Ok((NoHeader, 0))
      else match LineLength(s)
        case None => Err(UnexpectedEnd)
        case Some(n) =>
          if n > MAX_LINE_BYTES || n < 2 || s[n - 2] != CR then Err(Malformed)
          else
            var header :- ParseLine(parseIP, s[..n - 2]);
            Ok((header, n))
    else if s[0] == CR then
      if |s| < 12 then Err(UnexpectedEnd)
      else if s[..12] != SIGNATURE then Ok((NoHeader, 0))
      else if |s| < 16 then Err(UnexpectedEnd)
      else if s[12] / 0x10 != 2 then Err(Malformed)
      else
        var length := Port(s[14..16]);
        if |s| < 16 + length then Err(UnexpectedEnd)
        else
          var header :- ParsePayload(s[12] % 0x10, s[13], s[16..16 + length]);
          Ok((header, 16 + length))
    else Ok((NoHeader, 0))
  }

  /** Bytes left in a buffered reader, not taken from it. */
  method Peek(reader: Wire.Reader, n: nat) returns (r: Result<seq<byte>, Error>)
    ensures r == if n <= |reader.rest| then Ok(reader.rest[..n]) else Err(UnexpectedEnd)
  {
    if n > |reader.rest| {
      return Err(UnexpectedEnd);
    }
    return Ok(reader.rest[..n]);
  }

  method ReadLine(reader: Wire.Reader) returns (r: Result<Text, Error>)
    modifies reader
    ensures var n := LineLength(old(reader.rest));
      if n.Some? then r == Ok(old(reader.rest)[..n.value]) && reader.rest == old(reader.rest)[n.value..]
      else r == Err(UnexpectedEnd)
  {
    var n := LineLength(reader.rest);
    if n == None {
      reader.rest := [];
      return Err(UnexpectedEnd);
    }
    r := Ok(reader.rest[..n.value]);
    reader.rest := reader.rest[n.value..];
  }

  method ReadProxyProtocolHeader(parseIP: ParseIP, reader: Wire.Reader) returns (r: Result<Header, Error>)
    modifies reader
    ensures Parse(parseIP, old(reader.rest)).Ok? ==>
      && r == Ok(Parse(parseIP, old(reader.rest)).value.0)
      && reader.rest == old(reader.rest)[Parse(parseIP, old(reader.rest)).value.1..]
    ensures Parse(parseIP, old(reader.rest)).Err? ==> r == Err(Parse(parseIP, old(reader.rest)).error)
  {
    var first :- Peek(reader, 1);
    if first[0] == 80 {
      r := ReadV1Header(parseIP, reader);
    } else if first[0] == CR {
      r := ReadV2Header(parseIP, reader);
    } else {
      return Ok(NoHeader);
    }
  }

  method ReadV1Header(parseIP: ParseIP, reader: Wire.Reader) returns (r: Result<Header, Error>)
    requires reader.rest != [] && reader.rest[0] == PROXY[0]
    modifies reader
    ensures Parse(parseIP, old(reader.rest)).Ok? ==>
      && r == Ok(Parse(parseIP, old(reader.rest)).value.0)
      && reader.rest == old(reader.rest)[Parse(parseIP, old(reader.rest)).value.1..]
    ensures Parse(parseIP, old(reader.rest)).Err? ==> r == Err(Parse(parseIP, old(reader.rest)).error)
  {
    var prefix :- Peek(reader, 6);
    if prefix != PROXY + [SPACE] {
      return Ok(NoHeader);
    }
    var line :- ReadLine(reader);
    if |line| > MAX_LINE_BYTES {
      return Err(Malformed);
    }
    if |line| < 2 || line[|line| - 2] != CR {
      return Err(Malformed);
    }
    assert line[..|line| - 2] == old(reader.rest)[..|line| - 2];
    var fields := Fields(line[..|line| - 2]);
    if |fields| < 2 || fields[0] != PROXY {
      return Err(Malformed);
    }
    if fields[1] == UNKNOWN {
      return Ok(Header(None, None));
    }
    if |fields| != 6 {
      return Err(Malformed);
    }
    if fields[1] != TCP4 && fields[1] != TCP6 {
      return Err(Malformed);
    }
    var source :- ParseAddr(parseIP, fields[2], fields[4]);
    var dest :- ParseAddr(parseIP, fields[3], fields[5]);
    return Ok(Header(Some(source), Some(dest)));
  }

  method ReadV2Header(parseIP: ParseIP, reader: Wire.Reader) returns (r: Result<Header, Error>)
    requires reader.rest != [] && reader.rest[0] == CR
    modifies reader
    ensures Parse(parseIP, old(reader.rest)).Ok? ==>
      && r == Ok(Parse(parseIP, old(reader.rest)).value.0)
      && reader.rest == old(reader.rest)[Parse(parseIP, old(reader.rest)).value.1..]
    ensures Parse(parseIP, old(reader.rest)).Err? ==> r == Err(Parse(parseIP, old(reader.rest)).error)
  {
    var s := reader.rest;
    var signature :- Peek(reader, 12);
    if signature != SIGNATURE {
      return Ok(NoHeader);
    }
    var header :- Peek(reader, 16);
    if header[12] / 0x10 != 2 {
      return Err(Malformed);
    }
    var command, family, length := header[12] % 0x10, header[13], Port(header[14..16]);
    assert header[14..16] == s[14..16];
    reader.rest := reader.rest[16..];
    var payload := reader.ReadFull(length);
    if payload.Err? {
      return Err(UnexpectedEnd);
    }
    assert payload.value == s[16..16 + length] && reader.rest == s[16 + length..];
    return ParsePayload(command, family, payload.value);
  }

  // ----- headers take exactly themselves

  /** There is no header exactly when the first byte, or the whole mark it begins, is something else;
      and then nothing is taken. */
  lemma NoHeaderTakesNothing(parseIP: ParseIP, s: seq<byte>)
    ensures Parse(parseIP, s).Ok? && Parse(parseIP, s).value.0.NoHeader? <==>
      && s != []
      && (s[0] == PROXY[0] ==> |s| >= 6 && s[..6] != PROXY + [SPACE])
      && (s[0] == CR ==> |s| >= 12 && s[..12] != SIGNATURE)
    ensures Parse(parseIP, s).Ok? && Parse(parseIP, s).value.0.NoHeader? ==> Parse(parseIP, s).value.1 == 0
  {}

  /** A header of version 1 is the first line, ends in CR LF, and is at most 107 bytes long. */
  lemma LineTakesItself(parseIP: ParseIP, s: seq<byte>)
    requires Parse(parseIP, s).Ok? && Parse(parseIP, s).value.0.Header? && s[0] == PROXY[0]
    ensures var n := Parse(parseIP, s).value.1;
      && 8 <= n <= MAX_LINE_BYTES && s[..6] == PROXY + [SPACE] && s[n - 2..n] == [CR, LF] && LF !in s[..n - 1]
  {
    var n := Parse(parseIP, s).value.1;
    assert forall i | 0 <= i < 6 :: s[i] == s[..6][i] && s[i] != LF && s[i] != CR;
  }

  /** A header of version 2 is sixteen bytes and as many more as they say, whatever those hold. */
  lemma BinaryTakesItself(parseIP: ParseIP, s: seq<byte>)
    requires Parse(parseIP, s).Ok? && Parse(parseIP, s).value.0.Header? && s[0] != PROXY[0]
    ensures |s| >= 16 && s[..12] == SIGNATURE && s[12] / 0x10 == 2
    ensures var high: int := s[14]; Parse(parseIP, s).value.1 == 16 + high * 0x100 + s[15]
  {}

  /** A header is read the same whatever follows it. */
  lemma SuffixInvisible(parseIP: ParseIP, s: seq<byte>, suffix: seq<byte>)
    requires Parse(parseIP, s).Ok? && Parse(parseIP, s).value.0.Header?
    ensures Parse(parseIP, s + suffix) == Parse(parseIP, s)
  {
    var n := Parse(parseIP, s).value.1;
    var t := s + suffix;
    if s[0] == PROXY[0] {
      assert t[..6] == s[..6];
      LineLengthPrefix(s, suffix);
      assert t[..n - 2] == s[..n - 2];
    } else {
      assert t[..12] == s[..12];
      assert t[14..16] == s[14..16] && t[16..n] == s[16..n];
    }
  }

  lemma {:induction false} LineLengthPrefix(s: seq<byte>, suffix: seq<byte>)
    requires LineLength(s).Some?
    ensures LineLength(s + suffix) == LineLength(s)
  {
    if s[0] != LF {
      assert (s + suffix)[1..] == s[1..] + suffix;
      LineLengthPrefix(s[1..], suffix);
    }
  }

  // ----- what a proxy writes is read back

  function PortBytes(port: uint16): (s: seq<byte>)
    ensures |s| == 2 && Port(s) == port
  {
    [port / 0x100, port % 0x100]
  }

  function BinaryHeader(command: nat, family: byte, payload: seq<byte>): seq<byte>
    requires command < 0x10 && |payload| < 0x1_0000
  {
    SIGNATURE + [0x20 + command, family] + PortBytes(|payload|) + payload
  }

  lemma BinaryParsed(parseIP: ParseIP, command: nat, family: byte, payload: seq<byte>, suffix: seq<byte>)
    requires command < 0x10 && |payload| < 0x1_0000
    ensures var s := BinaryHeader(command, family, payload);
      Parse(parseIP, s + suffix)
        == match ParsePayload(command, family, payload)
           case Ok(header) => Ok((header, |s|))
           case Err(e) => Err(e)
  {
    hide ParsePayload;
    var s := BinaryHeader(command, family, payload);
    var t := s + suffix;
    assert t[..12] == SIGNATURE && t[12] == 0x20 + command && t[13] == family;
    assert t[14..16] == PortBytes(|payload|);
    assert t[16..16 + |payload|] == payload;
  }

  /** IPv4 and IPv6 addresses and ports, with any extensions and anything behind, come back, and
      exactly the header is taken. */
  lemma AddressesRoundTrip(parseIP: ParseIP, source: Addr, dest: Addr, v6: bool, tlvs: seq<byte>, suffix: seq<byte>)
    requires |source.ip| == |dest.ip| == if v6 then 16 else 4
    requires |tlvs| < 0x1_0000 - 36
    ensures var payload := source.ip + dest.ip + PortBytes(source.port) + PortBytes(dest.port) + tlvs;
      var s := BinaryHeader(1, if v6 then 0x21 else 0x11, payload);
      Parse(parseIP, s + suffix)
        == Ok((if v6 then Header(Some(source), Some(dest))
               else Header(Some(source.(ip := MappedV4(source.ip))), Some(dest.(ip := MappedV4(dest.ip)))), |s|))
  {
    var payload := source.ip + dest.ip + PortBytes(source.port) + PortBytes(dest.port) + tlvs;
    BinaryParsed(parseIP, 1, if v6 then 0x21 else 0x11, payload, suffix);
    var k := if v6 then 16 else 4;
    assert payload[0..k] == source.ip && payload[k..2 * k] == dest.ip;
    assert payload[2 * k..2 * k + 2] == PortBytes(source.port);
    assert payload[2 * k + 2..2 * k + 4] == PortBytes(dest.port);
  }

  /** A LOCAL command has no addresses, whatever its family. */
  lemma LocalRoundTrip(parseIP: ParseIP, family: byte, payload: seq<byte>, suffix: seq<byte>)
    requires |payload| < 0x1_0000
    ensures var s := BinaryHeader(0, family, payload);
      Parse(parseIP, s + suffix) == Ok((Header(None, None), |s|))
  {
    BinaryParsed(parseIP, 0, family, payload, suffix);
  }

  /** Of every header of version 2: which are accepted, and which of these have no addresses. */
  lemma BinaryOutcome(parseIP: ParseIP, command: nat, family: byte, payload: seq<byte>, suffix: seq<byte>)
    requires command < 0x10 && |payload| < 0x1_0000
    ensures var r := Parse(parseIP, BinaryHeader(command, family, payload) + suffix);
      && (r.Ok? <==> command == 0 || (command == 1 && (|| family == 0
                                                       || (family == 0x11 && |payload| >= 12)
                                                       || (family == 0x21 && |payload| >= 36))))
      && (r.Err? ==> r == Err(Malformed))
      && (r.Ok? ==> r.value.0.Header? && (r.value.0.source == None <==> command == 0 || family == 0)
                    && (r.value.0.dest == None <==> r.value.0.source == None))
  {
    BinaryParsed(parseIP, command, family, payload, suffix);
  }

  /** Words with single spaces between them. */
  function Joined(words: seq<Text>): Text {
    if words == [] then []
    else if |words| == 1 then words[0]
    else words[0] + [SPACE] + Joined(words[1..])
  }

  predicate IsWord(w: Text) {
    w != [] && forall i | 0 <= i < |w| :: !IsSpace(w[i])
  }

  lemma {:induction false} WordEndAt(w: Text, rest: Text)
    requires forall i | 0 <= i < |w| :: !IsSpace(w[i])
    requires rest != [] ==> IsSpace(rest[0])
    ensures WordEnd(w + rest) == |w|
    decreases |w|
  {
    if w == [] {
      assert w + rest == rest;
    } else {
      assert (w + rest)[1..] == w[1..] + rest;
      WordEndAt(w[1..], rest);
    }
  }

  lemma {:induction false} FieldsOfJoined(words: seq<Text>)
    requires forall i | 0 <= i < |words| :: IsWord(words[i])
    ensures Fields(Joined(words)) == words
    decreases |words|
  {
    if words != [] {
      var w, s := words[0], Joined(words);
      var rest := if |words| == 1 then [] else [SPACE] + Joined(words[1..]);
      assert s == w + rest;
      WordEndAt(w, rest);
      assert s[..|w|] == w && s[|w|..] == rest;
      FieldsOfJoined(words[1..]);
      assert rest != [] ==> rest[1..] == Joined(words[1..]);
      assert words == [w] + words[1..];
    }
  }

  function Decimal(n: nat): (s: Text)
    ensures IsWord(s) && forall i | 0 <= i < |s| :: IsDigit(s[i])
  {
    if n < 10 then [48 + n] else Decimal(n / 10) + [48 + n % 10]
  }

  lemma {:induction false} DecimalRead(n: nat)
    ensures Digits(Decimal(n)) == n && Atoi(Decimal(n)) == Some(n)
  {
    if n >= 10 {
      DecimalRead(n / 10);
      assert Decimal(n)[..|Decimal(n)| - 1] == Decimal(n / 10);
    } else {
      assert Digits([]) == 0;
      assert [48 + n][..0] == [];
    }
  }

  function LineHeader(family: Text, source: Text, dest: Text, sourcePort: uint16, destPort: uint16): Text {
    Joined([PROXY, family, source, dest, Decimal(sourcePort), Decimal(destPort)]) + [CR, LF]
  }

  /** The same for a header line, if it is not too long. */
  lemma LineRoundTrip(parseIP: ParseIP, family: Text, source: Text, dest: Text, sourcePort: uint16,
                      destPort: uint16, suffix: seq<byte>)
    requires family in {TCP4, TCP6} && IsWord(source) && IsWord(dest)
    requires parseIP(source).Some? && parseIP(dest).Some?
    ensures var s := LineHeader(family, source, dest, sourcePort, destPort);
      Parse(parseIP, s + suffix)
        == if |s| > MAX_LINE_BYTES then Err(Malformed)
           else Ok((Header(Some(Addr(parseIP(source).value, sourcePort)),
                           Some(Addr(parseIP(dest).value, destPort))), |s|))
  {
    hide Decimal, Joined, ParseLine;
    var words := [PROXY, family, source, dest, Decimal(sourcePort), Decimal(destPort)];
    LineIs(parseIP, words, suffix);
    LineParsed(parseIP, words);
    PortParsed(parseIP, source, sourcePort);
    PortParsed(parseIP, dest, destPort);
  }

  /** A port is a number below 65536. */
  predicate IsPort(w: Text) {
    Atoi(w).Some? && 0 <= Atoi(w).value < 65536
  }

  /** Of every header line made of words: UNKNOWN is accepted without addresses whatever follows it,
      and else exactly the six words of a TCP line; the rest is malformed. */
  lemma LineOutcome(parseIP: ParseIP, words: seq<Text>, suffix: seq<byte>)
    requires |words| > 1 && words[0] == PROXY && forall i | 0 <= i < |words| :: IsWord(words[i])
    ensures var s := Joined(words) + [CR, LF];
      var r := Parse(parseIP, s + suffix);
      && (r.Ok? <==> |s| <= 107 && (|| words[1] == UNKNOWN
                                    || (|words| == 6 && (words[1] == TCP4 || words[1] == TCP6)
                                        && parseIP(words[2]).Some? && parseIP(words[3]).Some?
                                        && IsPort(words[4]) && IsPort(words[5]))))
      && (r.Err? ==> r == Err(Malformed))
      && (r.Ok? && words[1] == UNKNOWN ==> r == Ok((Header(None, None), |s|)))
  {
    LineIs(parseIP, words, suffix);
    FieldsOfJoined(words);
    hide Joined, Fields, Atoi, Parse;
  }

  lemma PortParsed(parseIP: ParseIP, host: Text, port: uint16)
    requires parseIP(host).Some?
    ensures ParseAddr(parseIP, host, Decimal(port)) == Ok(Addr(parseIP(host).value, port))
  {
    DecimalRead(port);
  }

  /** Where the line ends, and what is then parsed. */
  lemma LineIs(parseIP: ParseIP, words: seq<Text>, suffix: seq<byte>)
    requires |words| > 1 && words[0] == PROXY && forall i | 0 <= i < |words| :: IsWord(words[i])
    ensures var s := Joined(words) + [CR, LF];
      Parse(parseIP, s + suffix)
        == if |s| > MAX_LINE_BYTES then Err(Malformed)
           else match ParseLine(parseIP, Joined(words))
             case Ok(header) => Ok((header, |s|))
             case Err(e) => Err(e)
  {
    var s := Joined(words) + [CR, LF];
    var t, n := s + suffix, |s|;
    JoinedStarts(words);
    NoLineFeed(words);
    LineLengthAt(Joined(words) + [CR], suffix);
    hide Joined, ParseLine, LineLength;
    assert t == Joined(words) + [CR] + [LF] + suffix;
    assert t[..6] == Joined(words)[..6];
    assert t[..n - 2] == Joined(words) && t[n - 2] == CR;
    assert t[0] == t[..6][0];
  }

  lemma LineParsed(parseIP: ParseIP, words: seq<Text>)
    requires |words| == 6 && words[0] == PROXY && words[1] in {TCP4, TCP6}
    requires forall i | 0 <= i < 6 :: IsWord(words[i])
    ensures ParseLine(parseIP, Joined(words))
      == match ParseAddr(parseIP, words[2], words[4])
         case Err(e) => Err(e)
         case Ok(source) =>
           match ParseAddr(parseIP, words[3], words[5])
           case Err(e) => Err(e)
           case Ok(dest) => Ok(Header(Some(source), Some(dest)))
  {
    hide Joined, ParseAddr, Fields;
    FieldsOfJoined(words);
  }

  lemma JoinedStarts(words: seq<Text>)
    requires |words| > 1 && words[0] == PROXY
    ensures |Joined(words)| >= 6 && Joined(words)[..6] == PROXY + [SPACE]
  {}

  lemma {:induction false} NoLineFeed(words: seq<Text>)
    requires forall i | 0 <= i < |words| :: IsWord(words[i])
    ensures LF !in Joined(words)
  {
    if words != [] {
      NoLineFeed(words[1..]);
      assert forall i | 0 <= i < |words[0]| :: words[0][i] != LF;
    }
  }

  lemma {:induction false} LineLengthAt(line: Text, suffix: seq<byte>)
    requires LF !in line
    ensures LineLength(line + [LF] + suffix) == Some(|line| + 1)
  {
    var s := line + [LF] + suffix;
    if line != [] {
      assert s[0] == line[0] && line[0] in line;
      assert s[1..] == line[1..] + [LF] + suffix;
      LineLengthAt(line[1..], suffix);
    }
  }

  // ----- the connection

  /** What becomes of the stream: the header and its length, or an error for good. */
  function Accepted(parseIP: ParseIP, required: bool, trusted: bool, s: seq<byte>): (r: Result<(Header, nat), Error>)
    ensures r.Ok? ==> r.value.1 <= |s|
  {
    var (header, n) :- Parse(parseIP, s);
    if header.NoHeader? then if required then Err(NotPresent) else Ok((header, n))
    else if trusted then Ok((header, n)) else Err(Untrusted)
  }

  class ProxyConn {
    const parseIP: ParseIP
    const required: bool
    const trusted: bool
    const reader: Wire.Reader
    const remote: Addr
    const local: Addr
    var once: bool
    var headerErr: Option<Error>
    var sourceAddr: Option<Addr>
    var destAddr: Option<Addr>
    /** All the bytes of the connection, and those given to callers. */
    ghost const stream: seq<byte>
    ghost var delivered: seq<byte>

    ghost predicate Valid()
      reads this, reader
    {
      var accepted := Accepted(parseIP, required, trusted, stream);
      if !once then reader.rest == stream && delivered == [] && headerErr == None && sourceAddr == destAddr == None
      else if accepted.Err? then
        headerErr == Some(accepted.error) && delivered == [] && sourceAddr == destAddr == None
      else
        && headerErr == None
        && sourceAddr == Source(accepted.value.0) && destAddr == Dest(accepted.value.0)
        && stream[accepted.value.1..] == delivered + reader.rest
    }

    constructor (parseIP: ParseIP, required: bool, trusted: bool, stream: seq<byte>, remote: Addr, local: Addr)
      ensures Valid() && fresh(reader) && delivered == [] && !once
      ensures this.parseIP == parseIP && this.required == required && this.trusted == trusted
      ensures this.stream == stream && this.remote == remote && this.local == local
    {
      this.parseIP, this.required, this.trusted, this.remote, this.local := parseIP, required, trusted, remote, local;
      this.stream := stream;
      reader := new Wire.Reader(stream);
      once, headerErr, sourceAddr, destAddr, delivered := false, None, None, None, [];
    }

    /** The header is read once, by whichever call comes first. */
    method EnsureHeader() returns (err: Option<Error>)
      requires Valid()
      modifies this, reader
      ensures Valid() && once && delivered == old(delivered) && err == headerErr
      ensures old(once) ==> reader.rest == old(reader.rest)
      ensures err.Some? <==> Accepted(parseIP, required, trusted, stream).Err?
    {
      hide Parse, Accepted;
      if !once {
        once := true;
        headerErr := ReadProxyHeader();
      }
      return headerErr;
    }

    method ReadProxyHeader() returns (err: Option<Error>)
      requires reader.rest == stream && sourceAddr == destAddr == None
      modifies this`sourceAddr, this`destAddr, reader
      ensures var accepted := Accepted(parseIP, required, trusted, stream);
        if accepted.Err? then err == Some(accepted.error) && sourceAddr == destAddr == None
        else
          && err == None && reader.rest == stream[accepted.value.1..]
          && sourceAddr == Source(accepted.value.0) && destAddr == Dest(accepted.value.0)
    {
      var header := ReadProxyProtocolHeader(parseIP, reader);
      if header.Err? {
        return Some(header.error);
      }
      if header.value.NoHeader? {
        if required {
          return Some(NotPresent);
        }
        return None;
      }
      if !trusted {
        return Some(Untrusted);
      }
      sourceAddr := header.value.source;
      destAddr := header.value.dest;
      return None;
    }

    /** Up to n bytes, as many as the buffer has ready.  Over all calls the caller gets the stream
        without its header, in order and without a gap, or never a byte. */
    method Read(n: nat, ready: nat) returns (r: Result<seq<byte>, Error>)
      requires Valid()
      modifies this, reader
      ensures Valid() && once
      ensures r.Err? <==> Accepted(parseIP, required, trusted, stream).Err?
      ensures r.Err? ==> delivered == old(delivered) == []
      ensures r.Ok? ==>
        var body := stream[Accepted(parseIP, required, trusted, stream).value.1..];
        && delivered == old(delivered) + r.value && delivered <= body
        && |r.value| == Least(n, ready, |body| - |old(delivered)|)
    {
      hide Parse, Accepted;
      var err := EnsureHeader();
      if err.Some? {
        return Err(err.value);
      }
      var k := Least(n, ready, |reader.rest|);
      var data := reader.rest[..k];
      assert reader.rest == data + reader.rest[k..];
      reader.rest := reader.rest[k..];
      delivered := delivered + data;
      return Ok(data);
    }

    /** The address a trusted header names, before as after any read, or the connection's own. */
    method RemoteAddr() returns (a: Addr)
      requires Valid()
      modifies this, reader
      ensures Valid() && once && delivered == old(delivered)
      ensures var accepted := Accepted(parseIP, required, trusted, stream);
        a == if accepted.Ok? && Source(accepted.value.0).Some? then Source(accepted.value.0).value else remote
    {
      hide Parse, Accepted;
      var _ := EnsureHeader();
      if headerErr == None && sourceAddr.Some? {
        return sourceAddr.value;
      }
      return remote;
    }

    method LocalAddr() returns (a: Addr)
      requires Valid()
      modifies this, reader
      ensures Valid() && once && delivered == old(delivered)
      ensures var accepted := Accepted(parseIP, required, trusted, stream);
        a == if accepted.Ok? && Dest(accepted.value.0).Some? then Dest(accepted.value.0).value else local
    {
      hide Parse, Accepted;
      var _ := EnsureHeader();
      if headerErr == None && destAddr.Some? {
        return destAddr.value;
      }
      return local;
    }
  }

  function Least(a: int, b: int, c: int): int {
    if a <= b && a <= c then a else if b <= c then b else c
  }

  function Source(h: Header): Option<Addr> {
    if h.NoHeader? then None else h.source
  }

  function Dest(h: Header): Option<Addr> {
    if h.NoHeader? then None else h.dest
  }

  /** An address is believed only from a trusted upstream, and a required header only if it is there. */
  lemma OnlyTrustedBelieved(parseIP: ParseIP, required: bool, trusted: bool, s: seq<byte>)
    ensures var r := Accepted(parseIP, required, trusted, s);
      && (r.Ok? && r.value.0.Header? ==> trusted)
      && (r.Ok? && required ==> r.value.0.Header?)
      && (r.Ok? && !r.value.0.Header? ==> r.value.1 == 0)
  {
    NoHeaderTakesNothing(parseIP, s);
  }
}
