/**
  Peeking at a client's X.224 connection request (section 2.2.1.1 of MS-RDPBCGR, inside a TPKT of
  section 6 of RFC 1006) for the routing token and the RDSTLS request.
 */
module RoutingTokens {
  import opened Wrappers

  newtype Octet = x: int | 0 <= x < 256

  type Bytes = seq<Octet>

  /** "Cookie: msts=" */
  const PREFIX: Bytes := [67, 111, 111, 107, 105, 101, 58, 32, 109, 115, 116, 115, 61]

  const CR: Octet := 0x0D
  const LF: Octet := 0x0A

  datatype Result =
    | PeekFailed | StillPeeking | BadVersion | TooShort | BadRequest | BadNegotiation
    | Parsed(token: Option<Bytes>, rdstls: bool)

  // ---- What a request means ----

  predicate IsCrLf(b: Bytes, i: nat) {
    i + 1 < |b| && b[i] == CR && b[i + 1] == LF
  }

  /** The position of the first CRLF. */
  function CrLfFrom(b: Bytes, from: nat): (r: Option<nat>)
    decreases |b| - from
  {
    if from + 1 >= |b| then None
    else if IsCrLf(b, from) then Some(from)
    else CrLfFrom(b, from + 1)
  }

  function UntilNul(b: Bytes): Bytes {
    if b == [] || b[0] == 0 then [] else [b[0]] + UntilNul(b[1..])
  }

  /** The token after the cookie prefix, and the length of prefix and token. */
  function TokenIn(rest: Bytes): Option<(Bytes, nat)> {
    if |rest| < |PREFIX| || rest[..|PREFIX|] != PREFIX then None
    else match CrLfFrom(rest, 0)
      case None => None
      case Some(end) =>
        CrLfAfterPrefix(rest, end);
        Some((UntilNul(rest[|PREFIX|..end]), end))
  }

  /** The cookie's prefix holds no CR, so the token never has a negative length. */
  lemma CrLfAfterPrefix(rest: Bytes, end: nat)
    requires |PREFIX| <= |rest| && rest[..|PREFIX|] == PREFIX && CrLfFrom(rest, 0) == Some(end)
    ensures |PREFIX| <= end && end + 2 <= |rest|
  {
    CrLfFound(rest, 0);
    forall i | 0 <= i < |PREFIX| ensures rest[i] != CR {
      PrefixHasNoCr(i);
      assert rest[..|PREFIX|][i] == rest[i];
    }
  }

  lemma PrefixHasNoCr(i: nat)
    requires i < |PREFIX|
    ensures PREFIX[i] != CR
  {}

  function Word(lo: Octet, hi: Octet): nat {
    lo as nat + 256 * hi as nat
  }

  function DoubleWord(b: Bytes): nat
    requires |b| == 4
  {
    Word(b[0], b[1]) + 0x1_0000 * Word(b[2], b[3])
  }

  predicate WantsRdstls(protocols: nat) {
    (protocols / 4) % 2 == 1
  }

  function Negotiation(token: Bytes, after: Bytes): Result {
    if |after| < 8 then Parsed(Some(token), false)
    else if after[0] != 1 || Word(after[2], after[3]) != 8 then BadNegotiation
    else Parsed(Some(token), WantsRdstls(DoubleWord(after[4..8])))
  }

  /** The TPKT header, as far as it is there, is not refused and announces more than there is. */
  predicate Incomplete(input: Bytes) {
    |input| < 4 || (input[0] == 3 && 11 <= Word(input[3], input[2]) && |input| < Word(input[3], input[2]))
  }

  /** The verdict on the first four bytes alone. */
  function Header(input: Bytes): Result
    requires |input| >= 4
  {
    if input[0] != 3 then BadVersion
    else if Word(input[3], input[2]) < 11 then TooShort
    else StillPeeking
  }

  /** The verdict on a whole request; what follows it is not looked at. */
  function Request(input: Bytes): Result
    requires |input| >= 4 && 11 <= Word(input[3], input[2]) <= |input|
  {
    var length := Word(input[3], input[2]);
    if length - 5 != input[4] as int || input[5] != 0xE0 || input[6] != 0 || input[7] != 0 || input[10] >= 4 then BadRequest
    else
      var rest := input[11..length];
      match TokenIn(rest)
      case None => Parsed(None, false)
      case Some((token, end)) =>
        CrLfFound(rest, 0);
        Negotiation(token, rest[end + 2..])
  }

  /** What there is to say about the bytes a client sends, once enough of them have been seen. */
  function Decide(input: Bytes): Result
    requires !Incomplete(input)
  {
    if Header(input) != StillPeeking then Header(input) else Request(input)
  }

  // ---- The receive rounds ----

  /** One round of the peek loop: nothing yet, an error or a cancellation, or so many bytes in the socket's buffer. */
  datatype Round = Nothing | Broken | Available(bytes: nat)

  /** Peeking takes nothing out: what is there stays there, and it is never more than the client sends. */
  predicate Arriving(input: Bytes, rounds: seq<Round>) {
    && (forall i | 0 <= i < |rounds| && rounds[i].Available? :: rounds[i].bytes <= |input|)
    && (forall i, j | 0 <= i < j < |rounds| && rounds[i].Available? && rounds[j].Available? :: rounds[i].bytes <= rounds[j].bytes)
  }

  datatype PeekEnd = Filled(used: nat) | BrokenOff | Running

  function PeekBytes(length: nat, rounds: seq<Round>): (end: PeekEnd)
    ensures end.Filled? ==> 0 < end.used <= |rounds|
    decreases |rounds|
  {
    if rounds == [] then Running
    else if rounds[0] == Broken then BrokenOff
    else if rounds[0].Available? && rounds[0].bytes >= length then Filled(1)
    else match PeekBytes(length, rounds[1..])
      case Filled(used) => Filled(used + 1)
      case end => end
  }

  /** Four bytes for the length, then the whole request, each with its own rounds. */
  function Peek(input: Bytes, rounds: seq<Round>): Result
    requires Arriving(input, rounds)
  {
    match PeekBytes(4, rounds)
    case Running => StillPeeking
    case BrokenOff => PeekFailed
    case Filled(used) =>
      LoopOutcome(4, rounds);
      if Header(input) != StillPeeking then Header(input)
      else
        var length := Word(input[3], input[2]);
        match PeekBytes(length, rounds[used..])
        case Running => StillPeeking
        case BrokenOff => PeekFailed
        case Filled(_) =>
          LoopOutcome(length, rounds[used..]);
          Request(input)
  }

  lemma {:induction false} LoopOutcome(length: nat, rounds: seq<Round>)
    ensures PeekBytes(length, rounds) == BrokenOff ==> Broken in rounds
    ensures PeekBytes(length, rounds).Filled? ==>
      var last := rounds[PeekBytes(length, rounds).used - 1]; last.Available? && last.bytes >= length
    decreases |rounds|
  {
    if rounds != [] {
      LoopOutcome(length, rounds[1..]);
    }
  }

  lemma {:induction false} LoopEndsBy(length: nat, rounds: seq<Round>, i: nat)
    requires i < |rounds| && Ends(length, rounds[i])
    ensures PeekBytes(length, rounds) != Running
    ensures PeekBytes(length, rounds).Filled? ==> PeekBytes(length, rounds).used <= i + 1
    decreases |rounds|
  {
    if i > 0 {
      LoopEndsBy(length, rounds[1..], i - 1);
    }
  }

  /** A round that ends the loop. */
  predicate Ends(length: nat, round: Round) {
    round == Broken || (round.Available? && round.bytes >= length)
  }

  /** The loop still runs exactly while no round was broken off or offered enough; otherwise the first such round decides. */
  lemma {:induction false} PeekBytesIs(length: nat, rounds: seq<Round>)
    ensures PeekBytes(length, rounds) == Running <==> forall i | 0 <= i < |rounds| :: !Ends(length, rounds[i])
    ensures PeekBytes(length, rounds) == BrokenOff <==>
      exists i | 0 <= i < |rounds| :: rounds[i] == Broken && forall j | 0 <= j < i :: !Ends(length, rounds[j])
    ensures PeekBytes(length, rounds).Filled? ==>
      var used := PeekBytes(length, rounds).used;
      && rounds[used - 1].Available? && rounds[used - 1].bytes >= length
      && forall j | 0 <= j < used - 1 :: !Ends(length, rounds[j])
    decreases |rounds|
  {
    if rounds != [] && !Ends(length, rounds[0]) {
      var rest := rounds[1..];
      PeekBytesIs(length, rest);
      if PeekBytes(length, rest) == BrokenOff {
        var i :| 0 <= i < |rest| && rest[i] == Broken && forall j | 0 <= j < i :: !Ends(length, rest[j]);
        assert rounds[i + 1] == Broken;
        assert forall j | 0 < j < i + 1 :: rounds[j] == rest[j - 1];
      }
      if i :| 0 <= i < |rounds| && rounds[i] == Broken && forall j | 0 <= j < i :: !Ends(length, rounds[j]) {
        assert rest[i - 1] == Broken;
        assert forall j | 0 <= j < i - 1 :: rest[j] == rounds[j + 1];
      }
      assert forall j | 0 < j < |rounds| :: rounds[j] == rest[j - 1];
    } else if rounds != [] {
      assert Ends(length, rounds[0]);
    }
  }

  lemma {:induction false} CrLfFound(b: Bytes, from: nat)
    ensures var r := CrLfFrom(b, from);
      && (r.Some? ==> from <= r.value && IsCrLf(b, r.value) && forall i | from <= i < r.value :: !IsCrLf(b, i))
      && (r.None? ==> forall i | from <= i :: !IsCrLf(b, i))
    decreases |b| - from
  {
    if from + 1 < |b| && !IsCrLf(b, from) {
      CrLfFound(b, from + 1);
    }
  }

  // ---- The parser ----

  class Stream {
    const data: Bytes
    var pos: nat

    constructor (data: Bytes)
      ensures this.data == data && pos == 0
    {
      this.data, pos := data, 0;
    }

    method ReadByte() returns (b: Octet)
      requires pos < |data|
      modifies this
      ensures pos == old(pos) + 1 && b == data[old(pos)]
    {
      b := data[pos];
      pos := pos + 1;
    }

    method Seek(n: nat)
      requires pos + n <= |data|
      modifies this
      ensures pos == old(pos) + n
    {
      pos := pos + n;
    }

    method ReadWordBigEndian() returns (n: nat)
      requires pos + 2 <= |data|
      modifies this
      ensures pos == old(pos) + 2 && n == Word(data[old(pos) + 1], data[old(pos)])
    {
      var hi := ReadByte();
      var lo := ReadByte();
      return Word(lo, hi);
    }

    method ReadWord() returns (n: nat)
      requires pos + 2 <= |data|
      modifies this
      ensures pos == old(pos) + 2 && n == Word(data[old(pos)], data[old(pos) + 1])
    {
      var lo := ReadByte();
      var hi := ReadByte();
      return Word(lo, hi);
    }

    method ReadDoubleWord() returns (n: nat)
      requires pos + 4 <= |data|
      modifies this
      ensures pos == old(pos) + 4 && n == DoubleWord(data[old(pos)..old(pos) + 4])
    {
      var lo := ReadWord();
      var hi := ReadWord();
      return lo + 0x1_0000 * hi;
    }
  }

  class RoutingTokenInfo {
    var requestedRdstls: bool
    var routingToken: Option<Bytes>

    constructor ()
      ensures !requestedRdstls && routingToken.None?
    {
      requestedRdstls, routingToken := false, None;
    }
  }

  method FindCrLf(buffer: Bytes) returns (index: int)
    ensures index == -1 ==> CrLfFrom(buffer, 0).None?
    ensures index != -1 ==> 0 <= index && CrLfFrom(buffer, 0) == Some(index)
  {
    var i := 0;
    while i < |buffer| - 1
      invariant 0 <= i && (|buffer| > 0 ==> i < |buffer|)
      invariant CrLfFrom(buffer, i) == CrLfFrom(buffer, 0)
    {
      if buffer[i] == 0x0D && buffer[i + 1] == 0x0A {
        return i;
      }
      i := i + 1;
    }
    return -1;
  }

  method CopyUntilNul(b: Bytes) returns (s: Bytes)
    ensures s == UntilNul(b)
  {
    var i := 0;
    s := [];
    assert b[0..] == b;
    while i < |b| && b[i] != 0
      invariant 0 <= i <= |b|
      invariant UntilNul(b) == s + UntilNul(b[i..])
    {
      assert b[i..][1..] == b[i + 1..];
      assert s + ([b[i]] + UntilNul(b[i + 1..])) == (s + [b[i]]) + UntilNul(b[i + 1..]);
      s := s + [b[i]];
      i := i + 1;
    }
    assert UntilNul(b[i..]) == [];
  }

  method GetRoutingTokenWithoutPrefix(buffer: Bytes) returns (token: Option<Bytes>, length: nat)
    ensures TokenIn(buffer) == if token.Some? then Some((token.value, length)) else None
    ensures token.Some? ==> length + 2 <= |buffer|
  {
    if |buffer| < |PREFIX| {
      return None, 0;
    }
    if buffer[..|PREFIX|] != PREFIX {
      return None, 0;
    }
    var index := FindCrLf(buffer);
    if index == -1 {
      return None, 0;
    }
    CrLfAfterPrefix(buffer, index);
    var text := CopyUntilNul(buffer[|PREFIX|..index]);
    return Some(text), index;
  }

  /** The loop of receive calls that leave the bytes where they are. */
  method PeekFrom(length: nat, rounds: seq<Round>, start: nat) returns (end: PeekEnd)
    requires start <= |rounds|
    ensures end == PeekBytes(length, rounds[start..])
  {
    var i := start;
    while i < |rounds|
      invariant start <= i <= |rounds|
      invariant PeekBytes(length, rounds[start..]) == match PeekBytes(length, rounds[i..])
        case Filled(used) => Filled(used + i - start)
        case other => other
    {
      var round := rounds[i];
      assert rounds[i..][1..] == rounds[i + 1..];
      i := i + 1;
      if round == Broken {
        return BrokenOff;
      }
      if round == Nothing {
        continue;
      }
      if round.bytes >= length {
        return Filled(i - start);
      }
    }
    return Running;
  }

  method RoutingTokenPeek(input: Bytes, rounds: seq<Round>, info: RoutingTokenInfo) returns (result: Result)
    requires Arriving(input, rounds)
    requires !info.requestedRdstls && info.routingToken.None?
    modifies info
    ensures result == Peek(input, rounds)
    ensures result.Parsed? ==> info.routingToken == result.token && info.requestedRdstls == result.rdstls
    ensures !result.Parsed? ==> !info.requestedRdstls
  {
    assert rounds[0..] == rounds;
    var first := PeekFrom(4, rounds, 0);
    if first == BrokenOff {
      return PeekFailed;
    }
    if first == Running {
      return StillPeeking;
    }
    LoopOutcome(4, rounds);
    var header := new Stream(input[..4]);
    var version := header.ReadByte();
    header.Seek(1);
    var length := header.ReadWordBigEndian();
    if version != 3 {
      return BadVersion;
    }
    if length < 4 + 7 {
      return TooShort;
    }
    var second := PeekFrom(length, rounds, first.used);
    if second == BrokenOff {
      return PeekFailed;
    }
    if second == Running {
      return StillPeeking;
    }
    LoopOutcome(length, rounds[first.used..]);
    result := ReadRequest(input, length, info);
  }

  /** The part behind the second peek. */
  method ReadRequest(input: Bytes, length: nat, info: RoutingTokenInfo) returns (result: Result)
    requires |input| >= 4 && length == Word(input[3], input[2]) && 11 <= length <= |input|
    requires !info.requestedRdstls && info.routingToken.None?
    modifies info
    ensures result == Request(input)
    ensures result.Parsed? ==> info.routingToken == result.token && info.requestedRdstls == result.rdstls
    ensures !result.Parsed? ==> !info.requestedRdstls
  {
    var stream := new Stream(input[..length]);
    var ok := CheckRequestHeader(stream, length);
    if !ok {
      return BadRequest;
    }
    assert input[..length][11..] == input[11..length];
    var token, tokenLength := GetRoutingTokenWithoutPrefix(stream.data[stream.pos..]);
    info.routingToken := token;
    if token.None? {
      return Parsed(None, false);
    }
    stream.Seek(tokenLength + 2);
    assert stream.data[stream.pos..] == input[11..length][tokenLength + 2..];
    result := ReadNegotiation(stream, token.value);
    if result.Parsed? {
      info.requestedRdstls := result.rdstls;
    }
  }

  /** Length indicator, connection-request code, destination reference and class. */
  method CheckRequestHeader(stream: Stream, length: nat) returns (ok: bool)
    requires stream.pos == 0 && |stream.data| == length >= 11
    modifies stream
    ensures stream.pos == 11
    ensures var d := stream.data;
      ok == (length - 5 == d[4] as int && d[5] == 0xE0 && d[6] == 0 && d[7] == 0 && d[10] < 4)
  {
    stream.Seek(4);
    var indicator := stream.ReadByte();
    var code := stream.ReadByte();
    var dstRef := stream.ReadWord();
    stream.Seek(2);
    var classOption := stream.ReadByte();
    return !(length - 5 != indicator as int || code != 0xE0 || dstRef != 0 || classOption >= 4);
  }

  method ReadNegotiation(stream: Stream, token: Bytes) returns (result: Result)
    requires stream.pos <= |stream.data|
    modifies stream
    ensures result == Negotiation(token, stream.data[old(stream.pos)..])
  {
    ghost var after := stream.data[stream.pos..];
    if |stream.data| - stream.pos < 8 {
      return Parsed(Some(token), false);
    }
    var negType := stream.ReadByte();
    stream.Seek(1);
    var negLength := stream.ReadWord();
    assert stream.data[stream.pos..stream.pos + 4] == after[4..8];
    var protocols := stream.ReadDoubleWord();
    if negType != 0x01 || negLength != 8 {
      return BadNegotiation;
    }
    return Parsed(Some(token), WantsRdstls(protocols));
  }

  // ---- A client's request, and what is read back from it ----

  function WordBytes(n: nat): Bytes
    requires n < 0x1_0000
  {
    [(n % 256) as Octet, (n / 256) as Octet]
  }

  function DoubleWordBytes(n: nat): Bytes
    requires n < 0x1_0000_0000
  {
    WordBytes(n % 0x1_0000) + WordBytes(n / 0x1_0000)
  }

  /** Cookie line and negotiation request of a client that holds a token. */
  function Body(token: Bytes, protocols: nat): Bytes
    requires protocols < 0x1_0000_0000
  {
    PREFIX + token + [CR, LF] + [1, 0, 8, 0] + DoubleWordBytes(protocols)
  }

  /** The most that fits behind the fixed part, since the one-byte length indicator counts all but five bytes. */
  const MAX_BODY: nat := 249

  /** TPKT header, X.224 connection request of class 0, and what follows it. */
  function Framed(body: Bytes, srcRef: (Octet, Octet), classOption: Octet): (request: Bytes)
    requires |body| <= MAX_BODY && classOption < 4
    ensures |request| == 11 + |body| && request[11..] == body
  {
    var length := 11 + |body|;
    [3, 0, (length / 256) as Octet, (length % 256) as Octet,
     (length - 5) as Octet, 0xE0, 0, 0, srcRef.0, srcRef.1, classOption] + body
  }

  /** The longest token the one-byte length indicator leaves room for. */
  const MAX_TOKEN: nat := 226

  function ConnectionRequest(token: Bytes, protocols: nat, srcRef: (Octet, Octet), classOption: Octet): Bytes
    requires |token| <= MAX_TOKEN && protocols < 0x1_0000_0000 && classOption < 4
  {
    Framed(Body(token, protocols), srcRef, classOption)
  }

  ghost predicate Sendable(token: Bytes) {
    0 !in token && forall i | 0 <= i < |token| :: !IsCrLf(token, i)
  }

  lemma {:induction false} UntilNulWhole(b: Bytes)
    requires 0 !in b
    ensures UntilNul(b) == b
  {
    if b != [] {
      UntilNulWhole(b[1..]);
    }
  }

  lemma CrLfAfterToken(token: Bytes, tail: Bytes)
    requires Sendable(token)
    ensures CrLfFrom(PREFIX + token + [CR, LF] + tail, 0) == Some(|PREFIX| + |token|)
  {
    var rest := PREFIX + token + [CR, LF] + tail;
    var end := |PREFIX| + |token|;
    assert rest[..|PREFIX|] == PREFIX;
    assert IsCrLf(rest, end);
    forall i | 0 <= i < end ensures !IsCrLf(rest, i) {
      if i < |PREFIX| {
        assert rest[i] == rest[..|PREFIX|][i] == PREFIX[i];
      } else {
        var k := i - |PREFIX|;
        assert rest[i] == token[k];
        assert !IsCrLf(token, k);
        if k + 1 < |token| {
          assert rest[i + 1] == token[k + 1];
        }
      }
    }
    CrLfFound(rest, 0);
  }

  lemma DoubleWordRoundTrip(n: nat)
    requires n < 0x1_0000_0000
    ensures DoubleWord(DoubleWordBytes(n)) == n
  {}

  /** What the bytes behind the fixed part amount to. */
  function Meaning(body: Bytes): Result {
    match TokenIn(body)
    case None => Parsed(None, false)
    case Some((token, end)) =>
      CrLfFound(body, 0);
      Negotiation(token, body[end + 2..])
  }

  /** Whatever a client appends, a framed request is decided by its body. */
  lemma FramedDecided(body: Bytes, srcRef: (Octet, Octet), classOption: Octet, more: Bytes)
    requires |body| <= MAX_BODY && classOption < 4
    ensures !Incomplete(Framed(body, srcRef, classOption) + more)
    ensures Decide(Framed(body, srcRef, classOption) + more) == Meaning(body)
  {
    var request := Framed(body, srcRef, classOption);
    var input := request + more;
    assert input[11..|request|] == body;
    hide CrLfFrom, UntilNul, TokenIn, Negotiation;
  }

  /** The converse: every accepted request is a framed one, but for the reserved byte of the TPKT header. */
  lemma AcceptedIsFramed(input: Bytes)
    requires !Incomplete(input) && Decide(input).Parsed?
    ensures
      var length := Word(input[3], input[2]);
      && 11 <= length <= |input| && |input[11..length]| <= MAX_BODY && input[10] < 4
      && input[..length][1 := 0] == Framed(input[11..length], (input[8], input[9]), input[10])
  {
    hide CrLfFrom, UntilNul, TokenIn, Negotiation;
  }

  /** The cookie's prefix, letter by letter. */
  lemma PrefixSpells()
    ensures |PREFIX| == |"Cookie: msts="|
    ensures forall i | 0 <= i < |PREFIX| :: PREFIX[i] as int == "Cookie: msts="[i] as int
  {}

  /** Behind a cookie line, the rest of the body is the negotiation. */
  lemma CookieMeaning(token: Bytes, tail: Bytes)
    requires Sendable(token)
    ensures Meaning(PREFIX + token + [CR, LF] + tail) == Negotiation(token, tail)
  {
    TokenInRest(token, tail);
    hide CrLfFrom, UntilNul, TokenIn, Negotiation;
  }

  /** A cookie with less than a negotiation request behind it: the token, and no RDSTLS. */
  lemma CookieAlone(token: Bytes, tail: Bytes, srcRef: (Octet, Octet), classOption: Octet, more: Bytes)
    requires Sendable(token) && |tail| < 8 && |PREFIX + token + [CR, LF] + tail| <= MAX_BODY && classOption < 4
    ensures var input := Framed(PREFIX + token + [CR, LF] + tail, srcRef, classOption) + more;
      !Incomplete(input) && Decide(input) == Parsed(Some(token), false)
  {
    CookieMeaning(token, tail);
    FramedDecided(PREFIX + token + [CR, LF] + tail, srcRef, classOption, more);
    hide Meaning, Decide, Incomplete, Framed;
  }

  /** A cookie with something else than a negotiation request behind it is refused. */
  lemma CookieWithGarbage(token: Bytes, tail: Bytes, srcRef: (Octet, Octet), classOption: Octet, more: Bytes)
    requires Sendable(token) && |tail| >= 8 && |PREFIX + token + [CR, LF] + tail| <= MAX_BODY && classOption < 4
    requires tail[0] != 1 || tail[2] != 8 || tail[3] != 0
    ensures var input := Framed(PREFIX + token + [CR, LF] + tail, srcRef, classOption) + more;
      !Incomplete(input) && Decide(input) == BadNegotiation
  {
    CookieMeaning(token, tail);
    FramedDecided(PREFIX + token + [CR, LF] + tail, srcRef, classOption, more);
    hide Meaning, Decide, Incomplete, Framed;
  }

  /** A request without a cookie line has no token, and its negotiation request is not looked at. */
  lemma NoCookie(body: Bytes, srcRef: (Octet, Octet), classOption: Octet, more: Bytes)
    requires |body| <= MAX_BODY && classOption < 4
    requires |body| < |PREFIX| || body[..|PREFIX|] != PREFIX || forall i :: !IsCrLf(body, i)
    ensures var input := Framed(body, srcRef, classOption) + more;
      !Incomplete(input) && Decide(input) == Parsed(None, false)
  {
    CrLfFound(body, 0);
    FramedDecided(body, srcRef, classOption, more);
    hide Decide, Incomplete, Framed, CrLfFrom;
  }

  /** Whatever a client appends, the verdict on its request is exactly its token and its RDSTLS wish. */
  lemma RequestDecided(token: Bytes, protocols: nat, srcRef: (Octet, Octet), classOption: Octet, more: Bytes)
    requires Sendable(token) && |token| <= MAX_TOKEN && protocols < 0x1_0000_0000 && classOption < 4
    ensures var input := ConnectionRequest(token, protocols, srcRef, classOption) + more;
      !Incomplete(input) && Decide(input) == Parsed(Some(token), WantsRdstls(protocols))
  {
    var tail := [1, 0, 8, 0] + DoubleWordBytes(protocols);
    assert Body(token, protocols) == PREFIX + token + [CR, LF] + tail;
    CookieMeaning(token, tail);
    FramedDecided(Body(token, protocols), srcRef, classOption, more);
    assert tail[4..8] == DoubleWordBytes(protocols);
    DoubleWordRoundTrip(protocols);
    hide Meaning, Decide, Incomplete, Framed, Body;
  }

  /** A set of requested protocols, split at the RDSTLS bit: what is below it, the bit, and what is above it. */
  function Protocols(low: nat, rdstls: bool, high: nat): nat {
    low + (if rdstls then 4 else 0) + 8 * high
  }

  lemma RdstlsIsItsBit(low: nat, rdstls: bool, high: nat)
    requires low < 4
    ensures WantsRdstls(Protocols(low, rdstls, high)) == rdstls
  {}

  lemma TokenInRest(token: Bytes, tail: Bytes)
    requires Sendable(token)
    ensures var rest := PREFIX + token + [CR, LF] + tail; var end := |PREFIX| + |token|;
      TokenIn(rest) == Some((token, end)) && rest[end + 2..] == tail
  {
    var rest := PREFIX + token + [CR, LF] + tail;
    var end := |PREFIX| + |token|;
    CrLfAfterToken(token, tail);
    assert rest[..|PREFIX|] == PREFIX && rest[|PREFIX|..end] == token;
    UntilNulWhole(token);
    hide CrLfFrom, UntilNul;
  }

  /** In whatever pieces the bytes arrive, the answer is the verdict on them, or a failure if a round broke, or none yet. */
  lemma PiecesDoNotMatter(input: Bytes, rounds: seq<Round>)
    requires Arriving(input, rounds)
    ensures Peek(input, rounds) != StillPeeking && Peek(input, rounds) != PeekFailed ==>
      !Incomplete(input) && Peek(input, rounds) == Decide(input)
    ensures Peek(input, rounds) == PeekFailed ==> Broken in rounds
  {
    if !Incomplete(input) { DecidedIsFinal(input); }
    hide Request, PeekBytes;
    LoopOutcome(4, rounds);
    if PeekBytes(4, rounds).Filled? {
      LoopOutcome(Word(input[3], input[2]), rounds[PeekBytes(4, rounds).used..]);
    }
  }

  /** All that the client sends is there in two of the rounds, one for each of the two peeks. */
  ghost predicate AllThereTwice(input: Bytes, rounds: seq<Round>) {
    exists i, j | 0 <= i < j < |rounds| :: rounds[i] == rounds[j] == Available(|input|)
  }

  /** A peek that nothing breaks off comes back as soon as both its parts have seen a whole request. */
  lemma WholeRequestEnds(input: Bytes, rounds: seq<Round>)
    requires Arriving(input, rounds) && Broken !in rounds && !Incomplete(input) && AllThereTwice(input, rounds)
    ensures Peek(input, rounds) == Decide(input)
  {
    PiecesDoNotMatter(input, rounds);
    var i, j :| 0 <= i < j < |rounds| && rounds[i] == rounds[j] == Available(|input|);
    hide Request, PeekBytes, Decide, AllThereTwice, Word;
    LoopEndsBy(4, rounds, i);
    LoopOutcome(4, rounds);
    var used := PeekBytes(4, rounds).used;
    if Header(input) == StillPeeking {
      var length := Word(input[3], input[2]);
      LoopEndsBy(length, rounds[used..], j - used);
      LoopOutcome(length, rounds[used..]);
    }
  }

  /** The peek never ends, whatever the rounds bring, as long as none breaks: an error or a cancellation is the only way out. */
  ghost predicate NeverEnds(input: Bytes) {
    forall rounds | Arriving(input, rounds) && Broken !in rounds :: Peek(input, rounds) == StillPeeking
  }

  /** A client that stops short of a whole request, be it by closing, keeps the peek going for ever, and only such a client. */
  lemma PeekNeverEndsIff(input: Bytes)
    ensures NeverEnds(input) <==> Incomplete(input)
  {
    if Incomplete(input) {
      forall rounds | Arriving(input, rounds) && Broken !in rounds ensures Peek(input, rounds) == StillPeeking {
        PiecesDoNotMatter(input, rounds);
      }
    } else {
      var all := [Available(|input|), Available(|input|)];
      assert all[0] == all[1] == Available(|input|);
      assert AllThereTwice(input, all);
      WholeRequestEnds(input, all);
      DecidedIsFinal(input);
      assert Peek(input, all) != StillPeeking;
    }
  }

  lemma DecidedIsFinal(input: Bytes)
    requires !Incomplete(input)
    ensures Decide(input) != StillPeeking && Decide(input) != PeekFailed
  {
    hide CrLfFrom, UntilNul, TokenIn;
  }

  /** A peer that closes after four good bytes: every round finds those four, and so it goes on. */
  lemma ClosedAfterHeader(count: nat)
    ensures var input: Bytes := [3, 0, 0, 19]; var rounds := seq(count, _ => Available(4));
      Arriving(input, rounds) && Peek(input, rounds) == StillPeeking
  {
    var input: Bytes := [3, 0, 0, 19];
    PeekNeverEndsIff(input);
  }

  /** Any uninterrupted peek at a client's request that has all arrived returns exactly its token and its RDSTLS wish. */
  lemma RequestRoundTrip(token: Bytes, protocols: nat, srcRef: (Octet, Octet), classOption: Octet, more: Bytes, rounds: seq<Round>)
    requires Sendable(token) && |token| <= MAX_TOKEN && protocols < 0x1_0000_0000 && classOption < 4
    requires Arriving(ConnectionRequest(token, protocols, srcRef, classOption) + more, rounds)
    ensures var result := Peek(ConnectionRequest(token, protocols, srcRef, classOption) + more, rounds);
      && (result == Parsed(Some(token), WantsRdstls(protocols)) || result == StillPeeking || (result == PeekFailed && Broken in rounds))
      && (AllThereTwice(ConnectionRequest(token, protocols, srcRef, classOption) + more, rounds) && Broken !in rounds ==>
            result == Parsed(Some(token), WantsRdstls(protocols)))
  {
    var input := ConnectionRequest(token, protocols, srcRef, classOption) + more;
    RequestDecided(token, protocols, srcRef, classOption, more);
    PiecesDoNotMatter(input, rounds);
    hide Decide, Peek, ConnectionRequest, Incomplete, WantsRdstls;
    if AllThereTwice(input, rounds) && Broken !in rounds {
      WholeRequestEnds(input, rounds);
    }
  }

  /** The same with the wish as a bit: whatever else is requested, the answer says RDSTLS exactly if that bit was set. */
  lemma RdstlsRoundTrip(token: Bytes, low: nat, rdstls: bool, high: nat, srcRef: (Octet, Octet), classOption: Octet, more: Bytes, rounds: seq<Round>)
    requires Sendable(token) && |token| <= MAX_TOKEN && low < 4 && Protocols(low, rdstls, high) < 0x1_0000_0000 && classOption < 4
    requires Arriving(ConnectionRequest(token, Protocols(low, rdstls, high), srcRef, classOption) + more, rounds)
    requires AllThereTwice(ConnectionRequest(token, Protocols(low, rdstls, high), srcRef, classOption) + more, rounds) && Broken !in rounds
    ensures Peek(ConnectionRequest(token, Protocols(low, rdstls, high), srcRef, classOption) + more, rounds) == Parsed(Some(token), rdstls)
  {
    RequestRoundTrip(token, Protocols(low, rdstls, high), srcRef, classOption, more, rounds);
    RdstlsIsItsBit(low, rdstls, high);
    hide Peek, ConnectionRequest, WantsRdstls, Protocols;
  }

  /** Every accepted request is complete and fits the one-byte length indicator, and nothing behind it matters. */
  lemma AcceptedIsShort(input: Bytes, rounds: seq<Round>)
    requires Arriving(input, rounds) && Peek(input, rounds).Parsed?
    ensures !Incomplete(input)
    ensures var length := Word(input[3], input[2]);
      11 <= length <= 260 && length <= |input| && !Incomplete(input[..length]) && Peek(input, rounds) == Decide(input[..length])
  {
    PiecesDoNotMatter(input, rounds);
    hide Peek;
    var length := Word(input[3], input[2]);
    assert input[..length][11..length] == input[11..length];
  }
}
