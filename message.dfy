/**
 * The chat message of practice-4/message.h: addresses and their equality,
 * the letter-shift cipher keyed by the sender's port, the textual wire
 * format, and the bounded duplicate cache.  `deserialize` reads through a
 * std::stringstream; the stream is modelled as text, a read position and
 * one flag that is false once any of failbit or eofbit is set (every later
 * extraction is then a no-op, as its sentry fails).
 */
module ChatMessage {
  import opened Decimal

  const INT_MIN: int := -0x8000_0000
  const INT_MAX: int := 0x7FFF_FFFF

  /** C++ `int`. */
  newtype int32 = x: int | -0x8000_0000 <= x < 0x8000_0000

  const MAX_BUFF_SIZE: nat := 1024
  const DEFAULT_TTL: int32 := 10
  const MAX_CACHE_SIZE: nat := 100

  /** An address: the IPv4 address through the `int` view of its union, and the port. */
  datatype Address = Address(ip: int32, port: int32)

  /** operator == on addresses. */
  predicate AddrEq(h1: Address, h2: Address)
  {
    h1.ip == h2.ip && h1.port == h2.port
  }

  /** operator != on addresses. */
  predicate AddrNe(h1: Address, h2: Address)
  {
    h1.ip != h2.ip || h1.port != h2.port
  }

  /** == is equality of both fields, and != is exactly its negation. */
  lemma AddressEquality(h1: Address, h2: Address)
    ensures AddrEq(h1, h2) <==> h1 == h2
    ensures AddrNe(h1, h2) <==> !AddrEq(h1, h2)
  {
  }

  datatype Message = Message(addr: Address, ttl: int32, id: int32, content: string)

  /** C++'s /: the quotient truncated toward zero. */
  function CDiv(a: int, b: int): int
    requires b > 0
  {
    if a >= 0 then a / b else -((-a) / b)
  }

  /**
   * C++'s %: the remainder truncated toward zero, carrying the dividend's
   * sign, so that (a / b) * b + a % b == a with C++'s truncating division.
   */
  function CRem(a: int, b: int): (r: int)
    requires b > 0
    ensures -b < r < b
    ensures a >= 0 ==> r == a % b
    ensures a <= 0 ==> r <= 0
    ensures CDiv(a, b) * b + r == a
  {
    if a >= 0 then a % b
    else
      var q := (-a) / b;
      assert -a == q * b + (-a) % b;
      assert (-q) * b == -(q * b);
      -((-a) % b)
  }

  predicate IsLower(c: char)
  {
    'a' <= c <= 'z'
  }

  predicate IsUpper(c: char)
  {
    'A' <= c <= 'Z'
  }

  /** The letter's place in its alphabet, 0 to 25. */
  function LetterIndex(c: char): (x: int)
    requires IsLower(c) || IsUpper(c)
    ensures 0 <= x < 26
  {
    if IsLower(c) then c as int - 'a' as int else c as int - 'A' as int
  }

  /** encode computes x + port in `int`: it has a defined result only without overflow. */
  predicate EncodeDefined(port: int32, s: string)
  {
    forall i | 0 <= i < |s| :: (IsLower(s[i]) || IsUpper(s[i])) ==> LetterIndex(s[i]) + port as int <= INT_MAX
  }

  /** One character of encode: a letter is shifted by (x + port) % 26 in its own case. */
  function EncChar(port: int32, c: char): char
    requires (IsLower(c) || IsUpper(c)) ==> LetterIndex(c) + port as int <= INT_MAX
  {
    if IsLower(c) then ('a' as int + CRem(LetterIndex(c) + port as int, 26)) as char
    else if IsUpper(c) then ('A' as int + CRem(LetterIndex(c) + port as int, 26)) as char
    else c
  }

  /** One character of decode: (x - port % 26 + 26) % 26, always a letter of the same case. */
  function DecChar(port: int32, c: char): char
  {
    if IsLower(c) then ('a' as int + (LetterIndex(c) - CRem(port as int, 26) + 26) % 26) as char
    else if IsUpper(c) then ('A' as int + (LetterIndex(c) - CRem(port as int, 26) + 26) % 26) as char
    else c
  }

  /** Message::encode. */
  function Encoded(port: int32, s: string): string
    requires EncodeDefined(port, s)
  {
    seq(|s|, i requires 0 <= i < |s| => EncChar(port, s[i]))
  }

  /** Message::decode. */
  function Decoded(port: int32, s: string): string
  {
    seq(|s|, i requires 0 <= i < |s| => DecChar(port, s[i]))
  }

  /** The character loop of Message::encode. */
  method Encode(port: int32, str: string) returns (ret: string)
    requires EncodeDefined(port, str)
    ensures ret == Encoded(port, str)
  {
    ret := "";
    for i := 0 to |str|
      invariant ret == Encoded(port, str[..i])
    {
      ret := ret + [EncChar(port, str[i])];
    }
    assert str[..|str|] == str;
  }

  /** The character loop of Message::decode. */
  method Decode(port: int32, str: string) returns (ret: string)
    ensures ret == Decoded(port, str)
  {
    ret := "";
    for i := 0 to |str|
      invariant ret == Decoded(port, str[..i])
    {
      ret := ret + [DecChar(port, str[i])];
    }
    assert str[..|str|] == str;
  }

  /**
   * encode keeps the length and every non-letter; for a non-negative port
   * it maps lower case to lower case and upper case to upper case, moving
   * each letter port mod 26 places along its alphabet.
   */
  lemma EncodeShape(port: int32, s: string)
    requires EncodeDefined(port, s)
    ensures |Encoded(port, s)| == |s|
    ensures forall i | 0 <= i < |s| && !IsLower(s[i]) && !IsUpper(s[i]) :: Encoded(port, s)[i] == s[i]
    ensures port >= 0 ==> forall i | 0 <= i < |s| && IsLower(s[i]) ::
              IsLower(Encoded(port, s)[i]) && LetterIndex(Encoded(port, s)[i]) == (LetterIndex(s[i]) + port as int) % 26
    ensures port >= 0 ==> forall i | 0 <= i < |s| && IsUpper(s[i]) ::
              IsUpper(Encoded(port, s)[i]) && LetterIndex(Encoded(port, s)[i]) == (LetterIndex(s[i]) + port as int) % 26
  {
  }

  /** Adding whole turns of the alphabet does not change a remainder modulo 26. */
  lemma {:induction false} ModTurns(a: int, k: nat)
    ensures (a + 26 * k) % 26 == a % 26
    decreases k
  {
    if k > 0 {
      ModTurns(a, k - 1);
      assert a + 26 * k == (a + 26 * (k - 1)) + 26;
    }
  }

  /** A remainder modulo 26 of a number below two turns. */
  lemma ModSmall(a: int)
    requires 0 <= a < 52
    ensures a % 26 == if a < 26 then a else a - 26
  {
  }

  /** Shifting a letter index by p, then back by p mod 26, returns it. */
  lemma ShiftThenBack(x: int, p: int)
    requires 0 <= x < 26 && p >= 0
    ensures ((x + p) % 26 - p % 26 + 26) % 26 == x
  {
    var q := p % 26;
    ModTurns(x + q, p / 26);
    assert x + p == x + q + 26 * (p / 26);
    ModSmall(x + q);
    ModSmall((x + q) % 26 - q + 26);
  }

  /** Shifting a letter index back by p mod 26, then by p, returns it. */
  lemma BackThenShift(x: int, p: int)
    requires 0 <= x < 26 && p >= 0
    ensures ((x - p % 26 + 26) % 26 + p) % 26 == x
  {
    var q := p % 26;
    ModSmall(x - q + 26);
    var z := (x - q + 26) % 26;
    ModTurns(z + q, p / 26);
    assert z + p == z + q + 26 * (p / 26);
    ModSmall(z + q);
  }

  /** Shifting by p and back by p mod 26, in either order, returns a letter index to itself. */
  lemma ShiftBack(x: int, p: int)
    requires 0 <= x < 26 && p >= 0
    ensures ((x + p) % 26 - p % 26 + 26) % 26 == x
    ensures ((x - p % 26 + 26) % 26 + p) % 26 == x
  {
    ShiftThenBack(x, p);
    BackThenShift(x, p);
  }

  /** decode undoes encode, character by character, for a non-negative port. */
  lemma DecEncChar(port: int32, c: char)
    requires port >= 0
    requires (IsLower(c) || IsUpper(c)) ==> LetterIndex(c) + port as int <= INT_MAX
    ensures DecChar(port, EncChar(port, c)) == c
  {
    if IsLower(c) || IsUpper(c) {
      ShiftBack(LetterIndex(c), port as int);
    }
  }

  /** For a non-negative port, decode(encode(s)) == s. */
  lemma DecodeEncode(port: int32, s: string)
    requires port >= 0 && EncodeDefined(port, s)
    ensures Decoded(port, Encoded(port, s)) == s
  {
    forall i | 0 <= i < |s|
      ensures Decoded(port, Encoded(port, s))[i] == s[i]
    {
      DecEncChar(port, s[i]);
    }
  }

  /** The other direction: for a non-negative port, encode(decode(s)) == s. */
  lemma EncodeDecode(port: int32, s: string)
    requires port >= 0 && port as int <= INT_MAX - 25
    ensures EncodeDefined(port, Decoded(port, s))
    ensures Encoded(port, Decoded(port, s)) == s
  {
    var d := Decoded(port, s);
    forall i | 0 <= i < |s|
      ensures Encoded(port, d)[i] == s[i]
    {
      EncDecChar(port, s[i]);
    }
  }

  /** encode undoes decode, character by character, for a non-negative port. */
  lemma EncDecChar(port: int32, c: char)
    requires port >= 0 && port as int <= INT_MAX - 25
    ensures EncChar(port, DecChar(port, c)) == c
  {
    if IsLower(c) || IsUpper(c) {
      ShiftBack(LetterIndex(c), port as int);
    }
  }

  /**
   * encode does not reduce a negative shift back into the alphabet, so for
   * a negative port a letter can leave it and decode cannot bring it back.
   */
  lemma NegativePortLosesLetters()
    ensures Encoded(-1, "a") == "`"
    ensures Decoded(-1, Encoded(-1, "a")) == "`"
  {
    assert EncChar(-1, 'a') == '`';
  }

  /** Message::serialize: "ip port id ttl;" and the encoded content (the trailing "\0" inserts nothing). */
  function Serialize(m: Message): string
    requires EncodeDefined(m.addr.port, m.content)
  {
    Framed(m.addr.ip as int, m.addr.port as int, m.id as int, m.ttl as int, Encoded(m.addr.port, m.content))
  }

  /** The four numbers, separated by spaces, then ';' and the body. */
  function Framed(ip: int, port: int, id: int, ttl: int, body: string): string
  {
    IntToString(ip) + (" " + (IntToString(port) + (" " + (IntToString(id) + (" " + (IntToString(ttl) + (";" + body)))))))
  }

  /** The state of the std::stringstream: text, read position, and no bit set. */
  datatype Stream = Stream(text: string, pos: nat, good: bool)

  predicate StreamOk(st: Stream)
  {
    st.pos <= |st.text|
  }

  /** A value clamped to the range of `int`, as operator>>(int&) stores on overflow. */
  function Clamp(v: int): int32
  {
    if v < INT_MIN then INT_MIN as int32 else if v > INT_MAX then INT_MAX as int32 else v as int32
  }

  /**
   * operator>>(int&): white space skipped (the end of the text fails the
   * sentry and keeps `prior`), an optional sign, then the digits.  No
   * digits store 0 and fail; a value out of range stores the nearest bound
   * and fails; digits up to the end of the text set eofbit.
   */
  function ExtractInt(st: Stream, prior: int32): (r: (Stream, int32))
    requires StreamOk(st)
    ensures StreamOk(r.0) && r.0.text == st.text && st.pos <= r.0.pos
    ensures !st.good ==> r == (st, prior)
  {
    if !st.good then (st, prior)
    else
      var s := st.text;
      var i := SkipSpace(s, st.pos);
      if i == |s| then (Stream(s, i, false), prior)
      else
        var j := if s[i] == '-' || s[i] == '+' then i + 1 else i;
        var k := DigitRun(s, j);
        if k == j then (Stream(s, j, false), 0)
        else
          var magnitude := DigitsValue(s, j, k);
          var v := if s[i] == '-' then -(magnitude as int) else magnitude as int;
          (Stream(s, k, INT_MIN <= v <= INT_MAX && k < |s|), Clamp(v))
  }

  /** Where istream::ignore stops scanning: at the end, at the delimiter, or after n characters. */
  function IgnoreStop(s: string, i: nat, limit: nat, delim: char): (q: nat)
    requires i <= |s| && i <= limit
    ensures i <= q <= |s| && q <= limit
    ensures q == |s| || q == limit || s[q] == delim
    decreases |s| - i
  {
    if i == |s| || i == limit || s[i] == delim then i else IgnoreStop(s, i + 1, limit, delim)
  }

  /**
   * istream::ignore(n, delim): characters are dropped until n have gone, the
   * delimiter is seen or the text ends; a delimiter then next is dropped
   * too, even after n characters, and the end sets eofbit.
   */
  function Ignore(st: Stream, n: nat, delim: char): (r: Stream)
    requires StreamOk(st)
    ensures StreamOk(r) && r.text == st.text && st.pos <= r.pos
    ensures !st.good ==> r == st
  {
    if !st.good then st
    else
      var q := IgnoreStop(st.text, st.pos, st.pos + n, delim);
      if q == |st.text| then Stream(st.text, q, false)
      else if st.text[q] == delim then Stream(st.text, q + 1, true)
      else Stream(st.text, q, true)
  }

  /** The first newline at or after i, or the end of the text. */
  function LineEnd(s: string, i: nat): (q: nat)
    requires i <= |s|
    ensures i <= q <= |s|
    ensures q == |s| || s[q] == '\n'
    decreases |s| - i
  {
    if i == |s| || s[i] == '\n' then i else LineEnd(s, i + 1)
  }

  /**
   * std::getline: with a failed sentry the string keeps its `prior` value;
   * otherwise it receives the characters up to the newline, which is
   * dropped, or up to the end of the text, which sets eofbit.
   */
  function GetLine(st: Stream, prior: string): (r: (Stream, string))
    requires StreamOk(st)
    ensures StreamOk(r.0) && r.0.text == st.text
    ensures !st.good ==> r == (st, prior)
  {
    if !st.good then (st, prior)
    else
      var q := LineEnd(st.text, st.pos);
      var line := st.text[st.pos..q];
      if q == |st.text| then (Stream(st.text, q, false), line) else (Stream(st.text, q + 1, true), line)
  }

  /**
   * Message::deserialize applied to `prior`: ip, port, id and ttl read in
   * turn, the rest of the header skipped up to ';', the line read, then
   * decoded with the port just read.  Fields that are not reached keep
   * their old values; the content is decoded even when nothing was read.
   */
  function Deserialized(prior: Message, str: string): Message
  {
    var header := ReadFields(prior, str);
    var line := GetLine(Ignore(header.0, MAX_BUFF_SIZE, ';'), prior.content);
    header.1.(content := Decoded(header.1.addr.port, line.1))
  }

  /** The four extractions of deserialize: the stream after them, and the message with the fields read. */
  function ReadFields(prior: Message, str: string): (r: (Stream, Message))
    ensures StreamOk(r.0) && r.0.text == str && r.1.content == prior.content
  {
    var ip := ExtractInt(Stream(str, 0, true), prior.addr.ip);
    var port := ExtractInt(ip.0, prior.addr.port);
    var id := ExtractInt(port.0, prior.id);
    var ttl := ExtractInt(id.0, prior.ttl);
    (ttl.0, prior.(addr := Address(ip.1, port.1), id := id.1, ttl := ttl.1))
  }

  /** Extracting an int at pos whose rendering follows the spaces `sp`, with a non-digit after it. */
  lemma ExtractRendered(s: string, pos: nat, sp: string, v: int, rest: string, prior: int32) returns (q: nat)
    requires INT_MIN <= v <= INT_MAX
    requires pos <= |s| && s[pos..] == sp + (IntToString(v) + rest)
    requires forall k | 0 <= k < |sp| :: sp[k] == ' '
    requires rest != [] && !IsDigit(rest[0])
    ensures q == pos + |sp| + |IntToString(v)| && q < |s|
    ensures ExtractInt(Stream(s, pos, true), prior).0 == Stream(s, q, true)
    ensures ExtractInt(Stream(s, pos, true), prior).1 as int == v
  {
    q := pos + |sp| + |IntToString(v)|;
    var i := pos + |sp|;
    IntToStringShape(v);
    RenderedSpaces(s, pos, sp, IntToString(v) + rest);
    var j, end, magnitude := RenderedDigits(s, i, v, rest);
    ExtractDigitsAt(s, pos, i, j, end, v < 0, magnitude, prior);
  }

  /** The spaces `sp` at pos, then a non-space: white space is skipped exactly up to what follows them. */
  lemma RenderedSpaces(s: string, pos: nat, sp: string, u: string)
    requires pos <= |s| && s[pos..] == sp + u
    requires forall k | 0 <= k < |sp| :: sp[k] == ' '
    requires u != [] && !IsSpace(u[0])
    ensures pos + |sp| < |s| && s[pos + |sp|..] == u
    ensures SkipSpace(s, pos) == pos + |sp|
  {
    forall k | pos <= k < pos + |sp|
      ensures IsSpace(s[k])
    {
      assert s[k] == s[pos..][k - pos] == sp[k - pos];
    }
    assert s[pos + |sp|] == s[pos..][|sp|] == u[0];
    assert s[pos + |sp|..] == s[pos..][|sp|..];
    SkipSpaceAt(s, pos, |sp|);
  }

  /** The rendering of v at i, then a non-digit: its sign and its maximal digit run, whose value is |v|. */
  lemma RenderedDigits(s: string, i: nat, v: int, rest: string) returns (j: nat, end: nat, magnitude: nat)
    requires i <= |s| && s[i..] == IntToString(v) + rest
    requires rest != [] && !IsDigit(rest[0])
    ensures end == i + |IntToString(v)| && end < |s|
    ensures s[i] != '+' && (s[i] == '-' <==> v < 0)
    ensures j == (if v < 0 then i + 1 else i) && j < end
    ensures magnitude == (if v < 0 then -v else v)
    ensures DigitRun(s, j) == end && DigitsValue(s, j, end) == magnitude
  {
    var digits;
    j, digits := RenderedSign(s, i, v, rest);
    end := i + |IntToString(v)|;
    magnitude := if v < 0 then -v else v;
    DigitsAt(s, j, digits, rest);
    NatToStringValue(magnitude);
  }

  /** The sign of a rendered int at i, and the digits of its magnitude after it, from j. */
  lemma RenderedSign(s: string, i: nat, v: int, rest: string) returns (j: nat, digits: string)
    requires i <= |s| && s[i..] == IntToString(v) + rest
    ensures i < |s| && s[i] != '+' && (s[i] == '-' <==> v < 0)
    ensures j == (if v < 0 then i + 1 else i) && digits == NatToString(if v < 0 then -v else v)
    ensures j <= |s| && s[j..] == digits + rest && |IntToString(v)| == j - i + |digits|
  {
    var t := IntToString(v);
    IntToStringShape(v);
    assert s[i] == s[i..][0] == t[0];
    if v < 0 {
      j, digits := i + 1, NatToString(-v);
      assert s[i..] == "-" + (digits + rest);
      SuffixAfter(s, i, "-", digits + rest);
    } else {
      j, digits := i, NatToString(v);
    }
  }

  /** ExtractInt once the white space, the sign and the digit run after it are known. */
  lemma ExtractDigitsAt(s: string, pos: nat, i: nat, j: nat, end: nat, negative: bool, magnitude: nat, prior: int32)
    requires pos <= i < |s| && j < end < |s|
    requires SkipSpace(s, pos) == i
    requires j == if s[i] == '-' || s[i] == '+' then i + 1 else i
    requires negative == (s[i] == '-')
    requires DigitRun(s, j) == end && DigitsValue(s, j, end) == magnitude
    requires INT_MIN <= (if negative then -(magnitude as int) else magnitude as int) <= INT_MAX
    ensures ExtractInt(Stream(s, pos, true), prior).0 == Stream(s, end, true)
    ensures ExtractInt(Stream(s, pos, true), prior).1 as int == if negative then -(magnitude as int) else magnitude as int
  {
  }

  /**
   * deserialize(serialize(m)) == m, whatever the message held before, when
   * the content has no newline and the port is not negative.
   */
  lemma DeserializeSerialize(prior: Message, m: Message)
    requires m.addr.port >= 0 && EncodeDefined(m.addr.port, m.content)
    requires forall i | 0 <= i < |m.content| :: m.content[i] != '\n'
    ensures Deserialized(prior, Serialize(m)) == m
  {
    var s := Serialize(m);
    var body := Encoded(m.addr.port, m.content);
    var p4 := HeaderOfFramed(prior, s, m.addr.ip as int, m.addr.port as int, m.id as int, m.ttl as int, body);
    assert prior.(addr := Address(m.addr.ip, m.addr.port), id := m.id, ttl := m.ttl) == m.(content := prior.content);
    EncodeShape(m.addr.port, m.content);
    forall k | p4 + 1 <= k < |s|
      ensures s[k] != '\n'
    {
      assert s[k] == s[p4 + 1..][k - (p4 + 1)] == body[k - (p4 + 1)];
    }
    DeserializedAt(prior, s, p4, m.(content := prior.content));
    DecodeEncode(m.addr.port, m.content);
  }

  /** With the header read up to a ';' at p4 and no newline after it, the content is the decoded rest. */
  lemma DeserializedAt(prior: Message, s: string, p4: nat, h: Message)
    requires p4 < |s| && s[p4] == ';'
    requires ReadFields(prior, s).0 == Stream(s, p4, true) && ReadFields(prior, s).1 == h
    requires forall k | p4 + 1 <= k < |s| :: s[k] != '\n'
    ensures Deserialized(prior, s) == h.(content := Decoded(h.addr.port, s[p4 + 1..]))
  {
    assert IgnoreStop(s, p4, p4 + MAX_BUFF_SIZE, ';') == p4;
    var st5 := Ignore(Stream(s, p4, true), MAX_BUFF_SIZE, ';');
    assert st5 == Stream(s, p4 + 1, true);
    assert LineEnd(s, p4 + 1) == |s|;
    assert GetLine(st5, prior.content).1 == s[p4 + 1..];
  }

  /** The header of a framed body reads back its four numbers, stopping at the ';' just after them. */
  lemma HeaderOfFramed(prior: Message, s: string, ip: int, port: int, id: int, ttl: int, body: string) returns (p4: nat)
    requires INT_MIN <= ip <= INT_MAX && INT_MIN <= port <= INT_MAX
    requires INT_MIN <= id <= INT_MAX && INT_MIN <= ttl <= INT_MAX
    requires s == Framed(ip, port, id, ttl, body)
    ensures p4 == |IntToString(ip)| + 1 + |IntToString(port)| + 1 + |IntToString(id)| + 1 + |IntToString(ttl)|
    ensures p4 < |s| && s[p4] == ';' && s[p4 + 1..] == body
    ensures ReadFields(prior, s).0 == Stream(s, p4, true)
    ensures ReadFields(prior, s).1 == prior.(addr := Address(ip as int32, port as int32), id := id as int32, ttl := ttl as int32)
  {
    var p1 := IpRead(prior.addr.ip, s, ip, port, id, ttl, body);
    var p2 := PortRead(prior.addr.port, s, p1, ip, port, id, ttl, body);
    var p3 := IdRead(prior.id, s, p2, ip, port, id, ttl, body);
    p4 := TtlRead(prior.ttl, s, p3, ip, port, id, ttl, body);
    TailOfFramed(s, p4, ip, port, id, ttl, body);
    ReadFieldsAt(prior, s, p1, p2, p3, p4, ip, port, id, ttl);
  }

  /** Dropping a prefix `a` of what follows i leaves what follows i + |a|. */
  lemma SuffixAfter(s: string, i: nat, a: string, b: string)
    requires i <= |s| && s[i..] == a + b
    ensures i + |a| <= |s| && s[i + |a|..] == b
  {
    assert s[i + |a|..] == s[i..][|a|..];
  }

  /** Dropping a space and then `t` from what follows i. */
  lemma PeelField(s: string, i: nat, t: string, rest: string)
    requires i <= |s| && s[i..] == " " + (t + rest)
    ensures i + 1 + |t| <= |s| && s[i + 1 + |t|..] == rest
  {
    SuffixAfter(s, i, " ", t + rest);
    SuffixAfter(s, i + 1, t, rest);
  }

  /** The ip is read from the start of the text, up to p1. */
  lemma IpRead(prior: int32, s: string, ip: int, port: int, id: int, ttl: int, body: string) returns (p1: nat)
    requires INT_MIN <= ip <= INT_MAX && s == Framed(ip, port, id, ttl, body)
    ensures p1 == |IntToString(ip)| && p1 < |s|
    ensures ExtractInt(Stream(s, 0, true), prior).0 == Stream(s, p1, true)
    ensures ExtractInt(Stream(s, 0, true), prior).1 as int == ip
  {
    var r1 := " " + (IntToString(port) + (" " + (IntToString(id) + (" " + (IntToString(ttl) + (";" + body))))));
    assert s[0..] == "" + (IntToString(ip) + r1);
    p1 := ExtractRendered(s, 0, "", ip, r1, prior);
  }

  /** The port is read from p1, up to p2. */
  lemma PortRead(prior: int32, s: string, p1: nat, ip: int, port: int, id: int, ttl: int, body: string) returns (p2: nat)
    requires INT_MIN <= port <= INT_MAX && s == Framed(ip, port, id, ttl, body)
    requires p1 == |IntToString(ip)|
    ensures p2 == p1 + 1 + |IntToString(port)| && p2 < |s|
    ensures ExtractInt(Stream(s, p1, true), prior).0 == Stream(s, p2, true)
    ensures ExtractInt(Stream(s, p1, true), prior).1 as int == port
  {
    var r2 := " " + (IntToString(id) + (" " + (IntToString(ttl) + (";" + body))));
    FramedAfterIp(s, p1, ip, port, id, ttl, body);
    p2 := ExtractRendered(s, p1, " ", port, r2, prior);
  }

  /** The id is read from p2, up to p3. */
  lemma IdRead(prior: int32, s: string, p2: nat, ip: int, port: int, id: int, ttl: int, body: string) returns (p3: nat)
    requires INT_MIN <= id <= INT_MAX && s == Framed(ip, port, id, ttl, body)
    requires p2 == |IntToString(ip)| + 1 + |IntToString(port)|
    ensures p3 == p2 + 1 + |IntToString(id)| && p3 < |s|
    ensures ExtractInt(Stream(s, p2, true), prior).0 == Stream(s, p3, true)
    ensures ExtractInt(Stream(s, p2, true), prior).1 as int == id
  {
    var r3 := " " + (IntToString(ttl) + (";" + body));
    FramedToPort(s, p2, ip, port, id, ttl, body);
    p3 := ExtractRendered(s, p2, " ", id, r3, prior);
  }

  /** The ttl is read from p3, up to the ';' at p4. */
  lemma TtlRead(prior: int32, s: string, p3: nat, ip: int, port: int, id: int, ttl: int, body: string) returns (p4: nat)
    requires INT_MIN <= ttl <= INT_MAX && s == Framed(ip, port, id, ttl, body)
    requires p3 == |IntToString(ip)| + 1 + |IntToString(port)| + 1 + |IntToString(id)|
    ensures p4 == p3 + 1 + |IntToString(ttl)| && p4 < |s|
    ensures ExtractInt(Stream(s, p3, true), prior).0 == Stream(s, p4, true)
    ensures ExtractInt(Stream(s, p3, true), prior).1 as int == ttl
  {
    FramedToId(s, p3, ip, port, id, ttl, body);
    p4 := ExtractRendered(s, p3, " ", ttl, ";" + body, prior);
  }

  /** After the four numbers comes the ';', then the body. */
  lemma TailOfFramed(s: string, p4: nat, ip: int, port: int, id: int, ttl: int, body: string)
    requires s == Framed(ip, port, id, ttl, body)
    requires p4 == |IntToString(ip)| + 1 + |IntToString(port)| + 1 + |IntToString(id)| + 1 + |IntToString(ttl)|
    ensures p4 < |s| && s[p4] == ';' && s[p4 + 1..] == body
  {
    FramedToTtl(s, p4, ip, port, id, ttl, body);
    SemicolonThenBody(s, p4, body);
  }

  /** A suffix ";" + body: the ';' stands at p4 and the body follows it. */
  lemma SemicolonThenBody(s: string, p4: nat, body: string)
    requires p4 <= |s| && s[p4..] == ";" + body
    ensures p4 < |s| && s[p4] == ';' && s[p4 + 1..] == body
  {
    assert s[p4] == s[p4..][0];
    SuffixAfter(s, p4, ";", body);
  }

  /** What follows the ip. */
  lemma FramedAfterIp(s: string, p1: nat, ip: int, port: int, id: int, ttl: int, body: string)
    requires s == Framed(ip, port, id, ttl, body) && p1 == |IntToString(ip)|
    ensures p1 <= |s|
    ensures s[p1..] == " " + (IntToString(port) + (" " + (IntToString(id) + (" " + (IntToString(ttl) + (";" + body))))))
  {
    SuffixAfter(s, 0, IntToString(ip),
                " " + (IntToString(port) + (" " + (IntToString(id) + (" " + (IntToString(ttl) + (";" + body)))))));
  }

  /** What follows the port, from what follows the ip. */
  lemma FramedAfterPort(s: string, p1: nat, p2: nat, port: int, id: int, ttl: int, body: string)
    requires p1 <= |s|
    requires s[p1..] == " " + (IntToString(port) + (" " + (IntToString(id) + (" " + (IntToString(ttl) + (";" + body))))))
    requires p2 == p1 + 1 + |IntToString(port)|
    ensures p2 <= |s|
    ensures s[p2..] == " " + (IntToString(id) + (" " + (IntToString(ttl) + (";" + body))))
  {
    PeelField(s, p1, IntToString(port), " " + (IntToString(id) + (" " + (IntToString(ttl) + (";" + body)))));
  }

  /** What follows the id, from what follows the port. */
  lemma FramedAfterId(s: string, p2: nat, p3: nat, id: int, ttl: int, body: string)
    requires p2 <= |s|
    requires s[p2..] == " " + (IntToString(id) + (" " + (IntToString(ttl) + (";" + body))))
    requires p3 == p2 + 1 + |IntToString(id)|
    ensures p3 <= |s|
    ensures s[p3..] == " " + (IntToString(ttl) + (";" + body))
  {
    PeelField(s, p2, IntToString(id), " " + (IntToString(ttl) + (";" + body)));
  }

  /** What follows the ttl, from what follows the id. */
  lemma FramedAfterTtl(s: string, p3: nat, p4: nat, ttl: int, body: string)
    requires p3 <= |s|
    requires s[p3..] == " " + (IntToString(ttl) + (";" + body))
    requires p4 == p3 + 1 + |IntToString(ttl)|
    ensures p4 <= |s|
    ensures s[p4..] == ";" + body
  {
    PeelField(s, p3, IntToString(ttl), ";" + body);
  }

  /** The framed text from the port on. */
  lemma FramedToPort(s: string, p2: nat, ip: int, port: int, id: int, ttl: int, body: string)
    requires s == Framed(ip, port, id, ttl, body) && p2 == |IntToString(ip)| + 1 + |IntToString(port)|
    ensures p2 <= |s|
    ensures s[p2..] == " " + (IntToString(id) + (" " + (IntToString(ttl) + (";" + body))))
  {
    var p1 := |IntToString(ip)|;
    FramedAfterIp(s, p1, ip, port, id, ttl, body);
    FramedAfterPort(s, p1, p2, port, id, ttl, body);
  }

  /** The framed text from the id on. */
  lemma FramedToId(s: string, p3: nat, ip: int, port: int, id: int, ttl: int, body: string)
    requires s == Framed(ip, port, id, ttl, body)
    requires p3 == |IntToString(ip)| + 1 + |IntToString(port)| + 1 + |IntToString(id)|
    ensures p3 <= |s|
    ensures s[p3..] == " " + (IntToString(ttl) + (";" + body))
  {
    var p2 := |IntToString(ip)| + 1 + |IntToString(port)|;
    FramedToPort(s, p2, ip, port, id, ttl, body);
    FramedAfterId(s, p2, p3, id, ttl, body);
  }

  /** The framed text from the ttl on. */
  lemma FramedToTtl(s: string, p4: nat, ip: int, port: int, id: int, ttl: int, body: string)
    requires s == Framed(ip, port, id, ttl, body)
    requires p4 == |IntToString(ip)| + 1 + |IntToString(port)| + 1 + |IntToString(id)| + 1 + |IntToString(ttl)|
    ensures p4 <= |s|
    ensures s[p4..] == ";" + body
  {
    var p3 := |IntToString(ip)| + 1 + |IntToString(port)| + 1 + |IntToString(id)|;
    FramedToId(s, p3, ip, port, id, ttl, body);
    FramedAfterTtl(s, p3, p4, ttl, body);
  }

  /** ReadFields once each of its four extractions is known. */
  lemma ReadFieldsAt(prior: Message, s: string, p1: nat, p2: nat, p3: nat, p4: nat,
                     ip: int, port: int, id: int, ttl: int)
    requires p1 <= p2 <= p3 <= p4 <= |s|
    requires INT_MIN <= ip <= INT_MAX && INT_MIN <= port <= INT_MAX
    requires INT_MIN <= id <= INT_MAX && INT_MIN <= ttl <= INT_MAX
    requires ExtractInt(Stream(s, 0, true), prior.addr.ip).0 == Stream(s, p1, true)
    requires ExtractInt(Stream(s, 0, true), prior.addr.ip).1 as int == ip
    requires ExtractInt(Stream(s, p1, true), prior.addr.port).0 == Stream(s, p2, true)
    requires ExtractInt(Stream(s, p1, true), prior.addr.port).1 as int == port
    requires ExtractInt(Stream(s, p2, true), prior.id).0 == Stream(s, p3, true)
    requires ExtractInt(Stream(s, p2, true), prior.id).1 as int == id
    requires ExtractInt(Stream(s, p3, true), prior.ttl).0 == Stream(s, p4, true)
    requires ExtractInt(Stream(s, p3, true), prior.ttl).1 as int == ttl
    ensures ReadFields(prior, s).0 == Stream(s, p4, true)
    ensures ReadFields(prior, s).1 == prior.(addr := Address(ip as int32, port as int32), id := id as int32, ttl := ttl as int32)
  {
  }

  /** An empty packet reads nothing, yet the old content is decoded a second time. */
  lemma DeserializeEmpty(prior: Message)
    ensures Deserialized(prior, "") == prior.(content := Decoded(prior.addr.port, prior.content))
  {
  }

  /** A packet that does not start with a number zeroes the ip and leaves every other field unread. */
  lemma DeserializeGarbage(prior: Message)
    ensures Deserialized(prior, "x") == prior.(addr := prior.addr.(ip := 0),
                                              content := Decoded(prior.addr.port, prior.content))
  {
    assert SkipSpace("x", 0) == 0;
    assert DigitRun("x", 0) == 0;
  }

  /** The cache key: same address, by operator ==, and same id. */
  predicate SameKey(a: Message, b: Message)
  {
    AddrEq(a.addr, b.addr) && a.id == b.id
  }

  predicate Cached(c: seq<Message>, m: Message)
  {
    exists i | 0 <= i < |c| :: SameKey(c[i], m)
  }

  predicate DistinctKeys(c: seq<Message>)
  {
    forall i, j | 0 <= i < j < |c| :: !SameKey(c[i], c[j])
  }

  /** The last n elements, as the pop_front loop leaves them. */
  function Trimmed<T>(c: seq<T>, n: nat): (r: seq<T>)
    ensures |r| <= n && |r| <= |c|
    ensures |r| == n || r == c
    ensures forall k | 0 <= k < |r| :: r[k] == c[|c| - |r| + k]
  {
    if |c| > n then c[|c| - n..] else c
  }

  /** MessageCache::add: push_back when not hit, then evict from the front down to 100 entries. */
  function CacheAdd(c: seq<Message>, m: Message): seq<Message>
  {
    Trimmed(if Cached(c, m) then c else c + [m], MAX_CACHE_SIZE)
  }

  /** After add the cache holds at most 100 entries and no key twice (if it held none twice before). */
  lemma CacheAddInvariant(c: seq<Message>, m: Message)
    ensures |CacheAdd(c, m)| <= MAX_CACHE_SIZE
    ensures DistinctKeys(c) ==> DistinctKeys(CacheAdd(c, m))
  {
    if DistinctKeys(c) {
      var c1 := if Cached(c, m) then c else c + [m];
      if !Cached(c, m) {
        AppendNewKeepsDistinct(c, m);
      }
      TrimmedKeepsDistinct(c1, MAX_CACHE_SIZE);
    }
  }

  /** Appending a message whose key is not cached keeps the keys distinct. */
  lemma AppendNewKeepsDistinct(c: seq<Message>, m: Message)
    requires DistinctKeys(c) && !Cached(c, m)
    ensures DistinctKeys(c + [m])
  {
    var c1 := c + [m];
    forall i, j | 0 <= i < j < |c1|
      ensures !SameKey(c1[i], c1[j])
    {
      if j == |c| {
        assert c1[i] == c[i];
      }
    }
  }

  /** Dropping the oldest entries keeps the keys distinct. */
  lemma TrimmedKeepsDistinct(c: seq<Message>, n: nat)
    requires DistinctKeys(c)
    ensures DistinctKeys(Trimmed(c, n))
  {
    if |c| > n {
      var r := c[|c| - n..];
      assert Trimmed(c, n) == r;
      forall i, j | 0 <= i < j < |r|
        ensures !SameKey(r[i], r[j])
      {
        assert r[i] == c[|c| - n + i];
        assert r[j] == c[|c| - n + j];
      }
    }
  }

  /** After add, hit holds, as long as the cache was within its bound. */
  lemma CacheAddHits(c: seq<Message>, m: Message)
    requires |c| <= MAX_CACHE_SIZE
    ensures Cached(CacheAdd(c, m), m)
  {
    if !Cached(c, m) {
      var r := CacheAdd(c, m);
      assert r[|r| - 1] == m;
    }
  }

  /** A hit leaves the cache alone; a new key goes to the back, evicting only the oldest entry of a full cache. */
  lemma CacheAddFifo(c: seq<Message>, m: Message)
    requires |c| <= MAX_CACHE_SIZE
    ensures Cached(c, m) ==> CacheAdd(c, m) == c
    ensures !Cached(c, m) && |c| < MAX_CACHE_SIZE ==> CacheAdd(c, m) == c + [m]
    ensures !Cached(c, m) && |c| == MAX_CACHE_SIZE ==> CacheAdd(c, m) == c[1..] + [m]
  {
  }

  /** The duplicate cache: a FIFO list of the messages seen. */
  class MessageCache {
    var cache: seq<Message>

    ghost predicate Valid()
      reads this
    {
      |cache| <= MAX_CACHE_SIZE && DistinctKeys(cache)
    }

    constructor ()
      ensures Valid() && cache == []
    {
      cache := [];
    }

    /** MessageCache::hit: some cached message has the same address and id. */
    method Hit(msg: Message) returns (r: bool)
      ensures r <==> Cached(cache, msg)
    {
      for i := 0 to |cache|
        invariant forall k | 0 <= k < i :: !SameKey(cache[k], msg)
      {
        if AddrEq(cache[i].addr, msg.addr) && cache[i].id == msg.id {
          return true;
        }
      }
      return false;
    }

    /** MessageCache::add. */
    method Add(msg: Message)
      modifies this
      ensures cache == CacheAdd(old(cache), msg)
      ensures old(Valid()) ==> Valid() && Cached(cache, msg)
    {
      var h := Hit(msg);
      if !h {
        cache := cache + [msg];
      }
      TrimToCapacity();
      CacheAddInvariant(old(cache), msg);
      if old(Valid()) {
        CacheAddHits(old(cache), msg);
      }
    }

    /** The loop of add: pop_front while more than 100 messages are held. */
    method TrimToCapacity()
      modifies this
      ensures cache == Trimmed(old(cache), MAX_CACHE_SIZE)
    {
      ghost var pushed := cache;
      while |cache| > MAX_CACHE_SIZE
        invariant |cache| <= |pushed| && cache == pushed[|pushed| - |cache|..]
        invariant |pushed| > MAX_CACHE_SIZE ==> |cache| >= MAX_CACHE_SIZE
        invariant |pushed| <= MAX_CACHE_SIZE ==> cache == pushed
        decreases |cache|
      {
        cache := cache[1..];
      }
    }
  }
}
