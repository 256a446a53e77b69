/**
  The text of a paging cursor: a JSON payload in URL-safe base64 without padding, a dot, and a
  signature of what stands before the dot. JSON, the number format and the signature are taken
  as given functions; the base64 of RFC 4648, sections 4 and 5, is spelled out.
*/
module CursorCodec {
  import opened Options

  type Byte = x: int | 0 <= x < 256

  type Sextet = x: int | 0 <= x < 64

  // ----- Base64 -----

  function Digit(v: Sextet): char {
    if v < 26 then ('A' as int + v) as char
    else if v < 52 then ('a' as int + v - 26) as char
    else if v < 62 then ('0' as int + v - 52) as char
    else if v == 62 then '+' else '/'
  }

  function Value(c: char): Option<Sextet> {
    if 'A' <= c <= 'Z' then Some(c as int - 'A' as int)
    else if 'a' <= c <= 'z' then Some(c as int - 'a' as int + 26)
    else if '0' <= c <= '9' then Some(c as int - '0' as int + 52)
    else if c == '+' then Some(62)
    else if c == '/' then Some(63)
    else None
  }

  predicate IsSpace(c: char) {
    c == ' ' || c == '\t' || c == '\n' || c == '\r'
  }

  /** The sextets of a byte string, the last one filled up with zero bits. */
  function Sextets(b: seq<Byte>): (r: seq<Sextet>)
    ensures |r| % 4 != 1
  {
    if b == [] then []
    else if |b| == 1 then [b[0] / 4, b[0] % 4 * 16]
    else if |b| == 2 then [b[0] / 4, b[0] % 4 * 16 + b[1] / 16, b[1] % 16 * 4]
    else [b[0] / 4, b[0] % 4 * 16 + b[1] / 16, b[1] % 16 * 4 + b[2] / 64, b[2] % 64] + Sextets(b[3..])
  }

  function FirstByte(a: Sextet, b: Sextet): Byte {
    a * 4 + b / 16
  }

  function SecondByte(b: Sextet, c: Sextet): Byte {
    b % 16 * 16 + c / 4
  }

  function ThirdByte(c: Sextet, d: Sextet): Byte {
    c % 4 * 64 + d
  }

  /** The bytes of a sextet string; bits that do not fill a byte are dropped. */
  function Bytes(s: seq<Sextet>): seq<Byte>
    requires |s| % 4 != 1
  {
    if s == [] then []
    else if |s| == 2 then [FirstByte(s[0], s[1])]
    else if |s| == 3 then [FirstByte(s[0], s[1]), SecondByte(s[1], s[2])]
    else [FirstByte(s[0], s[1]), SecondByte(s[1], s[2]), ThirdByte(s[2], s[3])] + Bytes(s[4..])
  }

  function Digits(s: seq<Sextet>): (r: string)
    ensures |r| == |s| && forall i :: 0 <= i < |s| ==> r[i] == Digit(s[i])
  {
    seq(|s|, i requires 0 <= i < |s| => Digit(s[i]))
  }

  function Padding(n: nat): string {
    if n == 0 then "" else "=" + Padding(n - 1)
  }

  function Base64Encode(b: seq<Byte>): string {
    var s := Sextets(b);
    Digits(s) + Padding((4 - |s| % 4) % 4)
  }

  /** Strict decoding: white space is skipped, padding ends the data, and its length has to fit if there is any. */
  function Base64Decode(text: string): Option<seq<Byte>> {
    var scanned := ScanDigits(text, []);
    if scanned.None? then None
    else
      var (s, padding) := scanned.value;
      if |s| % 4 == 1 || padding > 2 || (padding > 0 && (|s| + padding) % 4 != 0) then None else Some(Bytes(s))
  }

  function ScanDigits(text: string, s: seq<Sextet>): Option<(seq<Sextet>, nat)>
    decreases |text|
  {
    if text == "" then Some((s, 0))
    else if IsSpace(text[0]) then ScanDigits(text[1..], s)
    else if text[0] == '=' then
      var rest := ScanPadding(text[1..]);
      if rest.None? then None else Some((s, 1 + rest.value))
    else
      var v := Value(text[0]);
      if v.None? then None else ScanDigits(text[1..], s + [v.value])
  }

  function ScanPadding(text: string): Option<nat> {
    if text == "" then Some(0)
    else if IsSpace(text[0]) then ScanPadding(text[1..])
    else if text[0] == '=' then
      var rest := ScanPadding(text[1..]);
      if rest.None? then None else Some(1 + rest.value)
    else None
  }

  // ----- The URL-safe form -----

  /** strtr of one pair of characters into another. */
  function Translated(text: string, fromPlus: char, toPlus: char, fromSlash: char, toSlash: char): (r: string)
    ensures |r| == |text|
    ensures forall i :: 0 <= i < |text| ==>
              r[i] == if text[i] == fromPlus then toPlus else if text[i] == fromSlash then toSlash else text[i]
  {
    seq(|text|, i requires 0 <= i < |text| =>
      if text[i] == fromPlus then toPlus else if text[i] == fromSlash then toSlash else text[i])
  }

  function TrimmedRight(text: string): (r: string)
    ensures |r| <= |text| && r == text[..|r|]
    decreases |text|
  {
    if text != "" && text[|text| - 1] == '=' then TrimmedRight(text[..|text| - 1]) else text
  }

  function Base64UrlEncode(b: seq<Byte>): string {
    TrimmedRight(Translated(Base64Encode(b), '+', '-', '/', '_'))
  }

  function Base64UrlDecode(text: string): Option<seq<Byte>> {
    var padded := text + if |text| % 4 != 0 then Padding(4 - |text| % 4) else "";
    Base64Decode(Translated(padded, '-', '+', '_', '/'))
  }

  lemma DigitHasValue(v: Sextet)
    ensures Value(Digit(v)) == Some(v)
    ensures Digit(v) != '=' && Digit(v) != '-' && Digit(v) != '_' && Digit(v) != '.' && !IsSpace(Digit(v))
  {
  }

  lemma {:induction false} SextetsOfBytes(b: seq<Byte>)
    ensures Bytes(Sextets(b)) == b
    decreases |b|
  {
    if |b| >= 3 {
      SextetsOfBytes(b[3..]);
      var head := [b[0] / 4, b[0] % 4 * 16 + b[1] / 16, b[1] % 16 * 4 + b[2] / 64, b[2] % 64];
      GroupOfThree(b[0], b[1], b[2]);
      assert Sextets(b)[..4] == head && Sextets(b)[4..] == Sextets(b[3..]);
      assert b == [b[0], b[1], b[2]] + b[3..];
    }
  }

  lemma GroupOfThree(x: Byte, y: Byte, z: Byte)
    ensures FirstByte(x / 4, x % 4 * 16 + y / 16) == x
    ensures SecondByte(x % 4 * 16 + y / 16, y % 16 * 4 + z / 64) == y
    ensures ThirdByte(y % 16 * 4 + z / 64, z % 64) == z
  {
  }

  /** The alphabet of RFC 4648, table 1: the upper-case letters, the lower-case ones, the digits, and two signs. */
  lemma DigitsAreTheAlphabet(v: Sextet)
    ensures Digit(0) == 'A' && Digit(25) == 'Z' && Digit(26) == 'a' && Digit(51) == 'z' && Digit(52) == '0' && Digit(61) == '9'
    ensures Digit(62) == '+' && Digit(63) == '/'
    ensures v < 61 && v != 25 && v != 51 ==> Digit(v + 1) as int == Digit(v) as int + 1
  {
  }

  function BitsOfBytes(x: int, y: int, z: int): int {
    x * 0x10000 + y * 0x100 + z
  }

  function BitsOfSextets(a: int, b: int, c: int, d: int): int {
    a * 0x40000 + b * 0x1000 + c * 0x40 + d
  }

  /**
    RFC 4648, section 4: three bytes are the same 24 bits as their four sextets; the last one or two bytes
    are filled up with zero bits to the next whole sextet.
  */
  ghost predicate SameBits(b: seq<Byte>, s: seq<Sextet>) {
    if |b| == 0 then s == []
    else if |b| == 1 then |s| == 2 && BitsOfSextets(s[0], s[1], 0, 0) == BitsOfBytes(b[0], 0, 0)
    else if |b| == 2 then |s| == 3 && BitsOfSextets(s[0], s[1], s[2], 0) == BitsOfBytes(b[0], b[1], 0)
    else
      && |s| >= 4 && BitsOfSextets(s[0], s[1], s[2], s[3]) == BitsOfBytes(b[0], b[1], b[2])
      && SameBits(b[3..], s[4..])
  }

  lemma {:induction false} SextetsKeepTheBits(b: seq<Byte>)
    ensures SameBits(b, Sextets(b))
    decreases |b|
  {
    if |b| >= 3 {
      SextetsKeepTheBits(b[3..]);
      assert Sextets(b)[4..] == Sextets(b[3..]);
    }
  }

  /** The bits fix the bytes, and the sextets too. */
  lemma {:induction false} SameBitsSameText(b: seq<Byte>, s: seq<Sextet>)
    requires SameBits(b, s)
    ensures s == Sextets(b)
    decreases |b|
  {
    if |b| >= 3 {
      SameBitsSameText(b[3..], s[4..]);
      SameGroup(b[0], b[1], b[2], s[0], s[1], s[2], s[3]);
      assert s == s[..4] + s[4..];
    }
  }

  lemma SameGroup(x: Byte, y: Byte, z: Byte, a: Sextet, b: Sextet, c: Sextet, d: Sextet)
    requires BitsOfSextets(a, b, c, d) == BitsOfBytes(x, y, z)
    ensures a == x / 4 && b == x % 4 * 16 + y / 16 && c == y % 16 * 4 + z / 64 && d == z % 64
  {
  }

  /** Decoding keeps the bits too, but for those at the end that do not fill a byte. */
  ghost predicate WholeBytes(s: seq<Sextet>, b: seq<Byte>) {
    if |s| == 0 then b == []
    else if |s| == 2 then
      |b| == 1 && BitsOfBytes(b[0], 0, 0) <= BitsOfSextets(s[0], s[1], 0, 0) < BitsOfBytes(b[0], 0x100, 0)
    else if |s| == 3 then
      |b| == 2 && BitsOfBytes(b[0], b[1], 0) <= BitsOfSextets(s[0], s[1], s[2], 0) < BitsOfBytes(b[0], b[1], 0x100)
    else
      && |s| >= 4 && |b| >= 3 && BitsOfBytes(b[0], b[1], b[2]) == BitsOfSextets(s[0], s[1], s[2], s[3])
      && WholeBytes(s[4..], b[3..])
  }

  lemma {:induction false} BytesKeepTheBits(s: seq<Sextet>)
    requires |s| % 4 != 1
    ensures WholeBytes(s, Bytes(s))
    decreases |s|
  {
    if |s| >= 4 {
      BytesKeepTheBits(s[4..]);
      BitsOfFour(s[0], s[1], s[2], s[3]);
      assert Bytes(s)[3..] == Bytes(s[4..]);
    }
  }

  function WithoutSpaces(text: string): string {
    if text == "" then "" else (if IsSpace(text[0]) then "" else [text[0]]) + WithoutSpaces(text[1..])
  }

  lemma {:induction false} PaddingIgnoresSpaces(text: string)
    ensures ScanPadding(text) == ScanPadding(WithoutSpaces(text))
    decreases |text|
  {
    if text != "" {
      PaddingIgnoresSpaces(text[1..]);
      WithoutFirst(text);
    }
  }

  lemma WithoutFirst(text: string)
    requires text != ""
    ensures IsSpace(text[0]) ==> WithoutSpaces(text) == WithoutSpaces(text[1..])
    ensures !IsSpace(text[0]) ==> WithoutSpaces(text) != "" && WithoutSpaces(text)[0] == text[0] && WithoutSpaces(text)[1..] == WithoutSpaces(text[1..])
  {
  }

  lemma {:induction false} ScanIgnoresSpaces(text: string, s: seq<Sextet>)
    ensures ScanDigits(text, s) == ScanDigits(WithoutSpaces(text), s)
    decreases |text|
  {
    if text != "" {
      WithoutFirst(text);
      PaddingIgnoresSpaces(text[1..]);
      ScanIgnoresSpaces(text[1..], s);
      if Value(text[0]).Some? {
        ScanIgnoresSpaces(text[1..], s + [Value(text[0]).value]);
      }
      hide WithoutSpaces, IsSpace, Value;
    }
  }

  lemma {:induction false} NoSpacesLeft(text: string)
    ensures forall i :: 0 <= i < |WithoutSpaces(text)| ==> !IsSpace(WithoutSpaces(text)[i])
    decreases |text|
  {
    if text != "" {
      NoSpacesLeft(text[1..]);
    }
  }

  lemma ValueIsDigit(c: char)
    requires Value(c).Some?
    ensures Digit(Value(c).value) == c
  {
  }

  lemma {:induction false} PaddingScanned(text: string)
    requires ScanPadding(text).Some? && forall i :: 0 <= i < |text| ==> !IsSpace(text[i])
    ensures text == Padding(ScanPadding(text).value)
    decreases |text|
  {
    if text != "" {
      PaddingScanned(text[1..]);
    }
  }

  /** What is scanned without spaces are digits and then padding. */
  lemma {:induction false} DigitsScanned(text: string, before: seq<Sextet>) returns (s: seq<Sextet>)
    requires ScanDigits(text, before).Some? && forall i :: 0 <= i < |text| ==> !IsSpace(text[i])
    ensures var (all, n) := ScanDigits(text, before).value; all == before + s && text == Digits(s) + Padding(n)
    decreases |text|
  {
    if text == "" {
      s := [];
    } else if text[0] == '=' {
      s := [];
      PaddingScanned(text[1..]);
      assert text == "=" + text[1..];
    } else {
      var v := Value(text[0]).value;
      var rest := DigitsScanned(text[1..], before + [v]);
      s := [v] + rest;
      ValueIsDigit(text[0]);
      assert Digits(s) == [text[0]] + Digits(rest);
      assert before + s == before + [v] + rest;
      assert text == [text[0]] + text[1..];
    }
  }

  /** The text, spaces aside, is that of the sextets with `n` paddings, as many as fit or none; no lone sextet ends it. */
  ghost predicate Spells(text: string, s: seq<Sextet>, n: nat) {
    && WithoutSpaces(text) == Digits(s) + Padding(n)
    && |s| % 4 != 1 && n <= 2 && (n > 0 ==> (|s| + n) % 4 == 0)
  }

  /** The texts that decode are those that spell sextets, and they decode to the bytes of these. */
  lemma DecodesWhatIsSpelled(text: string, b: seq<Byte>)
    ensures Base64Decode(text) == Some(b) <==> exists s, n :: Spells(text, s, n) && b == Bytes(s)
  {
    var plain := WithoutSpaces(text);
    ScanIgnoresSpaces(text, []);
    NoSpacesLeft(text);
    hide Bytes, WithoutSpaces, IsSpace, Digits, Padding;
    if Base64Decode(text) == Some(b) {
      var s := DigitsScanned(plain, []);
      assert [] + s == s;
      assert Spells(text, s, ScanDigits(plain, []).value.1);
    }
    if s, n :| Spells(text, s, n) && b == Bytes(s) {
      SpelledScans(plain, s, n);
    }
  }

  lemma SpelledScans(plain: string, s: seq<Sextet>, n: nat)
    requires plain == Digits(s) + Padding(n)
    ensures ScanDigits(plain, []) == Some((s, n))
  {
    ScanOfDigits(s, Padding(n), []);
    ScanTail(s, n);
    assert [] + s == s;
  }

  lemma BitsOfFour(a: Sextet, b: Sextet, c: Sextet, d: Sextet)
    ensures BitsOfBytes(FirstByte(a, b), SecondByte(b, c), ThirdByte(c, d)) == BitsOfSextets(a, b, c, d)
  {
  }

  /** Scanning digits reads their values and goes on behind them. */
  lemma {:induction false} ScanOfDigits(s: seq<Sextet>, rest: string, before: seq<Sextet>)
    ensures ScanDigits(Digits(s) + rest, before) == ScanDigits(rest, before + s)
    decreases |s|
  {
    var text := Digits(s) + rest;
    if s == [] {
      assert text == rest && before + s == before;
    } else {
      DigitHasValue(s[0]);
      assert text[0] == Digit(s[0]);
      assert text[1..] == Digits(s[1..]) + rest;
      ScanOfDigits(s[1..], rest, before + [s[0]]);
      assert before + [s[0]] + s[1..] == before + s;
    }
  }

  lemma {:induction false} ScanOfPadding(n: nat)
    ensures ScanPadding(Padding(n)) == Some(n)
    decreases n
  {
    if n > 0 {
      ScanOfPadding(n - 1);
      assert Padding(n)[1..] == Padding(n - 1);
    }
  }

  lemma {:induction false} PaddingIs(n: nat)
    ensures |Padding(n)| == n && forall i :: 0 <= i < n ==> Padding(n)[i] == '='
    decreases n
  {
    if n > 0 {
      PaddingIs(n - 1);
    }
  }

  lemma {:induction false} TrimPadding(text: string, n: nat)
    requires text == "" || text[|text| - 1] != '='
    ensures TrimmedRight(text + Padding(n)) == text
    decreases n
  {
    PaddingIs(n);
    if n == 0 {
      assert text + Padding(0) == text;
    } else {
      var all := text + Padding(n);
      PaddingIs(n - 1);
      assert Padding(n)[..n - 1] == Padding(n - 1);
      assert all[..|all| - 1] == text + Padding(n - 1);
      TrimPadding(text, n - 1);
    }
  }

  lemma TranslatedPadded(text: string, n: nat, a: char, b: char, c: char, d: char)
    requires a != '=' && c != '='
    ensures Translated(text + Padding(n), a, b, c, d) == Translated(text, a, b, c, d) + Padding(n)
  {
    PaddingIs(n);
    hide Padding;
  }

  /** The URL-safe encoding consists of the digits, with two of them replaced. */
  lemma UrlEncodingIs(b: seq<Byte>)
    ensures Base64UrlEncode(b) == Translated(Digits(Sextets(b)), '+', '-', '/', '_')
    ensures forall i :: 0 <= i < |Base64UrlEncode(b)| ==> Base64UrlEncode(b)[i] != '.' && Base64UrlEncode(b)[i] != '='
  {
    hide Sextets, Digit, IsSpace, Value, Padding, TrimmedRight;
    var s := Sextets(b);
    var safe := Translated(Digits(s), '+', '-', '/', '_');
    forall i | 0 <= i < |s|
      ensures safe[i] != '.' && safe[i] != '='
    {
      DigitHasValue(s[i]);
    }
    TranslatedPadded(Digits(s), (4 - |s| % 4) % 4, '+', '-', '/', '_');
    TrimPadding(safe, (4 - |s| % 4) % 4);
  }

  lemma TranslatedBack(s: seq<Sextet>)
    ensures Translated(Translated(Digits(s), '+', '-', '/', '_'), '-', '+', '_', '/') == Digits(s)
  {
    hide Digit, IsSpace, Value;
    forall i | 0 <= i < |s|
      ensures Digit(s[i]) != '-' && Digit(s[i]) != '_'
    {
      DigitHasValue(s[i]);
    }
  }

  /** Decoding undoes encoding on every byte string, although the padding was stripped. */
  lemma UrlRoundTrip(b: seq<Byte>)
    ensures Base64UrlDecode(Base64UrlEncode(b)) == Some(b)
  {
    var s := Sextets(b);
    var text := Base64UrlEncode(b);
    UrlEncodingIs(b);
    SextetsOfBytes(b);
    hide Sextets, Digit, IsSpace, Value, TrimmedRight, Base64UrlEncode, Bytes, ScanDigits;
    var n := if |text| % 4 != 0 then 4 - |text| % 4 else 0;
    assert text + (if |text| % 4 != 0 then Padding(n) else "") == text + Padding(n);
    TranslatedPadded(text, n, '-', '+', '_', '/');
    TranslatedBack(s);
    hide Translated, Padding, Digits;
    ScanOfDigits(s, Padding(n), []);
    ScanTail(s, n);
    assert [] + s == s;
    assert |text| == |s|;
  }

  lemma ScanTail(s: seq<Sextet>, n: nat)
    ensures ScanDigits(Padding(n), s) == Some((s, n))
  {
    if n > 0 {
      ScanOfPadding(n - 1);
      assert Padding(n)[1..] == Padding(n - 1);
    }
  }

  // ----- Cursor states -----

  const PHASE_DEFAULT := "default"

  const PHASE_RESERVED := "reserved"

  const PHASE_REST := "rest"

  datatype Position = Position(score: Option<real>, id: string, offset: int)

  datatype State = State(position: Option<Position>, phase: string)

  /** A JSON value, as far as the codec tells values apart. */
  datatype Field = Null | Text(text: string) | Number(number: real) | Other

  datatype Payload = Payload(
    version: Option<int>,
    jobType: Option<string>,
    query: Option<string>,
    score: Field,
    id: Field,
    offset: Option<int>,
    phase: Field)

  datatype Cursor = NoCursor | Integer(n: int) | Words(text: string)

  datatype Decoded = Nothing | Found(state: State) | Invalid

  /** JSON, which may refuse a payload, the text of a score, and the keyed signature. */
  datatype Format = Format(
    json: Payload -> Option<seq<Byte>>,
    parse: seq<Byte> -> Option<Payload>,
    print_: real -> string,
    number: string -> Option<real>,
    sign: string -> seq<Byte>)

  /** If JSON takes the payload, it gives it back. */
  predicate PayloadReadsBack(f: Format, p: Payload) {
    f.json(p).Some? ==> f.parse(f.json(p).value) == Some(p)
  }

  /** The score of the state, if it has one, is printed in a way that reads as the same number. */
  predicate ScoreReadsBack(f: Format, s: State) {
    s.position.Some? && s.position.value.score.Some? ==>
      f.number(f.print_(s.position.value.score.value)) == s.position.value.score
  }

  predicate IsPhase(phase: string) {
    phase == PHASE_DEFAULT || phase == PHASE_RESERVED || phase == PHASE_REST
  }

  /** The states that a cursor can carry: a known phase, a position outside the later phases, and a usable position. */
  predicate Encodable(s: State) {
    && IsPhase(s.phase)
    && (s.phase == PHASE_DEFAULT ==> s.position.Some?)
    && (s.position.Some? ==> s.position.value.id != "" && s.position.value.offset >= 0 && s.position.value.score.Some?)
  }

  function PayloadOf(f: Format, jobType: string, query: string, s: State): Payload
    requires Encodable(s)
  {
    Payload(Some(if s.phase == PHASE_DEFAULT then 4 else 5),
            Some(jobType),
            Some(query),
            if s.position.None? then Null else Text(f.print_(s.position.value.score.value)),
            if s.position.None? then Null else Text(s.position.value.id),
            Some(if s.position.None? then 0 else s.position.value.offset),
            if s.phase == PHASE_DEFAULT then Null else Text(s.phase))
  }

  function EncodeState(f: Format, jobType: string, query: string, s: State): Option<string> {
    if !IsPhase(s.phase) then None
    else if s.phase == PHASE_DEFAULT && s.position.None? then None
    else if s.position.Some? && (s.position.value.id == "" || s.position.value.offset < 0 || s.position.value.score.None?) then None
    else
      var payload := f.json(PayloadOf(f, jobType, query, s));
      if payload.None? then None
      else
        var encoded := Base64UrlEncode(payload.value);
        Some(encoded + "." + Base64UrlEncode(f.sign(encoded)))
  }

  /** The text before the first dot and the text behind it. */
  function Split(text: string): Option<(string, string)> {
    if text == "" then None
    else if text[0] == '.' then Some(("", text[1..]))
    else
      var rest := Split(text[1..]);
      if rest.None? then None else Some(([text[0]] + rest.value.0, rest.value.1))
  }

  function DecodeState(f: Format, cursor: Cursor, jobType: string, query: string): Decoded {
    match cursor
    case NoCursor => Nothing
    case Integer(n) => if n == -1 then Nothing else Invalid
    case Words(text) =>
      if text == "" || text == "-1" then Nothing
      else
        var segments := Split(text);
        if segments.None? then Invalid
        else
          var (encoded, encodedSignature) := segments.value;
          if Base64UrlDecode(encodedSignature) != Some(f.sign(encoded)) then Invalid
          else
            var bytes := Base64UrlDecode(encoded);
            var payload := if bytes.None? then None else f.parse(bytes.value);
            if payload.None? then Invalid else StateOf(f, payload.value, jobType, query)
  }

  function StateOf(f: Format, p: Payload, jobType: string, query: string): Decoded {
    var phase := if p.phase == Null then Text(PHASE_DEFAULT) else p.phase;
    if p.version != Some(4) && p.version != Some(5) then Invalid
    else if p.jobType != Some(jobType) || p.query != Some(query) then Invalid
    else if !phase.Text? || !IsPhase(phase.text) then Invalid
    else if p.version == Some(4) && phase.text != PHASE_DEFAULT then Invalid
    else if p.version == Some(5) && phase.text == PHASE_DEFAULT then Invalid
    else if p.offset.None? || p.offset.value < 0 then Invalid
    else if p.score == Null && p.id == Null then
      if phase.text == PHASE_DEFAULT then Invalid else Found(State(None, phase.text))
    else
      var score := NumberIn(f, p.score);
      if score.None? || !p.id.Text? || p.id.text == "" then Invalid
      else Found(State(Some(Position(score, p.id.text, p.offset.value)), phase.text))
  }

  function NumberIn(f: Format, v: Field): Option<real> {
    match v
    case Text(text) => f.number(text)
    case Number(x) => Some(x)
    case _ => None
  }

  lemma {:induction false} SplitAtDot(a: string, b: string)
    requires forall i :: 0 <= i < |a| ==> a[i] != '.'
    ensures Split(a + "." + b) == Some((a, b))
    decreases |a|
  {
    var text := a + "." + b;
    if a == "" {
      assert text[0] == '.' && text[1..] == b;
    } else {
      assert text[0] == a[0] && text[1..] == a[1..] + "." + b;
      SplitAtDot(a[1..], b);
      assert [a[0]] + a[1..] == a;
    }
  }

  /** A cursor that was made here opens to its payload, for whatever type and query it is read. */
  lemma CursorOpens(f: Format, jobType: string, query: string, s: State, type2: string, query2: string)
    requires EncodeState(f, jobType, query, s).Some? && PayloadReadsBack(f, PayloadOf(f, jobType, query, s))
    ensures Encodable(s)
    ensures DecodeState(f, Words(EncodeState(f, jobType, query, s).value), type2, query2)
         == StateOf(f, PayloadOf(f, jobType, query, s), type2, query2)
  {
    var payload := f.json(PayloadOf(f, jobType, query, s)).value;
    var encoded := Base64UrlEncode(payload);
    var signature := Base64UrlEncode(f.sign(encoded));
    UrlEncodingIs(payload);
    assert EncodeState(f, jobType, query, s) == Some(encoded + "." + signature) && f.parse(payload) == Some(PayloadOf(f, jobType, query, s));
    hide *;
    UrlRoundTrip(payload);
    UrlRoundTrip(f.sign(encoded));
    SplitAtDot(encoded, signature);
    SignedTextOpens(f, encoded, signature, payload, PayloadOf(f, jobType, query, s), type2, query2);
  }

  lemma SignedTextOpens(f: Format, encoded: string, signature: string, b: seq<Byte>, p: Payload, jobType: string, query: string)
    requires Split(encoded + "." + signature) == Some((encoded, signature))
    requires Base64UrlDecode(signature) == Some(f.sign(encoded)) && Base64UrlDecode(encoded) == Some(b) && f.parse(b) == Some(p)
    ensures DecodeState(f, Words(encoded + "." + signature), jobType, query) == StateOf(f, p, jobType, query)
  {
    hide Base64UrlDecode, StateOf, Split;
    var text := encoded + "." + signature;
    assert text[|encoded|] == '.';
    assert text != "" && text != "-1";
  }

  /** Decoding an encoded state under its own type and query gives the state back, exactly when its score reads back. */
  lemma StateRoundTrip(f: Format, jobType: string, query: string, s: State)
    requires EncodeState(f, jobType, query, s).Some? && PayloadReadsBack(f, PayloadOf(f, jobType, query, s))
    ensures DecodeState(f, Words(EncodeState(f, jobType, query, s).value), jobType, query) == Found(s) <==> ScoreReadsBack(f, s)
  {
    CursorOpens(f, jobType, query, s, jobType, query);
    PayloadKeepsState(f, jobType, query, s);
    hide DecodeState, EncodeState, StateOf, PayloadOf;
  }

  lemma PayloadKeepsState(f: Format, jobType: string, query: string, s: State)
    requires Encodable(s)
    ensures StateOf(f, PayloadOf(f, jobType, query, s), jobType, query) == Found(s) <==> ScoreReadsBack(f, s)
  {
    if s.position.Some? {
      var p := s.position.value;
      assert s == State(Some(Position(p.score, p.id, p.offset)), s.phase);
    } else {
      assert s == State(None, s.phase);
    }
  }

  /** Under another type or another query the cursor is refused. */
  lemma ForeignCursorIsInvalid(f: Format, jobType: string, query: string, s: State, type2: string, query2: string)
    requires EncodeState(f, jobType, query, s).Some? && PayloadReadsBack(f, PayloadOf(f, jobType, query, s))
    requires type2 != jobType || query2 != query
    ensures DecodeState(f, Words(EncodeState(f, jobType, query, s).value), type2, query2) == Invalid
  {
    CursorOpens(f, jobType, query, s, type2, query2);
    hide EncodeState, DecodeState;
  }

  /** Some payload reads as the state. */
  ghost predicate Readable(f: Format, jobType: string, query: string, s: State) {
    exists p :: StateOf(f, p, jobType, query) == Found(s)
  }

  /** The encodable states are those that some payload reads as, with the score as a number if need be. */
  lemma EncodableIsReadable(f: Format, jobType: string, query: string, s: State)
    ensures Encodable(s) <==> Readable(f, jobType, query, s)
  {
    if Encodable(s) {
      var p := PayloadOf(f, jobType, query, s);
      if s.position.Some? {
        p := p.(score := Number(s.position.value.score.value));
        assert s == State(Some(Position(s.position.value.score, s.position.value.id, s.position.value.offset)), s.phase);
      }
      assert StateOf(f, p, jobType, query) == Found(s);
    }
  }

  /** The encoder accepts exactly the readable states that JSON accepts, and no text it makes passes for an absent cursor. */
  lemma EncodesExactly(f: Format, jobType: string, query: string, s: State)
    ensures EncodeState(f, jobType, query, s).Some? ==> Readable(f, jobType, query, s)
    ensures Encodable(s) ==> (EncodeState(f, jobType, query, s).Some? <==> f.json(PayloadOf(f, jobType, query, s)).Some?)
    ensures forall type2, query2 :: EncodeState(f, jobType, query, s).Some? ==>
              DecodeState(f, Words(EncodeState(f, jobType, query, s).value), type2, query2) != Nothing
  {
    hide Readable, DecodeState, PayloadOf, Base64UrlEncode;
    EncodableIsReadable(f, jobType, query, s);
    forall cursor, type2, query2
      ensures DecodeState(f, cursor, type2, query2) == Nothing ==> cursor == NoCursor || cursor.Integer? || cursor.text == "" || cursor.text == "-1"
    {
      StateOfIsSomething(f, cursor, type2, query2);
    }
    if EncodeState(f, jobType, query, s).Some? {
      var payload := f.json(PayloadOf(f, jobType, query, s)).value;
      var encoded := Base64UrlEncode(payload);
      var text := encoded + "." + Base64UrlEncode(f.sign(encoded));
      UrlEncodingIs(payload);
      assert text[|encoded|] == '.';
      assert text != "" && text != "-1";
    }
  }

  /** Whatever text decodes to a state: the state could be encoded, and phase and version agree. */
  lemma DecodedIsEncodable(f: Format, text: string, jobType: string, query: string)
    requires DecodeState(f, Words(text), jobType, query).Found?
    ensures Encodable(DecodeState(f, Words(text), jobType, query).state)
    ensures exists p :: StateOf(f, p, jobType, query) == DecodeState(f, Words(text), jobType, query)
                        && (p.version == Some(4) <==> DecodeState(f, Words(text), jobType, query).state.phase == PHASE_DEFAULT)
  {
    hide Base64UrlDecode, Split;
    var (encoded, _) := Split(text).value;
    var p := f.parse(Base64UrlDecode(encoded).value).value;
    assert StateOf(f, p, jobType, query) == DecodeState(f, Words(text), jobType, query);
  }

  // ----- Which cursors are accepted -----

  /** The payload describes the state for this type and query, said of its fields alone. */
  ghost predicate Describes(f: Format, p: Payload, jobType: string, query: string, s: State) {
    && p.jobType == Some(jobType) && p.query == Some(query)
    && ((p.version == Some(4) && s.phase == "default" && (p.phase == Null || p.phase == Text("default")))
        || (p.version == Some(5) && (s.phase == "reserved" || s.phase == "rest") && p.phase == Text(s.phase)))
    && p.offset.Some? && p.offset.value >= 0
    && match s.position
       case None => s.phase != "default" && p.score == Null && p.id == Null
       case Some(position) =>
         && position.id != "" && p.id == Text(position.id) && position.offset == p.offset.value
         && position.score.Some?
         && (p.score == Number(position.score.value) || exists text :: p.score == Text(text) && f.number(text) == position.score)
  }

  /** The text is a payload, a dot and behind it the signature of what stands before the first dot. */
  ghost predicate Carries(f: Format, text: string, encoded: string, signature: string, p: Payload) {
    && text == encoded + "." + signature && (forall i :: 0 <= i < |encoded| ==> encoded[i] != '.')
    && Base64UrlDecode(signature) == Some(f.sign(encoded))
    && Base64UrlDecode(encoded).Some? && f.parse(Base64UrlDecode(encoded).value) == Some(p)
  }

  ghost predicate Opens(f: Format, cursor: Cursor, jobType: string, query: string, s: State) {
    exists text, encoded, signature, p ::
      cursor == Words(text) && Carries(f, text, encoded, signature, p) && Describes(f, p, jobType, query, s)
  }

  lemma DescribedIsRead(f: Format, p: Payload, jobType: string, query: string, s: State)
    ensures Describes(f, p, jobType, query, s) <==> StateOf(f, p, jobType, query) == Found(s)
  {
    if Describes(f, p, jobType, query, s) && s.position.Some? {
      var position := s.position.value;
      assert s == State(Some(Position(position.score, position.id, position.offset)), s.phase);
    }
  }

  lemma {:induction false} SplitIsAtDot(text: string)
    requires Split(text).Some?
    ensures var (a, b) := Split(text).value; text == a + "." + b && forall i :: 0 <= i < |a| ==> a[i] != '.'
    decreases |text|
  {
    if text[0] == '.' {
      assert text == "" + "." + text[1..];
    } else {
      SplitIsAtDot(text[1..]);
      assert text == [text[0]] + text[1..];
    }
  }

  /**
    A cursor is absent exactly when it is none, -1 or empty; and it opens to a state exactly when it carries a
    payload that describes the state under its own signature. Every other cursor is refused.
  */
  lemma DecodesExactly(f: Format, cursor: Cursor, jobType: string, query: string)
    ensures DecodeState(f, cursor, jobType, query) == Nothing
       <==> cursor == NoCursor || cursor == Integer(-1) || cursor == Words("") || cursor == Words("-1")
    ensures forall s :: DecodeState(f, cursor, jobType, query) == Found(s) <==> Opens(f, cursor, jobType, query, s)
  {
    hide Base64UrlDecode, StateOf, Split, Describes;
    forall s
      ensures DecodeState(f, cursor, jobType, query) == Found(s) <==> Opens(f, cursor, jobType, query, s)
    {
      if DecodeState(f, cursor, jobType, query) == Found(s) {
        SplitIsAtDot(cursor.text);
        var (encoded, signature) := Split(cursor.text).value;
        var p := f.parse(Base64UrlDecode(encoded).value).value;
        DescribedIsRead(f, p, jobType, query, s);
        assert Carries(f, cursor.text, encoded, signature, p);
      }
      if text, encoded, signature, p :|
          cursor == Words(text) && Carries(f, text, encoded, signature, p) && Describes(f, p, jobType, query, s) {
        SplitAtDot(encoded, signature);
        SignedTextOpens(f, encoded, signature, Base64UrlDecode(encoded).value, p, jobType, query);
        DescribedIsRead(f, p, jobType, query, s);
      }
    }
    StateOfIsSomething(f, cursor, jobType, query);
  }

  lemma StateOfIsSomething(f: Format, cursor: Cursor, jobType: string, query: string)
    ensures DecodeState(f, cursor, jobType, query) == Nothing
       <==> cursor == NoCursor || cursor == Integer(-1) || cursor == Words("") || cursor == Words("-1")
  {
    hide Base64UrlDecode, Split, NumberIn;
  }

  /** Two states with the same text are the same state, if the text keeps both. */
  lemma CursorsAreInjective(f: Format, jobType: string, query: string, s: State, t: State)
    requires EncodeState(f, jobType, query, s).Some? && EncodeState(f, jobType, query, s) == EncodeState(f, jobType, query, t)
    requires PayloadReadsBack(f, PayloadOf(f, jobType, query, s)) && ScoreReadsBack(f, s)
    requires PayloadReadsBack(f, PayloadOf(f, jobType, query, t)) && ScoreReadsBack(f, t)
    ensures s == t
  {
    hide *;
    StateRoundTrip(f, jobType, query, s);
    StateRoundTrip(f, jobType, query, t);
  }
}
