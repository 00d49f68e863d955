/**
  The first step of raw-audio playback: `decode` in hooks/useAudioPlayer.ts.
  `window.atob` follows the WHATWG "forgiving-base64 decode" algorithm (a
  lenient reading of section 4 of RFC 4648); it is modelled here in full,
  and `Decode` copies each char code of its binary string into a byte.
 */
module Base64 {
  import opened Wrappers

  /** One element of a Uint8Array. */
  type byte = b: int | 0 <= b < 256

  /** The only error `atob` throws: a DOMException named InvalidCharacterError. */
  datatype DomException = InvalidCharacterError

  /** ASCII whitespace as the Infra standard defines it: TAB, LF, FF, CR and SPACE. */
  predicate IsAsciiWhitespace(c: char) {
    c == '\t' || c == '\n' || c as int == 0x0C || c == '\r' || c == ' '
  }

  /** The 64 characters of the base64 alphabet (section 4 of RFC 4648). */
  predicate IsBase64Char(c: char) {
    ('A' <= c <= 'Z') || ('a' <= c <= 'z') || ('0' <= c <= '9') || c == '+' || c == '/'
  }

  /** The 6-bit value an alphabet character stands for. */
  function SextetValue(c: char): (v: int)
    requires IsBase64Char(c)
    ensures 0 <= v < 64
  {
    if 'A' <= c <= 'Z' then c as int - 'A' as int
    else if 'a' <= c <= 'z' then c as int - 'a' as int + 26
    else if '0' <= c <= '9' then c as int - '0' as int + 52
    else if c == '+' then 62
    else 63
  }

  /** The alphabet character for a 6-bit value; `SextetValue` undoes it. */
  function SextetChar(v: int): (c: char)
    requires 0 <= v < 64
    ensures IsBase64Char(c) && SextetValue(c) == v
  {
    if v < 26 then ('A' as int + v) as char
    else if v < 52 then ('a' as int + (v - 26)) as char
    else if v < 62 then ('0' as int + (v - 52)) as char
    else if v == 62 then '+'
    else '/'
  }

  /** Step 1 of forgiving-base64: drop every ASCII whitespace character, keep the rest in order. */
  function RemoveAsciiWhitespace(s: string): (r: string)
    ensures |r| <= |s|
    ensures forall i :: 0 <= i < |r| ==> !IsAsciiWhitespace(r[i])
    ensures (forall i :: 0 <= i < |s| ==> !IsAsciiWhitespace(s[i])) ==> r == s
    ensures forall c :: c in s && !IsAsciiWhitespace(c) ==> c in r
  {
    if |s| == 0 then []
    else if IsAsciiWhitespace(s[0]) then RemoveAsciiWhitespace(s[1..])
    else [s[0]] + RemoveAsciiWhitespace(s[1..])
  }

  /** Step 2: when the length is a multiple of 4, drop one or two trailing '='. */
  function RemovePadding(d: string): (r: string)
    ensures r <= d && |d| - 2 <= |r|
    ensures |d| % 4 != 0 ==> r == d
    ensures |r| < |d| ==> forall i :: |r| <= i < |d| ==> d[i] == '='
  {
    if |d| % 4 == 0 && |d| >= 2 && d[|d| - 2] == '=' && d[|d| - 1] == '=' then d[..|d| - 2]
    else if |d| % 4 == 0 && |d| >= 1 && d[|d| - 1] == '=' then d[..|d| - 1]
    else d
  }

  predicate AllBase64(d: string) {
    forall i :: 0 <= i < |d| ==> IsBase64Char(d[i])
  }

  // Six-bit groups and bytes, cut and joined along bit boundaries.
  function HiByte(a: int, b: int): byte requires 0 <= a < 64 && 0 <= b < 64 { a * 4 + b / 16 }
  function MidByte(b: int, c: int): byte requires 0 <= b < 64 && 0 <= c < 64 { (b % 16) * 16 + c / 4 }
  function LoByte(c: int, d: int): byte requires 0 <= c < 64 && 0 <= d < 64 { (c % 4) * 64 + d }
  function Sextet0(x: byte): int { x / 4 }
  function Sextet1(x: byte, y: byte): int { (x % 4) * 16 + y / 16 }
  function Sextet2(y: byte, z: byte): int { (y % 16) * 4 + z / 64 }
  function Sextet3(z: byte): int { z % 64 }

  /** The 6-bit values of a run of alphabet characters. */
  function Sextets(d: string): (v: seq<int>)
    requires AllBase64(d)
    ensures |v| == |d|
    ensures forall i :: 0 <= i < |v| ==> 0 <= v[i] < 64 && v[i] == SextetValue(d[i])
  {
    seq(|d|, i requires 0 <= i < |d| => SextetValue(d[i]))
  }

  predicate IsSextets(v: seq<int>) {
    forall i :: 0 <= i < |v| ==> 0 <= v[i] < 64
  }

  /**
    Steps 5 to 7: every four sextets give three bytes; a trailing group of
    three sextets (18 bits) gives two bytes and drops its low 2 bits, a
    trailing group of two (12 bits) gives one byte and drops its low 4 bits.
   */
  function DecodeSextets(v: seq<int>): (r: seq<byte>)
    requires IsSextets(v)
    requires |v| % 4 != 1
    ensures |r| == |v| * 3 / 4
    decreases |v|
  {
    if |v| >= 4 then
      QuarterStep(|v|);
      var rest := DecodeSextets(v[4..]);
      [HiByte(v[0], v[1]), MidByte(v[1], v[2]), LoByte(v[2], v[3])] + rest
    else if |v| == 3 then [HiByte(v[0], v[1]), MidByte(v[1], v[2])]
    else if |v| == 2 then [HiByte(v[0], v[1])]
    else []
  }

  /** Dropping one group of four sextets drops three bytes and keeps the remainder modulo 4. */
  lemma QuarterStep(n: nat)
    requires n >= 4
    ensures (n - 4) * 3 / 4 + 3 == n * 3 / 4
    ensures (n - 4) % 4 == n % 4
  {
    assert n * 3 == (n - 4) * 3 + 12;
  }

  /** A "binary string": one char per byte, char code equal to the byte. */
  function BinaryString(b: seq<byte>): (s: string)
    ensures |s| == |b|
    ensures forall i :: 0 <= i < |s| ==> s[i] as int == b[i]
  {
    seq(|b|, i requires 0 <= i < |b| => b[i] as char)
  }

  /**
    `window.atob`: forgiving-base64 decode, throwing InvalidCharacterError
    when the remaining length leaves remainder 1 modulo 4 or a character
    outside the alphabet remains.
   */
  function Atob(data: string): (r: Result<string, DomException>)
    ensures r.Success? ==> forall i :: 0 <= i < |r.value| ==> r.value[i] as int < 256
    ensures r.Success? ==> |r.value| <= |data|
  {
    var d := RemovePadding(RemoveAsciiWhitespace(data));
    if |d| % 4 == 1 then Failure(InvalidCharacterError)
    else if !AllBase64(d) then Failure(InvalidCharacterError)
    else Success(BinaryString(DecodeSextets(Sextets(d))))
  }

  /** The bytes of a binary string, byte i being the code of char i; `BinaryString` undoes it. */
  function CharCodes(bin: string): (r: seq<byte>)
    requires forall i :: 0 <= i < |bin| ==> bin[i] as int < 256
    ensures |r| == |bin|
    ensures forall i :: 0 <= i < |r| ==> r[i] == bin[i] as int
    ensures BinaryString(r) == bin
  {
    seq(|bin|, i requires 0 <= i < |bin| => bin[i] as int)
  }

  /**
    `decode` (hooks/useAudioPlayer.ts:5-13): the binary string from `atob`,
    one byte per char, each byte the char's code; an `atob` failure
    propagates unchanged.
   */
  function Decode(base64: string): (r: Result<seq<byte>, DomException>)
    ensures r.Failure? <==> Atob(base64).Failure?
    ensures r.Failure? ==> r.error == Atob(base64).error
    ensures r.Success? ==>
      && |r.value| == |Atob(base64).value|
      && forall i :: 0 <= i < |r.value| ==> r.value[i] == Atob(base64).value[i] as int
  {
    match Atob(base64)
    case Failure(e) => Failure(e)
    case Success(bin) => Success(CharCodes(bin))
  }

  // ---------------------------------------------------------------------
  // Encoding: the padded base64 a service sends, used as Decode's partner.

  /** The sextets of the encoding of `b`: three bytes to four sextets, short groups zero-filled. */
  function SplitBytes(b: seq<byte>): (v: seq<int>)
    ensures IsSextets(v)
    ensures |v| % 4 == (if |b| % 3 == 0 then 0 else |b| % 3 + 1)
    ensures |b| > 0 ==> |v| > 0
    decreases |b|
  {
    if |b| >= 3 then
      var rest := SplitBytes(b[3..]);
      GroupLength(|b|, |rest|);
      [Sextet0(b[0]), Sextet1(b[0], b[1]), Sextet2(b[1], b[2]), Sextet3(b[2])] + rest
    else if |b| == 2 then [Sextet0(b[0]), Sextet1(b[0], b[1]), Sextet2(b[1], 0)]
    else if |b| == 1 then [Sextet0(b[0]), Sextet1(b[0], 0)]
    else []
  }

  /** One more full group of three bytes adds four sextets and leaves the remainders alone. */
  lemma GroupLength(n: nat, m: nat)
    requires n >= 3 && m % 4 == (if (n - 3) % 3 == 0 then 0 else (n - 3) % 3 + 1)
    ensures (4 + m) % 4 == (if n % 3 == 0 then 0 else n % 3 + 1)
  {
    assert (n - 3) % 3 == n % 3;
    assert (4 + m) % 4 == m % 4;
  }

  /** Alphabet characters for `b`, without padding. */
  function EncodeBody(b: seq<byte>): (s: string)
    ensures AllBase64(s) && Sextets(s) == SplitBytes(b)
    ensures |s| % 4 == (if |b| % 3 == 0 then 0 else |b| % 3 + 1)
    ensures |b| > 0 ==> |s| > 0
  {
    var v := SplitBytes(b);
    seq(|v|, i requires 0 <= i < |v| => SextetChar(v[i]))
  }

  /** The '=' characters that bring an encoding of `n` bytes to a multiple of 4. */
  function Padding(n: nat): (p: string)
    ensures ((if n % 3 == 0 then 0 else n % 3 + 1) + |p|) % 4 == 0
    ensures forall i :: 0 <= i < |p| ==> p[i] == '='
  {
    if n % 3 == 1 then "==" else if n % 3 == 2 then "=" else ""
  }

  /** Canonical padded base64 (section 4 of RFC 4648). */
  function Encode(b: seq<byte>): (s: string)
    ensures |s| % 4 == 0
  {
    EncodeBody(b) + Padding(|b|)
  }

  // Each byte of a group survives being cut into sextets and joined again.
  lemma HiRoundTrip(x: byte, y: byte)
    ensures HiByte(Sextet0(x), Sextet1(x, y)) == x
  {
    assert ((x % 4) * 16 + y / 16) / 16 == x % 4;
  }

  lemma MidRoundTrip(x: byte, y: byte, z: byte)
    ensures MidByte(Sextet1(x, y), Sextet2(y, z)) == y
  {
    assert ((x % 4) * 16 + y / 16) % 16 == y / 16;
    assert ((y % 16) * 4 + z / 64) / 4 == y % 16;
  }

  lemma LoRoundTrip(y: byte, z: byte)
    ensures LoByte(Sextet2(y, z), Sextet3(z)) == z
  {
    assert ((y % 16) * 4 + z / 64) % 4 == z / 64;
  }

  /** Joining the sextets of a byte sequence gives back the bytes. */
  lemma {:induction false} DecodeSplit(b: seq<byte>)
    ensures DecodeSextets(SplitBytes(b)) == b
    decreases |b|
  {
    if |b| >= 3 {
      var v := SplitBytes(b);
      assert v[4..] == SplitBytes(b[3..]);
      DecodeSplit(b[3..]);
      assert DecodeSextets(v) == [HiByte(v[0], v[1]), MidByte(v[1], v[2]), LoByte(v[2], v[3])] + b[3..];
      HiRoundTrip(b[0], b[1]);
      MidRoundTrip(b[0], b[1], b[2]);
      LoRoundTrip(b[1], b[2]);
      assert [b[0], b[1], b[2]] + b[3..] == b;
    } else if |b| == 2 {
      HiRoundTrip(b[0], b[1]);
      MidRoundTrip(b[0], b[1], 0);
      assert [b[0], b[1]] == b;
    } else if |b| == 1 {
      HiRoundTrip(b[0], 0);
      assert [b[0]] == b;
    }
  }

  /** A canonical encoding holds no whitespace, so step 1 of forgiving-base64 keeps it whole. */
  lemma EncodingHasNoWhitespace(b: seq<byte>)
    ensures RemoveAsciiWhitespace(Encode(b)) == Encode(b)
  {
    var body, pad := EncodeBody(b), Padding(|b|);
    var s := body + pad;
    assert forall i :: 0 <= i < |s| ==> s[i] == if i < |body| then body[i] else pad[i - |body|];
  }

  /** Step 2 of forgiving-base64 turns a canonical encoding back into its unpadded body. */
  lemma StripEncoding(b: seq<byte>)
    ensures RemovePadding(RemoveAsciiWhitespace(Encode(b))) == EncodeBody(b)
  {
    var body, pad := EncodeBody(b), Padding(|b|);
    SumMod4(|body|, if |b| % 3 == 0 then 0 else |b| % 3 + 1, |pad|);
    DropPadding(body, pad);
    EncodingHasNoWhitespace(b);
  }

  lemma SumMod4(a: nat, x: nat, p: nat)
    requires a % 4 == x % 4 && (x + p) % 4 == 0
    ensures (a + p) % 4 == 0
  {
  }

  /** Alphabet characters followed by at most two '=' that fill a multiple of 4: the '=' are all removed. */
  lemma DropPadding(body: string, pad: string)
    requires AllBase64(body) && |pad| <= 2 && (|body| + |pad|) % 4 == 0
    requires forall i :: 0 <= i < |pad| ==> pad[i] == '='
    ensures RemovePadding(body + pad) == body
  {
    var s := body + pad;
    if |body| > 0 {
      assert IsBase64Char(body[|body| - 1]);
    }
    if |pad| == 0 {
      assert s == body;
    } else if |pad| == 1 {
      assert s[|s| - 2] == body[|body| - 1];
      assert s[..|s| - 1] == body;
    } else {
      assert s[|s| - 2] == '=' && s[|s| - 1] == '=';
      assert s[..|s| - 2] == body;
    }
  }

  /** `atob` undoes canonical padded base64. */
  lemma AtobEncode(b: seq<byte>)
    ensures Atob(Encode(b)) == Success(BinaryString(b))
  {
    StripEncoding(b);
    DecodeSplit(b);
  }

  /** The round trip the audio service relies on: `decode` returns exactly the encoded bytes. */
  lemma DecodeEncode(b: seq<byte>)
    ensures Decode(Encode(b)) == Success(b)
  {
    AtobEncode(b);
    assert CharCodes(BinaryString(b)) == b;
  }

  /** Whitespace anywhere in the payload is ignored: inserting it changes nothing. */
  lemma {:induction false} WhitespaceIgnored(x: string, w: char, y: string)
    requires IsAsciiWhitespace(w)
    ensures RemoveAsciiWhitespace(x + [w] + y) == RemoveAsciiWhitespace(x + y)
    ensures Atob(x + [w] + y) == Atob(x + y)
    decreases |x|
  {
    if |x| == 0 {
      assert x + [w] + y == [w] + y;
      assert (x + [w] + y)[1..] == y;
      assert x + y == y;
    } else {
      assert (x + [w] + y)[0] == x[0] && (x + [w] + y)[1..] == x[1..] + [w] + y;
      assert (x + y)[0] == x[0] && (x + y)[1..] == x[1..] + y;
      WhitespaceIgnored(x[1..], w, y);
    }
  }

  /**
    Whitespace removal works piece by piece: together with leaving
    whitespace-free text alone, this fixes the order and number of the
    characters kept.
   */
  lemma {:induction false} RemoveWhitespaceAppend(a: string, b: string)
    ensures RemoveAsciiWhitespace(a + b) == RemoveAsciiWhitespace(a) + RemoveAsciiWhitespace(b)
    decreases |a|
  {
    if |a| == 0 {
      assert a + b == b;
    } else {
      assert (a + b)[0] == a[0] && (a + b)[1..] == a[1..] + b;
      RemoveWhitespaceAppend(a[1..], b);
    }
  }

  /** A character that is neither whitespace, '=' nor in the alphabet makes `atob` throw. */
  lemma ForeignCharacterRejected(s: string, i: nat)
    requires i < |s| && !IsAsciiWhitespace(s[i]) && !IsBase64Char(s[i]) && s[i] != '='
    ensures Decode(s) == Failure(InvalidCharacterError)
  {
    var w := RemoveAsciiWhitespace(s);
    assert s[i] in s;
    var k :| 0 <= k < |w| && w[k] == s[i];
    var d := RemovePadding(w);
    assert k < |d|;
    assert !IsBase64Char(d[k]);
  }

  /** The malformed payload "not-base64!!" is rejected. */
  lemma RejectsForeignCharacter()
    ensures Decode("not-base64!!") == Failure(InvalidCharacterError)
  {
    ForeignCharacterRejected("not-base64!!", 3);
  }
}
