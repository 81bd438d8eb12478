/**
The unpadded URL-safe base64 of RFC 4648 section 5, with the canonical-encoding
rule of section 3.5, and the three decoders of the system: the Go handlers'
decodeBase64URL, the Go capability check and the browser's decodeBase64URL.
Go's library decoder skips line breaks and ignores stray trailing bits, the
browser's atob ignores stray trailing bits; both are modelled with that tolerance.
*/
module Base64Url {
  import opened Common

  type Sextet = s: int | 0 <= s < 64

  // ----- groups of bytes and groups of sextets --------------------------------

  function Sextet0(b0: Byte): Sextet { b0 / 4 }
  function Sextet1(b0: Byte, b1: Byte): Sextet { b0 % 4 * 16 + b1 / 16 }
  function Sextet2(b1: Byte, b2: Byte): Sextet { b1 % 16 * 4 + b2 / 64 }
  function Sextet3(b2: Byte): Sextet { b2 % 64 }
  function LastOfOne(b0: Byte): Sextet { b0 % 4 * 16 }
  function LastOfTwo(b1: Byte): Sextet { b1 % 16 * 4 }
  function Byte0(s0: Sextet, s1: Sextet): Byte { var b: int := s0 * 4 + s1 / 16; b }
  function Byte1(s1: Sextet, s2: Sextet): Byte { var b: int := s1 % 16 * 16 + s2 / 4; b }
  function Byte2(s2: Sextet, s3: Sextet): Byte { var b: int := s2 % 4 * 64 + s3; b }

  lemma GroupInverse(b0: Byte, b1: Byte, b2: Byte)
    ensures Byte0(Sextet0(b0), Sextet1(b0, b1)) == b0
    ensures Byte1(Sextet1(b0, b1), Sextet2(b1, b2)) == b1
    ensures Byte2(Sextet2(b1, b2), Sextet3(b2)) == b2
    ensures Byte0(Sextet0(b0), LastOfOne(b0)) == b0
    ensures Byte1(Sextet1(b0, b1), LastOfTwo(b1)) == b1
  {
  }

  lemma GroupOfBytes(s0: Sextet, s1: Sextet, s2: Sextet, s3: Sextet)
    ensures Sextet0(Byte0(s0, s1)) == s0
    ensures Sextet1(Byte0(s0, s1), Byte1(s1, s2)) == s1
    ensures Sextet2(Byte1(s1, s2), Byte2(s2, s3)) == s2
    ensures Sextet3(Byte2(s2, s3)) == s3
    ensures s1 % 16 == 0 ==> LastOfOne(Byte0(s0, s1)) == s1
    ensures s2 % 4 == 0 ==> LastOfTwo(Byte1(s1, s2)) == s2
  {
  }

  function EncodedLen(n: nat): nat {
    n / 3 * 4 + (n % 3 * 8 + 5) / 6
  }

  /** Three bytes make four sextets; a last group of one or two bytes makes two or three. */
  function Sextets(bytes: seq<Byte>): (x: seq<Sextet>)
  {
    if |bytes| == 0 then []
    else if |bytes| == 1 then [Sextet0(bytes[0]), LastOfOne(bytes[0])]
    else if |bytes| == 2 then [Sextet0(bytes[0]), Sextet1(bytes[0], bytes[1]), LastOfTwo(bytes[1])]
    else
      [Sextet0(bytes[0]), Sextet1(bytes[0], bytes[1]), Sextet2(bytes[1], bytes[2]), Sextet3(bytes[2])]
      + Sextets(bytes[3..])
  }

  /** The lenient decoder: the bits that do not fill a byte are dropped unseen. */
  function Bytes(x: seq<Sextet>): (r: Option<seq<Byte>>)
  {
    if |x| == 0 then Some([])
    else if |x| == 1 then None
    else if |x| == 2 then Some([Byte0(x[0], x[1])])
    else if |x| == 3 then Some([Byte0(x[0], x[1]), Byte1(x[1], x[2])])
    else
      match Bytes(x[4..])
      case None => None
      case Some(rest) => Some([Byte0(x[0], x[1]), Byte1(x[1], x[2]), Byte2(x[2], x[3])] + rest)
  }

  /** RFC 4648 section 3.5: no lone sextet, and the pad bits of a short last group are zero. */
  predicate CanonicalSextets(x: seq<Sextet>) {
    if |x| == 0 then true
    else if |x| == 1 then false
    else if |x| == 2 then x[1] % 16 == 0
    else if |x| == 3 then x[2] % 4 == 0
    else CanonicalSextets(x[4..])
  }

  lemma {:induction false} SextetsLength(bytes: seq<Byte>)
    ensures |Sextets(bytes)| == EncodedLen(|bytes|)
  {
    if |bytes| >= 3 {
      SextetsLength(bytes[3..]);
    }
  }

  lemma {:induction false} BytesLength(x: seq<Sextet>)
    ensures |x| % 4 == 1 ==> Bytes(x) == None
    ensures |x| % 4 != 1 ==> Bytes(x).Some? && |Bytes(x).value| == |x| * 3 / 4
  {
    if |x| >= 4 {
      BytesLength(x[4..]);
      assert |x| % 4 == |x[4..]| % 4;
    }
  }

  lemma BytesOfPair(a: Byte, b: Byte)
    ensures Bytes(Sextets([a])) == Some([a])
    ensures Bytes(Sextets([a, b])) == Some([a, b])
  {
    GroupInverse(a, b, 0);
    assert Sextets([a]) == [Sextet0(a), LastOfOne(a)];
    assert Sextets([a, b]) == [Sextet0(a), Sextet1(a, b), LastOfTwo(b)];
  }

  lemma BytesOfGroup(a: Byte, b: Byte, c: Byte, rest: seq<Byte>)
    requires Bytes(Sextets(rest)) == Some(rest)
    ensures Bytes(Sextets([a, b, c] + rest)) == Some([a, b, c] + rest)
  {
    GroupInverse(a, b, c);
    assert ([a, b, c] + rest)[3..] == rest;
    var x := Sextets([a, b, c] + rest);
    assert x == [Sextet0(a), Sextet1(a, b), Sextet2(b, c), Sextet3(c)] + Sextets(rest);
    assert x[4..] == Sextets(rest);
  }

  lemma {:induction false} BytesOfSextets(bytes: seq<Byte>)
    ensures Bytes(Sextets(bytes)) == Some(bytes)
  {
    if |bytes| == 1 {
      BytesOfPair(bytes[0], 0);
      assert bytes == [bytes[0]];
    } else if |bytes| == 2 {
      BytesOfPair(bytes[0], bytes[1]);
      assert bytes == [bytes[0], bytes[1]];
    } else if |bytes| > 2 {
      BytesOfSextets(bytes[3..]);
      BytesOfGroup(bytes[0], bytes[1], bytes[2], bytes[3..]);
      assert bytes == [bytes[0], bytes[1], bytes[2]] + bytes[3..];
    }
  }

  lemma {:induction false} SextetsAreCanonical(bytes: seq<Byte>)
    ensures CanonicalSextets(Sextets(bytes))
  {
    if |bytes| >= 3 {
      SextetsAreCanonical(bytes[3..]);
      assert Sextets(bytes)[4..] == Sextets(bytes[3..]);
    }
  }

  lemma SextetsOfTriple(a: Sextet, b: Sextet, c: Sextet)
    ensures c % 4 == 0 ==> Bytes([a, b, c]).Some? && Sextets(Bytes([a, b, c]).value) == [a, b, c]
    ensures b % 16 == 0 ==> Bytes([a, b]).Some? && Sextets(Bytes([a, b]).value) == [a, b]
  {
    GroupOfBytes(a, b, c, 0);
  }

  lemma SextetsOfGroup(a: Sextet, b: Sextet, c: Sextet, d: Sextet, rest: seq<Sextet>)
    requires Bytes(rest).Some? && Sextets(Bytes(rest).value) == rest
    ensures var x := [a, b, c, d] + rest; Bytes(x).Some? && Sextets(Bytes(x).value) == x
  {
    GroupOfBytes(a, b, c, d);
    var x := [a, b, c, d] + rest;
    assert x[4..] == rest;
    var bytes := Bytes(x).value;
    assert bytes == [Byte0(a, b), Byte1(b, c), Byte2(c, d)] + Bytes(rest).value;
    assert bytes[3..] == Bytes(rest).value;
  }

  lemma {:induction false} SextetsOfBytes(x: seq<Sextet>)
    requires CanonicalSextets(x)
    ensures Bytes(x).Some? && Sextets(Bytes(x).value) == x
  {
    if |x| == 2 {
      SextetsOfTriple(x[0], x[1], 0);
      assert x == [x[0], x[1]];
    } else if |x| == 3 {
      SextetsOfTriple(x[0], x[1], x[2]);
      assert x == [x[0], x[1], x[2]];
    } else if |x| >= 4 {
      SextetsOfBytes(x[4..]);
      SextetsOfGroup(x[0], x[1], x[2], x[3], x[4..]);
      assert x == [x[0], x[1], x[2], x[3]] + x[4..];
    }
  }

  // ----- the two alphabets ----------------------------------------------------

  function UrlChar(s: Sextet): char {
    if s < 26 then ('A' as int + s) as char
    else if s < 52 then ('a' as int + s - 26) as char
    else if s < 62 then ('0' as int + s - 52) as char
    else if s == 62 then '-' else '_'
  }

  function StdChar(s: Sextet): char {
    if s == 62 then '+' else if s == 63 then '/' else UrlChar(s)
  }

  function UrlSextet(c: char): (r: Option<Sextet>)
    ensures r.Some? ==> UrlChar(r.value) == c
  {
    if 'A' <= c <= 'Z' then Some(c as int - 'A' as int)
    else if 'a' <= c <= 'z' then Some(c as int - 'a' as int + 26)
    else if '0' <= c <= '9' then Some(c as int - '0' as int + 52)
    else if c == '-' then Some(62)
    else if c == '_' then Some(63)
    else None
  }

  function StdSextet(c: char): (r: Option<Sextet>)
    ensures r.Some? ==> StdChar(r.value) == c
  {
    if c == '+' then Some(62)
    else if c == '/' then Some(63)
    else if c == '-' || c == '_' then None
    else UrlSextet(c)
  }

  lemma AlphabetsInverse(s: Sextet)
    ensures UrlSextet(UrlChar(s)) == Some(s) && StdSextet(StdChar(s)) == Some(s)
  {
  }

  predicate InAlphabet(s: string) {
    forall c :: c in s ==> UrlSextet(c).Some?
  }

  function UrlText(x: seq<Sextet>): (s: string)
    ensures |s| == |x|
    ensures InAlphabet(s)
  {
    var s := seq(|x|, i requires 0 <= i < |x| => UrlChar(x[i]));
    assert InAlphabet(s) by {
      forall i | 0 <= i < |s| ensures UrlSextet(s[i]) == Some(x[i]) { AlphabetsInverse(x[i]); }
    }
    s
  }

  function UrlSextets(s: string): (x: seq<Sextet>)
    requires InAlphabet(s)
    ensures |x| == |s|
  {
    seq(|s|, i requires 0 <= i < |s| => UrlSextet(s[i]).value)
  }

  lemma UrlTextInverse(x: seq<Sextet>)
    ensures UrlSextets(UrlText(x)) == x
  {
    forall i | 0 <= i < |x| ensures UrlSextets(UrlText(x))[i] == x[i] { AlphabetsInverse(x[i]); }
  }

  lemma UrlSextetsInverse(s: string)
    requires InAlphabet(s)
    ensures UrlText(UrlSextets(s)) == s
  {
    forall i | 0 <= i < |s| ensures UrlText(UrlSextets(s))[i] == s[i] {
      assert s[i] in s;
      assert UrlSextet(s[i]) == Some(UrlSextets(s)[i]);
    }
  }

  // ----- the reference encoding -----------------------------------------------

  function Encode(bytes: seq<Byte>): (s: string)
    ensures |s| == EncodedLen(|bytes|)
  {
    SextetsLength(bytes);
    UrlText(Sextets(bytes))
  }

  /** Canonical text, said without an encoder: alphabet, length and zero pad bits. */
  predicate Canonical(s: string) {
    InAlphabet(s) && CanonicalSextets(UrlSextets(s))
  }

  function Decoded(s: string): (bytes: seq<Byte>)
    requires Canonical(s)
    ensures Bytes(UrlSextets(s)) == Some(bytes) && |s| % 4 != 1
  {
    SextetsOfBytes(UrlSextets(s));
    BytesLength(UrlSextets(s));
    Bytes(UrlSextets(s)).value
  }

  lemma EncodeDecodes(bytes: seq<Byte>)
    ensures Canonical(Encode(bytes)) && Decoded(Encode(bytes)) == bytes
  {
    BytesOfSextets(bytes);
    SextetsAreCanonical(bytes);
    UrlTextInverse(Sextets(bytes));
  }

  lemma DecodeEncodes(s: string)
    requires Canonical(s)
    ensures Encode(Decoded(s)) == s
  {
    SextetsOfBytes(UrlSextets(s));
    UrlSextetsInverse(s);
  }

  /** The canonical strings are exactly the encodings, and of one byte string each. */
  lemma CanonicalIffEncoding(s: string)
    ensures Canonical(s) <==> exists bytes: seq<Byte> :: Encode(bytes) == s
    ensures forall b0: seq<Byte>, b1: seq<Byte> :: Encode(b0) == s && Encode(b1) == s ==> b0 == b1
  {
    if Canonical(s) {
      DecodeEncodes(s);
    }
    forall bytes: seq<Byte> | Encode(bytes) == s ensures Canonical(s) && bytes == Decoded(s) {
      EncodeDecodes(bytes);
    }
  }

  // ----- Go: encoding/base64 RawURLEncoding and its two callers ---------------

  function WithoutLineBreaks(s: string): string {
    if s == "" then ""
    else if s[0] == '\n' || s[0] == '\r' then WithoutLineBreaks(s[1..])
    else [s[0]] + WithoutLineBreaks(s[1..])
  }

  function GoDecodeString(s: string): Option<seq<Byte>> {
    var kept := WithoutLineBreaks(s);
    if InAlphabet(kept) then Bytes(UrlSextets(kept)) else None
  }

  lemma {:induction false} NoLineBreaksInAlphabet(s: string)
    requires InAlphabet(s)
    ensures WithoutLineBreaks(s) == s
  {
    if s != "" {
      assert s[0] in s;
      assert UrlSextet(s[0]).Some?;
      assert InAlphabet(s[1..]);
      NoLineBreaksInAlphabet(s[1..]);
    }
  }

  datatype DecodeError = Invalid | TooLarge

  /** internal/httpapi decodeBase64URL. */
  function GoDecodeBounded(value: string, minimum: int, maximum: nat): Result<seq<Byte>, DecodeError> {
    if !InAlphabet(value) then Err(Invalid)
    else if |value| > EncodedLen(maximum) then Err(TooLarge)
    else
      match GoDecodeString(value)
      case None => Err(Invalid)
      case Some(decoded) =>
        if |decoded| < minimum || |decoded| > maximum || Encode(decoded) != value then Err(Invalid)
        else Ok(decoded)
  }

  /** internal/capability validateBase64URL. */
  predicate GoValidate(value: string, encodedLength: nat, decodedLength: nat) {
    |value| == encodedLength
    && var decoded := GoDecodeString(value);
       decoded.Some? && |decoded.value| == decodedLength && Encode(decoded.value) == value
  }

  // ----- the browser: btoa, atob and their callers ----------------------------

  /** A binary string, as JavaScript uses it: one character per byte. */
  function BinaryString(bytes: seq<Byte>): (s: string)
    ensures |s| == |bytes|
    ensures IsBinary(s)
  {
    seq(|bytes|, i requires 0 <= i < |bytes| => bytes[i] as char)
  }

  predicate IsBinary(s: string) {
    forall i :: 0 <= i < |s| ==> s[i] as int < 256
  }

  function CharCodes(s: string): (bytes: seq<Byte>)
    requires IsBinary(s)
    ensures |bytes| == |s|
  {
    seq(|s|, i requires 0 <= i < |s| => s[i] as int)
  }

  function Padding(n: nat): string {
    if n % 4 == 2 then "==" else if n % 4 == 3 then "=" else ""
  }

  function StdText(x: seq<Sextet>): (s: string)
    ensures |s| == |x|
  {
    seq(|x|, i requires 0 <= i < |x| => StdChar(x[i]))
  }

  function Btoa(binary: string): string
    requires IsBinary(binary)
  {
    var x := Sextets(CharCodes(binary));
    StdText(x) + Padding(|x|)
  }

  predicate InStdAlphabet(s: string) {
    forall c :: c in s ==> StdSextet(c).Some?
  }

  function StdSextets(s: string): (x: seq<Sextet>)
    requires InStdAlphabet(s)
    ensures |x| == |s|
  {
    seq(|s|, i requires 0 <= i < |s| => StdSextet(s[i]).value)
  }

  /** The forgiving decoder on text without white space: padding off, pad bits unseen. */
  function Atob(text: string): (r: Option<string>)
    ensures r.Some? ==> IsBinary(r.value)
  {
    var core := if |text| % 4 == 0 then WithoutPadding(text, 2) else text;
    if !InStdAlphabet(core) then None
    else
      match Bytes(StdSextets(core))
      case None => None
      case Some(bytes) => Some(BinaryString(bytes))
  }

  /** Removes at most `limit` trailing '=' characters. */
  function WithoutPadding(text: string, limit: nat): (s: string)
    ensures s <= text
  {
    if limit > 0 && text != "" && text[|text| - 1] == '='
    then WithoutPadding(text[..|text| - 1], limit - 1)
    else text
  }

  function ReplaceAll(s: string, from: char, to: char): (r: string)
    ensures |r| == |s|
    ensures forall i :: 0 <= i < |s| ==> r[i] == if s[i] == from then to else s[i]
  {
    seq(|s|, i requires 0 <= i < |s| => if s[i] == from then to else s[i])
  }

  function FromStandard(text: string): string {
    WithoutPadding(ReplaceAll(ReplaceAll(text, '+', '-'), '/', '_'), |text|)
  }

  function ToStandard(value: string): string {
    ReplaceAll(ReplaceAll(value, '-', '+'), '_', '/') + Repeat('=', (4 - |value| % 4) % 4)
  }

  function Repeat(c: char, n: nat): (s: string)
    ensures |s| == n && forall i :: 0 <= i < n ==> s[i] == c
  {
    seq(n, _ => c)
  }

  lemma {:induction false} PaddingComesOff(core: string, pad: string, limit: nat)
    requires core == "" || core[|core| - 1] != '='
    requires |pad| <= limit && forall i :: 0 <= i < |pad| ==> pad[i] == '='
    ensures WithoutPadding(core + pad, limit) == core
  {
    if pad == "" {
      assert core + pad == core;
    } else {
      assert (core + pad)[..|core + pad| - 1] == core + pad[..|pad| - 1];
      PaddingComesOff(core, pad[..|pad| - 1], limit - 1);
    }
  }

  /** btoa followed by the three replacements is the RFC encoding. */
  lemma BtoaIsEncode(bytes: seq<Byte>)
    ensures FromStandard(Btoa(BinaryString(bytes))) == Encode(bytes)
  {
    assert CharCodes(BinaryString(bytes)) == bytes;
    var x := Sextets(bytes);
    var std, pad := StdText(x), Padding(|x|);
    var replaced := ReplaceAll(ReplaceAll(std + pad, '+', '-'), '/', '_');
    assert replaced == UrlText(x) + pad;
    if x != [] {
      AlphabetsInverse(x[|x| - 1]);
    }
    PaddingComesOff(UrlText(x), pad, |std + pad|);
  }

  /** Swapping the alphabets keeps every sextet. */
  lemma SextetsUnchanged(value: string)
    requires InAlphabet(value)
    ensures var core := ReplaceAll(ReplaceAll(value, '-', '+'), '_', '/');
      InStdAlphabet(core) && StdSextets(core) == UrlSextets(value)
      && (core != "" ==> core[|core| - 1] != '=')
  {
    var core := ReplaceAll(ReplaceAll(value, '-', '+'), '_', '/');
    forall i | 0 <= i < |core| ensures StdSextet(core[i]) == Some(UrlSextets(value)[i]) {
      assert value[i] in value;
      assert UrlChar(UrlSextets(value)[i]) == value[i];
      AlphabetsInverse(UrlSextets(value)[i]);
    }
  }

  lemma PaddingFills(n: nat)
    ensures (n + (4 - n % 4) % 4) % 4 == 0
    ensures n % 4 != 1 ==> (4 - n % 4) % 4 <= 2
  {
    var q, r := n / 4, n % 4;
    assert n == 4 * q + r;
    if r == 0 {
    } else if r == 1 {
      assert n + 3 == 4 * (q + 1);
    } else if r == 2 {
      assert n + 2 == 4 * (q + 1);
    } else {
      assert n + 1 == 4 * (q + 1);
    }
  }

  /** On alphabet text, padding up and atob is the lenient decoder on its sextets. */
  lemma AtobIsBytes(value: string)
    requires InAlphabet(value) && |value| % 4 != 1
    ensures Bytes(UrlSextets(value)).Some?
    ensures Atob(ToStandard(value)) == Some(BinaryString(Bytes(UrlSextets(value)).value))
  {
    hide Bytes, UrlSextets, StdSextets, ReplaceAll, InAlphabet, WithoutPadding, BinaryString;
    BytesLength(UrlSextets(value));
    var core := ReplaceAll(ReplaceAll(value, '-', '+'), '_', '/');
    SextetsUnchanged(value);
    var n := (4 - |value| % 4) % 4;
    PaddingFills(|value|);
    PaddingComesOff(core, Repeat('=', n), 2);
    assert WithoutPadding(ToStandard(value), 2) == core;
  }

  /** encodeBase64URL: the binary string is built chunk by chunk, 0x8000 bytes at a time. */
  method EncodeBase64URL(bytes: seq<Byte>) returns (text: string)
    ensures text == Encode(bytes)
  {
    var binary := "";
    var chunkSize := 0x8000;
    var offset := 0;
    while offset < |bytes|
      invariant 0 <= offset
      invariant binary == BinaryString(bytes[..if offset < |bytes| then offset else |bytes|])
    {
      var end := if offset + chunkSize < |bytes| then offset + chunkSize else |bytes|;
      binary := binary + BinaryString(bytes[offset..end]);
      offset := offset + chunkSize;
    }
    assert bytes[..|bytes|] == bytes;
    BtoaIsEncode(bytes);
    text := FromStandard(Btoa(binary));
  }

  function CeilDiv3(n: int): int {
    (n + 2) / 3
  }

  /** decodeBase64URL of the browser. */
  function BrowserDecode(value: string, minimum: nat, maximum: nat): Result<seq<Byte>, DecodeError> {
    if |value| < CeilDiv3(minimum * 4) || |value| > CeilDiv3(maximum * 4)
       || value == "" || !InAlphabet(value) || |value| % 4 == 1
    then Err(Invalid)
    else
      match Atob(ToStandard(value))
      case None => Err(Invalid)
      case Some(binary) =>
        var bytes := CharCodes(binary);
        if |bytes| < minimum || |bytes| > maximum || FromStandard(Btoa(BinaryString(bytes))) != value
        then Err(Invalid)
        else Ok(bytes)
  }

  // ----- what the decoders accept ---------------------------------------------

  lemma EncodedLenMonotone(m: nat, n: nat)
    requires m <= n
    ensures EncodedLen(m) <= EncodedLen(n)
  {
  }

  ghost predicate AcceptedWithin(value: string, minimum: int, maximum: int) {
    Canonical(value) && minimum <= |Decoded(value)| <= maximum
  }

  /** A lenient decode that re-encodes to the input is a canonical input, and conversely. */
  lemma ReencodingTest(value: string)
    ensures Canonical(value) <==> GoDecodeString(value).Some? && Encode(GoDecodeString(value).value) == value
    ensures Canonical(value) ==> GoDecodeString(value) == Some(Decoded(value))
  {
    if Canonical(value) {
      NoLineBreaksInAlphabet(value);
      DecodeEncodes(value);
    } else if GoDecodeString(value).Some? {
      EncodeDecodes(GoDecodeString(value).value);
    }
  }

  /** The Go handler accepts the canonical encodings within the bounds and no other text. */
  lemma GoDecoderAccepts(value: string, minimum: int, maximum: nat)
    ensures GoDecodeBounded(value, minimum, maximum).Ok? <==> AcceptedWithin(value, minimum, maximum)
    ensures AcceptedWithin(value, minimum, maximum) ==> GoDecodeBounded(value, minimum, maximum) == Ok(Decoded(value))
  {
    ReencodingTest(value);
    if AcceptedWithin(value, minimum, maximum) {
      DecodeEncodes(value);
      EncodedLenMonotone(|Decoded(value)|, maximum);
    }
  }

  /** The capability check accepts the canonical encodings of exactly the wanted size. */
  lemma GoValidateAccepts(value: string, decodedLength: nat)
    ensures GoValidate(value, EncodedLen(decodedLength), decodedLength)
       <==> AcceptedWithin(value, decodedLength, decodedLength)
    ensures GoValidate(value, EncodedLen(decodedLength), decodedLength)
       <==> exists bytes: seq<Byte> :: |bytes| == decodedLength && Encode(bytes) == value
  {
    ReencodingTest(value);
    CanonicalIffEncoding(value);
    if Canonical(value) {
      DecodeEncodes(value);
    }
  }

  lemma EncodedLenIsCeil(n: nat)
    ensures CeilDiv3(n * 4) == EncodedLen(n)
  {
  }

  /** Past the browser's shape checks, what is left is the lenient decoder and the re-encoding test. */
  lemma BrowserAfterShape(value: string, minimum: nat, maximum: nat)
    requires InAlphabet(value) && value != "" && |value| % 4 != 1
    requires EncodedLen(minimum) <= |value| <= EncodedLen(maximum)
    ensures GoDecodeString(value).Some?
    ensures var bytes := GoDecodeString(value).value;
      BrowserDecode(value, minimum, maximum)
      == if minimum <= |bytes| <= maximum && Encode(bytes) == value then Ok(bytes) else Err(Invalid)
  {
    EncodedLenIsCeil(minimum);
    EncodedLenIsCeil(maximum);
    AtobIsBytes(value);
    NoLineBreaksInAlphabet(value);
    var bytes := Bytes(UrlSextets(value)).value;
    assert CharCodes(BinaryString(bytes)) == bytes;
    BtoaIsEncode(bytes);
  }

  lemma CanonicalFitsShape(value: string, minimum: nat, maximum: nat)
    requires AcceptedWithin(value, minimum, maximum)
    ensures EncodedLen(minimum) <= |value| <= EncodedLen(maximum) && |value| % 4 != 1
  {
    DecodeEncodes(value);
    EncodedLenMonotone(minimum, |Decoded(value)|);
    EncodedLenMonotone(|Decoded(value)|, maximum);
  }

  /** The browser accepts the same texts, except that it never accepts the empty one. */
  lemma BrowserDecoderAccepts(value: string, minimum: nat, maximum: nat)
    ensures BrowserDecode(value, minimum, maximum).Ok? <==> value != "" && AcceptedWithin(value, minimum, maximum)
    ensures value != "" && AcceptedWithin(value, minimum, maximum)
       ==> BrowserDecode(value, minimum, maximum) == Ok(Decoded(value))
  {
    hide Atob, Btoa, FromStandard, ToStandard, GoDecodeString;
    EncodedLenIsCeil(minimum);
    EncodedLenIsCeil(maximum);
    ReencodingTest(value);
    if AcceptedWithin(value, minimum, maximum) {
      CanonicalFitsShape(value, minimum, maximum);
    }
    if InAlphabet(value) && value != "" && |value| % 4 != 1
       && EncodedLen(minimum) <= |value| <= EncodedLen(maximum) {
      BrowserAfterShape(value, minimum, maximum);
    }
  }

  /**
  The two implementations of the wire format agree on a text, value for value,
  exactly when it is not the empty text under a minimum of zero.
  */
  lemma DecodersAgree(value: string, minimum: nat, maximum: nat)
    ensures (GoDecodeBounded(value, minimum, maximum).Ok? <==> BrowserDecode(value, minimum, maximum).Ok?)
       <==> !(value == "" && minimum == 0)
    ensures BrowserDecode(value, minimum, maximum).Ok?
       ==> GoDecodeBounded(value, minimum, maximum) == BrowserDecode(value, minimum, maximum)
  {
    GoDecoderAccepts(value, minimum, maximum);
    BrowserDecoderAccepts(value, minimum, maximum);
  }

  lemma {:induction false} WithoutLineBreaksAppend(s: string, t: string)
    ensures WithoutLineBreaks(s + t) == WithoutLineBreaks(s) + WithoutLineBreaks(t)
  {
    if s == "" {
      assert s + t == t;
    } else {
      assert (s + t)[1..] == s[1..] + t;
      WithoutLineBreaksAppend(s[1..], t);
    }
  }

  /** Go's library decoder reads through a line break anywhere; the two callers never accept one. */
  lemma LineBreakTolerated(s: string, t: string)
    ensures GoDecodeString(s + "\n" + t) == GoDecodeString(s + t)
    ensures !Canonical(s + "\n" + t)
  {
    WithoutLineBreaksAppend(s + "\n", t);
    WithoutLineBreaksAppend(s, "\n");
    WithoutLineBreaksAppend(s, t);
    assert WithoutLineBreaks("\n") == "" by {
      assert "\n"[1..] == "";
    }
    assert WithoutLineBreaks(s + "\n") == WithoutLineBreaks(s);
    assert (s + "\n" + t)[|s|] == '\n' && UrlSextet('\n') == None;
  }

  /** Of the sixteen texts of two characters that it decodes to one byte, only one is canonical. */
  lemma PadBitsTolerated(c0: char, c1: char)
    requires InAlphabet([c0, c1])
    ensures GoDecodeString([c0, c1]) == Some([Byte0(UrlSextet(c0).value, UrlSextet(c1).value)])
    ensures Canonical([c0, c1]) <==> UrlSextet(c1).value % 16 == 0
  {
    NoLineBreaksInAlphabet([c0, c1]);
    assert UrlSextets([c0, c1]) == [UrlSextet(c0).value, UrlSextet(c1).value];
  }
}
