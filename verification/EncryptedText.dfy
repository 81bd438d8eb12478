/**
The browser's encrypted-text envelope and the server's view of it. AES-GCM is an
abstract authenticated cipher: opening what was sealed gives the plaintext back,
and sealing adds 16 bytes. UTF-8 is modelled byte by byte, with the replacement of
lone surrogates by TextEncoder and the dropping of a leading U+FEFF by TextDecoder.
*/
module EncryptedText {
  import opened Common
  import opened Base64Url

  // ----- UTF-8 ----------------------------------------------------------------

  /**
  One element of a JavaScript string read by code points. A value in
  0xD800..0xDFFF stands for a surrogate without its partner.
  */
  type CodePoint = c: int | 0 <= c <= 0x10FFFF

  predicate IsSurrogate(c: CodePoint) {
    0xD800 <= c <= 0xDFFF
  }

  predicate WellFormed(content: seq<CodePoint>) {
    forall c :: c in content ==> !IsSurrogate(c)
  }

  const REPLACEMENT: CodePoint := 0xFFFD
  const BYTE_ORDER_MARK: CodePoint := 0xFEFF

  function Tail(c: int): Byte
    requires 0 <= c
  {
    0x80 + c % 64
  }

  function Utf8(c: CodePoint): (b: seq<Byte>)
    ensures 1 <= |b| <= 4
  {
    if c < 0x80 then [c]
    else if c < 0x800 then [0xC0 + c / 64, Tail(c)]
    else if c < 0x10000 then [0xE0 + c / 4096, Tail(c / 64), Tail(c)]
    else [0xF0 + c / 262144, Tail(c / 4096), Tail(c / 64), Tail(c)]
  }

  function Scalar(c: CodePoint): CodePoint {
    if IsSurrogate(c) then REPLACEMENT else c
  }

  /** TextEncoder.encode. */
  function TextEncode(content: seq<CodePoint>): seq<Byte> {
    if content == [] then [] else Utf8(Scalar(content[0])) + TextEncode(content[1..])
  }

  predicate IsTail(b: Byte) {
    0x80 <= b < 0xC0
  }

  /** Six more bits, from a continuation byte. */
  function Join(high: int, b: int): int {
    high * 64 + (b - 0x80)
  }

  /** The fatal UTF-8 decoder: overlong forms, surrogates and values past U+10FFFF are errors. */
  function DecodeOne(b: seq<Byte>): (r: Option<(CodePoint, nat)>)
    requires b != []
    ensures r.Some? ==> 1 <= r.value.1 <= |b|
  {
    var lead := b[0];
    if lead < 0x80 then Some((lead, 1))
    else if 0xC2 <= lead < 0xE0 then
      if |b| >= 2 && IsTail(b[1])
      then Some((Join(lead - 0xC0, b[1]), 2))
      else None
    else if 0xE0 <= lead < 0xF0 then
      if |b| >= 3 && IsTail(b[1]) && IsTail(b[2])
         && (lead == 0xE0 ==> b[1] >= 0xA0) && (lead == 0xED ==> b[1] < 0xA0)
      then Some((Join(Join(lead - 0xE0, b[1]), b[2]), 3))
      else None
    else if 0xF0 <= lead < 0xF5 then
      if |b| >= 4 && IsTail(b[1]) && IsTail(b[2]) && IsTail(b[3])
         && (lead == 0xF0 ==> b[1] >= 0x90) && (lead == 0xF4 ==> b[1] < 0x90)
      then Some((Join(Join(Join(lead - 0xF0, b[1]), b[2]), b[3]), 4))
      else None
    else None
  }

  function DecodeAll(b: seq<Byte>): Option<seq<CodePoint>>
    decreases |b|
  {
    if b == [] then Some([])
    else
      match DecodeOne(b)
      case None => None
      case Some((c, n)) =>
        match DecodeAll(b[n..])
        case None => None
        case Some(rest) => Some([c] + rest)
  }

  /** TextDecoder.decode, with its default of dropping a leading byte order mark. */
  function TextDecode(b: seq<Byte>): Option<seq<CodePoint>> {
    DecodeAll(if [0xEF, 0xBB, 0xBF] <= b then b[3..] else b)
  }

  lemma DecodeOneOfShort(c: CodePoint, rest: seq<Byte>)
    requires c < 0x800
    ensures DecodeOne(Utf8(c) + rest) == Some((c, |Utf8(c)|))
  {
  }

  lemma DecodeOneOfThree(c: CodePoint, rest: seq<Byte>)
    requires 0x800 <= c < 0x10000 && !IsSurrogate(c)
    ensures DecodeOne(Utf8(c) + rest) == Some((c, 3))
  {
    var b := Utf8(c) + rest;
    assert b[0] == 0xE0 + c / 4096 && b[1] == Tail(c / 64) && b[2] == Tail(c);
  }

  lemma JoinTail(high: nat)
    ensures Join(high / 64, Tail(high)) == high
  {
  }

  lemma FourBytes(c: CodePoint)
    requires 0x10000 <= c
    ensures c / 262144 < 5
    ensures c / 262144 == 0 ==> Tail(c / 4096) >= 0x90
    ensures c / 262144 == 4 ==> Tail(c / 4096) < 0x90
    ensures Join(Join(Join(c / 262144, Tail(c / 4096)), Tail(c / 64)), Tail(c)) == c
  {
    assert c / 64 / 64 == c / 4096 && c / 4096 / 64 == c / 262144;
    JoinTail(c / 4096);
    JoinTail(c / 64);
    JoinTail(c);
    hide Join;
  }

  lemma DecodeOneOfFour(c: CodePoint, rest: seq<Byte>)
    requires 0x10000 <= c
    ensures DecodeOne(Utf8(c) + rest) == Some((c, 4))
  {
    FourBytes(c);
    var b := Utf8(c) + rest;
    assert b[0] == 0xF0 + c / 262144 && b[1] == Tail(c / 4096) && b[2] == Tail(c / 64) && b[3] == Tail(c);
  }

  lemma DecodeOneOfEncoded(c: CodePoint, rest: seq<Byte>)
    requires !IsSurrogate(c)
    ensures DecodeOne(Utf8(c) + rest) == Some((c, |Utf8(c)|))
  {
    if c < 0x800 {
      DecodeOneOfShort(c, rest);
    } else if c < 0x10000 {
      DecodeOneOfThree(c, rest);
    } else {
      DecodeOneOfFour(c, rest);
    }
  }

  /** The decoder is strict: what it takes is the encoding of a scalar value, and of no other. */
  lemma DecodeOneIsEncoded(b: seq<Byte>)
    requires b != [] && DecodeOne(b).Some?
    ensures var (c, n) := DecodeOne(b).value;
      !(0xD800 <= c < 0xE000) && b[..n] == Utf8(c)
  {
    var (c, n) := DecodeOne(b).value;
    if n == 2 {
      assert c / 64 == b[0] - 0xC0 && c % 64 == b[1] - 0x80;
    } else if n == 3 {
      var high := Join(b[0] - 0xE0, b[1]);
      assert c / 64 == high && c % 64 == b[2] - 0x80 && high / 64 == b[0] - 0xE0 && high % 64 == b[1] - 0x80;
      assert c / 4096 == high / 64;
    } else if n == 4 {
      var top := Join(b[0] - 0xF0, b[1]);
      var high := Join(top, b[2]);
      assert c / 64 == high && c % 64 == b[3] - 0x80 && high / 64 == top && high % 64 == b[2] - 0x80;
      assert top / 64 == b[0] - 0xF0 && top % 64 == b[1] - 0x80;
      assert c / 4096 == high / 64 && c / 262144 == top / 64;
    }
  }

  /** A lone surrogate is sent as U+FFFD; every other code point as itself. */
  lemma ScalarInPlainTerms(c: CodePoint)
    ensures Scalar(c) == if 0xD800 <= c < 0xE000 then 0xFFFD else c
  {
  }

  function Scalars(content: seq<CodePoint>): (s: seq<CodePoint>)
    ensures |s| == |content|
    ensures s == content <==> WellFormed(content)
  {
    var s := seq(|content|, i requires 0 <= i < |content| => Scalar(content[i]));
    assert s == content <==> forall i | 0 <= i < |content| :: s[i] == content[i];
    s
  }

  lemma DecodeAllUnrolls(b: seq<Byte>)
    requires b != [] && DecodeAll(b).Some?
    ensures DecodeOne(b).Some?
    ensures var (c, n) := DecodeOne(b).value;
      DecodeAll(b[n..]).Some? && DecodeAll(b).value == [c] + DecodeAll(b[n..]).value
  {
    hide DecodeOne;
  }

  lemma EncodePrepended(c: CodePoint, rest: seq<CodePoint>)
    requires !IsSurrogate(c) && WellFormed(rest)
    ensures TextEncode([c] + rest) == Utf8(c) + TextEncode(rest) && WellFormed([c] + rest)
  {
    assert ([c] + rest)[1..] == rest;
    hide Utf8;
  }

  /** So is the decoder of whole texts: encoding what it takes gives the bytes back. */
  lemma {:induction false} DecodeAllIsEncoded(b: seq<Byte>)
    requires DecodeAll(b).Some?
    ensures TextEncode(DecodeAll(b).value) == b && WellFormed(DecodeAll(b).value)
    decreases |b|
  {
    if b != [] {
      DecodeOneIsEncoded(b);
      DecodeAllUnrolls(b);
      var (c, n) := DecodeOne(b).value;
      assert !IsSurrogate(c);
      assert b == b[..n] + b[n..];
      var rest := b[n..];
      hide DecodeOne, DecodeAll, Utf8, TextEncode, WellFormed, IsSurrogate;
      DecodeAllIsEncoded(rest);
      EncodePrepended(c, DecodeAll(rest).value);
    }
  }

  lemma {:induction false} DecodeAllOfEncoded(content: seq<CodePoint>)
    ensures DecodeAll(TextEncode(content)) == Some(Scalars(content))
  {
    if content != [] {
      var c := Scalar(content[0]);
      var rest := TextEncode(content[1..]);
      DecodeOneOfEncoded(c, rest);
      assert (Utf8(c) + rest)[|Utf8(c)|..] == rest;
      DecodeAllOfEncoded(content[1..]);
      assert Scalars(content) == [c] + Scalars(content[1..]);
    }
  }

  /** What a text looks like after one trip through the encoder and the decoder. */
  function Shown(content: seq<CodePoint>): seq<CodePoint> {
    var s := Scalars(content);
    if s != [] && s[0] == BYTE_ORDER_MARK then s[1..] else s
  }

  lemma MarkDecodes(b: seq<Byte>)
    requires [0xEF, 0xBB, 0xBF] <= b
    ensures DecodeOne(b) == Some((BYTE_ORDER_MARK, 3))
  {
    assert b[0] == 0xEF && b[1] == 0xBB && b[2] == 0xBF;
  }

  lemma StartsWithMark(c: CodePoint, rest: seq<Byte>)
    requires !IsSurrogate(c)
    ensures [0xEF, 0xBB, 0xBF] <= Utf8(c) + rest <==> c == BYTE_ORDER_MARK
    ensures c == BYTE_ORDER_MARK ==> (Utf8(c) + rest)[3..] == rest
  {
    if [0xEF, 0xBB, 0xBF] <= Utf8(c) + rest {
      MarkDecodes(Utf8(c) + rest);
      DecodeOneOfEncoded(c, rest);
    }
    assert Utf8(BYTE_ORDER_MARK) == [0xEF, 0xBB, 0xBF];
  }

  lemma EncodeFirst(content: seq<CodePoint>)
    ensures content == [] <==> TextEncode(content) == []
    ensures content != [] ==>
      && Scalars(content) == [Scalar(content[0])] + Scalars(content[1..])
      && TextEncode(content) == Utf8(Scalar(content[0])) + TextEncode(content[1..])
  {
  }

  lemma DecodeOfEncoded(content: seq<CodePoint>)
    ensures TextDecode(TextEncode(content)) == Some(Shown(content))
  {
    hide DecodeOne, DecodeAll, Utf8, TextEncode, Scalars;
    EncodeFirst(content);
    DecodeAllOfEncoded(content);
    if content != [] {
      StartsWithMark(Scalar(content[0]), TextEncode(content[1..]));
      DecodeAllOfEncoded(content[1..]);
    }
  }

  lemma ShownUnchanged(content: seq<CodePoint>)
    requires content != []
    ensures Shown(content) == content <==> WellFormed(content) && content[0] != BYTE_ORDER_MARK
  {
  }

  // ----- the envelope ---------------------------------------------------------

  datatype TextFormat = Plain | Source | Markdown

  /** seal and open take the key, the nonce, the additional data and the text. */
  datatype Aead = Aead(
    seal: (seq<Byte>, seq<Byte>, seq<Byte>, seq<Byte>) -> seq<Byte>,
    open: (seq<Byte>, seq<Byte>, seq<Byte>, seq<Byte>) -> Option<seq<Byte>>)

  ghost predicate IsAead(aead: Aead) {
    && (forall k, n, a, p :: aead.open(k, n, a, aead.seal(k, n, a, p)) == Some(p))
    && (forall k, n, a, p :: |aead.seal(k, n, a, p)| == |p| + 16)
  }

  const PROTOCOL := "UPASTE_AES_GCM_V1"
  const KEY_FRAGMENT_PREFIX := "#up_e1_"
  const MAX_CONTENT_BYTES := 1_048_576
  const MAX_CIPHERTEXT_BYTES := 1_048_594
  const MIN_CIPHERTEXT_BYTES := 19
  const NONCE_BYTES := 12
  const KEY_BYTES := 32

  const ADDITIONAL_DATA: seq<Byte> := TextEncode(CodePoints("uPaste:encrypted-text:v1"))

  function CodePoints(s: string): seq<CodePoint> {
    seq(|s|, i requires 0 <= i < |s| => s[i] as int)
  }

  datatype WirePayload = WirePayload(protocol: string, nonce: string, ciphertext: string)

  datatype Opened = Opened(format: TextFormat, content: seq<CodePoint>)

  datatype CryptoError =
    | UnsupportedProtocol | BadEncoding | BadFragment | NotAuthentic
    | BadEnvelope | BadFormat | BadContentLength | BadUtf8

  function FormatByte(format: TextFormat): Byte {
    match format
    case Plain => 1
    case Source => 2
    case Markdown => 3
  }

  function FormatOf(b: Byte): Option<TextFormat> {
    if b == 1 then Some(Plain) else if b == 2 then Some(Source) else if b == 3 then Some(Markdown) else None
  }

  function ParseKeyFragment(fragment: string): Result<seq<Byte>, CryptoError> {
    if !(KEY_FRAGMENT_PREFIX <= fragment) || |fragment| != |KEY_FRAGMENT_PREFIX| + 43 then Err(BadFragment)
    else
      match BrowserDecode(fragment[|KEY_FRAGMENT_PREFIX|..], KEY_BYTES, KEY_BYTES)
      case Err(_) => Err(BadFragment)
      case Ok(key) => Ok(key)
  }

  function NewFragment(key: seq<Byte>): string {
    KEY_FRAGMENT_PREFIX + Encode(key)
  }

  /** encrypt, with the random nonce as an argument. */
  function Encrypt(aead: Aead, key: seq<Byte>, format: TextFormat, content: seq<CodePoint>, nonce: seq<Byte>)
    : Result<WirePayload, CryptoError>
  {
    var contentBytes := TextEncode(content);
    if |contentBytes| < 1 || |contentBytes| > MAX_CONTENT_BYTES then Err(BadContentLength)
    else
      var envelope := [1, FormatByte(format)] + contentBytes;
      var ciphertext := aead.seal(key, nonce, ADDITIONAL_DATA, envelope);
      Ok(WirePayload(PROTOCOL, Encode(nonce), Encode(ciphertext)))
  }

  function EncryptWithFragment(
    aead: Aead, fragment: string, format: TextFormat, content: seq<CodePoint>, nonce: seq<Byte>)
    : Result<WirePayload, CryptoError>
  {
    match ParseKeyFragment(fragment)
    case Err(e) => Err(e)
    case Ok(key) => Encrypt(aead, key, format, content, nonce)
  }

  function OpenEnvelope(plaintext: seq<Byte>): Result<Opened, CryptoError> {
    if |plaintext| < 3 || |plaintext| > MAX_CONTENT_BYTES + 2 || plaintext[0] != 1 then Err(BadEnvelope)
    else
      match FormatOf(plaintext[1])
      case None => Err(BadFormat)
      case Some(format) =>
        var contentBytes := plaintext[2..];
        if |contentBytes| < 1 || |contentBytes| > MAX_CONTENT_BYTES then Err(BadContentLength)
        else
          match TextDecode(contentBytes)
          case None => Err(BadUtf8)
          case Some(content) => Ok(Opened(format, content))
  }

  function DecryptWithFragment(aead: Aead, fragment: string, payload: WirePayload): Result<Opened, CryptoError> {
    if payload.protocol != PROTOCOL then Err(UnsupportedProtocol)
    else
      match BrowserDecode(payload.nonce, NONCE_BYTES, NONCE_BYTES)
      case Err(_) => Err(BadEncoding)
      case Ok(nonce) =>
        match BrowserDecode(payload.ciphertext, MIN_CIPHERTEXT_BYTES, MAX_CIPHERTEXT_BYTES)
        case Err(_) => Err(BadEncoding)
        case Ok(ciphertext) =>
          match ParseKeyFragment(fragment)
          case Err(e) => Err(e)
          case Ok(key) =>
            match aead.open(key, nonce, ADDITIONAL_DATA, ciphertext)
            case None => Err(NotAuthentic)
            case Some(plaintext) => OpenEnvelope(plaintext)
  }

  // ----- the server's checks --------------------------------------------------

  datatype StoredCiphertext = StoredCiphertext(protocol: string, nonce: seq<Byte>, ciphertext: seq<Byte>)

  /** validateEncryptedText of internal/httpapi on a request with all three fields. */
  function ServerParse(payload: WirePayload): Result<StoredCiphertext, DecodeError> {
    if payload.protocol != PROTOCOL then Err(Invalid)
    else
      match GoDecodeBounded(payload.nonce, NONCE_BYTES, NONCE_BYTES)
      case Err(_) => Err(Invalid)
      case Ok(nonce) =>
        match GoDecodeBounded(payload.ciphertext, MIN_CIPHERTEXT_BYTES, MAX_CIPHERTEXT_BYTES)
        case Err(e) => Err(e)
        case Ok(ciphertext) => Ok(StoredCiphertext(payload.protocol, nonce, ciphertext))
  }

  /** validateEncryptedText of internal/share. */
  predicate ValidCiphertext(value: StoredCiphertext) {
    value.protocol == PROTOCOL && |value.nonce| == NONCE_BYTES
    && MIN_CIPHERTEXT_BYTES <= |value.ciphertext| <= MAX_CONTENT_BYTES + 2 + 16
  }

  // ----- properties -----------------------------------------------------------

  /** A fragment parses exactly when it is the prefix and the encoding of 32 bytes. */
  lemma FragmentNamesOneKey(fragment: string)
    ensures ParseKeyFragment(fragment).Ok? <==>
      exists key: seq<Byte> :: |key| == KEY_BYTES && NewFragment(key) == fragment
    ensures forall key: seq<Byte> :: |key| == KEY_BYTES && NewFragment(key) == fragment ==>
      ParseKeyFragment(fragment) == Ok(key)
  {
    hide Encode, Decoded, Canonical, BrowserDecode;
    forall key: seq<Byte> | |key| == KEY_BYTES && NewFragment(key) == fragment
      ensures ParseKeyFragment(fragment) == Ok(key)
    {
      assert fragment[|KEY_FRAGMENT_PREFIX|..] == Encode(key);
      EncodeDecodes(key);
      BrowserDecoderAccepts(Encode(key), KEY_BYTES, KEY_BYTES);
    }
    if ParseKeyFragment(fragment).Ok? {
      var text := fragment[|KEY_FRAGMENT_PREFIX|..];
      BrowserDecoderAccepts(text, KEY_BYTES, KEY_BYTES);
      DecodeEncodes(text);
      assert NewFragment(Decoded(text)) == fragment;
    }
  }

  lemma EncodedBytesDecode(bytes: seq<Byte>, minimum: nat, maximum: nat)
    requires 1 <= minimum <= |bytes| <= maximum
    ensures BrowserDecode(Encode(bytes), minimum, maximum) == Ok(bytes)
    ensures GoDecodeBounded(Encode(bytes), minimum, maximum) == Ok(bytes)
  {
    EncodeDecodes(bytes);
    assert |Encode(bytes)| >= 1;
    BrowserDecoderAccepts(Encode(bytes), minimum, maximum);
    GoDecoderAccepts(Encode(bytes), minimum, maximum);
  }

  lemma OpenEnvelopeOf(format: TextFormat, content: seq<CodePoint>)
    requires 1 <= |TextEncode(content)| <= MAX_CONTENT_BYTES
    ensures OpenEnvelope([1, FormatByte(format)] + TextEncode(content)) == Ok(Opened(format, Shown(content)))
  {
    var plaintext := [1, FormatByte(format)] + TextEncode(content);
    assert plaintext[2..] == TextEncode(content);
    DecodeOfEncoded(content);
  }

  /**
  For every format, every content of 1 byte to 1 MiB and every nonce, decrypting
  under the same fragment gives the format and the shown content; the content comes
  back unchanged exactly when it has no lone surrogate and no leading U+FEFF.
  */
  lemma EncryptDecrypt(aead: Aead, fragment: string, format: TextFormat, content: seq<CodePoint>, nonce: seq<Byte>)
    requires IsAead(aead) && |nonce| == NONCE_BYTES
    requires ParseKeyFragment(fragment).Ok?
    requires 1 <= |TextEncode(content)| <= MAX_CONTENT_BYTES
    ensures var sealed := EncryptWithFragment(aead, fragment, format, content, nonce);
      sealed.Ok?
      && DecryptWithFragment(aead, fragment, sealed.value) == Ok(Opened(format, Shown(content)))
      && (DecryptWithFragment(aead, fragment, sealed.value) == Ok(Opened(format, content))
          <==> WellFormed(content) && content[0] != BYTE_ORDER_MARK)
  {
    EncodeFirst(content);
    hide ParseKeyFragment, BrowserDecode, TextEncode, Encode, OpenEnvelope, Shown;
    var key := ParseKeyFragment(fragment).value;
    var envelope := [1, FormatByte(format)] + TextEncode(content);
    var ciphertext := aead.seal(key, nonce, ADDITIONAL_DATA, envelope);
    EncodedBytesDecode(nonce, NONCE_BYTES, NONCE_BYTES);
    EncodedBytesDecode(ciphertext, MIN_CIPHERTEXT_BYTES, MAX_CIPHERTEXT_BYTES);
    OpenEnvelopeOf(format, content);
    ShownUnchanged(content);
  }

  /**
  The sizes the server admits are the sizes the browser produces: a sealed text
  passes both server checks, with the nonce and ciphertext arriving unchanged, and
  encryption is refused exactly for content the server would have no room for.
  */
  lemma ServerAcceptsWhatTheBrowserSends(
    aead: Aead, key: seq<Byte>, format: TextFormat, content: seq<CodePoint>, nonce: seq<Byte>)
    requires IsAead(aead) && |nonce| == NONCE_BYTES
    ensures var ciphertext := aead.seal(key, nonce, ADDITIONAL_DATA, [1, FormatByte(format)] + TextEncode(content));
      var sealed := Encrypt(aead, key, format, content, nonce);
      && (sealed.Ok? <==> ValidCiphertext(StoredCiphertext(PROTOCOL, nonce, ciphertext)))
      && (sealed.Ok? ==> ServerParse(sealed.value) == Ok(StoredCiphertext(PROTOCOL, nonce, ciphertext)))
  {
    hide TextEncode, Encode, GoDecodeBounded;
    if Encrypt(aead, key, format, content, nonce).Ok? {
      var ciphertext := aead.seal(key, nonce, ADDITIONAL_DATA, [1, FormatByte(format)] + TextEncode(content));
      EncodedBytesDecode(nonce, NONCE_BYTES, NONCE_BYTES);
      EncodedBytesDecode(ciphertext, MIN_CIPHERTEXT_BYTES, MAX_CIPHERTEXT_BYTES);
    }
  }
}
