/** The wire format of encrypted text, byte for byte: what is produced, and exactly what is taken. */
module WireFormat {
  import opened Common
  import opened Base64Url
  import opened EncryptedText

  // ----- base64url --------------------------------------------------------------------

  /** The alphabet of RFC 4648 section 5: three ranges of characters, and two more. */
  lemma Alphabet()
    ensures UrlChar(0) == 'A' && UrlChar(25) == 'Z' && UrlChar(26) == 'a' && UrlChar(51) == 'z'
    ensures UrlChar(52) == '0' && UrlChar(61) == '9' && UrlChar(62) == '-' && UrlChar(63) == '_'
    ensures forall s: Sextet :: s < 61 && s != 25 && s != 51 ==> UrlChar(s + 1) as int == UrlChar(s) as int + 1
  {
  }

  /** A group of three bytes: four characters of six bits each, the highest bits first. */
  lemma EncodedGroup(a: Byte, b: Byte, c: Byte)
    ensures Encode([a, b, c]) ==
      [UrlChar(a / 4), UrlChar(a % 4 * 16 + b / 16), UrlChar(b % 16 * 4 + c / 64), UrlChar(c % 64)]
    ensures Encode([a, b]) == [UrlChar(a / 4), UrlChar(a % 4 * 16 + b / 16), UrlChar(b % 16 * 4)]
    ensures Encode([a]) == [UrlChar(a / 4), UrlChar(a % 4 * 16)]
    ensures Encode([]) == ""
  {
    assert [a, b, c][3..] == [];
  }

  // ----- what is produced ----------------------------------------------------------------

  function FormatCode(format: TextFormat): Byte {
    match format
    case Plain => 1
    case Source => 2
    case Markdown => 3
  }

  function AdditionalData(): seq<Byte> {
    TextEncode(CodePoints("uPaste:encrypted-text:v1"))
  }

  /** One byte of version, one of format, and the UTF-8 text, sealed and encoded. */
  lemma EncryptsTo(aead: Aead, key: seq<Byte>, format: TextFormat, content: seq<CodePoint>, nonce: seq<Byte>)
    ensures Encrypt(aead, key, format, content, nonce)
         == if 1 <= |TextEncode(content)| <= 1_048_576
            then Ok(WirePayload("UPASTE_AES_GCM_V1", Encode(nonce),
                      Encode(aead.seal(key, nonce, AdditionalData(), [1, FormatCode(format)] + TextEncode(content)))))
            else Err(BadContentLength)
  {
    hide Encode, TextEncode;
  }

  // ----- what is taken --------------------------------------------------------------------

  /** A payload of the protocol, with a nonce of 12 bytes and a ciphertext of 19 to 1 MiB and 18 bytes. */
  ghost predicate Carries(payload: WirePayload, nonce: seq<Byte>, ciphertext: seq<Byte>) {
    && |nonce| == 12 && 19 <= |ciphertext| <= 1_048_594
    && payload == WirePayload("UPASTE_AES_GCM_V1", Encode(nonce), Encode(ciphertext))
  }

  lemma CanonicalInPlainTerms(value: string, minimum: nat, maximum: nat)
    ensures AcceptedWithin(value, minimum, maximum) <==>
      exists bytes: seq<Byte> :: minimum <= |bytes| <= maximum && Encode(bytes) == value
    ensures forall bytes: seq<Byte> :: Encode(bytes) == value ==> Canonical(value) && Decoded(value) == bytes
  {
    CanonicalIffEncoding(value);
    if Canonical(value) {
      DecodeEncodes(value);
    }
    forall bytes: seq<Byte> | Encode(bytes) == value ensures Canonical(value) && Decoded(value) == bytes {
      EncodeDecodes(bytes);
    }
  }

  /** The two decoders, in terms of the bytes that a text encodes. */
  lemma DecodersInPlainTerms(value: string, minimum: nat, maximum: nat, bytes: seq<Byte>)
    requires minimum >= 1
    ensures BrowserDecode(value, minimum, maximum) == Ok(bytes) <==>
      minimum <= |bytes| <= maximum && value == Encode(bytes)
    ensures GoDecodeBounded(value, minimum, maximum) == Ok(bytes) <==>
      minimum <= |bytes| <= maximum && value == Encode(bytes)
  {
    CanonicalInPlainTerms(value, minimum, maximum);
    BrowserDecoderAccepts(value, minimum, maximum);
    GoDecoderAccepts(value, minimum, maximum);
    if value == Encode(bytes) && |bytes| >= 1 {
      assert |value| == EncodedLen(|bytes|) >= 1;
    }
    if Canonical(value) {
      DecodeEncodes(value);
    }
    hide BrowserDecode, GoDecodeBounded, Encode, Decoded, Canonical;
  }

  /** The server takes exactly such payloads, and stores the bytes they carry. */
  lemma ServerTakes(payload: WirePayload, value: StoredCiphertext)
    ensures ServerParse(payload) == Ok(value) <==>
      Carries(payload, value.nonce, value.ciphertext) && value.protocol == "UPASTE_AES_GCM_V1"
  {
    DecodersInPlainTerms(payload.nonce, 12, 12, value.nonce);
    DecodersInPlainTerms(payload.ciphertext, 19, 1_048_594, value.ciphertext);
    hide GoDecodeBounded, Encode;
  }

  /** The plaintext is version 1, the code of the format, and the UTF-8 of the content. */
  ghost predicate Envelope(plaintext: seq<Byte>, shown: Opened) {
    && 3 <= |plaintext| <= 1_048_578 && plaintext[0] == 1 && plaintext[1] == FormatCode(shown.format)
    && TextDecode(plaintext[2..]) == Some(shown.content)
  }

  lemma EnvelopesInPlainTerms(plaintext: seq<Byte>, shown: Opened)
    ensures OpenEnvelope(plaintext) == Ok(shown) <==> Envelope(plaintext, shown)
    ensures |plaintext| < 3 || |plaintext| > 1_048_578 || plaintext[0] != 1 ==>
      OpenEnvelope(plaintext) == Err(BadEnvelope)
  {
    hide TextDecode;
  }

  ghost predicate DecryptsTo(
    aead: Aead, fragment: string, payload: WirePayload, shown: Opened,
    key: seq<Byte>, nonce: seq<Byte>, ciphertext: seq<Byte>)
  {
    && |key| == 32 && fragment == "#up_e1_" + Encode(key)
    && Carries(payload, nonce, ciphertext)
    && aead.open(key, nonce, AdditionalData(), ciphertext).Some?
    && Envelope(aead.open(key, nonce, AdditionalData(), ciphertext).value, shown)
  }

  lemma FragmentsInPlainTerms(fragment: string, key: seq<Byte>)
    ensures ParseKeyFragment(fragment) == Ok(key) <==> |key| == 32 && fragment == "#up_e1_" + Encode(key)
  {
    FragmentNamesOneKey(fragment);
    assert NewFragment(key) == "#up_e1_" + Encode(key);
    if ParseKeyFragment(fragment) == Ok(key) {
      var other: seq<Byte> :| |other| == KEY_BYTES && NewFragment(other) == fragment;
    }
    hide ParseKeyFragment, Encode;
  }

  /** The browser opens exactly the payloads that carry a sealed envelope for the key of the fragment. */
  lemma BrowserOpens(aead: Aead, fragment: string, payload: WirePayload, shown: Opened)
    ensures DecryptWithFragment(aead, fragment, payload) == Ok(shown) <==>
      exists key, nonce, ciphertext :: DecryptsTo(aead, fragment, payload, shown, key, nonce, ciphertext)
  {
    hide BrowserDecode, ParseKeyFragment, OpenEnvelope, Envelope, Encode, AdditionalData;
    if DecryptWithFragment(aead, fragment, payload) == Ok(shown) {
      var nonce := BrowserDecode(payload.nonce, 12, 12).value;
      var ciphertext := BrowserDecode(payload.ciphertext, 19, 1_048_594).value;
      var key := ParseKeyFragment(fragment).value;
      OneDecryption(aead, fragment, payload, shown, key, nonce, ciphertext);
      assert DecryptsTo(aead, fragment, payload, shown, key, nonce, ciphertext);
    }
    forall key, nonce, ciphertext | DecryptsTo(aead, fragment, payload, shown, key, nonce, ciphertext)
      ensures DecryptWithFragment(aead, fragment, payload) == Ok(shown)
    {
      OneDecryption(aead, fragment, payload, shown, key, nonce, ciphertext);
    }
  }

  lemma OneDecryption(
    aead: Aead, fragment: string, payload: WirePayload, shown: Opened,
    key: seq<Byte>, nonce: seq<Byte>, ciphertext: seq<Byte>)
    ensures DecryptsTo(aead, fragment, payload, shown, key, nonce, ciphertext) <==>
      && payload.protocol == PROTOCOL
      && BrowserDecode(payload.nonce, 12, 12) == Ok(nonce)
      && BrowserDecode(payload.ciphertext, 19, 1_048_594) == Ok(ciphertext)
      && ParseKeyFragment(fragment) == Ok(key)
      && aead.open(key, nonce, ADDITIONAL_DATA, ciphertext).Some?
      && OpenEnvelope(aead.open(key, nonce, ADDITIONAL_DATA, ciphertext).value) == Ok(shown)
  {
    assert ADDITIONAL_DATA == AdditionalData();
    FragmentsInPlainTerms(fragment, key);
    DecodersInPlainTerms(payload.nonce, 12, 12, nonce);
    DecodersInPlainTerms(payload.ciphertext, 19, 1_048_594, ciphertext);
    if aead.open(key, nonce, ADDITIONAL_DATA, ciphertext).Some? {
      EnvelopesInPlainTerms(aead.open(key, nonce, ADDITIONAL_DATA, ciphertext).value, shown);
    }
    hide BrowserDecode, ParseKeyFragment, OpenEnvelope, Envelope, Encode, AdditionalData, TextEncode;
  }

  /** So another protocol, a nonce or ciphertext of another size or encoding, and another version are refused. */
  lemma Refusals(aead: Aead, fragment: string, payload: WirePayload)
    ensures payload.protocol != "UPASTE_AES_GCM_V1" ==>
      DecryptWithFragment(aead, fragment, payload) == Err(UnsupportedProtocol) && ServerParse(payload).Err?
    ensures !(exists nonce, ciphertext :: Carries(payload, nonce, ciphertext)) ==>
      DecryptWithFragment(aead, fragment, payload).Err? && ServerParse(payload).Err?
    ensures forall key, nonce, ciphertext ::
      && |key| == 32 && fragment == "#up_e1_" + Encode(key) && Carries(payload, nonce, ciphertext)
      && aead.open(key, nonce, AdditionalData(), ciphertext).Some?
      && aead.open(key, nonce, AdditionalData(), ciphertext).value != []
      && aead.open(key, nonce, AdditionalData(), ciphertext).value[0] != 1 ==>
        DecryptWithFragment(aead, fragment, payload) == Err(BadEnvelope)
  {
    hide BrowserDecode, ParseKeyFragment, OpenEnvelope, Envelope, Encode, AdditionalData, TextEncode, GoDecodeBounded;
    if DecryptWithFragment(aead, fragment, payload).Ok? {
      BrowserOpens(aead, fragment, payload, DecryptWithFragment(aead, fragment, payload).value);
    }
    if ServerParse(payload).Ok? {
      ServerTakes(payload, ServerParse(payload).value);
    }
    forall key, nonce, ciphertext |
      && |key| == 32 && fragment == "#up_e1_" + Encode(key) && Carries(payload, nonce, ciphertext)
      && aead.open(key, nonce, AdditionalData(), ciphertext).Some?
      && aead.open(key, nonce, AdditionalData(), ciphertext).value != []
      && aead.open(key, nonce, AdditionalData(), ciphertext).value[0] != 1
      ensures DecryptWithFragment(aead, fragment, payload) == Err(BadEnvelope)
    {
      AnotherVersion(aead, fragment, payload, key, nonce, ciphertext);
    }
  }

  lemma AnotherVersion(
    aead: Aead, fragment: string, payload: WirePayload, key: seq<Byte>, nonce: seq<Byte>, ciphertext: seq<Byte>)
    requires |key| == 32 && fragment == "#up_e1_" + Encode(key) && Carries(payload, nonce, ciphertext)
    requires aead.open(key, nonce, AdditionalData(), ciphertext).Some?
    requires aead.open(key, nonce, AdditionalData(), ciphertext).value != []
    requires aead.open(key, nonce, AdditionalData(), ciphertext).value[0] != 1
    ensures DecryptWithFragment(aead, fragment, payload) == Err(BadEnvelope)
  {
    assert ADDITIONAL_DATA == AdditionalData();
    FragmentsInPlainTerms(fragment, key);
    DecodersInPlainTerms(payload.nonce, 12, 12, nonce);
    DecodersInPlainTerms(payload.ciphertext, 19, 1_048_594, ciphertext);
    hide BrowserDecode, ParseKeyFragment, Encode, AdditionalData, TextEncode, TextDecode;
  }
}
