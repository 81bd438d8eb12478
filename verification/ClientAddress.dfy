/**
Who a request comes from: the peer, or, behind trusted proxies, an entry of the
X-Forwarded-For chain. Reading an address from its text is a parameter.
*/
module ClientAddress {
  import opened Common

  const TWO_32 := 0x1_0000_0000
  const TWO_64 := 0x1_0000_0000_0000_0000

  type Word32 = w: int | 0 <= w < TWO_32
  type Word64 = w: int | 0 <= w < TWO_64

  datatype Addr = V4(bits: Word32) | V6(hi: Word64, lo: Word64, zone: string) | NoAddr

  datatype Prefix = Prefix(addr: Addr, length: nat)

  /** What requests are counted under: an IPv4 address, an IPv6 network of 64 bits, or "invalid". */
  datatype RateKey = InvalidKey | AddressKey(bits: Word32) | NetworkKey(hi: Word64)

  // ----- addresses ------------------------------------------------------------------

  predicate Is4In6(a: Addr) {
    a.V6? && a.hi == 0 && a.lo / TWO_32 == 0xffff
  }

  function Unmap(a: Addr): (r: Addr)
    ensures !Is4In6(r)
  {
    if Is4In6(a) then V4(a.lo % TWO_32) else a
  }

  function Pow2(n: nat): (p: nat)
    ensures p > 0
  {
    if n == 0 then 1 else 2 * Pow2(n - 1)
  }

  predicate Contains(p: Prefix, a: Addr) {
    match (p.addr, a)
    case (V4(net), V4(bits)) =>
      p.length <= 32 && net / Pow2(32 - p.length) == bits / Pow2(32 - p.length)
    case (V6(hi, lo, _), V6(hi', lo', zone)) =>
      zone == "" && p.length <= 128 &&
      if p.length <= 64 then hi / Pow2(64 - p.length) == hi' / Pow2(64 - p.length)
      else hi == hi' && lo / Pow2(128 - p.length) == lo' / Pow2(128 - p.length)
    case _ => false
  }

  function KeyOf(a: Addr): RateKey {
    match Unmap(a)
    case NoAddr => InvalidKey
    case V4(bits) => AddressKey(bits)
    case V6(hi, _, _) => NetworkKey(hi)
  }

  /** The mapped form ::ffff:a.b.c.d of IPv6 becomes the IPv4 address; everything else stays. */
  lemma UnmapInPlainTerms(a: Addr)
    ensures forall bits: Word32 :: Maps(a, bits) ==> Unmap(a) == V4(bits)
    ensures (forall bits: Word32 :: !Maps(a, bits)) ==> Unmap(a) == a
  {
    if Is4In6(a) {
      var bits: Word32 := a.lo % TWO_32;
      assert Maps(a, bits);
    }
  }

  predicate Maps(a: Addr, bits: Word32) {
    a.V6? && a.hi == 0 && a.lo == 0xffff * 0x1_0000_0000 + bits
  }

  lemma NextMultiple(a: int, b: int, size: int)
    requires a > b && size > 0
    ensures a * size >= b * size + size
  {
    assert a * size == (a - b - 1) * size + (b * size + size);
    assert (a - b - 1) * size >= 0;
  }

  lemma Quotient(n: int, q: int, size: int, rest: int)
    requires size > 0 && n == q * size + rest && 0 <= rest < size
    ensures n / size == q
  {
    var d := n / size;
    assert n == d * size + n % size;
    if d > q {
      NextMultiple(d, q, size);
    } else if d < q {
      NextMultiple(q, d, size);
    }
  }

  lemma SameQuotient(a: int, b: int, size: nat)
    requires size > 0
    ensures a / size == b / size <==> a / size * size <= b < a / size * size + size
  {
    var q := a / size;
    assert b == b / size * size + b % size;
    if q * size <= b < q * size + size {
      Quotient(b, q, size, b - q * size);
    }
  }

  lemma {:induction false} PowersAdd(m: nat, n: nat)
    ensures Pow2(m + n) == Pow2(m) * Pow2(n)
  {
    if m > 0 {
      PowersAdd(m - 1, n);
    }
  }

  lemma Pow16()
    ensures Pow2(16) == 0x1_0000
  {
    assert Pow2(1) == 2 && Pow2(2) == 4 && Pow2(3) == 8 && Pow2(4) == 16;
    hide Pow2;
    PowersAdd(4, 4);
    PowersAdd(8, 8);
  }

  lemma Pow64()
    ensures Pow2(64) == 0x1_0000_0000_0000_0000 && Pow2(32) == 0x1_0000_0000
  {
    hide Pow2;
    Pow16();
    PowersAdd(16, 16);
    PowersAdd(32, 32);
  }

  /** An IPv4 prefix of length n contains the interval of 2 ^ (32 - n) addresses around its own. */
  lemma ContainsV4(net: Word32, length: nat, bits: Word32)
    ensures Contains(Prefix(V4(net), length), V4(bits)) <==>
      length <= 32 &&
      var size := Pow2(32 - length);
      net / size * size <= bits < net / size * size + size
  {
    if length <= 32 {
      SameQuotient(net, bits, Pow2(32 - length));
    }
  }

  /** The 128 bits of an IPv6 address as a number. */
  function Number(hi: Word64, lo: Word64): nat {
    hi * 0x1_0000_0000_0000_0000 + lo
  }

  lemma HighBits(hi: Word64, lo: Word64, hi': Word64, lo': Word64, n: nat)
    requires n <= 64
    ensures hi / Pow2(n) == hi' / Pow2(n) <==>
      Number(hi, lo) / Pow2(n + 64) == Number(hi', lo') / Pow2(n + 64)
  {
    PowersAdd(n, 64);
    Pow64();
    HighPart(hi, lo, Pow2(n));
    HighPart(hi', lo', Pow2(n));
  }

  lemma HighPart(hi: Word64, lo: Word64, size: nat)
    requires size > 0
    ensures 0 < size * 0x1_0000_0000_0000_0000
    ensures Number(hi, lo) / (size * 0x1_0000_0000_0000_0000) == hi / size
  {
    var q, r := hi / size, hi % size;
    var whole := size * 0x1_0000_0000_0000_0000;
    assert hi == q * size + r;
    assert Number(hi, lo) == q * whole + (r * 0x1_0000_0000_0000_0000 + lo);
    assert 0 <= r * 0x1_0000_0000_0000_0000 + lo < whole;
    Quotient(Number(hi, lo), q, whole, r * 0x1_0000_0000_0000_0000 + lo);
  }

  lemma LowBits(hi: Word64, lo: Word64, hi': Word64, lo': Word64, n: nat)
    requires n <= 64
    ensures hi == hi' && lo / Pow2(n) == lo' / Pow2(n) <==>
      Number(hi, lo) / Pow2(n) == Number(hi', lo') / Pow2(n)
  {
    PowersAdd(n, 64 - n);
    Pow64();
    LowPart(hi, lo, Pow2(n), Pow2(64 - n));
    LowPart(hi', lo', Pow2(n), Pow2(64 - n));
    if Number(hi, lo) / Pow2(n) == Number(hi', lo') / Pow2(n) {
      TwoDigits(hi, lo / Pow2(n), hi', lo' / Pow2(n), Pow2(64 - n));
    }
  }

  lemma LowPart(hi: Word64, lo: Word64, size: nat, many: nat)
    requires size > 0 && many > 0 && size * many == 0x1_0000_0000_0000_0000
    ensures Number(hi, lo) / size == hi * many + lo / size && 0 <= lo / size < many
  {
    var q, r := lo / size, lo % size;
    assert lo == q * size + r;
    assert hi * 0x1_0000_0000_0000_0000 == hi * many * size;
    assert Number(hi, lo) == (hi * many + q) * size + r;
    Quotient(Number(hi, lo), hi * many + q, size, r);
    assert (many - 1) * size == many * size - size;
    if q > many - 1 {
      NextMultiple(q, many - 1, size);
    }
  }

  lemma TwoDigits(a: int, b: int, c: int, d: int, base: int)
    requires 0 <= b < base && 0 <= d < base && a * base + b == c * base + d
    ensures a == c && b == d
  {
    Quotient(a * base + b, a, base, b);
    Quotient(c * base + d, c, base, d);
  }

  /** An IPv6 prefix of length n contains the interval of 2 ^ (128 - n) numbers around its own, without a zone. */
  lemma ContainsV6(hi: Word64, lo: Word64, zone: string, length: nat, hi': Word64, lo': Word64, zone': string)
    ensures Contains(Prefix(V6(hi, lo, zone), length), V6(hi', lo', zone')) <==>
      zone' == "" && length <= 128 &&
      var size := Pow2(128 - length);
      Number(hi, lo) / size * size <= Number(hi', lo') < Number(hi, lo) / size * size + size
  {
    if length <= 128 {
      SameQuotient(Number(hi, lo), Number(hi', lo'), Pow2(128 - length));
      if length <= 64 {
        HighBits(hi, lo, hi', lo', 64 - length);
      } else {
        LowBits(hi, lo, hi', lo', 128 - length);
      }
    }
    hide Pow2, Number;
  }

  /** A prefix contains no address of the other family, and no address that is not one. */
  lemma ContainsNoOther(p: Prefix, a: Addr)
    ensures Contains(p, a) ==> (p.addr.V4? && a.V4?) || (p.addr.V6? && a.V6?)
  {
  }

  /** An IPv4 client is one key in either notation; an IPv6 client is one key with its whole /64. */
  lemma KeysCoincide(a: Addr, b: Addr)
    ensures KeyOf(a) == KeyOf(b) <==>
      || Unmap(a) == Unmap(b)
      || (Unmap(a).V6? && Unmap(b).V6? && Contains(Prefix(Unmap(a), 64), Unmap(b).(zone := "")))
  {
    assert Pow2(0) == 1;
  }

  ghost predicate Trusted(a: Addr, prefixes: seq<Prefix>) {
    exists i :: 0 <= i < |prefixes| && Contains(prefixes[i], a)
  }

  method IsTrusted(a: Addr, prefixes: seq<Prefix>) returns (trusted: bool)
    ensures trusted <==> Trusted(a, prefixes)
  {
    for i := 0 to |prefixes|
      invariant forall j :: 0 <= j < i ==> !Contains(prefixes[j], a)
    {
      if Contains(prefixes[i], a) {
        return true;
      }
    }
    trusted := false;
  }

  // ----- the chain ------------------------------------------------------------------

  type Parser = string -> Option<Addr>

  /** strings.Split(s, ","): one part more than there are commas. */
  function Split(s: string): (parts: seq<string>)
    ensures parts != []
  {
    if s == "" then [""]
    else
      var rest := Split(s[1..]);
      if s[0] == ',' then [""] + rest else [[s[0]] + rest[0]] + rest[1..]
  }

  /** A part has no comma, and a text without a comma is its only part. */
  lemma {:induction false} PartsInPlainTerms(s: string)
    ensures forall i :: 0 <= i < |Split(s)| ==> ',' !in Split(s)[i]
    ensures ',' !in s ==> Split(s) == [s]
  {
    if s != "" {
      PartsInPlainTerms(s[1..]);
      assert [s[0]] + s[1..] == s;
    }
  }

  lemma {:induction false} SplitJoined(a: string, b: string)
    ensures Split(a + "," + b) == Split(a) + Split(b)
  {
    if a == "" {
      assert (a + "," + b)[1..] == b;
    } else {
      assert (a + "," + b)[1..] == a[1..] + "," + b;
      SplitJoined(a[1..], b);
    }
  }

  predicate AllParse(parts: seq<string>, parse: Parser) {
    forall i :: 0 <= i < |parts| ==> parse(parts[i]).Some?
  }

  function Chain(parts: seq<string>, parse: Parser): seq<Addr>
    requires AllParse(parts, parse)
  {
    seq(|parts|, i requires 0 <= i < |parts| => Unmap(parse(parts[i]).value))
  }

  ghost function RightmostUntrusted(chain: seq<Addr>, prefixes: seq<Prefix>): Option<Addr>
    decreases |chain|
  {
    if chain == [] then None
    else if !Trusted(chain[|chain| - 1], prefixes) then Some(chain[|chain| - 1])
    else RightmostUntrusted(chain[..|chain| - 1], prefixes)
  }

  lemma {:induction false} RightmostIsLast(chain: seq<Addr>, prefixes: seq<Prefix>)
    ensures match RightmostUntrusted(chain, prefixes)
      case None => forall i :: 0 <= i < |chain| ==> Trusted(chain[i], prefixes)
      case Some(a) => exists i :: 0 <= i < |chain| && chain[i] == a && !Trusted(a, prefixes)
                        && forall j :: i < j < |chain| ==> Trusted(chain[j], prefixes)
    decreases |chain|
  {
    hide Trusted;
    if chain != [] {
      RightmostIsLast(chain[..|chain| - 1], prefixes);
    }
  }

  /** Who the request comes from, given what the peer's text and the header say. */
  ghost function Resolved(peerText: Option<Addr>, header: string, prefixes: seq<Prefix>, parse: Parser): Addr {
    if peerText.None? then NoAddr
    else
      var peer := Unmap(peerText.value);
      if !Trusted(peer, prefixes) || !AllParse(Split(header), parse) then peer
      else
        match RightmostUntrusted(Chain(Split(header), parse), prefixes)
        case None => peer
        case Some(a) => a
  }

  method ClientIP(peerText: Option<Addr>, header: string, prefixes: seq<Prefix>, parse: Parser) returns (r: Addr)
    ensures r == Resolved(peerText, header, prefixes, parse)
  {
    hide Trusted, Split, Unmap;
    if peerText.None? {
      return NoAddr;
    }
    var peer := Unmap(peerText.value);
    var trusted := IsTrusted(peer, prefixes);
    if !trusted {
      return peer;
    }
    var chain: seq<Addr> := [];
    var parts := Split(header);
    for i := 0 to |parts|
      invariant AllParse(parts[..i], parse) && chain == Chain(parts[..i], parse)
    {
      var address := parse(parts[i]);
      assert parts[..i + 1] == parts[..i] + [parts[i]];
      if address.None? {
        return peer;
      }
      chain := chain + [Unmap(address.value)];
    }
    assert parts[..|parts|] == parts;
    var index := |chain|;
    assert chain[..|chain|] == chain;
    while index > 0
      invariant 0 <= index <= |chain|
      invariant RightmostUntrusted(chain, prefixes) == RightmostUntrusted(chain[..index], prefixes)
    {
      index := index - 1;
      assert chain[..index + 1][..index] == chain[..index];
      trusted := IsTrusted(chain[index], prefixes);
      if !trusted {
        return chain[index];
      }
    }
    r := peer;
  }

  /** The three cases of the resolution, for every peer, header and set of trusted prefixes. */
  lemma Resolution(peer: Addr, header: string, prefixes: seq<Prefix>, parse: Parser)
    ensures var r := Resolved(Some(peer), header, prefixes, parse);
      var parts := Split(header);
      && (!Trusted(Unmap(peer), prefixes) ==> r == Unmap(peer))
      && (!AllParse(parts, parse) ==> r == Unmap(peer))
      && (Trusted(Unmap(peer), prefixes) && AllParse(parts, parse) ==>
            var chain := Chain(parts, parse);
            || (r == Unmap(peer) && forall i :: 0 <= i < |chain| ==> Trusted(chain[i], prefixes))
            || (exists i :: 0 <= i < |chain| && chain[i] == r && !Trusted(r, prefixes)
                  && forall j :: i < j < |chain| ==> Trusted(chain[j], prefixes)))
  {
    hide Trusted, Split, Unmap;
    if AllParse(Split(header), parse) {
      RightmostIsLast(Chain(Split(header), parse), prefixes);
    }
  }

  lemma {:induction false} RightmostOfJoined(a: seq<Addr>, b: seq<Addr>, prefixes: seq<Prefix>)
    ensures RightmostUntrusted(a + b, prefixes)
         == if RightmostUntrusted(b, prefixes).Some? then RightmostUntrusted(b, prefixes)
            else RightmostUntrusted(a, prefixes)
    decreases |b|
  {
    hide Trusted;
    if b == [] {
      assert a + b == a;
    } else {
      assert (a + b)[..|a + b| - 1] == a + b[..|b| - 1];
      RightmostOfJoined(a, b[..|b| - 1], prefixes);
    }
  }

  /**
  A client that puts parsable entries in front of the header cannot change an answer
  that the chain gave. When every entry of the chain is trusted, what it puts there
  does decide: the answer is its own rightmost untrusted entry.
  */
  lemma PrependedEntries(peer: Addr, front: string, header: string, prefixes: seq<Prefix>, parse: Parser)
    requires Trusted(Unmap(peer), prefixes)
    requires AllParse(Split(header), parse) && AllParse(Split(front), parse)
    ensures var before := Resolved(Some(peer), header, prefixes, parse);
      var after := Resolved(Some(peer), front + "," + header, prefixes, parse);
      if RightmostUntrusted(Chain(Split(header), parse), prefixes).Some? then after == before
      else before == Unmap(peer) && after == Resolved(Some(peer), front, prefixes, parse)
  {
    hide Trusted, Split, Unmap;
    SplitJoined(front, header);
    assert Chain(Split(front + "," + header), parse) == Chain(Split(front), parse) + Chain(Split(header), parse);
    RightmostOfJoined(Chain(Split(front), parse), Chain(Split(header), parse), prefixes);
  }
}
