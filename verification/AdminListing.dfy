/** The keyset-paginated admin listing and its opaque cursor. */
module AdminListing {
  import opened Common
  import opened Base64Url
  import opened Ordering
  import opened Shares

  // ----- the cursor: decimal time, a bar, a share identifier, in base64url --------

  const INT64_MIN := -0x8000_0000_0000_0000
  const INT64_MAX := 0x7FFF_FFFF_FFFF_FFFF

  function Digit(d: nat): char
    requires d < 10
  {
    ('0' as int + d) as char
  }

  function Digits(n: nat): (s: string)
    ensures s != ""
  {
    if n < 10 then [Digit(n)] else Digits(n / 10) + [Digit(n % 10)]
  }

  function FormatInt(n: int): string {
    if n < 0 then "-" + Digits(-n) else Digits(n)
  }

  function ParseDigits(s: string): Option<nat> {
    if s == "" then None
    else
      var c := s[|s| - 1];
      if !('0' <= c <= '9') then None
      else
        var d := c as int - '0' as int;
        if |s| == 1 then Some(d)
        else
          match ParseDigits(s[..|s| - 1])
          case None => None
          case Some(n) => Some(n * 10 + d)
  }

  /** strconv.ParseInt(s, 10, 64). */
  function ParseInt(s: string): Option<int> {
    var negative := s != "" && s[0] == '-';
    var digits := if s != "" && (s[0] == '-' || s[0] == '+') then s[1..] else s;
    match ParseDigits(digits)
    case None => None
    case Some(n) =>
      var magnitude: int := n;
      var value := if negative then -magnitude else magnitude;
      if INT64_MIN <= value <= INT64_MAX then Some(value) else None
  }

  lemma {:induction false} DigitsParse(n: nat)
    ensures ParseDigits(Digits(n)) == Some(n)
    ensures forall i :: 0 <= i < |Digits(n)| ==> '0' <= Digits(n)[i] <= '9'
  {
    if n >= 10 {
      DigitsParse(n / 10);
      assert Digits(n)[..|Digits(n)| - 1] == Digits(n / 10);
    }
  }

  lemma SignedDigitsParse(n: int)
    requires 0 <= n <= INT64_MAX + 1
    ensures ParseInt("-" + Digits(n)) == Some(-n)
    ensures n <= INT64_MAX ==> ParseInt(Digits(n)) == Some(n)
  {
    DigitsParse(n);
    hide Digits, ParseDigits;
    assert ("-" + Digits(n))[1..] == Digits(n);
    assert '0' <= Digits(n)[0] <= '9';
  }

  lemma FormatParses(n: int)
    requires INT64_MIN <= n <= INT64_MAX
    ensures ParseInt(FormatInt(n)) == Some(n)
    ensures '|' !in FormatInt(n) && IsBinary(FormatInt(n))
  {
    hide Digits, ParseInt;
    DigitsParse(if n < 0 then -n else n);
    SignedDigitsParse(if n < 0 then -n else n);
  }

  /** The position of the first bar, or the length. */
  function FindBar(s: string): (i: nat)
    ensures i <= |s|
    ensures forall j :: 0 <= j < i ==> s[j] != '|'
    ensures i < |s| ==> s[i] == '|'
  {
    if s == "" || s[0] == '|' then 0 else 1 + FindBar(s[1..])
  }

  function EncodeCursor(p: Position): string
    requires IsBinary(p.id)
  {
    Encode(CharCodes(CursorText(p)))
  }

  function CursorText(p: Position): (s: string)
    requires IsBinary(p.id)
    ensures IsBinary(s)
  {
    FormatIsBinary(p.createdAt);
    FormatInt(p.createdAt) + "|" + p.id
  }

  lemma FormatIsBinary(n: int)
    ensures IsBinary(FormatInt(n))
  {
    DigitsParse(if n < 0 then -n else n);
  }

  /** The empty cursor is no position; anything else must decode, split at its first bar and parse. */
  function DecodeCursor(cursor: string): Option<Option<Position>> {
    if cursor == "" then Some(None)
    else
      match GoDecodeString(cursor)
      case None => None
      case Some(bytes) =>
        var text := BinaryString(bytes);
        var bar := FindBar(text);
        if bar == |text| then None
        else
          match ParseInt(text[..bar])
          case None => None
          case Some(createdAt) =>
            if !ValidShareId(text[bar + 1..]) then None
            else Some(Some(Position(createdAt, text[bar + 1..])))
  }

  lemma ValidIdIsBinary(id: string)
    requires ValidShareId(id)
    ensures IsBinary(id)
  {
    hide GoDecodeString, Encode;
    GoValidateAccepts(id, 16);
    forall i | 0 <= i < |id| ensures id[i] as int < 256 {
      assert id[i] in id;
    }
  }

  predicate SafePosition(p: Position) {
    INT64_MIN <= p.createdAt <= INT64_MAX && ValidShareId(p.id)
  }

  lemma SplitsAtFirstBar(front: string, back: string)
    requires '|' !in front
    ensures FindBar(front + "|" + back) == |front|
  {
    var text := front + "|" + back;
    assert text[|front|] == '|';
    assert forall j :: 0 <= j < |front| ==> front[j] in front && text[j] == front[j];
  }

  /** What parses is digits after at most one sign, and fits in 64 bits. */
  lemma ParsedInPlainTerms(s: string)
    requires ParseInt(s).Some?
    ensures -0x8000_0000_0000_0000 <= ParseInt(s).value <= 0x7FFF_FFFF_FFFF_FFFF
    ensures var digits := if s != "" && s[0] in "+-" then s[1..] else s;
      digits != "" && forall i :: 0 <= i < |digits| ==> '0' <= digits[i] <= '9'
  {
    AllDigits(if s != "" && (s[0] == '-' || s[0] == '+') then s[1..] else s);
    hide ParseDigits;
  }

  lemma {:induction false} AllDigits(s: string)
    requires ParseDigits(s).Some?
    ensures s != "" && forall i :: 0 <= i < |s| ==> '0' <= s[i] <= '9'
    decreases |s|
  {
    if |s| > 1 {
      AllDigits(s[..|s| - 1]);
    }
  }

  /** The text of a cursor: a number, a bar, and an identifier, which encodes 16 bytes. */
  ghost predicate Spells(text: string, number: string, p: Position) {
    && '|' !in number && text == number + "|" + p.id && ParseInt(number) == Some(p.createdAt)
    && exists bytes: seq<Byte> :: |bytes| == 16 && Encode(bytes) == p.id
  }

  lemma IdsInPlainTerms(id: string)
    ensures ValidShareId(id) <==> exists bytes: seq<Byte> :: |bytes| == 16 && Encode(bytes) == id
  {
    assert EncodedLen(16) == 22;
    GoValidateAccepts(id, 16);
    hide GoValidate, Encode;
  }

  lemma SpelledCursor(cursor: string, p: Position, number: string)
    requires cursor != "" && GoDecodeString(cursor).Some?
    requires Spells(BinaryString(GoDecodeString(cursor).value), number, p)
    ensures DecodeCursor(cursor) == Some(Some(p))
  {
    IdsInPlainTerms(p.id);
    var text := BinaryString(GoDecodeString(cursor).value);
    hide GoDecodeString, ParseInt, Encode, ValidShareId, BinaryString;
    SplitsAtFirstBar(number, p.id);
    assert text[..|number|] == number && text[|number| + 1..] == p.id;
  }

  lemma DecodedCursor(cursor: string, p: Position) returns (number: string)
    requires DecodeCursor(cursor) == Some(Some(p))
    ensures cursor != "" && GoDecodeString(cursor).Some?
    ensures Spells(BinaryString(GoDecodeString(cursor).value), number, p)
  {
    IdsInPlainTerms(p.id);
    var text := BinaryString(GoDecodeString(cursor).value);
    hide GoDecodeString, ParseInt, Encode, ValidShareId, BinaryString;
    hide FindBar;
    number := text[..FindBar(text)];
    BarSplits(text);
  }

  lemma BarSplits(text: string)
    requires FindBar(text) < |text|
    ensures '|' !in text[..FindBar(text)]
    ensures text == text[..FindBar(text)] + "|" + text[FindBar(text) + 1..]
  {
    var bar := FindBar(text);
    assert text[bar] == '|';
    hide FindBar;
    SplitAt(text, bar);
  }

  lemma SplitAt(text: string, n: nat)
    requires n < |text|
    ensures text == text[..n] + [text[n]] + text[n + 1..]
  {
  }

  /** A cursor is taken exactly when it is empty, or decodes to such a text. */
  lemma CursorsInPlainTerms(cursor: string, p: Position)
    ensures DecodeCursor(cursor) == Some(None) <==> cursor == ""
    ensures DecodeCursor(cursor) == Some(Some(p)) <==>
      && cursor != "" && GoDecodeString(cursor).Some?
      && exists number :: Spells(BinaryString(GoDecodeString(cursor).value), number, p)
  {
    assert DecodeCursor(cursor) == Some(None) <==> cursor == "";
    hide DecodeCursor, GoDecodeString, Spells, BinaryString;
    if DecodeCursor(cursor) == Some(Some(p)) {
      var number := DecodedCursor(cursor, p);
    }
    if cursor != "" && GoDecodeString(cursor).Some? {
      forall number | Spells(BinaryString(GoDecodeString(cursor).value), number, p)
        ensures DecodeCursor(cursor) == Some(Some(p))
      {
        SpelledCursor(cursor, p, number);
      }
    }
  }

  /** Every int64 time and every share identifier comes back from its cursor, and no cursor is empty. */
  lemma CursorRoundTrip(p: Position)
    requires SafePosition(p)
    ensures IsBinary(p.id)
    ensures EncodeCursor(p) != "" && DecodeCursor(EncodeCursor(p)) == Some(Some(p))
  {
    ValidIdIsBinary(p.id);
    FormatParses(p.createdAt);
    var text := CursorText(p);
    var front := FormatInt(p.createdAt);
    hide ValidShareId, ParseInt, FormatInt, GoDecodeString, Encode;
    SplitsAtFirstBar(front, p.id);
    assert text[..|front|] == front && text[|front| + 1..] == p.id;
    assert BinaryString(CharCodes(text)) == text;
    EncodedTextDecodes(CharCodes(text));
  }

  lemma EncodedTextDecodes(bytes: seq<Byte>)
    ensures GoDecodeString(Encode(bytes)) == Some(bytes)
    ensures bytes != [] ==> Encode(bytes) != ""
  {
    EncodeDecodes(bytes);
    ReencodingTest(Encode(bytes));
  }

  // ----- one page -----------------------------------------------------------------

  datatype Filter = Filter(
    kind: Option<Kind>, privacy: Option<Privacy>, lifecycle: string, sort: string,
    cursor: string, limit: int, exactId: string)

  datatype ListError = InvalidLifecycle | InvalidSort | InvalidCursor | QueryFailed | RowMismatch

  datatype Item = Item(
    id: string, kind: Kind, privacy: Privacy, createdAt: Instant, updatedAt: Instant,
    expiresAt: Option<Instant>, payloadBytes: nat, filename: seq<Byte>, mediaType: seq<Byte>)

  function PageLimit(limit: int): (n: nat)
    ensures 1 <= n <= 100
  {
    if limit <= 0 then 50 else if limit > 100 then 100 else limit
  }

  function FoldCase(c: char): char {
    if 'A' <= c <= 'Z' then (c as int + 32) as char else if c == '\U{017F}' then 's' else c
  }

  /** strings.EqualFold against a lower-case ASCII word without a 'k'. */
  predicate EqualFold(s: string, word: string) {
    |s| == |word| && forall i :: 0 <= i < |s| ==> FoldCase(s[i]) == word[i]
  }

  predicate Matches(m: Meta, id: string, filter: Filter, clock: Instant) {
    && (filter.exactId != "" ==> id == filter.exactId)
    && (filter.kind.Some? ==> m.kind == filter.kind.value)
    && (filter.privacy.Some? ==> m.privacy == filter.privacy.value)
    && (filter.lifecycle == "active" ==> !SqlExpired(m.expiresAt, clock))
    && (filter.lifecycle == "expired" ==> SqlExpired(m.expiresAt, clock))
  }

  /** The positions of the rows that the filter selects, cursor aside. */
  function Selected(t: Tables, filter: Filter, clock: Instant): set<Position> {
    set id | id in t.shares && Matches(t.shares[id], id, filter, clock) :: Position(t.shares[id].createdAt, id)
  }

  function Newest(filter: Filter): bool {
    !EqualFold(filter.sort, "oldest")
  }

  function Beyond(newest: bool, s: set<Position>, cursor: Option<Position>): set<Position> {
    match cursor
    case None => s
    case Some(c) => set p | p in s && Precedes(newest, c, p)
  }

  function CheckFilter(filter: Filter): Result<Option<Position>, ListError> {
    if filter.lifecycle !in {"active", "expired", ""} then Err(InvalidLifecycle)
    else if !EqualFold(filter.sort, "oldest") && filter.sort != "" && !EqualFold(filter.sort, "newest")
    then Err(InvalidSort)
    else
      match DecodeCursor(filter.cursor)
      case None => Err(InvalidCursor)
      case Some(cursor) => Ok(cursor)
  }

  /** What a row of the query becomes, with the checks of the scan. */
  function ItemOf(t: Tables, id: string): Result<Item, ListError>
    requires id in t.shares
  {
    var m := t.shares[id];
    var item := (n: nat, filename, mediaType) =>
      Item(id, m.kind, m.privacy, m.createdAt * MS, m.updatedAt * MS, FromMillis(m.expiresAt), n, filename, mediaType);
    if !ValidShareId(id) then Err(RowMismatch)
    else if m.kind == FileKind then
      if id !in t.files || m.privacy != Standard then Err(RowMismatch)
      else Ok(item(t.files[id].size, t.files[id].filename, t.files[id].mediaType))
    else if id in t.files then Err(RowMismatch)
    else if m.privacy == Standard then
      if id !in t.texts then Err(RowMismatch) else Ok(item(|t.texts[id].content|, [], []))
    else
      if id !in t.encrypted then Err(RowMismatch) else Ok(item(|t.encrypted[id].ciphertext|, [], []))
  }

  function PositionOf(item: Item): Position {
    Position(UnixMilli(item.createdAt), item.id)
  }

  /** The item is what the row at the position becomes, and tells its position. */
  ghost predicate Shows(t: Tables, p: Position, item: Item) {
    && p.id in t.shares && ItemOf(t, p.id) == Ok(item)
    && PositionOf(item) == p && IsBinary(p.id)
  }

  lemma ItemShows(t: Tables, p: Position)
    requires p.id in t.shares && p.createdAt == t.shares[p.id].createdAt && ItemOf(t, p.id).Ok?
    ensures Shows(t, p, ItemOf(t, p.id).value)
  {
    hide GoValidate;
    ValidIdIsBinary(p.id);
  }

  /** The positions a page shows, and whether more rows follow it. */
  function Page(newest: bool, s: set<Position>, cursor: Option<Position>, limit: nat): (seq<Position>, bool) {
    var rows := Listing(newest, Beyond(newest, s, cursor));
    if |rows| <= limit then (rows, false) else (rows[..limit], true)
  }

  /** The query: the selected rows beyond the cursor, in order, at most `count` of them. */
  function Fetch(newest: bool, s: set<Position>, cursor: Option<Position>, count: nat): (rows: seq<Position>)
    ensures |rows| <= count
  {
    var all := Listing(newest, Beyond(newest, s, cursor));
    if |all| <= count then all else all[..count]
  }

  /** One row past the limit tells whether there are more. */
  lemma FetchedPage(newest: bool, s: set<Position>, cursor: Option<Position>, limit: nat)
    ensures var rows := Fetch(newest, s, cursor, limit + 1);
      Page(newest, s, cursor, limit) == if |rows| <= limit then (rows, false) else (rows[..limit], true)
  {
    hide Listing, Beyond;
    var all := Listing(newest, Beyond(newest, s, cursor));
    if |all| > limit + 1 {
      assert all[..limit + 1][..limit] == all[..limit];
    }
  }

  lemma FetchedRows(t: Tables, filter: Filter, clock: Instant, newest: bool, cursor: Option<Position>, count: nat)
    ensures var rows := Fetch(newest, Selected(t, filter, clock), cursor, count);
      forall i :: 0 <= i < |rows| ==> rows[i].id in t.shares && rows[i].createdAt == t.shares[rows[i].id].createdAt
  {
    var s := Selected(t, filter, clock);
    var all := Listing(newest, Beyond(newest, s, cursor));
    hide Matches, Precedes, Listing;
    forall i | 0 <= i < |all| ensures all[i] in s {
      assert all[i] in all;
    }
  }

  /** The answer is the page of the listing, and the cursor names its last row when more follow. */
  ghost predicate IsPage(t: Tables, clock: Instant, filter: Filter, items: seq<Item>, next: string)
    requires CheckFilter(filter).Ok?
  {
    var (page, more) :=
      Page(Newest(filter), Selected(t, filter, clock), CheckFilter(filter).value, PageLimit(filter.limit));
    && |items| == |page|
    && (forall i :: 0 <= i < |page| ==> Shows(t, page[i], items[i]))
    && (more <==> next != "")
    && (more ==> page != [] && IsBinary(page[|page| - 1].id) && next == EncodeCursor(page[|page| - 1]))
  }

  /** Some row does not fit its payload. */
  ghost predicate HasMismatch(t: Tables) {
    exists id :: id in t.shares && ItemOf(t, id).Err?
  }

  lemma Mismatch(t: Tables, id: string)
    requires id in t.shares && ItemOf(t, id).Err?
    ensures HasMismatch(t)
  {
  }

  lemma ChecksDoNotQuery(filter: Filter)
    ensures CheckFilter(filter).Err? ==> CheckFilter(filter).error in {InvalidLifecycle, InvalidSort, InvalidCursor}
  {
    hide DecodeCursor, EqualFold;
  }

  /** The loop over the result rows, which stops at the row past the limit. */
  method ScanRows(t: Tables, rows: seq<Position>, limit: nat) returns (r: Result<(seq<Item>, bool), ListError>)
    requires forall i :: 0 <= i < |rows| ==>
      rows[i].id in t.shares && rows[i].createdAt == t.shares[rows[i].id].createdAt
    ensures r.Ok? ==>
      var (values, hasMore) := r.value;
      && |values| == (if |rows| <= limit then |rows| else limit)
      && (hasMore <==> |rows| > limit)
      && (forall j :: 0 <= j < |values| ==> Shows(t, rows[j], values[j]))
    ensures r.Err? ==> r.error == RowMismatch && HasMismatch(t)
  {
    hide *;
    var values: seq<Item> := [];
    var hasMore := false;
    while |values| < |rows|
      invariant |values| <= |rows| && |values| <= limit
      invariant forall j :: 0 <= j < |values| ==> Shows(t, rows[j], values[j])
    {
      if |values| == limit {
        hasMore := true;
        break;
      }
      var item := ItemOf(t, rows[|values|].id);
      if item.Err? {
        Mismatch(t, rows[|values|].id);
        return Err(RowMismatch);
      }
      ItemShows(t, rows[|values|]);
      values := values + [item.value];
    }
    r := Ok((values, hasMore));
  }

  /** What the loop has kept is the page, and its last item tells the position the cursor names. */
  lemma ScannedPage(
    t: Tables, newest: bool, s: set<Position>, cursor: Option<Position>, limit: nat, values: seq<Item>, hasMore: bool)
    requires limit > 0
    requires var rows := Fetch(newest, s, cursor, limit + 1);
      && |values| == (if |rows| <= limit then |rows| else limit)
      && (hasMore <==> |rows| > limit)
      && (forall j :: 0 <= j < |values| ==> Shows(t, rows[j], values[j]))
    ensures var (page, more) := Page(newest, s, cursor, limit);
      && |values| == |page| && hasMore == more && (more ==> page != [])
      && (forall j :: 0 <= j < |page| ==> Shows(t, page[j], values[j]))
      && (more ==>
            var last := values[|values| - 1];
            PositionOf(last) == page[|page| - 1] && IsBinary(page[|page| - 1].id))
  {
    FetchedPage(newest, s, cursor, limit);
    hide Page, Fetch, ItemOf, IsBinary, UnixMilli;
  }

  lemma ScannedIsPage(t: Tables, clock: Instant, filter: Filter, values: seq<Item>, hasMore: bool, next: string)
    requires CheckFilter(filter).Ok?
    requires var (page, more) :=
        Page(Newest(filter), Selected(t, filter, clock), CheckFilter(filter).value, PageLimit(filter.limit));
      && |values| == |page| && hasMore == more && (more ==> page != [])
      && (forall j :: 0 <= j < |page| ==> Shows(t, page[j], values[j]))
      && (more ==>
            && PositionOf(values[|values| - 1]) == page[|page| - 1] && IsBinary(page[|page| - 1].id)
            && next == EncodeCursor(page[|page| - 1]) != "")
      && (!more ==> next == "")
    ensures IsPage(t, clock, filter, values, next)
  {
    hide Page, Newest, Selected, PageLimit, Shows, EncodeCursor, IsBinary, PositionOf, CheckFilter;
  }

  // ----- what an answer says, in the terms of the tables and the request -----------------

  /** The item is the row of its identifier, with the size of its payload and, for a file, its name and type. */
  predicate RowAsItem(t: Tables, item: Item) {
    item.id in t.shares &&
    var m := t.shares[item.id];
    && item.kind == m.kind && item.privacy == m.privacy
    && item.createdAt == m.createdAt * 1_000_000 && item.updatedAt == m.updatedAt * 1_000_000
    && (item.expiresAt.Some? <==> m.expiresAt.Some?)
    && (m.expiresAt.Some? ==> item.expiresAt.value == m.expiresAt.value * 1_000_000)
    && (m.kind == FileKind ==>
          && item.id in t.files && item.payloadBytes == t.files[item.id].size
          && item.filename == t.files[item.id].filename && item.mediaType == t.files[item.id].mediaType)
    && (m.kind == TextKind ==> item.filename == [] && item.mediaType == [])
    && (m.kind == TextKind && m.privacy == Standard ==>
          item.id in t.texts && item.payloadBytes == |t.texts[item.id].content|)
    && (m.kind == TextKind && m.privacy == Encrypted ==>
          item.id in t.encrypted && item.payloadBytes == |t.encrypted[item.id].ciphertext|)
  }

  /** What the request asks of a row. */
  predicate Wanted(filter: Filter, id: string, m: Meta, clock: Instant) {
    && (filter.exactId == "" || id == filter.exactId)
    && (filter.kind == None || filter.kind == Some(m.kind))
    && (filter.privacy == None || filter.privacy == Some(m.privacy))
    && (filter.lifecycle == "active" ==> m.expiresAt.None? || m.expiresAt.value * 1_000_000 > clock)
    && (filter.lifecycle == "expired" ==> m.expiresAt.Some? && m.expiresAt.value * 1_000_000 <= clock)
  }

  /** Creation times never increase, or never decrease; equal times go by the identifier. */
  predicate Sorted(items: seq<Item>, newestFirst: bool) {
    forall i, j :: 0 <= i < j < |items| ==>
      if newestFirst
      then items[i].createdAt > items[j].createdAt
           || (items[i].createdAt == items[j].createdAt && StringLess(items[j].id, items[i].id))
      else items[i].createdAt < items[j].createdAt
           || (items[i].createdAt == items[j].createdAt && StringLess(items[i].id, items[j].id))
  }

  predicate Contains(items: seq<Item>, id: string) {
    exists i :: 0 <= i < |items| && items[i].id == id
  }

  /** Fifty items unless another number up to a hundred is asked for. */
  predicate FitsLimit(limit: int, items: seq<Item>, more: bool) {
    && (limit <= 0 ==> |items| <= 50 && (more ==> |items| == 50))
    && (1 <= limit <= 100 ==> |items| <= limit && (more ==> |items| == limit))
    && (limit > 100 ==> |items| <= 100 && (more ==> |items| == 100))
  }

  /** A page: wanted rows, as they are, in order; and all of them when it is the first and announces no more. */
  ghost predicate Answers(t: Tables, clock: Instant, filter: Filter, items: seq<Item>, next: string) {
    && (forall i :: 0 <= i < |items| ==>
          RowAsItem(t, items[i]) && Wanted(filter, items[i].id, t.shares[items[i].id], clock))
    && (filter.sort == "" || Spelt(filter.sort, "newest") ==> Sorted(items, true))
    && (Spelt(filter.sort, "oldest") ==> Sorted(items, false))
    && FitsLimit(filter.limit, items, next != "")
    && (filter.cursor == "" && next == "" ==>
          forall id :: id in t.shares && Wanted(filter, id, t.shares[id], clock) ==> Contains(items, id))
  }

  lemma MatchesInPlainTerms(m: Meta, id: string, filter: Filter, clock: Instant)
    ensures Matches(m, id, filter, clock) <==> Wanted(filter, id, m, clock)
  {
    ExpiryTestsAgree(m.expiresAt, clock);
    assert SqlExpired(m.expiresAt, clock) <==> m.expiresAt.Some? && m.expiresAt.value * 1_000_000 <= clock;
    hide SqlExpired;
  }

  lemma ItemsInPlainTerms(t: Tables, p: Position, item: Item)
    requires Shows(t, p, item)
    ensures item.id == p.id && RowAsItem(t, item) && p.createdAt * 1_000_000 == item.createdAt
  {
    hide ValidShareId;
  }

  /** The lower-case word in letters of either case, where the long s stands for an s as well. */
  predicate Spelt(s: string, word: string) {
    |s| == |word| && forall i :: 0 <= i < |s| ==>
      s[i] == word[i] || s[i] as int == word[i] as int - 32 || (word[i] == 's' && s[i] == '\U{017F}')
  }

  lemma FoldsInPlainTerms(s: string, word: string)
    requires forall i :: 0 <= i < |word| ==> 'a' <= word[i] <= 'z'
    ensures EqualFold(s, word) <==> Spelt(s, word)
  {
    if |s| == |word| {
      forall i | 0 <= i < |s|
        ensures FoldCase(s[i]) == word[i] <==>
          s[i] == word[i] || s[i] as int == word[i] as int - 32 || (word[i] == 's' && s[i] == '\U{017F}')
      {
        assert 'a' <= word[i] <= 'z';
      }
    }
  }

  lemma SortsInPlainTerms(filter: Filter)
    ensures filter.sort == "" || Spelt(filter.sort, "newest") ==> Newest(filter)
    ensures Spelt(filter.sort, "oldest") ==> !Newest(filter)
  {
    FoldsInPlainTerms(filter.sort, "oldest");
    if Spelt(filter.sort, "newest") {
      assert "newest"[0] == 'n' && "oldest"[0] == 'o' && filter.sort[0] in {'n', 'N'};
    }
  }

  /** Which requests are refused, and for what: the lifecycle first, then the order, then the cursor. */
  lemma FiltersInPlainTerms(filter: Filter)
    ensures CheckFilter(filter)
         == if filter.lifecycle != "" && filter.lifecycle != "active" && filter.lifecycle != "expired" then
              Err(InvalidLifecycle)
            else if filter.sort != "" && !Spelt(filter.sort, "newest") && !Spelt(filter.sort, "oldest") then
              Err(InvalidSort)
            else if DecodeCursor(filter.cursor).None? then Err(InvalidCursor)
            else Ok(DecodeCursor(filter.cursor).value)
  {
    FoldsInPlainTerms(filter.sort, "oldest");
    FoldsInPlainTerms(filter.sort, "newest");
    hide DecodeCursor, EqualFold, Spelt;
  }

  lemma PageMembers(newest: bool, s: set<Position>, cursor: Option<Position>, limit: nat)
    ensures var (page, more) := Page(newest, s, cursor, limit);
      && Ordered(newest, page) && |page| <= limit && (more ==> |page| == limit)
      && (forall i :: 0 <= i < |page| ==> page[i] in s)
      && (cursor.None? && !more ==> forall p :: p in s ==> p in page)
  {
    var rows := Listing(newest, Beyond(newest, s, cursor));
    assert forall i :: 0 <= i < |rows| ==> rows[i] in rows;
    hide Listing, Precedes;
  }

  lemma SelectedInPlainTerms(t: Tables, filter: Filter, clock: Instant, p: Position)
    ensures p in Selected(t, filter, clock) <==>
      p.id in t.shares && p.createdAt == t.shares[p.id].createdAt && Wanted(filter, p.id, t.shares[p.id], clock)
  {
    if p.id in t.shares {
      MatchesInPlainTerms(t.shares[p.id], p.id, filter, clock);
      assert Position(t.shares[p.id].createdAt, p.id) == p <==> p.createdAt == t.shares[p.id].createdAt;
    }
    hide Matches, Wanted;
  }

  lemma PageSorted(page: seq<Position>, items: seq<Item>, newest: bool)
    requires |items| == |page| && Ordered(newest, page)
    requires forall i :: 0 <= i < |page| ==>
      items[i].id == page[i].id && items[i].createdAt == page[i].createdAt * 1_000_000
    ensures Sorted(items, newest)
  {
    forall i, j | 0 <= i < j < |items|
      ensures if newest
        then items[i].createdAt > items[j].createdAt
             || (items[i].createdAt == items[j].createdAt && StringLess(items[j].id, items[i].id))
        else items[i].createdAt < items[j].createdAt
             || (items[i].createdAt == items[j].createdAt && StringLess(items[i].id, items[j].id))
    {
      assert Precedes(newest, page[i], page[j]);
    }
  }

  lemma PageItems(
    t: Tables, clock: Instant, filter: Filter, page: seq<Position>, items: seq<Item>)
    requires |items| == |page| && (forall i :: 0 <= i < |page| ==> Shows(t, page[i], items[i]))
    requires forall i :: 0 <= i < |page| ==> page[i] in Selected(t, filter, clock)
    ensures forall i :: 0 <= i < |items| ==>
      && items[i].id == page[i].id && items[i].createdAt == page[i].createdAt * 1_000_000
      && RowAsItem(t, items[i]) && items[i].id in t.shares
      && Wanted(filter, items[i].id, t.shares[items[i].id], clock)
  {
    hide Selected, Shows, RowAsItem, Wanted;
    forall i | 0 <= i < |items|
      ensures items[i].id == page[i].id && items[i].createdAt == page[i].createdAt * 1_000_000
      ensures RowAsItem(t, items[i]) && items[i].id in t.shares
              && Wanted(filter, items[i].id, t.shares[items[i].id], clock)
    {
      ItemsInPlainTerms(t, page[i], items[i]);
      SelectedInPlainTerms(t, filter, clock, page[i]);
    }
  }

  lemma PageHoldsAll(t: Tables, clock: Instant, filter: Filter, page: seq<Position>, items: seq<Item>)
    requires |items| == |page| && (forall i :: 0 <= i < |page| ==> items[i].id == page[i].id)
    requires forall p :: p in Selected(t, filter, clock) ==> p in page
    ensures forall id :: id in t.shares && Wanted(filter, id, t.shares[id], clock) ==> Contains(items, id)
  {
    hide Selected, Wanted;
    forall id | id in t.shares && Wanted(filter, id, t.shares[id], clock) ensures Contains(items, id) {
      var p := Position(t.shares[id].createdAt, id);
      SelectedInPlainTerms(t, filter, clock, p);
      var i :| 0 <= i < |page| && page[i] == p;
      assert items[i].id == id;
    }
  }

  lemma PageFits(newest: bool, s: set<Position>, cursor: Option<Position>, limit: int, items: seq<Item>)
    requires |items| == |Page(newest, s, cursor, PageLimit(limit)).0|
    ensures FitsLimit(limit, items, Page(newest, s, cursor, PageLimit(limit)).1)
  {
    PageMembers(newest, s, cursor, PageLimit(limit));
    hide Page;
  }

  lemma FactsOfPage(t: Tables, clock: Instant, filter: Filter, items: seq<Item>, next: string)
    returns (page: seq<Position>)
    requires CheckFilter(filter).Ok? && IsPage(t, clock, filter, items, next)
    ensures |items| == |page| && Ordered(Newest(filter), page) && FitsLimit(filter.limit, items, next != "")
    ensures forall i :: 0 <= i < |page| ==> Shows(t, page[i], items[i]) && page[i] in Selected(t, filter, clock)
    ensures filter.cursor == "" && next == "" ==> forall p :: p in Selected(t, filter, clock) ==> p in page
  {
    var s := Selected(t, filter, clock);
    page := Page(Newest(filter), s, CheckFilter(filter).value, PageLimit(filter.limit)).0;
    assert filter.cursor == "" ==> CheckFilter(filter).value == None;
    hide Page, Newest, CheckFilter, Selected, Shows, FitsLimit, Ordered, PageLimit;
    PageMembers(Newest(filter), s, CheckFilter(filter).value, PageLimit(filter.limit));
    PageFits(Newest(filter), s, CheckFilter(filter).value, filter.limit, items);
  }

  /** The page of the listing is such an answer. */
  lemma PageAnswers(t: Tables, clock: Instant, filter: Filter, items: seq<Item>, next: string)
    requires CheckFilter(filter).Ok? && IsPage(t, clock, filter, items, next)
    ensures Answers(t, clock, filter, items, next)
  {
    SortsInPlainTerms(filter);
    hide CheckFilter, IsPage, Newest, Selected, Shows, RowAsItem, Wanted, Sorted, FitsLimit, Ordered, Contains;
    var page := FactsOfPage(t, clock, filter, items, next);
    PageItems(t, clock, filter, page, items);
    PageSorted(page, items, Newest(filter));
    if filter.cursor == "" && next == "" {
      PageHoldsAll(t, clock, filter, page, items);
    }
  }

  lemma LastNamesItsPosition(t: Tables, rows: seq<Position>, values: seq<Item>)
    requires |values| <= |rows| && forall j :: 0 <= j < |values| ==> Shows(t, rows[j], values[j])
    ensures values != [] ==> IsBinary(PositionOf(values[|values| - 1]).id)
  {
  }

  /** What the loop has kept of the query's rows, with the cursor made from the last of it, is the answer. */
  lemma AnswerOfScan(t: Tables, clock: Instant, filter: Filter, values: seq<Item>, hasMore: bool, next: string)
    requires CheckFilter(filter).Ok?
    requires var limit := PageLimit(filter.limit);
      var rows := Fetch(Newest(filter), Selected(t, filter, clock), CheckFilter(filter).value, limit + 1);
      && |values| == (if |rows| <= limit then |rows| else limit)
      && (hasMore <==> |rows| > limit)
      && (forall j :: 0 <= j < |values| ==> Shows(t, rows[j], values[j]))
    requires values != [] ==> IsBinary(PositionOf(values[|values| - 1]).id)
    requires next == if hasMore && values != [] then EncodeCursor(PositionOf(values[|values| - 1])) else ""
    ensures IsPage(t, clock, filter, values, next) && Answers(t, clock, filter, values, next)
  {
    hide Page, Fetch, Newest, Selected, CheckFilter, Shows, EncodeCursor, IsBinary, PositionOf, IsPage, Answers;
    ScannedPage(t, Newest(filter), Selected(t, filter, clock), CheckFilter(filter).value, PageLimit(filter.limit),
      values, hasMore);
    if hasMore && values != [] {
      CursorsAreNotEmpty(PositionOf(values[|values| - 1]));
    }
    ScannedIsPage(t, clock, filter, values, hasMore, next);
    PageAnswers(t, clock, filter, values, next);
  }

  lemma CursorsAreNotEmpty(p: Position)
    requires IsBinary(p.id)
    ensures EncodeCursor(p) != ""
  {
    EncodedTextDecodes(CharCodes(CursorText(p)));
    assert |CursorText(p)| > 0;
    hide Encode;
  }

  /**
  One page: the first rows of the listing beyond the cursor, at most the limit of
  them, and a cursor to the last of them when more follow.
  */
  method AdminList(t: Tables, clock: Instant, filter: Filter, queryFails: bool)
    returns (r: Result<(seq<Item>, string), ListError>)
    ensures CheckFilter(filter).Err? ==> r == Err(CheckFilter(filter).error)
    ensures r.Ok? ==> CheckFilter(filter).Ok? && IsPage(t, clock, filter, r.value.0, r.value.1)
    ensures r.Ok? ==> Answers(t, clock, filter, r.value.0, r.value.1)
    ensures CheckFilter(filter).Ok? && r.Err? && r.error != QueryFailed ==>
      r.error == RowMismatch && HasMismatch(t)
    ensures r == Err(QueryFailed) <==> CheckFilter(filter).Ok? && queryFails
  {
    ChecksDoNotQuery(filter);
    hide *;
    var limit := PageLimit(filter.limit);
    var checked := CheckFilter(filter);
    if checked.Err? {
      return Err(checked.error);
    }
    if queryFails {
      return Err(QueryFailed);
    }
    var newest := Newest(filter);
    var s := Selected(t, filter, clock);
    var rows := Fetch(newest, s, checked.value, limit + 1);
    FetchedRows(t, filter, clock, newest, checked.value, limit + 1);
    var scanned := ScanRows(t, rows, limit);
    if scanned.Err? {
      return Err(scanned.error);
    }
    var (values, hasMore) := scanned.value;
    LastNamesItsPosition(t, rows, values);
    var next := "";
    if hasMore && |values| > 0 {
      next := EncodeCursor(PositionOf(values[|values| - 1]));
    }
    AnswerOfScan(t, clock, filter, values, hasMore, next);
    r := Ok((values, next));
  }
}
