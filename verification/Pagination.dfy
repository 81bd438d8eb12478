/**
Following the listing's cursors from page to page, over tables that change between
the pages and over tables that do not.
*/
module Pagination {
  import opened Common
  import opened Ordering
  import opened Shares
  import opened AdminListing
  import opened Base64Url

  // ----- walking over sets of positions -------------------------------------------

  /** What was shown, how many pages it took, and whether the last of them said there is no more. */
  datatype Walked = Walked(shown: seq<Position>, pages: nat, finished: bool)

  /** Page after page, each from the rows present when it is asked for. */
  function Walk(newest: bool, limit: nat, sets: seq<set<Position>>, cursor: Option<Position>): Walked
    requires limit > 0
  {
    if sets == [] then Walked([], 0, false)
    else
      var (page, more) := Page(newest, sets[0], cursor, limit);
      if !more then Walked(page, 1, true)
      else
        var rest := Walk(newest, limit, sets[1..], Some(page[limit - 1]));
        Walked(page + rest.shown, 1 + rest.pages, rest.finished)
  }

  predicate After(newest: bool, cursor: Option<Position>, p: Position) {
    cursor.Some? ==> Precedes(newest, cursor.value, p)
  }

  lemma PageFacts(newest: bool, s: set<Position>, cursor: Option<Position>, limit: nat)
    ensures var (page, more) := Page(newest, s, cursor, limit);
      && Ordered(newest, page) && |page| <= limit
      && (more ==> |page| == limit)
      && (forall i :: 0 <= i < |page| ==> page[i] in s && After(newest, cursor, page[i]))
      && (forall x :: x in s && After(newest, cursor, x) && x !in page
            ==> more && (limit > 0 ==> Precedes(newest, page[limit - 1], x)))
  {
    var all := Listing(newest, Beyond(newest, s, cursor));
    var (page, more) := Page(newest, s, cursor, limit);
    forall i | 0 <= i < |page| ensures page[i] in s && After(newest, cursor, page[i]) {
      assert all[i] in all;
    }
    forall x | x in s && After(newest, cursor, x) && x !in page
      ensures more && (limit > 0 ==> Precedes(newest, page[limit - 1], x))
    {
      assert x in all;
      assert forall i :: 0 <= i < |page| ==> page[i] in page;
      var k :| 0 <= k < |all| && all[k] == x;
    }
  }

  /** Rows in order, and then rows in order that all come after the last of those. */
  lemma OrderedInParts(newest: bool, front: seq<Position>, back: seq<Position>)
    requires Ordered(newest, front) && Ordered(newest, back)
    requires front != [] && forall j :: 0 <= j < |back| ==> Precedes(newest, front[|front| - 1], back[j])
    ensures Ordered(newest, front + back)
  {
    hide Precedes;
    var last := front[|front| - 1];
    forall i, j | 0 <= i < |front| && 0 <= j < |back| ensures Precedes(newest, front[i], back[j]) {
      if i < |front| - 1 {
        PrecedesTransitive(newest, front[i], last, back[j]);
      }
    }
  }

  /** No row is shown twice, whatever happens to the tables: the rows come in strictly increasing order. */
  lemma {:induction false} WalkIsOrdered(newest: bool, limit: nat, sets: seq<set<Position>>, cursor: Option<Position>)
    requires limit > 0
    ensures var w := Walk(newest, limit, sets, cursor);
      Ordered(newest, w.shown) && forall i :: 0 <= i < |w.shown| ==> After(newest, cursor, w.shown[i])
    decreases |sets|
  {
    hide Page, Precedes, Ordered;
    if sets == [] {
      NothingIsOrdered(newest);
    } else {
      PageFacts(newest, sets[0], cursor, limit);
      var (page, more) := Page(newest, sets[0], cursor, limit);
      if more {
        var last := page[limit - 1];
        WalkIsOrdered(newest, limit, sets[1..], Some(last));
        var rest := Walk(newest, limit, sets[1..], Some(last)).shown;
        assert After(newest, cursor, last);
        forall i | 0 <= i < |rest| ensures Precedes(newest, last, rest[i]) && After(newest, cursor, rest[i]) {
          assert After(newest, Some(last), rest[i]);
          if cursor.Some? {
            PrecedesTransitive(newest, cursor.value, last, rest[i]);
          }
        }
        OrderedInParts(newest, page, rest);
      }
    }
  }

  lemma NothingIsOrdered(newest: bool)
    ensures Ordered(newest, [])
  {
  }

  /** A row that is there for every page of a finished walk is shown. */
  lemma {:induction false} WalkIsComplete(
    newest: bool, limit: nat, sets: seq<set<Position>>, cursor: Option<Position>, x: Position)
    requires limit > 0 && Walk(newest, limit, sets, cursor).finished
    requires forall i :: 0 <= i < Walk(newest, limit, sets, cursor).pages <= |sets| ==> x in sets[i]
    requires After(newest, cursor, x)
    ensures x in Walk(newest, limit, sets, cursor).shown
    decreases |sets|
  {
    WalkPages(newest, limit, sets, cursor);
    assert x in sets[0];
    PageFacts(newest, sets[0], cursor, limit);
    var (page, more) := Page(newest, sets[0], cursor, limit);
    if more && x !in page {
      var rest := Walk(newest, limit, sets[1..], Some(page[limit - 1]));
      WalkPages(newest, limit, sets[1..], Some(page[limit - 1]));
      assert forall i :: 0 <= i < rest.pages ==> sets[1..][i] == sets[i + 1];
      WalkIsComplete(newest, limit, sets[1..], Some(page[limit - 1]), x);
    }
  }

  lemma {:induction false} WalkPages(newest: bool, limit: nat, sets: seq<set<Position>>, cursor: Option<Position>)
    requires limit > 0
    ensures var w := Walk(newest, limit, sets, cursor);
      w.pages <= |sets| && (w.finished ==> 0 < w.pages)
    decreases |sets|
  {
    if sets != [] && Page(newest, sets[0], cursor, limit).1 {
      WalkPages(newest, limit, sets[1..], Some(Page(newest, sets[0], cursor, limit).0[limit - 1]));
    }
  }

  // ----- unchanging tables ----------------------------------------------------------

  lemma BeyondLast(newest: bool, s: set<Position>, cursor: Option<Position>, last: Position, x: Position)
    requires last in Beyond(newest, s, cursor)
    ensures x in Beyond(newest, s, Some(last)) <==> x in Beyond(newest, s, cursor) && Precedes(newest, last, x)
  {
    if x in Beyond(newest, s, Some(last)) && cursor.Some? {
      PrecedesTransitive(newest, cursor.value, last, x);
    }
  }

  lemma TailIsAfter(newest: bool, all: seq<Position>, limit: nat, x: Position)
    requires Ordered(newest, all) && 0 < limit <= |all|
    ensures x in all[limit..] <==> x in all && Precedes(newest, all[limit - 1], x)
  {
    hide Precedes;
    if x in all[limit..] {
      var k :| 0 <= k < |all| - limit && all[limit..][k] == x;
      assert all[limit + k] == x;
    }
    if x in all && Precedes(newest, all[limit - 1], x) {
      var k :| 0 <= k < |all| && all[k] == x;
      PrecedesTotal(newest, all[limit - 1], x);
      assert all[limit..][k - limit] == x;
    }
  }

  /** Beyond the last row of a page lies the rest of the listing. */
  lemma ListingBeyondPage(newest: bool, s: set<Position>, cursor: Option<Position>, limit: nat)
    requires 0 < limit < |Listing(newest, Beyond(newest, s, cursor))|
    ensures var all := Listing(newest, Beyond(newest, s, cursor));
      Listing(newest, Beyond(newest, s, Some(all[limit - 1]))) == all[limit..]
  {
    hide Precedes, Beyond, Listing;
    var all := Listing(newest, Beyond(newest, s, cursor));
    var last := all[limit - 1];
    assert last in all;
    forall x ensures x in all[limit..] <==> x in Beyond(newest, s, Some(last)) {
      TailIsAfter(newest, all, limit, x);
      BeyondLast(newest, s, cursor, last, x);
    }
    ListingUnique(newest, Beyond(newest, s, Some(last)), all[limit..]);
  }

  /** One page, and one more for every further `limit` rows. */
  function PageCount(rows: nat, limit: nat): (n: nat)
    requires limit > 0
    ensures n > 0
  {
    if rows <= limit then 1 else 1 + PageCount(rows - limit, limit)
  }

  /** That is the number of rows over the limit, rounded up. */
  lemma {:induction false} PageCountRoundsUp(rows: nat, limit: nat)
    requires 0 < limit && 0 < rows
    ensures (PageCount(rows, limit) - 1) * limit < rows <= PageCount(rows, limit) * limit
  {
    if rows > limit {
      PageCountRoundsUp(rows - limit, limit);
      var n := PageCount(rows - limit, limit);
      assert (n + 1) * limit == n * limit + limit && n * limit == (n - 1) * limit + limit;
    }
  }

  lemma WalkOnePage(newest: bool, limit: nat, sets: seq<set<Position>>, cursor: Option<Position>)
    requires limit > 0 && sets != []
    ensures var all := Listing(newest, Beyond(newest, sets[0], cursor));
      Walk(newest, limit, sets, cursor) ==
        if |all| <= limit then Walked(all, 1, true)
        else
          var rest := Walk(newest, limit, sets[1..], Some(all[limit - 1]));
          Walked(all[..limit] + rest.shown, 1 + rest.pages, rest.finished)
  {
    hide Beyond, Listing;
  }

  /** Over unchanging rows the pages put together are the whole ordered listing, and none is wasted. */
  lemma {:induction false} StaticWalk(
    newest: bool, limit: nat, s: set<Position>, sets: seq<set<Position>>, cursor: Option<Position>)
    requires limit > 0 && forall i :: 0 <= i < |sets| ==> sets[i] == s
    requires |sets| >= PageCount(|Listing(newest, Beyond(newest, s, cursor))|, limit)
    ensures var all := Listing(newest, Beyond(newest, s, cursor));
      Walk(newest, limit, sets, cursor) == Walked(all, PageCount(|all|, limit), true)
    decreases |sets|
  {
    hide Beyond, Listing, Walk;
    var all := Listing(newest, Beyond(newest, s, cursor));
    WalkOnePage(newest, limit, sets, cursor);
    if |all| > limit {
      ListingBeyondPage(newest, s, cursor, limit);
      StaticWalk(newest, limit, s, sets[1..], Some(all[limit - 1]));
      assert all == all[..limit] + all[limit..];
    }
  }

  // ----- walking with the cursors that the pages carry ------------------------------

  datatype Snapshot = Snapshot(tables: Tables, clock: Instant)

  ghost predicate SafeTables(t: Tables) {
    forall id :: id in t.shares ==> SafePosition(Position(t.shares[id].createdAt, id))
  }

  /** The requests a client makes: the same filter each time, with the cursor of the page before. */
  ghost function Follow(snapshots: seq<Snapshot>, filter: Filter): Walked
    requires forall snapshot :: snapshot in snapshots ==> SafeTables(snapshot.tables)
    requires CheckFilter(filter).Ok?
    decreases |snapshots|
  {
    if snapshots == [] then Walked([], 0, false)
    else
      var s := Selected(snapshots[0].tables, filter, snapshots[0].clock);
      var limit := PageLimit(filter.limit);
      var (page, more) := Page(Newest(filter), s, CheckFilter(filter).value, limit);
      if !more then Walked(page, 1, true)
      else
        LastIsSafe(snapshots[0], filter);
        CursorRoundTrip(page[limit - 1]);
        var rest := Follow(snapshots[1..], filter.(cursor := EncodeCursor(page[limit - 1])));
        Walked(page + rest.shown, 1 + rest.pages, rest.finished)
  }

  lemma LastIsSafe(snapshot: Snapshot, filter: Filter)
    requires SafeTables(snapshot.tables) && CheckFilter(filter).Ok?
    ensures var (page, more) := Page(Newest(filter), Selected(snapshot.tables, filter, snapshot.clock),
        CheckFilter(filter).value, PageLimit(filter.limit));
      more ==> |page| == PageLimit(filter.limit) && SafePosition(page[PageLimit(filter.limit) - 1])
  {
    var s := Selected(snapshot.tables, filter, snapshot.clock);
    PageFacts(Newest(filter), s, CheckFilter(filter).value, PageLimit(filter.limit));
  }

  ghost function SelectedSets(snapshots: seq<Snapshot>, filter: Filter): (sets: seq<set<Position>>)
    ensures |sets| == |snapshots|
    ensures forall i :: 0 <= i < |sets| ==> sets[i] == Selected(snapshots[i].tables, filter, snapshots[i].clock)
  {
    seq(|snapshots|, i requires 0 <= i < |snapshots| => Selected(snapshots[i].tables, filter, snapshots[i].clock))
  }

  lemma CursorDoesNotSelect(snapshots: seq<Snapshot>, filter: Filter, cursor: string)
    ensures SelectedSets(snapshots, filter.(cursor := cursor)) == SelectedSets(snapshots, filter)
  {
    forall i | 0 <= i < |snapshots|
      ensures Selected(snapshots[i].tables, filter.(cursor := cursor), snapshots[i].clock)
           == Selected(snapshots[i].tables, filter, snapshots[i].clock)
    {
      assert forall m, id ::
        Matches(m, id, filter.(cursor := cursor), snapshots[i].clock) == Matches(m, id, filter, snapshots[i].clock);
    }
  }

  /** The opaque cursors lose nothing: following them is walking by positions. */
  lemma {:induction false} FollowIsWalk(snapshots: seq<Snapshot>, filter: Filter)
    requires forall snapshot :: snapshot in snapshots ==> SafeTables(snapshot.tables)
    requires CheckFilter(filter).Ok?
    ensures Follow(snapshots, filter)
         == Walk(Newest(filter), PageLimit(filter.limit), SelectedSets(snapshots, filter), CheckFilter(filter).value)
    decreases |snapshots|
  {
    hide Selected, Page, SafePosition, DecodeCursor, EncodeCursor, SafeTables, EqualFold;
    if snapshots != [] {
      LastIsSafe(snapshots[0], filter);
      var limit := PageLimit(filter.limit);
      var (page, more) := Page(Newest(filter), Selected(snapshots[0].tables, filter, snapshots[0].clock),
        CheckFilter(filter).value, limit);
      if more {
        CursorRoundTrip(page[limit - 1]);
        var next := filter.(cursor := EncodeCursor(page[limit - 1]));
        FollowIsWalk(snapshots[1..], next);
        CursorDoesNotSelect(snapshots[1..], filter, next.cursor);
        assert SelectedSets(snapshots, filter)[1..] == SelectedSets(snapshots[1..], filter);
      }
    }
  }

  /**
  Pagination under change. However shares come and go between the requests of a
  finished traversal, no row is shown twice, and a row that was present and matching
  at each of them is shown, in its place.
  */
  lemma TraversalUnderChange(snapshots: seq<Snapshot>, filter: Filter, x: Position)
    requires forall snapshot :: snapshot in snapshots ==> SafeTables(snapshot.tables)
    requires CheckFilter(filter).Ok? && filter.cursor == ""
    ensures var w := Follow(snapshots, filter);
      && Ordered(Newest(filter), w.shown)
      && (forall i, j :: 0 <= i < j < |w.shown| ==> w.shown[i] != w.shown[j])
      && w.pages <= |snapshots|
      && (w.finished
          && (forall i :: 0 <= i < w.pages ==> x in Selected(snapshots[i].tables, filter, snapshots[i].clock))
          ==> x in w.shown)
  {
    hide Selected, SafePosition;
    FollowIsWalk(snapshots, filter);
    var sets := SelectedSets(snapshots, filter);
    var newest, limit := Newest(filter), PageLimit(filter.limit);
    WalkIsOrdered(newest, limit, sets, None);
    WalkPages(newest, limit, sets, None);
    var w := Walk(newest, limit, sets, None);
    forall i, j | 0 <= i < j < |w.shown| ensures w.shown[i] != w.shown[j] {
      PrecedesTotal(newest, w.shown[i], w.shown[i]);
    }
    if w.finished && forall i :: 0 <= i < w.pages ==> x in Selected(snapshots[i].tables, filter, snapshots[i].clock) {
      WalkIsComplete(newest, limit, sets, None, x);
    }
  }

  /** Over unchanging tables and clock, following the cursors shows exactly the ordered listing. */
  lemma TraversalOfStaticTables(snapshot: Snapshot, filter: Filter, n: nat)
    requires SafeTables(snapshot.tables) && CheckFilter(filter).Ok? && filter.cursor == ""
    requires n >= PageCount(|Selected(snapshot.tables, filter, snapshot.clock)|, PageLimit(filter.limit))
    ensures var s := Selected(snapshot.tables, filter, snapshot.clock);
      Follow(seq(n, _ => snapshot), filter)
      == Walked(Listing(Newest(filter), s), PageCount(|s|, PageLimit(filter.limit)), true)
  {
    hide Selected, SafePosition, PageCount, Walk;
    var s := Selected(snapshot.tables, filter, snapshot.clock);
    var snapshots := seq(n, _ => snapshot);
    FollowIsWalk(snapshots, filter);
    StaticWalk(Newest(filter), PageLimit(filter.limit), s, SelectedSets(snapshots, filter), None);
  }
}
