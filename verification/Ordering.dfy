/** The order of the admin listing: by creation time, then by identifier, newest or oldest first. */
module Ordering {

  datatype Position = Position(createdAt: int, id: string)

  /** Bytewise comparison, as SQLite compares TEXT. */
  predicate StringLess(a: string, b: string) {
    if b == "" then false
    else if a == "" then true
    else if a[0] != b[0] then a[0] < b[0]
    else StringLess(a[1..], b[1..])
  }

  /** One string comes before another at the first character that differs, or by being its beginning. */
  lemma {:induction false} StringLessInPlainTerms(a: string, b: string)
    ensures StringLess(a, b) <==>
      exists n :: 0 <= n <= |a| && n < |b| && a[..n] == b[..n] && (n == |a| || a[n] < b[n])
    decreases |a|
  {
    if a != "" && b != "" && a[0] == b[0] {
      StringLessInPlainTerms(a[1..], b[1..]);
      if StringLess(a, b) {
        var n :| 0 <= n <= |a[1..]| && n < |b[1..]| && a[1..][..n] == b[1..][..n]
                 && (n == |a[1..]| || a[1..][n] < b[1..][n]);
        assert a[..n + 1] == [a[0]] + a[1..][..n] && b[..n + 1] == [b[0]] + b[1..][..n];
        assert n + 1 == |a| || a[n + 1] < b[n + 1];
      }
      if n :| 0 <= n <= |a| && n < |b| && a[..n] == b[..n] && (n == |a| || a[n] < b[n]) {
        assert n > 0;
        assert a[1..][..n - 1] == a[..n][1..] && b[1..][..n - 1] == b[..n][1..];
        assert n - 1 == |a[1..]| || a[1..][n - 1] < b[1..][n - 1];
      }
    } else if StringLess(a, b) {
      assert a[..0] == b[..0];
    } else {
      assert forall n :: 0 < n <= |a| ==> a[..n][0] == a[0];
      assert forall n :: 0 < n <= |b| ==> b[..n][0] == b[0];
    }
  }

  predicate Precedes(newest: bool, a: Position, b: Position) {
    if newest then a.createdAt > b.createdAt || (a.createdAt == b.createdAt && StringLess(b.id, a.id))
    else a.createdAt < b.createdAt || (a.createdAt == b.createdAt && StringLess(a.id, b.id))
  }

  lemma {:induction false} StringLessTransitive(a: string, b: string, c: string)
    requires StringLess(a, b) && StringLess(b, c)
    ensures StringLess(a, c)
  {
    if a != "" && a[0] == b[0] && b[0] == c[0] {
      StringLessTransitive(a[1..], b[1..], c[1..]);
    }
  }

  lemma {:induction false} StringLessTotal(a: string, b: string)
    ensures a == b || StringLess(a, b) || StringLess(b, a)
    ensures !(StringLess(a, b) && StringLess(b, a)) && !StringLess(a, a)
  {
    if a != "" && b != "" && a[0] == b[0] {
      StringLessTotal(a[1..], b[1..]);
      assert a == [a[0]] + a[1..] && b == [b[0]] + b[1..];
    }
    if a != "" {
      StringLessTotal(a[1..], a[1..]);
    }
  }

  lemma PrecedesTransitive(newest: bool, a: Position, b: Position, c: Position)
    requires Precedes(newest, a, b) && Precedes(newest, b, c)
    ensures Precedes(newest, a, c)
  {
    if a.createdAt == b.createdAt == c.createdAt {
      if newest {
        StringLessTransitive(c.id, b.id, a.id);
      } else {
        StringLessTransitive(a.id, b.id, c.id);
      }
    }
  }

  lemma PrecedesTotal(newest: bool, a: Position, b: Position)
    ensures a == b || Precedes(newest, a, b) || Precedes(newest, b, a)
    ensures !(Precedes(newest, a, b) && Precedes(newest, b, a)) && !Precedes(newest, a, a)
  {
    StringLessTotal(a.id, b.id);
    StringLessTotal(a.id, a.id);
  }

  predicate IsFirst(newest: bool, s: set<Position>, m: Position) {
    m in s && forall x :: x in s && x != m ==> Precedes(newest, m, x)
  }

  lemma {:induction false} FirstExists(newest: bool, s: set<Position>)
    requires s != {}
    ensures exists m :: IsFirst(newest, s, m)
  {
    var x :| x in s;
    if s == {x} {
      assert IsFirst(newest, s, x);
    } else {
      FirstExists(newest, s - {x});
      var m :| IsFirst(newest, s - {x}, m);
      PrecedesTotal(newest, x, m);
      if Precedes(newest, x, m) {
        forall y | y in s && y != x ensures Precedes(newest, x, y) {
          if y != m {
            PrecedesTransitive(newest, x, m, y);
          }
        }
        assert IsFirst(newest, s, x);
      } else {
        assert IsFirst(newest, s, m);
      }
    }
  }

  function First(newest: bool, s: set<Position>): (m: Position)
    requires s != {}
    ensures IsFirst(newest, s, m)
  {
    FirstExists(newest, s);
    assert forall a, b :: IsFirst(newest, s, a) && IsFirst(newest, s, b) ==> a == b by {
      forall a, b | IsFirst(newest, s, a) && IsFirst(newest, s, b) ensures a == b {
        PrecedesTotal(newest, a, b);
      }
    }
    var m :| m in s && IsFirst(newest, s, m);
    m
  }

  ghost predicate Ordered(newest: bool, q: seq<Position>) {
    forall i, j :: 0 <= i < j < |q| ==> Precedes(newest, q[i], q[j])
  }

  /** SELECT … ORDER BY created_at, id over the positions of the selected rows. */
  function Listing(newest: bool, s: set<Position>): (q: seq<Position>)
    ensures Ordered(newest, q)
    ensures forall x :: x in q <==> x in s
    ensures |q| == |s|
    decreases |s|
  {
    if s == {} then []
    else
      var m := First(newest, s);
      var rest := Listing(newest, s - {m});
      assert forall i :: 0 <= i < |rest| ==> rest[i] in rest;
      [m] + rest
  }

  lemma FirstComesFirst(newest: bool, s: set<Position>, q: seq<Position>)
    requires Ordered(newest, q) && s != {} && forall x :: x in q <==> x in s
    ensures q != [] && q[0] == First(newest, s)
    ensures forall x :: x in q[1..] <==> x in s - {q[0]}
  {
    var m := First(newest, s);
    assert m in q;
    var k :| 0 <= k < |q| && q[k] == m;
    if k != 0 {
      assert q[0] in q;
      PrecedesTotal(newest, q[0], m);
    }
    hide StringLess, First;
    forall x ensures x in q[1..] <==> x in s - {m} {
      if x in q[1..] {
        var i :| 1 <= i < |q| && q[i] == x;
        assert Precedes(newest, q[0], q[i]);
        PrecedesTotal(newest, m, m);
        assert q[i] in q;
      }
    }
  }

  lemma ListingUnrolls(newest: bool, s: set<Position>, q: seq<Position>)
    requires s != {} && q != [] && q[0] == First(newest, s) && q[1..] == Listing(newest, s - {q[0]})
    ensures q == Listing(newest, s)
  {
    hide First;
    assert q == [q[0]] + q[1..];
  }

  /** There is one listing: any ordered sequence with the same members is it. */
  lemma {:induction false} ListingUnique(newest: bool, s: set<Position>, q: seq<Position>)
    requires Ordered(newest, q) && forall x :: x in q <==> x in s
    ensures q == Listing(newest, s)
    decreases |s|
  {
    assert q != [] ==> q[0] in q;
    hide Precedes, First;
    if s != {} {
      FirstComesFirst(newest, s, q);
      ListingUnique(newest, s - {q[0]}, q[1..]);
      ListingUnrolls(newest, s, q);
    }
  }
}
