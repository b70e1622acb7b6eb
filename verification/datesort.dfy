/**
 The final ordering of the order list: Python's `list.sort` with the order
 date as key and `reverse=True`. The key is compared as a plain string, and
 the sort is stable even when reversed, so rows with equal dates keep the
 order in which the pages delivered them.
 */
module DateSort {
  import opened PyStrings
  import opened Orders

  /** Inserts `x` after every row whose date is not earlier than its own. */
  function Insert(x: Order, s: seq<Order>): seq<Order>
  {
    if |s| == 0 then [x]
    else if Less(s[0].date, x.date) then [x] + s
    else [s[0]] + Insert(x, s[1..])
  }

  /** `sorted(rows, key=date, reverse=True)`, as repeated insertion in list order. */
  function SortByDate(rows: seq<Order>): seq<Order>
  {
    if |rows| == 0 then []
    else Insert(rows[|rows| - 1], SortByDate(rows[..|rows| - 1]))
  }

  /** No row has an earlier date than a row after it. */
  predicate NewestFirst(s: seq<Order>)
  {
    forall i, j :: 0 <= i < j < |s| ==> !Less(s[i].date, s[j].date)
  }

  /** The rows of `s` dated `d`, in their order in `s`. */
  function WithDate(s: seq<Order>, d: string): seq<Order>
  {
    if |s| == 0 then []
    else (if s[0].date == d then [s[0]] else []) + WithDate(s[1..], d)
  }

  // ---------------------------------------------------------------------------
  // the three properties of the sort
  // ---------------------------------------------------------------------------

  /** The sort returns the same rows: a permutation of its input. */
  lemma {:induction false} SortPermutes(rows: seq<Order>)
    ensures multiset(SortByDate(rows)) == multiset(rows)
    decreases |rows|
  {
    if |rows| > 0 {
      var init := rows[..|rows| - 1];
      var x := rows[|rows| - 1];
      assert rows == init + [x];
      calc {
        multiset(SortByDate(rows));
        multiset(Insert(x, SortByDate(init)));
        { InsertPermutes(x, SortByDate(init)); }
        multiset(SortByDate(init)) + multiset{x};
        { SortPermutes(init); }
        multiset(init) + multiset{x};
        multiset(rows);
      }
    }
  }

  /** The sort's result is newest first. */
  lemma {:induction false} SortOrders(rows: seq<Order>)
    ensures NewestFirst(SortByDate(rows))
    decreases |rows|
  {
    if |rows| > 0 {
      SortOrders(rows[..|rows| - 1]);
      InsertOrders(rows[|rows| - 1], SortByDate(rows[..|rows| - 1]));
    }
  }

  /** The sort is stable: for every date, the rows with that date appear in the
      result in the same order as in the input. */
  lemma {:induction false} SortIsStable(rows: seq<Order>, d: string)
    ensures WithDate(SortByDate(rows), d) == WithDate(rows, d)
    decreases |rows|
  {
    if |rows| > 0 {
      var init := rows[..|rows| - 1];
      var x := rows[|rows| - 1];
      SortIsStable(init, d);
      SortOrders(init);
      InsertIsStable(x, SortByDate(init), d);
      assert rows == init + [x];
      WithDateConcat(init, [x], d);
    }
  }

  /** The stable newest-first arrangement is unique: any arrangement that is
      newest first and keeps every date's rows in input order IS the sort's result. */
  lemma SortIsTheStableSort(rows: seq<Order>, r: seq<Order>)
    requires NewestFirst(r)
    requires forall d :: WithDate(r, d) == WithDate(rows, d)
    ensures r == SortByDate(rows)
  {
    var s := SortByDate(rows);
    SortOrders(rows);
    forall d ensures WithDate(r, d) == WithDate(s, d) {
      SortIsStable(rows, d);
    }
    StableArrangementUnique(r, s);
  }

  // ---------------------------------------------------------------------------
  // insertion
  // ---------------------------------------------------------------------------

  lemma {:induction false} InsertPermutes(x: Order, s: seq<Order>)
    ensures multiset(Insert(x, s)) == multiset(s) + multiset{x}
    decreases |s|
  {
    if |s| > 0 && !Less(s[0].date, x.date) {
      InsertPermutes(x, s[1..]);
      assert s == [s[0]] + s[1..];
    }
  }

  /** `a` is not earlier than `b`, and `b` not earlier than `c`: then `a` is
      not earlier than `c`. */
  lemma NotLessTransitive(a: string, b: string, c: string)
    requires !Less(a, b) && !Less(b, c)
    ensures !Less(a, c)
  {
    LessTotal(a, b);
    LessTotal(b, c);
    if Less(c, b) && Less(b, a) {
      LessTransitive(c, b, a);
      LessAsymmetric(c, a);
    } else if a == b && Less(c, b) {
      LessAsymmetric(c, a);
    } else if b == c && Less(b, a) {
      LessAsymmetric(c, a);
    } else {
      LessIrreflexive(a);
    }
  }

  lemma {:induction false} InsertOrders(x: Order, s: seq<Order>)
    requires NewestFirst(s)
    ensures NewestFirst(Insert(x, s))
    decreases |s|
  {
    if |s| > 0 {
      if Less(s[0].date, x.date) {
        var r := [x] + s;
        forall i, j | 0 <= i < j < |r| ensures !Less(r[i].date, r[j].date) {
          if i == 0 {
            LessAsymmetric(s[0].date, x.date);
            if j > 1 {
              NotLessTransitive(x.date, s[0].date, s[j - 1].date);
            }
          }
        }
      } else {
        var t := s[1..];
        InsertOrders(x, t);
        InsertPermutes(x, t);
        var r := [s[0]] + Insert(x, t);
        forall i, j | 0 <= i < j < |r| ensures !Less(r[i].date, r[j].date) {
          if i == 0 {
            var y := r[j];
            assert y in multiset(Insert(x, t));
            if y != x {
              assert y in multiset(t);
              var k :| 0 <= k < |t| && t[k] == y;
              assert s[k + 1] == y;
            }
          }
        }
      }
    }
  }

  /** Rows dated `d` in a list all of whose dates are earlier than `d`: none. */
  lemma {:induction false} NoneWithLaterDate(s: seq<Order>, d: string)
    requires forall i :: 0 <= i < |s| ==> Less(s[i].date, d)
    ensures WithDate(s, d) == []
    decreases |s|
  {
    if |s| > 0 {
      LessIrreflexive(d);
      NoneWithLaterDate(s[1..], d);
    }
  }

  /** Inserting into a newest-first list puts `x` after every row with its date. */
  lemma {:induction false} InsertIsStable(x: Order, s: seq<Order>, d: string)
    requires NewestFirst(s)
    ensures WithDate(Insert(x, s), d) == WithDate(s, d) + (if x.date == d then [x] else [])
    decreases |s|
  {
    var hx := if x.date == d then [x] else [];
    if |s| == 0 {
    } else if Less(s[0].date, x.date) {
      if x.date == d {
        EarlierThanHead(x, s);
        NoneWithLaterDate(s, d);
      }
      assert ([x] + s)[1..] == s;
      assert WithDate([x] + s, d) == hx + WithDate(s, d);
    } else {
      var t := s[1..];
      var hs := if s[0].date == d then [s[0]] else [];
      assert NewestFirst(t);
      InsertIsStable(x, t, d);
      assert ([s[0]] + Insert(x, t))[1..] == Insert(x, t);
      calc {
        WithDate(Insert(x, s), d);
        WithDate([s[0]] + Insert(x, t), d);
        hs + WithDate(Insert(x, t), d);
        hs + (WithDate(t, d) + hx);
        (hs + WithDate(t, d)) + hx;
        WithDate(s, d) + hx;
      }
    }
  }

  /** In a newest-first list whose head is earlier than `x`, every row is. */
  lemma EarlierThanHead(x: Order, s: seq<Order>)
    requires NewestFirst(s) && |s| > 0 && Less(s[0].date, x.date)
    ensures forall i :: 0 <= i < |s| ==> Less(s[i].date, x.date)
  {
    forall i | 0 < i < |s| ensures Less(s[i].date, x.date) {
      LessTotal(s[0].date, s[i].date);
      if s[0].date != s[i].date {
        LessTransitive(s[i].date, s[0].date, x.date);
      }
    }
  }

  // ---------------------------------------------------------------------------
  // rows with one date
  // ---------------------------------------------------------------------------

  lemma {:induction false} WithDateConcat(a: seq<Order>, b: seq<Order>, d: string)
    ensures WithDate(a + b, d) == WithDate(a, d) + WithDate(b, d)
    decreases |a|
  {
    if |a| == 0 {
      assert a + b == b;
    } else {
      var head := if a[0].date == d then [a[0]] else [];
      assert (a + b)[0] == a[0];
      assert (a + b)[1..] == a[1..] + b;
      WithDateConcat(a[1..], b, d);
      calc {
        WithDate(a + b, d);
        head + WithDate(a[1..] + b, d);
        head + (WithDate(a[1..], d) + WithDate(b, d));
        (head + WithDate(a[1..], d)) + WithDate(b, d);
      }
    }
  }

  /** Every row picked for date `d` is a row of `s` with that date. */
  lemma {:induction false} WithDateMembers(s: seq<Order>, d: string)
    ensures forall y :: y in WithDate(s, d) ==> y in s && y.date == d
    decreases |s|
  {
    if |s| > 0 {
      WithDateMembers(s[1..], d);
    }
  }

  /** When two lists agree on the rows of every date, the first date of one is
      not later than the first date of the other, if that one is newest first. */
  lemma NewestFirstHead(r: seq<Order>, s: seq<Order>)
    requires |r| > 0 && |s| > 0 && NewestFirst(s)
    requires forall d :: WithDate(r, d) == WithDate(s, d)
    ensures !Less(s[0].date, r[0].date)
  {
    var a := r[0].date;
    assert WithDate(r, a)[0] == r[0];
    WithDateMembers(s, a);
    assert r[0] in WithDate(s, a);
    var k :| 0 <= k < |s| && s[k] == r[0];
    if k == 0 {
      LessIrreflexive(a);
    }
  }

  /** Lists that agree on the rows of every date are empty together. */
  lemma NonEmptyTogether(r: seq<Order>, s: seq<Order>)
    requires forall d :: WithDate(r, d) == WithDate(s, d)
    ensures |r| == 0 <==> |s| == 0
  {
    if |r| > 0 {
      assert WithDate(r, r[0].date)[0] == r[0];
      assert WithDate(s, r[0].date) != [];
    }
    if |s| > 0 {
      assert WithDate(s, s[0].date)[0] == s[0];
      assert WithDate(r, s[0].date) != [];
    }
  }

  /** Two newest-first lists that agree on the rows of every date are equal. */
  lemma {:induction false} StableArrangementUnique(r: seq<Order>, s: seq<Order>)
    requires NewestFirst(r) && NewestFirst(s)
    requires forall d :: WithDate(r, d) == WithDate(s, d)
    ensures r == s
    decreases |r|
  {
    NonEmptyTogether(r, s);
    if |r| > 0 {
      var a := r[0].date;
      var b := s[0].date;
      // r's first date also occurs in s, so it is not later than s's first date
      NewestFirstHead(r, s);
      NewestFirstHead(s, r);
      LessTotal(a, b);
      assert a == b;
      assert r[0] == s[0] by {
        assert WithDate(r, a)[0] == r[0];
        assert WithDate(s, a)[0] == s[0];
      }
      forall d ensures WithDate(r[1..], d) == WithDate(s[1..], d) {
        var hr := if a == d then [r[0]] else [];
        assert WithDate(r, d) == hr + WithDate(r[1..], d);
        assert WithDate(s, d) == hr + WithDate(s[1..], d);
        assert WithDate(r[1..], d) == (hr + WithDate(r[1..], d))[|hr|..];
        assert WithDate(s[1..], d) == (hr + WithDate(s[1..], d))[|hr|..];
      }
      StableArrangementUnique(r[1..], s[1..]);
      assert r == [r[0]] + r[1..];
      assert s == [s[0]] + s[1..];
    }
  }
}
