/**
 * Orders used by the tracker's queries: the order of table rows by an integer
 * key (`ORDER BY id`), reversal of a table, and SQLite's default BINARY order
 * on TEXT values (`ORDER BY name ASC`).
 */
module Ordering {

  /** Rows strictly increasing in `key`, as AUTOINCREMENT ids are in append order. */
  ghost predicate Ascending<T>(s: seq<T>, key: T -> int)
  {
    forall i, j :: 0 <= i < j < |s| ==> key(s[i]) < key(s[j])
  }

  /** Rows strictly decreasing in `key`: the result of `ORDER BY key DESC`. */
  ghost predicate Descending<T>(s: seq<T>, key: T -> int)
  {
    forall i, j :: 0 <= i < j < |s| ==> key(s[i]) > key(s[j])
  }

  /** The rows of `s`, last one first. */
  function Reversed<T(!new)>(s: seq<T>): (r: seq<T>)
    ensures |r| == |s|
    ensures forall x :: x in r <==> x in s
  {
    var r := seq(|s|, i requires 0 <= i < |s| => s[|s| - 1 - i]);
    assert forall x :: x in s ==> x in r by {
      forall x | x in s ensures x in r {
        var k :| 0 <= k < |s| && s[k] == x;
        assert r[|s| - 1 - k] == x;
      }
    }
    r
  }

  /** Reversing rows appended in ascending key order lists them in descending order. */
  lemma ReversedAscending<T(!new)>(s: seq<T>, key: T -> int)
    requires Ascending(s, key)
    ensures Descending(Reversed(s), key)
  {
  }

  /**
   * A strictly descending order of a set of rows is unique: two sequences
   * holding the same rows, both strictly descending in `key`, are equal.
   * This is what makes `ORDER BY id DESC` a deterministic listing.
   */
  lemma {:induction false} DescendingIsUnique<T>(a: seq<T>, b: seq<T>, key: T -> int)
    requires Descending(a, key) && Descending(b, key)
    requires forall x :: x in a <==> x in b
    ensures a == b
  {
    assert a != [] ==> a[0] in b;
    assert b != [] ==> b[0] in a;
    if a != [] {
      var j :| 0 <= j < |b| && b[j] == a[0];
      var i :| 0 <= i < |a| && a[i] == b[0];
      assert key(b[0]) >= key(b[j]);
      assert key(a[0]) >= key(a[i]);
      assert a[0] == b[0];
      forall x ensures x in a[1..] <==> x in b[1..] {
        if x in a[1..] {
          var k :| 1 <= k < |a| && a[k] == x;
          assert key(a[0]) > key(a[k]);
          assert x in b && x != b[0];
          var m :| 0 <= m < |b| && b[m] == x;
          assert b[1..][m - 1] == x;
        }
        if x in b[1..] {
          var k :| 1 <= k < |b| && b[k] == x;
          assert key(b[0]) > key(b[k]);
          assert x in a && x != a[0];
          var m :| 0 <= m < |a| && a[m] == x;
          assert a[1..][m - 1] == x;
        }
      }
      DescendingIsUnique(a[1..], b[1..], key);
      assert a == [a[0]] + a[1..];
      assert b == [b[0]] + b[1..];
    }
  }

  /**
   * SQLite's BINARY collation: TEXT values compare by their UTF-8 bytes, which
   * is the order of their code points, and a proper prefix comes first.
   */
  predicate TextLe(a: string, b: string)
  {
    a == [] || (b != [] && (a[0] < b[0] || (a[0] == b[0] && TextLe(a[1..], b[1..]))))
  }

  lemma {:induction false} TextLeReflexive(a: string)
    ensures TextLe(a, a)
  {
    if a != [] {
      TextLeReflexive(a[1..]);
    }
  }

  lemma {:induction false} TextLeTotal(a: string, b: string)
    ensures TextLe(a, b) || TextLe(b, a)
  {
    if a != [] && b != [] && a[0] == b[0] {
      TextLeTotal(a[1..], b[1..]);
    }
  }

  lemma {:induction false} TextLeAntisymmetric(a: string, b: string)
    requires TextLe(a, b) && TextLe(b, a)
    ensures a == b
  {
    if a != [] {
      TextLeAntisymmetric(a[1..], b[1..]);
      assert a == [a[0]] + a[1..] && b == [b[0]] + b[1..];
    }
  }

  lemma {:induction false} TextLeTransitive(a: string, b: string, c: string)
    requires TextLe(a, b) && TextLe(b, c)
    ensures TextLe(a, c)
  {
    if a != [] && a[0] == b[0] && b[0] == c[0] {
      TextLeTransitive(a[1..], b[1..], c[1..]);
    }
  }
}
