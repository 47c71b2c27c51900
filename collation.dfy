/**
 * How SQLite compares and filters the `date` column of the CA table.
 *
 * Text columns use the BINARY collation: strings are compared code point by
 * code point (the same order as comparing their UTF-8 bytes), and a proper
 * prefix sorts before any of its extensions. `ORDER BY date` is therefore the
 * order `Less` below. A `LIKE` pattern whose only wildcard is a trailing `%`
 * and whose other characters are digits and `-` is a plain prefix test, which
 * Dafny writes `p <= s`.
 */
module Collation {

  /** Strict lexicographic order on strings (SQLite's BINARY collation). */
  predicate Less(a: string, b: string)
  {
    if a == [] then b != []
    else if b == [] then false
    else a[0] < b[0] || (a[0] == b[0] && Less(a[1..], b[1..]))
  }

  /** No string sorts before itself. */
  lemma {:induction false} LessIrreflexive(a: string)
    ensures !Less(a, a)
  {
    if a != [] {
      LessIrreflexive(a[1..]);
    }
  }

  lemma {:induction false} LessTransitive(a: string, b: string, c: string)
    requires Less(a, b) && Less(b, c)
    ensures Less(a, c)
  {
    if a != [] && b != [] && c != [] && a[0] == b[0] == c[0] {
      LessTransitive(a[1..], b[1..], c[1..]);
    }
  }

  /** Two different strings are always ordered one way or the other. */
  lemma {:induction false} LessTotal(a: string, b: string)
    ensures a == b || Less(a, b) || Less(b, a)
  {
    if a != [] && b != [] && a[0] == b[0] {
      LessTotal(a[1..], b[1..]);
      if a[1..] == b[1..] {
        assert a == [a[0]] + a[1..] && b == [b[0]] + b[1..];
      }
    }
  }

  /** At most one of `Less(a, b)` and `Less(b, a)` holds. */
  lemma {:induction false} LessAsymmetric(a: string, b: string)
    ensures !(Less(a, b) && Less(b, a))
  {
    if Less(a, b) && Less(b, a) {
      LessTransitive(a, b, a);
      LessIrreflexive(a);
    }
  }

  /**
   * Comparing two concatenations whose first parts have the same length
   * compares the first parts, and the second parts only when the first parts
   * are equal.
   */
  lemma {:induction false} LessAppend(a: string, b: string, c: string, d: string)
    requires |a| == |b|
    ensures Less(a + c, b + d) <==> Less(a, b) || (a == b && Less(c, d))
  {
    if a != [] {
      assert (a + c)[0] == a[0] && (a + c)[1..] == a[1..] + c;
      assert (b + d)[0] == b[0] && (b + d)[1..] == b[1..] + d;
      LessAppend(a[1..], b[1..], c, d);
      if a[0] == b[0] && a[1..] == b[1..] {
        assert a == [a[0]] + a[1..] && b == [b[0]] + b[1..];
      }
    } else {
      assert a + c == c && b + d == d;
    }
  }

  /** Single characters compare as their code points. */
  lemma LessSingleton(x: char, y: char)
    ensures Less([x], [y]) <==> x < y
  {
    assert [x][1..] == [] && [y][1..] == [];
  }

  /** `k` is a smallest element of `s`. */
  predicate IsLeast(k: string, s: set<string>)
  {
    k in s && forall j :: j in s ==> !Less(j, k)
  }

  /** Every non-empty finite set of strings has a smallest element. */
  lemma {:induction false} LeastExists(s: set<string>)
    requires s != {}
    ensures exists k :: IsLeast(k, s)
  {
    var x :| x in s;
    if s == {x} {
      LessIrreflexive(x);
      assert IsLeast(x, s);
    } else {
      LeastExists(s - {x});
      var m :| IsLeast(m, s - {x});
      if Less(x, m) {
        forall j | j in s
          ensures !Less(j, x)
        {
          if j == x {
            LessIrreflexive(x);
          } else if Less(j, x) {
            LessTransitive(j, x, m);
          }
        }
        assert IsLeast(x, s);
      } else {
        assert IsLeast(m, s);
      }
    }
  }

  /** The smallest element of a set is unique. */
  lemma LeastUnique(s: set<string>)
    ensures forall k, k' :: IsLeast(k, s) && IsLeast(k', s) ==> k == k'
  {
    forall k, k' | IsLeast(k, s) && IsLeast(k', s)
      ensures k == k'
    {
      LessTotal(k, k');
    }
  }

  /** Strictly ascending: every earlier element sorts before every later one. */
  predicate Ascending(r: seq<string>)
  {
    forall i, j :: 0 <= i < j < |r| ==> Less(r[i], r[j])
  }

  /**
   * The elements of `s` in ascending order, each once: what a query with
   * `ORDER BY` on the primary key lists.
   */
  function SortedKeys(s: set<string>): (r: seq<string>)
    ensures forall k :: k in r <==> k in s
    ensures Ascending(r)
    ensures |r| == |s|
    decreases |s|
  {
    if s == {} then []
    else
      LeastExists(s);
      LeastUnique(s);
      var k :| IsLeast(k, s);
      var rest := SortedKeys(s - {k});
      assert forall j :: j in rest ==> Less(k, j) by {
        forall j | j in rest
          ensures Less(k, j)
        {
          LessTotal(k, j);
        }
      }
      [k] + rest
  }

  /**
   * An ascending listing is determined by its elements: two ascending
   * sequences holding the same strings are equal.
   */
  lemma {:induction false} AscendingUnique(r: seq<string>, q: seq<string>)
    requires Ascending(r) && Ascending(q)
    requires forall k :: k in r <==> k in q
    ensures r == q
  {
    if r != [] { assert r[0] in q; }
    if q != [] { assert q[0] in r; }
    if r != [] && q != [] {
      assert q[0] in r && r[0] in q;
      var i :| 0 <= i < |r| && r[i] == q[0];
      var j :| 0 <= j < |q| && q[j] == r[0];
      if i > 0 && j > 0 {
        LessAsymmetric(r[0], q[0]);
      }
      assert r[0] == q[0];
      forall k
        ensures k in r[1..] <==> k in q[1..]
      {
        if k in r[1..] {
          var a :| 1 <= a < |r| && r[a] == k;
          LessIrreflexive(r[0]);
          assert k != q[0] && k in q;
        }
        if k in q[1..] {
          var b :| 1 <= b < |q| && q[b] == k;
          LessIrreflexive(q[0]);
          assert k != r[0] && k in r;
        }
      }
      AscendingUnique(r[1..], q[1..]);
      assert r == [r[0]] + r[1..] && q == [q[0]] + q[1..];
    }
  }
}
