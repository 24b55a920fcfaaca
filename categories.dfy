/** The order in which the timeline draws its categories:
    `sorted(df['Event Name'].unique(), reverse=True)` (src/visualization.py:27),
    that is the distinct event names, largest first, under Python's string
    order (lexicographic by code point, a proper prefix first). */
module Categories {

  /** Python's `a < b` on strings. */
  predicate LexLess(a: string, b: string)
  {
    if a == [] then b != []
    else if b == [] then false
    else if a[0] != b[0] then a[0] < b[0]
    else LexLess(a[1..], b[1..])
  }

  lemma {:induction false} LexIrreflexive(a: string)
    ensures !LexLess(a, a)
  {
    if a != [] {
      LexIrreflexive(a[1..]);
    }
  }

  lemma {:induction false} LexAsymmetric(a: string, b: string)
    ensures LexLess(a, b) ==> !LexLess(b, a)
  {
    if a != [] && b != [] && a[0] == b[0] {
      LexAsymmetric(a[1..], b[1..]);
    }
  }

  lemma {:induction false} LexTransitive(a: string, b: string, c: string)
    requires LexLess(a, b) && LexLess(b, c)
    ensures LexLess(a, c)
  {
    if a != [] && a[0] == b[0] && b[0] == c[0] {
      LexTransitive(a[1..], b[1..], c[1..]);
    }
  }

  lemma {:induction false} LexTotal(a: string, b: string)
    requires a != b
    ensures LexLess(a, b) || LexLess(b, a)
  {
    if a != [] && b != [] && a[0] == b[0] {
      assert a == [a[0]] + a[1..] && b == [b[0]] + b[1..];
      LexTotal(a[1..], b[1..]);
    }
  }

  /** Each element is larger than every later one. */
  ghost predicate StrictlyDescending(s: seq<string>)
  {
    forall i, j :: 0 <= i < j < |s| ==> LexLess(s[j], s[i])
  }

  /** A strictly descending sequence repeats no name. */
  lemma DescendingIsDistinct(s: seq<string>)
    requires StrictlyDescending(s)
    ensures forall i, j :: 0 <= i < j < |s| ==> s[i] != s[j]
  {
    forall i, j | 0 <= i < j < |s| ensures s[i] != s[j] {
      LexIrreflexive(s[i]);
    }
  }

  lemma DescendingTail(s: seq<string>)
    requires s != [] && StrictlyDescending(s)
    ensures StrictlyDescending(s[1..])
  {
    forall i, j | 0 <= i < j < |s| - 1 ensures LexLess(s[1..][j], s[1..][i]) {
      assert s[1..][i] == s[i + 1] && s[1..][j] == s[j + 1];
    }
  }

  lemma DescendingCons(a: string, rest: seq<string>)
    requires StrictlyDescending(rest)
    requires forall k :: 0 <= k < |rest| ==> LexLess(rest[k], a)
    ensures StrictlyDescending([a] + rest)
  {
    var s := [a] + rest;
    forall i, j | 0 <= i < j < |s| ensures LexLess(s[j], s[i]) {
      assert s[j] == rest[j - 1];
      if i > 0 {
        assert s[i] == rest[i - 1];
      }
    }
  }

  /** Below the head of a descending sequence lies all of it but the head. */
  lemma BelowHead(s: seq<string>, x: string)
    requires s != [] && StrictlyDescending(s)
    requires LexLess(s[0], x)
    ensures forall k :: 0 <= k < |s| ==> LexLess(s[k], x)
  {
    forall k | 0 < k < |s| ensures LexLess(s[k], x) {
      LexTransitive(s[k], s[0], x);
    }
  }

  /** Inserts `x` into a strictly descending sequence, unless it is already
      there. */
  function InsertDescending(x: string, s: seq<string>): (r: seq<string>)
    requires StrictlyDescending(s)
    ensures StrictlyDescending(r)
    ensures forall y :: y in r <==> y == x || y in s
  {
    if s == [] then [x]
    else if x == s[0] then s
    else if LexLess(s[0], x) then
      BelowHead(s, x);
      DescendingCons(x, s);
      [x] + s
    else
      LexTotal(x, s[0]);
      DescendingTail(s);
      var rest := InsertDescending(x, s[1..]);
      InsertBelow(x, s, rest);
      DescendingCons(s[0], rest);
      assert s == [s[0]] + s[1..];
      [s[0]] + rest
  }

  lemma InsertBelow(x: string, s: seq<string>, rest: seq<string>)
    requires s != [] && StrictlyDescending(s) && LexLess(x, s[0])
    requires forall y :: y in rest <==> y == x || y in s[1..]
    ensures forall k :: 0 <= k < |rest| ==> LexLess(rest[k], s[0])
  {
    forall k | 0 <= k < |rest| ensures LexLess(rest[k], s[0]) {
      assert rest[k] in rest;
      if rest[k] != x {
        var j :| 0 <= j < |s[1..]| && s[1..][j] == rest[k];
        assert s[j + 1] == rest[k];
      }
    }
  }

  /** The category order: every name exactly once, largest first. */
  function CategoryOrder(names: seq<string>): (r: seq<string>)
    ensures StrictlyDescending(r)
    ensures forall y :: y in r <==> y in names
  {
    if names == [] then []
    else
      var n := |names| - 1;
      var r := InsertDescending(names[n], CategoryOrder(names[..n]));
      assert forall y :: y in names <==> y == names[n] || y in names[..n] by {
        assert names == names[..n] + [names[n]];
      }
      r
  }

  /** Two strictly descending sequences with the same names are equal, so
      the category order depends only on the set of names, not on how it is
      computed or on the order of the rows. */
  lemma {:induction false} DescendingUnique(a: seq<string>, b: seq<string>)
    requires StrictlyDescending(a) && StrictlyDescending(b)
    requires forall y :: y in a <==> y in b
    ensures a == b
    decreases |a|
  {
    assert a != [] ==> a[0] in a;
    assert b != [] ==> b[0] in b;
    if a != [] {
      var x, y := a[0], b[0];
      assert x in b && y in a;
      var i :| 0 <= i < |b| && b[i] == x;
      var j :| 0 <= j < |a| && a[j] == y;
      LexAsymmetric(x, y);
      assert i == 0 || LexLess(x, y);
      assert j == 0 || LexLess(y, x);
      assert x == y;
      DescendingTail(a);
      DescendingTail(b);
      DescendingIsDistinct(a);
      DescendingIsDistinct(b);
      forall y ensures y in a[1..] <==> y in b[1..] {
        if y in a[1..] {
          var k :| 0 <= k < |a| - 1 && a[1..][k] == y;
          assert a[k + 1] == y && y != a[0];
          assert y in b;
          var m :| 0 <= m < |b| && b[m] == y;
          assert m != 0;
          assert b[1..][m - 1] == y;
        }
        if y in b[1..] {
          var k :| 0 <= k < |b| - 1 && b[1..][k] == y;
          assert b[k + 1] == y && y != b[0];
          assert y in a;
          var m :| 0 <= m < |a| && a[m] == y;
          assert m != 0;
          assert a[1..][m - 1] == y;
        }
      }
      DescendingUnique(a[1..], b[1..]);
      assert a == [a[0]] + a[1..] && b == [b[0]] + b[1..];
    }
  }
}
