/**
  The ordering of Rust `String`s (byte-wise lexicographic, which on UTF-8 is
  the order of code points) and sequences sorted by it: `Vec::sort` on paths
  and `ORDER BY tag ASC` on tag names.
 */
module Order {

  /** Strictly before `b` in lexicographic order. */
  predicate Below(a: string, b: string)
    decreases |a|
  {
    |b| > 0 && (|a| == 0 || a[0] < b[0] || (a[0] == b[0] && Below(a[1..], b[1..])))
  }

  lemma BelowIrreflexive(a: string)
    ensures !Below(a, a)
  {
    if |a| > 0 {
      BelowIrreflexive(a[1..]);
    }
  }

  lemma BelowTransitive(a: string, b: string, c: string)
    requires Below(a, b) && Below(b, c)
    ensures Below(a, c)
    decreases |a|
  {
    if |a| > 0 && a[0] == b[0] && b[0] == c[0] {
      BelowTransitive(a[1..], b[1..], c[1..]);
    }
  }

  lemma BelowTotal(a: string, b: string)
    requires a != b
    ensures Below(a, b) || Below(b, a)
    decreases |a|
  {
    if |a| > 0 && |b| > 0 && a[0] == b[0] {
      assert a == [a[0]] + a[1..] && b == [b[0]] + b[1..];
      BelowTotal(a[1..], b[1..]);
    }
  }

  lemma BelowAsymmetric(a: string, b: string)
    requires Below(a, b)
    ensures !Below(b, a)
  {
    if Below(b, a) {
      BelowTransitive(a, b, a);
      BelowIrreflexive(a);
    }
  }

  /** Strictly ascending, hence also free of duplicates. */
  predicate Ascending(s: seq<string>) {
    forall i, j :: 0 <= i < j < |s| ==> Below(s[i], s[j])
  }

  /** The least element of a non-empty finite set of strings. */
  ghost function Least(s: set<string>): (m: string)
    requires s != {}
    ensures m in s
    ensures forall y :: y in s && y != m ==> Below(m, y)
    decreases |s|
  {
    var x :| x in s;
    if s == {x} then x
    else
      var m := Least(s - {x});
      if Below(x, m) then
        assert forall y :: y in s - {x} && y != m ==> Below(x, y) by {
          forall y | y in s - {x} && y != m
            ensures Below(x, y)
          {
            BelowTransitive(x, m, y);
          }
        }
        x
      else
        assert x != m;
        BelowTotal(x, m);
        m
  }

  /** The elements of `s` in ascending order. */
  ghost function SortedSet(s: set<string>): (r: seq<string>)
    ensures Ascending(r)
    ensures forall x :: x in r <==> x in s
    ensures |r| == |s|
    decreases |s|
  {
    if s == {} then []
    else
      var m := Least(s);
      var rest := SortedSet(s - {m});
      assert forall j :: 0 <= j < |rest| ==> Below(m, rest[j]) by {
        forall j | 0 <= j < |rest|
          ensures Below(m, rest[j])
        {
          assert rest[j] in s - {m};
        }
      }
      [m] + rest
  }

  lemma HeadLeast(s: seq<string>, x: string)
    requires Ascending(s) && x in s && x != s[0]
    ensures Below(s[0], x)
  {
    var j :| 0 <= j < |s| && s[j] == x;
  }

  lemma TailElements(s: seq<string>)
    requires Ascending(s) && s != []
    ensures forall x :: x in s[1..] <==> (x in s && x != s[0])
  {
    BelowIrreflexive(s[0]);
    assert s == [s[0]] + s[1..];
    forall x | x in s[1..]
      ensures x != s[0]
    {
      var j :| 0 <= j < |s[1..]| && s[1..][j] == x;
      assert Below(s[0], s[j + 1]);
    }
  }

  /** Two ascending sequences with the same elements are equal. */
  lemma {:induction false} AscendingUnique(a: seq<string>, b: seq<string>)
    requires Ascending(a) && Ascending(b)
    requires forall x :: x in a <==> x in b
    ensures a == b
    decreases |a|
  {
    assert |a| == 0 || a[0] in a;
    assert |b| == 0 || b[0] in b;
    if a != [] && b != [] {
      if a[0] != b[0] {
        HeadLeast(b, a[0]);
        HeadLeast(a, b[0]);
        BelowAsymmetric(a[0], b[0]);
      } else {
        TailElements(a);
        TailElements(b);
        assert Ascending(a[1..]) && Ascending(b[1..]);
        AscendingUnique(a[1..], b[1..]);
        assert a == [a[0]] + a[1..] && b == [b[0]] + b[1..];
      }
    }
  }
}
