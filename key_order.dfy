/**
 The key order of the message map. The map is a `BTreeMap<String, _>`, so it is
 iterated in ascending order of Rust's `Ord` for `String`: lexicographic
 comparison, character by character (comparing the UTF-8 bytes gives the same
 order as comparing code points). This module defines that order, the least key
 of a finite set of keys, and the sequence in which a set of keys is visited.
 */
module KeyOrder {

  /** Strict lexicographic order on strings; a proper prefix comes first. */
  predicate Less(a: string, b: string)
    ensures Less(a, b) ==> a != b
    decreases |a|
  {
    if |a| == 0 then |b| > 0
    else |b| > 0 && (a[0] < b[0] || (a[0] == b[0] && Less(a[1..], b[1..])))
  }

  /**
   `a` and `b` agree on their first `k` characters, and there `a` ends while
   `b` goes on, or `a` has the smaller character.
   */
  predicate FirstDifference(a: string, b: string, k: nat)
  {
    && k <= |a| && k <= |b|
    && a[..k] == b[..k]
    && ((k == |a| && k < |b|) || (k < |a| && k < |b| && a[k] < b[k]))
  }

  /** Where two strings first differ in `b`'s favour, `a` is below `b`. */
  lemma {:induction false} FirstDifferenceLess(a: string, b: string, k: nat)
    requires FirstDifference(a, b, k)
    ensures Less(a, b)
    decreases k
  {
    if k > 0 {
      assert a[0] == a[..k][0] && b[0] == b[..k][0];
      assert a[1..][..k - 1] == a[..k][1..] && b[1..][..k - 1] == b[..k][1..];
      FirstDifferenceLess(a[1..], b[1..], k - 1);
    }
  }

  /** Where `a` is below `b`, the two strings first differ in `b`'s favour. */
  lemma {:induction false} LessFirstDifference(a: string, b: string)
    requires Less(a, b)
    ensures exists k: nat :: FirstDifference(a, b, k)
    decreases |a|
  {
    if |a| > 0 && a[0] == b[0] && Less(a[1..], b[1..]) {
      LessFirstDifference(a[1..], b[1..]);
      var k: nat :| FirstDifference(a[1..], b[1..], k);
      assert a[..k + 1] == [a[0]] + a[1..][..k];
      assert b[..k + 1] == [b[0]] + b[1..][..k];
      assert FirstDifference(a, b, k + 1);
    } else {
      assert FirstDifference(a, b, 0);
    }
  }

  /** `Less` is the textbook lexicographic order: it holds exactly where the strings first differ in `b`'s favour. */
  lemma LessLexicographic(a: string, b: string)
    ensures Less(a, b) <==> exists k: nat :: FirstDifference(a, b, k)
  {
    if Less(a, b) {
      LessFirstDifference(a, b);
    }
    if k: nat :| FirstDifference(a, b, k) {
      FirstDifferenceLess(a, b, k);
    }
  }

  /** Every element is strictly below every later one: ascending, no repeats. */
  predicate StrictlySorted(s: seq<string>)
  {
    forall i, j :: 0 <= i < j < |s| ==> Less(s[i], s[j])
  }

  /** `k` is the smallest key of `s`. */
  predicate IsLeast(k: string, s: set<string>)
  {
    k in s && forall x {:trigger Less(k, x)} :: x in s && x != k ==> Less(k, x)
  }

  lemma {:induction false} LessIrreflexive(a: string)
    ensures !Less(a, a)
    decreases |a|
  {
    if |a| > 0 {
      LessIrreflexive(a[1..]);
    }
  }

  lemma {:induction false} LessAsymmetric(a: string, b: string)
    ensures Less(a, b) ==> !Less(b, a)
    decreases |a|
  {
    if |a| > 0 && |b| > 0 && a[0] == b[0] {
      LessAsymmetric(a[1..], b[1..]);
    }
  }

  lemma {:induction false} LessTransitive(a: string, b: string, c: string)
    requires Less(a, b) && Less(b, c)
    ensures Less(a, c)
    decreases |a|
  {
    if |a| > 0 && a[0] == b[0] && b[0] == c[0] {
      LessTransitive(a[1..], b[1..], c[1..]);
    }
  }

  lemma {:induction false} LessTotal(a: string, b: string)
    requires a != b
    ensures Less(a, b) || Less(b, a)
    decreases |a|
  {
    if |a| > 0 && |b| > 0 && a[0] == b[0] {
      assert a == [a[0]] + a[1..] && b == [b[0]] + b[1..];
      LessTotal(a[1..], b[1..]);
    }
  }

  /** Every non-empty finite set of keys has a smallest key. */
  lemma {:induction false} LeastExists(s: set<string>)
    requires s != {}
    ensures exists k :: IsLeast(k, s)
    decreases s
  {
    var x :| x in s;
    if s == {x} {
      assert IsLeast(x, s);
    } else {
      LeastExists(s - {x});
      var k :| IsLeast(k, s - {x});
      LessTotal(x, k);
      if Less(x, k) {
        forall y | y in s && y != x
          ensures Less(x, y)
        {
          if y != k {
            LessTransitive(x, k, y);
          }
        }
        assert IsLeast(x, s);
      } else {
        assert IsLeast(k, s);
      }
    }
  }

  lemma LeastUnique(a: string, b: string, s: set<string>)
    requires IsLeast(a, s) && IsLeast(b, s)
    ensures a == b
  {
    LessAsymmetric(a, b);
  }

  /** The smallest key of a non-empty set. */
  ghost function Least(s: set<string>): (k: string)
    requires s != {}
    ensures IsLeast(k, s)
  {
    LeastExists(s);
    var k :| IsLeast(k, s);
    k
  }

  /**
   The keys of `s` in the order a `BTreeMap` with key set `s` visits them:
   every key exactly once, from the least up (OrderedSorted).
   */
  ghost function Ordered(s: set<string>): (r: seq<string>)
    ensures |r| == |s|
    ensures forall x :: x in r <==> x in s
    decreases s
  {
    if s == {} then [] else [Least(s)] + Ordered(s - {Least(s)})
  }

  /** The least key of `s` followed by the other keys in ascending order is ascending. */
  lemma LeastFirstSorted(s: set<string>, k: string, rest: seq<string>)
    requires IsLeast(k, s)
    requires StrictlySorted(rest)
    requires forall x :: x in rest ==> x in s - {k}
    ensures StrictlySorted([k] + rest)
  {
    forall i, j | 0 <= i < j < |[k] + rest|
      ensures Less(([k] + rest)[i], ([k] + rest)[j])
    {
      if i > 0 {
        assert ([k] + rest)[i] == rest[i - 1] && ([k] + rest)[j] == rest[j - 1];
      } else {
        assert rest[j - 1] in s - {k};
      }
    }
  }

  /** The visit order is ascending. */
  lemma {:induction false} OrderedSorted(s: set<string>)
    ensures StrictlySorted(Ordered(s))
    decreases s
  {
    if s != {} {
      var k := Least(s);
      OrderedSorted(s - {k});
      LeastFirstSorted(s, k, Ordered(s - {k}));
    }
  }

  /** The visit order starts at the least key and goes on with the rest. */
  lemma OrderedUnfold(s: set<string>, k: string)
    requires IsLeast(k, s)
    ensures Ordered(s) == [k] + Ordered(s - {k})
  {
    LeastUnique(k, Least(s), s);
  }

  /** Two ascending sequences holding the same keys are the same sequence. */
  lemma {:induction false} SortedUnique(a: seq<string>, b: seq<string>)
    requires StrictlySorted(a) && StrictlySorted(b)
    requires forall x :: x in a <==> x in b
    ensures a == b
    decreases |a|
  {
    assert a != [] ==> a[0] in b;
    assert b != [] ==> b[0] in a;
    if a != [] && b != [] {
      assert a[0] == b[0] by {
        LessAsymmetric(a[0], b[0]);
        assert b[0] in a;
        assert a[0] in b;
      }
      forall x
        ensures x in a[1..] <==> x in b[1..]
      {
        LessIrreflexive(x);
        if x in a[1..] {
          var i :| 0 <= i < |a| - 1 && a[1..][i] == x;
          assert Less(a[0], a[i + 1]);
          assert x in a && x in b;
          var j :| 0 <= j < |b| && b[j] == x;
          assert j != 0;
          assert b[1..][j - 1] == x;
        }
        if x in b[1..] {
          var j :| 0 <= j < |b| - 1 && b[1..][j] == x;
          assert Less(b[0], b[j + 1]);
          assert x in b && x in a;
          var i :| 0 <= i < |a| && a[i] == x;
          assert i != 0;
          assert a[1..][i - 1] == x;
        }
      }
      SortedUnique(a[1..], b[1..]);
      assert a == [a[0]] + a[1..] && b == [b[0]] + b[1..];
    }
  }
}
