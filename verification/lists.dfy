/** The array operations the stored item list is built from: `includes`,
    and `filter` with a `!==` test, plus the facts about them the handlers
    rely on. */
module Lists {

  /** `s.includes(x)`: a linear search for an element equal to `x`. */
  function Includes(s: seq<string>, x: string): (b: bool)
    ensures b <==> x in s
  {
    if s == [] then false else s[0] == x || Includes(s[1..], x)
  }

  /** `s.filter(item => item !== x)`: every element equal to `x` is dropped. */
  function Without(s: seq<string>, x: string): (r: seq<string>)
    ensures x !in r
    ensures |r| <= |s|
  {
    if s == [] then []
    else if s[0] == x then Without(s[1..], x)
    else [s[0]] + Without(s[1..], x)
  }

  /** The filtered list holds exactly the elements of the input other than `x`. */
  lemma {:induction false} WithoutMembers(s: seq<string>, x: string, y: string)
    ensures y in Without(s, x) <==> y in s && y != x
    decreases |s|
  {
    if s != [] {
      WithoutMembers(s[1..], x, y);
      assert s == [s[0]] + s[1..];
    }
  }

  /** No two entries of `s` are equal. */
  predicate NoDup(s: seq<string>) {
    forall i, j :: 0 <= i < j < |s| ==> s[i] != s[j]
  }

  /** `a` can be obtained from `b` by deleting elements: the elements of `a`
      appear in `b` in the same relative order. */
  predicate IsSubsequence(a: seq<string>, b: seq<string>)
    decreases |b|
  {
    if a == [] then true
    else if b == [] then false
    else (a[0] == b[0] && IsSubsequence(a[1..], b[1..])) || IsSubsequence(a, b[1..])
  }

  /** Filtering works element by element: it distributes over concatenation. */
  lemma {:induction false} WithoutAppend(a: seq<string>, b: seq<string>, x: string)
    ensures Without(a + b, x) == Without(a, x) + Without(b, x)
    decreases |a|
  {
    if a == [] {
      assert a + b == b;
    } else {
      assert (a + b)[0] == a[0];
      assert (a + b)[1..] == a[1..] + b;
      WithoutAppend(a[1..], b, x);
    }
  }

  /** Filtering keeps the survivors in their original relative order. */
  lemma {:induction false} WithoutIsSubsequence(s: seq<string>, x: string)
    ensures IsSubsequence(Without(s, x), s)
    decreases |s|
  {
    if s != [] {
      WithoutIsSubsequence(s[1..], x);
      if s[0] != x {
        assert Without(s, x)[0] == s[0];
        assert Without(s, x)[1..] == Without(s[1..], x);
      } else {
        SubsequenceOfTail(Without(s, x), s);
      }
    }
  }

  /** A subsequence of the tail of `b` is a subsequence of `b`. */
  lemma {:induction false} SubsequenceOfTail(a: seq<string>, b: seq<string>)
    requires b != [] && IsSubsequence(a, b[1..])
    ensures IsSubsequence(a, b)
  {
  }

  /** Filtering removes every copy of `x` and no copy of anything else. */
  lemma {:induction false} WithoutCount(s: seq<string>, x: string, y: string)
    ensures multiset(Without(s, x))[y] == if y == x then 0 else multiset(s)[y]
    decreases |s|
  {
    if s != [] {
      WithoutCount(s[1..], x, y);
      assert s == [s[0]] + s[1..];
      assert multiset(s) == multiset([s[0]]) + multiset(s[1..]);
      if s[0] != x {
        assert multiset(Without(s, x)) == multiset([s[0]]) + multiset(Without(s[1..], x));
      }
    }
  }

  /** Filtering out a value that is absent changes nothing. */
  lemma {:induction false} WithoutAbsent(s: seq<string>, x: string)
    requires x !in s
    ensures Without(s, x) == s
    decreases |s|
  {
    if s != [] {
      WithoutAbsent(s[1..], x);
      assert s == [s[0]] + s[1..];
    }
  }

  /** In a list without duplicates, an entry occurs neither before nor
      after its own position. */
  lemma NoDupNotElsewhere(s: seq<string>, i: nat)
    requires NoDup(s) && i < |s|
    ensures s[i] !in s[..i] && s[i] !in s[i + 1..]
  {
    var before, after := s[..i], s[i + 1..];
    forall k | 0 <= k < |before| ensures before[k] != s[i] {
      assert before[k] == s[k];
    }
    forall k | 0 <= k < |after| ensures after[k] != s[i] {
      assert after[k] == s[i + 1 + k];
    }
  }

  /** Filtering out `x` from `a + [x] + b` when neither part holds `x`. */
  lemma WithoutMiddle(a: seq<string>, x: string, b: seq<string>)
    requires x !in a && x !in b
    ensures Without(a + [x] + b, x) == a + b
  {
    var single := [x];
    assert Without(single, x) == [] by {
      assert single[0] == x && single[1..] == [];
    }
    WithoutAppend(a, single, x);
    WithoutAppend(a + single, b, x);
    WithoutAbsent(a, x);
    WithoutAbsent(b, x);
    assert Without(a + single, x) == a;
  }

  /** In a list without duplicates, filtering out an entry deletes exactly
      that one position. */
  lemma WithoutUnique(s: seq<string>, i: nat)
    requires NoDup(s) && i < |s|
    ensures Without(s, s[i]) == s[..i] + s[i + 1..]
  {
    assert s == s[..i] + [s[i]] + s[i + 1..];
    NoDupNotElsewhere(s, i);
    WithoutMiddle(s[..i], s[i], s[i + 1..]);
  }

  /** Deleting one position keeps a list free of duplicates. */
  lemma NoDupRemoveAt(s: seq<string>, i: nat)
    requires NoDup(s) && i < |s|
    ensures NoDup(s[..i] + s[i + 1..])
  {
    var r := s[..i] + s[i + 1..];
    forall p, q | 0 <= p < q < |r|
      ensures r[p] != r[q]
    {
      var p' := if p < i then p else p + 1;
      var q' := if q < i then q else q + 1;
      assert r[p] == s[p'] && r[q] == s[q'];
    }
  }

  /** Filtering keeps a list free of duplicates. */
  lemma NoDupWithout(s: seq<string>, x: string)
    requires NoDup(s)
    ensures NoDup(Without(s, x))
  {
    if x in s {
      var i :| 0 <= i < |s| && s[i] == x;
      WithoutUnique(s, i);
      NoDupRemoveAt(s, i);
    } else {
      WithoutAbsent(s, x);
    }
  }

  /** Appending keeps a list free of duplicates exactly when the new entry
      is not already present. */
  lemma NoDupAppend(s: seq<string>, x: string)
    requires NoDup(s)
    ensures NoDup(s + [x]) <==> x !in s
  {
    if x in s {
      var i :| 0 <= i < |s| && s[i] == x;
      assert (s + [x])[i] == (s + [x])[|s|];
    }
  }
}
