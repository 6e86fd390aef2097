/** Sequence helpers used to state what the node operations do to their arrays. */
module Sequences {

  /** Every element of `s` occurs at one position only. */
  ghost predicate NoDup<T>(s: seq<T>)
  {
    forall i, j :: 0 <= i < |s| && 0 <= j < |s| && i != j ==> s[i] != s[j]
  }

  /** `s` with every occurrence of `x` removed, the other elements kept in order (a TArray Remove). */
  function Without<T(==)>(s: seq<T>, x: T): (r: seq<T>)
    ensures forall y :: y in r ==> y in s && y != x
    ensures forall y :: y in s && y != x ==> y in r
    ensures |r| <= |s|
  {
    if s == [] then []
    else if s[|s| - 1] == x then Without(s[..|s| - 1], x)
    else Without(s[..|s| - 1], x) + [s[|s| - 1]]
  }

  /** On a sequence without duplicates, removing an element removes exactly its one position. */
  lemma {:induction false} WithoutUnique<T>(s: seq<T>, i: nat)
    requires NoDup(s) && i < |s|
    ensures Without(s, s[i]) == s[..i] + s[i + 1..]
    decreases |s|
  {
    var n := |s| - 1;
    var x, p, last := s[i], s[..n], s[n];
    assert s == p + [last];
    if i == n {
      assert x !in p by {
        forall k | 0 <= k < n ensures p[k] != x { assert p[k] == s[k]; }
      }
      WithoutAbsent(p, x);
    } else {
      assert NoDup(p) by {
        forall a, b | 0 <= a < n && 0 <= b < n && a != b ensures p[a] != p[b] {
          assert p[a] == s[a] && p[b] == s[b];
        }
      }
      assert p[i] == x;
      WithoutUnique(p, i);
      assert last != x;
      calc {
        Without(s, x);
        Without(p, x) + [last];
        p[..i] + p[i + 1..] + [last];
        { assert p[..i] == s[..i]; assert p[i + 1..] + [last] == s[i + 1..]; }
        s[..i] + s[i + 1..];
      }
    }
  }

  /** Removing an element that does not occur leaves the sequence as it is. */
  lemma {:induction false} WithoutAbsent<T>(s: seq<T>, x: T)
    requires x !in s
    ensures Without(s, x) == s
    decreases |s|
  {
    if s != [] {
      var n := |s| - 1;
      assert x !in s[..n];
      WithoutAbsent(s[..n], x);
      assert s[..n] + [s[n]] == s;
    }
  }

  /** Removing an element just appended to a sequence that lacked it gives the sequence back. */
  lemma WithoutAppended<T>(s: seq<T>, x: T)
    requires x !in s
    ensures Without(s + [x], x) == s
  {
    assert (s + [x])[..|s|] == s;
    WithoutAbsent(s, x);
  }

  /** Two duplicate-free sequences with no common element concatenate to a duplicate-free sequence. */
  lemma NoDupConcat<T>(a: seq<T>, b: seq<T>)
    requires NoDup(a) && NoDup(b)
    requires forall x :: x in a ==> x !in b
    ensures NoDup(a + b)
  {
    forall i, j | 0 <= i < |a + b| && 0 <= j < |a + b| && i != j
      ensures (a + b)[i] != (a + b)[j]
    {
      if i < |a| && j >= |a| {
        assert (a + b)[i] in a && (a + b)[j] == b[j - |a|];
      } else if j < |a| && i >= |a| {
        assert (a + b)[j] in a && (a + b)[i] == b[i - |a|];
      }
    }
  }

  /** The two halves of a duplicate-free sequence are duplicate-free and share no element. */
  lemma NoDupSplit<T>(a: seq<T>, b: seq<T>)
    requires NoDup(a + b)
    ensures NoDup(a) && NoDup(b)
    ensures forall x :: x in a ==> x !in b
  {
    forall i, j | 0 <= i < |a| && 0 <= j < |a| && i != j ensures a[i] != a[j] {
      assert a[i] == (a + b)[i] && a[j] == (a + b)[j];
    }
    forall i, j | 0 <= i < |b| && 0 <= j < |b| && i != j ensures b[i] != b[j] {
      assert b[i] == (a + b)[|a| + i] && b[j] == (a + b)[|a| + j];
    }
    forall i, j | 0 <= i < |a| && 0 <= j < |b| ensures a[i] != b[j] {
      assert a[i] == (a + b)[i] && b[j] == (a + b)[|a| + j];
    }
  }

  /** Duplicate-free sequences drawn from disjoint sets concatenate to a duplicate-free sequence. */
  lemma NoDupJoin<T>(a: seq<T>, b: seq<T>, A: set<T>, B: set<T>)
    requires NoDup(a) && NoDup(b) && A !! B
    requires forall x :: x in a ==> x in A
    requires forall x :: x in b ==> x in B
    ensures NoDup(a + b)
  {
    NoDupConcat(a, b);
  }

  /** Dropping one element of a duplicate-free list leaves a duplicate-free list of the other elements. */
  lemma NoDupRemoveAt<T>(s: seq<T>, k: nat)
    requires NoDup(s) && k < |s|
    ensures NoDup(s[..k] + s[k + 1..])
    ensures forall x :: x in s[..k] + s[k + 1..] ==> x in s && x != s[k]
  {
    var r := s[..k] + s[k + 1..];
    forall i | 0 <= i < |r| ensures r[i] == s[Skip(i, k)] {
    }
    forall i, j | 0 <= i < |r| && 0 <= j < |r| && i != j ensures r[i] != r[j] {
      assert r[i] == s[Skip(i, k)] && r[j] == s[Skip(j, k)];
    }
    forall x | x in r ensures x in s && x != s[k] {
      var i :| 0 <= i < |r| && r[i] == x;
      assert r[i] == s[Skip(i, k)];
    }
  }

  /** `r` is `s` with position k dropped: position i of `r` holds position Skip(i, k) of `s`. */
  ghost predicate DroppedAt<T>(s: seq<T>, r: seq<T>, k: nat)
  {
    k < |s| && |r| == |s| - 1 && forall i :: 0 <= i < |r| ==> r[i] == s[Skip(i, k)]
  }

  /** Slicing out position k drops exactly that position. */
  lemma RemoveAtIndices<T>(s: seq<T>, k: nat)
    requires k < |s|
    ensures DroppedAt(s, s[..k] + s[k + 1..], k)
  {
  }

  /** The position in the full list of position i of the list with position k dropped. */
  function Skip(i: nat, k: nat): nat
  {
    if i < k then i else i + 1
  }
}
