/** Small shared definitions. */
module Common {

  /** A value that may be missing: the model's stand-in for a C pointer that may be NULL. */
  datatype Option<T> = None | Some(value: T)

  /** A C `char` / `uint8_t`. */
  type Byte = bv8

  /** Number of occurrences of `x` in `s`. */
  function Occ<T(==)>(s: seq<T>, x: T): nat
  {
    if s == [] then 0
    else Occ(s[..|s| - 1], x) + (if s[|s| - 1] == x then 1 else 0)
  }

  /** Counting over a concatenation adds up. */
  lemma {:induction false} OccAppend<T>(s: seq<T>, t: seq<T>, x: T)
    ensures Occ(s + t, x) == Occ(s, x) + Occ(t, x)
    decreases |t|
  {
    if t == [] {
      assert s + t == s;
    } else {
      assert (s + t)[..|s + t| - 1] == s + t[..|t| - 1];
      OccAppend(s, t[..|t| - 1], x);
    }
  }

  /** An element occurs in `s` exactly when it is counted at least once. */
  lemma {:induction false} OccPositive<T>(s: seq<T>, x: T)
    ensures Occ(s, x) > 0 <==> x in s
    decreases |s|
  {
    if s != [] {
      OccPositive(s[..|s| - 1], x);
      assert s == s[..|s| - 1] + [s[|s| - 1]];
    }
  }

  /** Two distinct positions holding the same element make it counted at least twice. */
  lemma {:induction false} OccTwice<T>(s: seq<T>, i: nat, j: nat)
    requires i < j < |s| && s[i] == s[j]
    ensures Occ(s, s[i]) >= 2
  {
    assert s == s[..j] + s[j..];
    OccAppend(s[..j], s[j..], s[i]);
    OccPositive(s[..j], s[i]);
    assert s[j..] == [s[j]] + s[j + 1..];
    OccAppend([s[j]], s[j + 1..], s[i]);
    assert Occ([s[j]], s[i]) == 1 by {
      assert [s[j]][..0] == [];
    }
  }

  /** Extending a slice by one position counts that position's element. */
  lemma OccSliceStep<T>(s: seq<T>, lo: nat, i: nat, x: T)
    requires lo <= i < |s|
    ensures Occ(s[lo..i + 1], x) == Occ(s[lo..i], x) + (if s[i] == x then 1 else 0)
  {
    assert s[lo..i + 1][..i - lo] == s[lo..i];
  }

  /** A prefix of a slice counts no more than the whole slice. */
  lemma OccSliceBound<T>(s: seq<T>, lo: nat, i: nat, x: T)
    requires lo <= i <= |s|
    ensures Occ(s[lo..i], x) <= Occ(s[lo..], x)
  {
    assert s[lo..] == s[lo..i] + s[i..];
    OccAppend(s[lo..i], s[i..], x);
  }

  /** Dropping a first element other than `x` keeps the count of `x`. */
  lemma OccDropFirst<T>(s: seq<T>, x: T)
    requires |s| > 0 && s[0] != x
    ensures Occ(s[1..], x) == Occ(s, x)
  {
    var head := [s[0]];
    assert Occ(head, x) == 0 by {
      assert head[..0] == [];
    }
    OccAppend(head, s[1..], x);
    assert head + s[1..] == s;
  }

  /** An element counted at least twice sits at two distinct positions. */
  lemma {:induction false} OccTwoPositions<T>(s: seq<T>, x: T) returns (i: nat, j: nat)
    requires Occ(s, x) >= 2
    ensures i < j < |s| && s[i] == x && s[j] == x
    decreases |s|
  {
    var n := |s| - 1;
    if s[n] == x {
      OccPositive(s[..n], x);
      i :| 0 <= i < n && s[..n][i] == x;
      j := n;
    } else {
      i, j := OccTwoPositions(s[..n], x);
    }
  }
}
