/** The item list (`ExistingItems`, a `Vec<usize>` in display order) and the one
    operation the application performs on it: `retain(|i| *i != item)`.
    Item identifiers are Rust `usize` values; they are never computed with, so
    they are modelled as `nat`. */
module Items {

  datatype Option<T> = None | Some(value: T)

  /** The elements of `s` that differ from `x`, in their original order:
      what `v.retain(|i| *i != x)` leaves in `v`. */
  function Without(s: seq<nat>, x: nat): (r: seq<nat>)
    ensures x !in r
    ensures |r| <= |s|
  {
    if s == [] then []
    else if s[0] == x then Without(s[1..], x)
    else [s[0]] + Without(s[1..], x)
  }

  /** `t` can be obtained from `s` by deleting elements (order is kept). */
  predicate IsSubsequence(t: seq<nat>, s: seq<nat>)
  {
    if t == [] then true
    else if s == [] then false
    else (t[0] == s[0] && IsSubsequence(t[1..], s[1..])) || IsSubsequence(t, s[1..])
  }

  /** No identifier occurs twice. */
  predicate Distinct(s: seq<nat>)
  {
    forall i, j | 0 <= i < j < |s| :: s[i] != s[j]
  }

  /** `Vec::retain` with the predicate `*i != item`: one pass over the vector
      keeping, in order, every element the predicate accepts. */
  method Retain(v: seq<nat>, item: nat) returns (kept: seq<nat>)
    ensures kept == Without(v, item)
  {
    kept := [];
    var i := 0;
    while i < |v|
      invariant i <= |v|
      invariant kept == Without(v[..i], item)
    {
      assert v[..i + 1] == v[..i] + [v[i]];
      WithoutConcat(v[..i], [v[i]], item);
      if v[i] != item {
        kept := kept + [v[i]];
      }
      i := i + 1;
    }
    assert v[..i] == v;
  }

  /** Filtering distributes over concatenation. */
  lemma {:induction false} WithoutConcat(a: seq<nat>, b: seq<nat>, x: nat)
    ensures Without(a + b, x) == Without(a, x) + Without(b, x)
  {
    if a == [] {
      assert a + b == b;
    } else {
      assert (a + b)[1..] == a[1..] + b;
      WithoutConcat(a[1..], b, x);
    }
  }

  /** Closing an item that is not in the list leaves the list unchanged. */
  lemma {:induction false} WithoutAbsent(s: seq<nat>, x: nat)
    requires x !in s
    ensures Without(s, x) == s
  {
    if s != [] {
      assert s == [s[0]] + s[1..];
      WithoutAbsent(s[1..], x);
    }
  }

  /** Removing the same item twice is the same as removing it once. */
  lemma WithoutIdempotent(s: seq<nat>, x: nat)
    ensures Without(Without(s, x), x) == Without(s, x)
  {
    WithoutAbsent(Without(s, x), x);
  }

  /** Every occurrence of `x` goes; every other element keeps its count. */
  lemma {:induction false} WithoutMultiset(s: seq<nat>, x: nat)
    ensures multiset(Without(s, x)) == multiset(s)[x := 0]
  {
    if s != [] {
      assert s == [s[0]] + s[1..];
      WithoutMultiset(s[1..], x);
      assert multiset(s) == multiset{s[0]} + multiset(s[1..]);
    }
  }

  /** An element survives exactly when it was there and is not `x`. */
  lemma WithoutMembers(s: seq<nat>, x: nat)
    ensures forall y :: y in Without(s, x) <==> y in s && y != x
  {
    WithoutMultiset(s, x);
    forall y
      ensures y in Without(s, x) <==> y in s && y != x
    {
      assert y in Without(s, x) <==> multiset(Without(s, x))[y] > 0;
      assert y in s <==> multiset(s)[y] > 0;
    }
  }

  /** The retained elements appear in `s` in the same relative order. */
  lemma {:induction false} WithoutSubsequence(s: seq<nat>, x: nat)
    ensures IsSubsequence(Without(s, x), s)
  {
    if s != [] {
      WithoutSubsequence(s[1..], x);
      if s[0] != x {
        assert Without(s, x)[1..] == Without(s[1..], x);
      }
    }
  }

  lemma {:induction false} SubsequenceReflexive(s: seq<nat>)
    ensures IsSubsequence(s, s)
  {
    if s != [] {
      SubsequenceReflexive(s[1..]);
    }
  }

  lemma {:induction false} SubsequenceTransitive(a: seq<nat>, b: seq<nat>, c: seq<nat>)
    requires IsSubsequence(a, b) && IsSubsequence(b, c)
    ensures IsSubsequence(a, c)
    decreases |c|
  {
    if a != [] {
      if IsSubsequence(b, c[1..]) {
        SubsequenceTransitive(a, b, c[1..]);
      } else if IsSubsequence(a, b[1..]) {
        SubsequenceTransitive(a, b[1..], c[1..]);
      } else {
        SubsequenceTransitive(a[1..], b[1..], c[1..]);
      }
    }
  }

  /** A subsequence never has more copies of a value than the sequence. */
  lemma {:induction false} SubsequenceMultiset(t: seq<nat>, s: seq<nat>)
    requires IsSubsequence(t, s)
    ensures multiset(t) <= multiset(s)
    decreases |s|
  {
    if t != [] {
      assert s == [s[0]] + s[1..];
      if IsSubsequence(t, s[1..]) {
        SubsequenceMultiset(t, s[1..]);
      } else {
        assert t == [t[0]] + t[1..];
        SubsequenceMultiset(t[1..], s[1..]);
      }
    }
  }

  /** An independent characterisation of the filter: the only subsequence of `s`
      that holds every element other than `x` as often as `s` does, and no `x`,
      is `Without(s, x)`. So `retain` drops exactly the `x`s and nothing moves. */
  lemma {:induction false} WithoutUnique(s: seq<nat>, x: nat, t: seq<nat>)
    requires IsSubsequence(t, s)
    requires x !in t
    requires multiset(t) == multiset(s)[x := 0]
    ensures t == Without(s, x)
    decreases |s|
  {
    if s == [] {
      assert t == [];
    } else {
      assert s == [s[0]] + s[1..];
      assert multiset(s) == multiset{s[0]} + multiset(s[1..]);
      if s[0] == x {
        assert multiset(s[1..])[x := 0] == multiset(s)[x := 0];
        assert t == [] || t[0] != s[0];
        WithoutUnique(s[1..], x, t);
      } else {
        assert multiset(t)[s[0]] > 0;
        assert t != [];
        assert t == [t[0]] + t[1..];
        if t[0] == s[0] && IsSubsequence(t[1..], s[1..]) {
          assert multiset(t) == multiset{t[0]} + multiset(t[1..]);
          assert multiset(t[1..]) == multiset(s[1..])[x := 0] by {
            forall y ensures multiset(t[1..])[y] == multiset(s[1..])[x := 0][y] {
              assert multiset(t)[y] == multiset(s)[x := 0][y];
            }
          }
          WithoutUnique(s[1..], x, t[1..]);
        } else {
          // t would then hold s[0] more often than s[1..] does
          SubsequenceMultiset(t, s[1..]);
          assert false;
        }
      }
    }
  }

  /** Filtering cannot introduce duplicates. */
  lemma WithoutDistinct(s: seq<nat>, x: nat)
    requires Distinct(s)
    ensures Distinct(Without(s, x))
  {
    WithoutSubsequence(s, x);
    SubsequenceDistinct(Without(s, x), s);
  }

  lemma {:induction false} SubsequenceDistinct(t: seq<nat>, s: seq<nat>)
    requires IsSubsequence(t, s) && Distinct(s)
    ensures Distinct(t)
    decreases |s|
  {
    if t != [] {
      assert Distinct(s[1..]) by {
        forall i, j | 0 <= i < j < |s[1..]| ensures s[1..][i] != s[1..][j] {
          assert s[1..][i] == s[i + 1] && s[1..][j] == s[j + 1];
        }
      }
      if IsSubsequence(t, s[1..]) {
        SubsequenceDistinct(t, s[1..]);
      } else {
        SubsequenceDistinct(t[1..], s[1..]);
        SubsequenceMultiset(t[1..], s[1..]);
        assert s[0] !in s[1..] by {
          forall k | 0 <= k < |s[1..]| ensures s[1..][k] != s[0] {
            assert s[1..][k] == s[k + 1];
          }
        }
        assert multiset(s[1..])[s[0]] == 0;
        assert t[0] !in t[1..];
        forall i, j | 0 <= i < j < |t| ensures t[i] != t[j] {
          if i == 0 {
            assert t[j] == t[1..][j - 1];
          } else {
            assert t[i] == t[1..][i - 1] && t[j] == t[1..][j - 1];
          }
        }
      }
    }
  }
}
