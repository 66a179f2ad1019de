/** Shared vocabulary of both components: optional values, outcomes of
    operations that may raise, Python's `s[:stop]` slice, and facts about
    sequences without repeated elements. */
module Common {

  datatype Option<T> = None | Some(value: T)

  /** The result of an operation that returns a value or raises. */
  datatype Result<T, E> = Success(value: T) | Failure(error: E)

  /** The result of an operation that returns nothing or raises. */
  datatype Outcome<E> = Pass | Fail(error: E)

  /** Where Python's `s[:stop]` ends on a sequence of length `len`:
      `None` keeps everything, a non-negative stop is capped at `len`, a
      negative stop counts back from the end and stops at 0. */
  function SliceEnd(len: nat, stop: Option<int>): (e: nat)
    ensures e <= len
    ensures stop.None? ==> e == len
    ensures stop.Some? && 0 <= stop.value ==> e == (if stop.value < len then stop.value else len)
    ensures stop.Some? && stop.value < 0 ==> e == (if len + stop.value > 0 then len + stop.value else 0)
  {
    match stop
    case None => len
    case Some(k) =>
      if 0 <= k then (if k < len then k else len)
      else if len + k > 0 then len + k else 0
  }

  /** Python's `s[:stop]`. */
  function Take<T>(s: seq<T>, stop: Option<int>): (r: seq<T>)
    ensures r <= s
    ensures |r| == SliceEnd(|s|, stop)
  {
    s[..SliceEnd(|s|, stop)]
  }

  predicate NoDup<T(==)>(s: seq<T>)
  {
    forall i, j :: 0 <= i < j < |s| ==> s[i] != s[j]
  }

  /** A sequence without repetitions that lists exactly the set `m` has
      `|m|` elements. */
  lemma {:induction false} DistinctCard<T>(s: seq<T>, m: set<T>)
    requires NoDup(s)
    requires forall x :: x in s <==> x in m
    ensures |s| == |m|
  {
    if s != [] {
      var rest := m - {s[0]};
      forall x ensures x in s[1..] <==> x in rest {
        if x in s[1..] {
          var k :| 1 <= k < |s| && s[k] == x;
          assert s[0] != s[k];
        }
        if x in rest {
          assert x in s && x != s[0];
          var k :| 0 <= k < |s| && s[k] == x;
          assert s[1..][k - 1] == x;
        }
      }
      DistinctCard(s[1..], rest);
    } else {
      assert forall x :: x !in m;
      assert m == {};
    }
  }

  /** Every element of a sequence without repetitions occurs once. */
  lemma {:induction false} NoDupOnce<T>(s: seq<T>, x: T)
    requires NoDup(s)
    ensures multiset(s)[x] <= 1
  {
    if s != [] {
      assert s == [s[0]] + s[1..];
      assert NoDup(s[1..]) by {
        forall i, j | 0 <= i < j < |s[1..]| ensures s[1..][i] != s[1..][j] {
          assert s[i + 1] != s[j + 1];
        }
      }
      NoDupOnce(s[1..], x);
      if x == s[0] {
        assert x !in s[1..] by {
          forall k | 0 <= k < |s[1..]| ensures s[1..][k] != x {
            assert s[0] != s[k + 1];
          }
        }
        assert multiset(s[1..])[x] == 0;
      }
    }
  }

  /** Rearranging a sequence without repetitions gives one without
      repetitions. */
  lemma NoDupPermutation<T>(a: seq<T>, b: seq<T>)
    requires NoDup(a)
    requires multiset(a) == multiset(b)
    ensures NoDup(b)
  {
    forall i, j | 0 <= i < j < |b| ensures b[i] != b[j] {
      if b[i] == b[j] {
        var x := b[i];
        assert b == b[..j] + b[j..];
        assert x in b[..j] && x in b[j..];
        assert multiset(b)[x] == multiset(b[..j])[x] + multiset(b[j..])[x];
        NoDupOnce(a, x);
        assert false;
      }
    }
  }

  /** `list(s)` for a Python set: its elements, each once, in an order the
      caller may not rely on. */
  method ListOf<T(==)>(s: set<T>) returns (r: seq<T>)
    ensures NoDup(r)
    ensures forall x :: x in r <==> x in s
    ensures |r| == |s|
  {
    r := [];
    var rest := s;
    while rest != {}
      invariant rest <= s
      invariant NoDup(r)
      invariant forall x :: x in r <==> x in s && x !in rest
      decreases |rest|
    {
      var x :| x in rest;
      r := r + [x];
      rest := rest - {x};
    }
    DistinctCard(r, s);
  }
}
