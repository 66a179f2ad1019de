/** Python's `sorted(xs, reverse=True)` for an order given as a total
    preorder `le`: the result is a rearrangement of the input whose elements
    never increase. The order among equivalent elements is not modelled. */
module Sorting {

  /** `le` is total and transitive. */
  ghost predicate TotalPreorder<T(!new)>(le: (T, T) -> bool)
  {
    && (forall a, b :: le(a, b) || le(b, a))
    && (forall a, b, c :: le(a, b) && le(b, c) ==> le(a, c))
  }

  /** No element is above an element listed before it. */
  predicate Descending<T>(s: seq<T>, le: (T, T) -> bool)
  {
    forall i, j :: 0 <= i < j < |s| ==> le(s[j], s[i])
  }

  /** Places `x` in the non-increasing sequence `s`. */
  function Insert<T(!new)>(x: T, s: seq<T>, le: (T, T) -> bool): (r: seq<T>)
    requires TotalPreorder(le)
    requires Descending(s, le)
    ensures multiset(r) == multiset(s) + multiset{x}
    ensures Descending(r, le)
  {
    if s == [] then [x]
    else if le(s[0], x) then
      assert forall j :: 0 <= j < |s| ==> le(s[j], x) by {
        forall j | 0 <= j < |s| ensures le(s[j], x) {
          if j > 0 { assert le(s[j], s[0]); }
        }
      }
      [x] + s
    else
      var rest := Insert(x, s[1..], le);
      assert s == [s[0]] + s[1..];
      BelowHead(x, s, rest, le);
      [s[0]] + rest
  }

  /** Whatever `x` is placed among the tail of `s` stays below the head of
      `s` when `x` does. */
  lemma BelowHead<T(!new)>(x: T, s: seq<T>, rest: seq<T>, le: (T, T) -> bool)
    requires TotalPreorder(le)
    requires s != [] && Descending(s, le) && le(x, s[0])
    requires multiset(rest) == multiset(s[1..]) + multiset{x}
    ensures forall k :: 0 <= k < |rest| ==> le(rest[k], s[0])
  {
    forall k | 0 <= k < |rest| ensures le(rest[k], s[0]) {
      assert rest[k] in multiset(rest);
      if rest[k] != x {
        assert rest[k] in multiset(s[1..]);
        var m :| 0 <= m < |s[1..]| && s[1..][m] == rest[k];
        assert s[m + 1] == rest[k];
      }
    }
  }

  /** `sorted(s, reverse=True)`: a non-increasing rearrangement of `s`. */
  function SortDescending<T(!new)>(s: seq<T>, le: (T, T) -> bool): (r: seq<T>)
    requires TotalPreorder(le)
    ensures multiset(r) == multiset(s)
    ensures Descending(r, le)
  {
    if s == [] then []
    else
      assert s == [s[0]] + s[1..];
      Insert(s[0], SortDescending(s[1..], le), le)
  }
}
