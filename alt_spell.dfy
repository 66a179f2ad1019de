/** The probabilistic speller of alt_spell.py, after Norvig: a corpus of
    word counts, the strings one or two edits away from a word, and the
    ranking of the corpus words among them by frequency. */
module Spelling {
  import opened Common
  import Sorting

  /** `string.ascii_lowercase`. */
  const Letters: string := "abcdefghijklmnopqrstuvwxyz"

  /** Every character of `w` is one of `a`..`z`. */
  predicate Lower(w: string)
  {
    forall i :: 0 <= i < |w| ==> w[i] in Letters
  }

  // The four kinds of single edit, at position i, written as the source
  // writes them on the split (w[..i], w[i..]).

  function Delete(w: string, i: nat): string
    requires i < |w|
  {
    w[..i] + w[i + 1..]
  }

  function Transpose(w: string, i: nat): string
    requires i + 1 < |w|
  {
    w[..i] + [w[i + 1], w[i]] + w[i + 2..]
  }

  function Replace(w: string, i: nat, c: char): string
    requires i < |w|
  {
    w[..i] + [c] + w[i + 1..]
  }

  function InsertAt(w: string, i: nat, c: char): string
    requires i <= |w|
  {
    w[..i] + [c] + w[i..]
  }

  // The four lists of `edits1`, in the source's order: by split, then by
  // letter.

  function Deletes(w: string): seq<string>
  {
    seq(|w|, i requires 0 <= i < |w| => Delete(w, i))
  }

  function Transposes(w: string): seq<string>
  {
    if |w| < 2 then [] else seq(|w| - 1, i requires 0 <= i < |w| - 1 => Transpose(w, i))
  }

  function Replaces(w: string): seq<string>
  {
    seq(26 * |w|, k requires 0 <= k < 26 * |w| => Replace(w, k / 26, Letters[k % 26]))
  }

  function Inserts(w: string): seq<string>
  {
    seq(26 * (|w| + 1), k requires 0 <= k < 26 * (|w| + 1) => InsertAt(w, k / 26, Letters[k % 26]))
  }

  function AllEdits1(w: string): seq<string>
  {
    Deletes(w) + Transposes(w) + Replaces(w) + Inserts(w)
  }

  /** `edits1(w)`: the set of the four lists. */
  function Edits1(w: string): set<string>
  {
    set e | e in AllEdits1(w)
  }

  /** `edits2(w)`: every edit of every edit, the word itself and its own
      edits included. */
  function Edits2(w: string): set<string>
  {
    set e1, e2 | e1 in Edits1(w) && e2 in Edits1(e1) :: e2
  }

  /** `e` is one deletion, adjacent transposition, substitution by a
      letter or insertion of a letter away from `w`. */
  ghost predicate OneEdit(w: string, e: string)
  {
    || (exists i: nat :: i < |w| && e == Delete(w, i))
    || (exists i: nat :: i + 1 < |w| && e == Transpose(w, i))
    || (exists i: nat, c :: i < |w| && c in Letters && e == Replace(w, i, c))
    || (exists i: nat, c :: i <= |w| && c in Letters && e == InsertAt(w, i, c))
  }

  lemma LetterIndex(c: char) returns (j: nat)
    requires c in Letters
    ensures j < 26 && Letters[j] == c
  {
    j :| 0 <= j < |Letters| && Letters[j] == c;
  }

  /** Position `k` of the substitution and insertion lists is split
      `k / 26` with letter `k % 26`. */
  lemma Unpair(k: nat, n: nat)
    requires k < 26 * n
    ensures k / 26 < n && k % 26 < 26
  {
  }

  lemma Pair(i: nat, j: nat, n: nat) returns (k: nat)
    requires i < n && j < 26
    ensures k == 26 * i + j && k < 26 * n
    ensures k / 26 == i && k % 26 == j
  {
    k := 26 * i + j;
  }

  lemma InDeletes(w: string, e: string)
    ensures e in Deletes(w) <==> exists i: nat :: i < |w| && e == Delete(w, i)
  {
    var d := Deletes(w);
    if i: nat :| i < |w| && e == Delete(w, i) {
      assert d[i] == e;
    }
  }

  lemma InTransposes(w: string, e: string)
    ensures e in Transposes(w) <==> exists i: nat :: i + 1 < |w| && e == Transpose(w, i)
  {
    var t := Transposes(w);
    if i: nat :| i + 1 < |w| && e == Transpose(w, i) {
      assert t[i] == e;
    }
  }

  lemma ReplaceAt(w: string, i: nat, c: char)
    requires i < |w| && c in Letters
    ensures Replace(w, i, c) in Replaces(w)
  {
    var j := LetterIndex(c);
    var k := Pair(i, j, |w|);
    var r := Replaces(w);
    assert r[k] == Replace(w, k / 26, Letters[k % 26]);
  }

  lemma InReplaces(w: string, e: string)
    ensures e in Replaces(w) <==> exists i: nat, c :: i < |w| && c in Letters && e == Replace(w, i, c)
  {
    var r := Replaces(w);
    if e in r {
      var k :| 0 <= k < |r| && r[k] == e;
      Unpair(k, |w|);
      assert e == Replace(w, k / 26, Letters[k % 26]);
    }
    if i: nat, c :| i < |w| && c in Letters && e == Replace(w, i, c) {
      ReplaceAt(w, i, c);
    }
  }

  lemma InsertAtIn(w: string, i: nat, c: char)
    requires i <= |w| && c in Letters
    ensures InsertAt(w, i, c) in Inserts(w)
  {
    var j := LetterIndex(c);
    var k := Pair(i, j, |w| + 1);
    var n := Inserts(w);
    assert n[k] == InsertAt(w, k / 26, Letters[k % 26]);
  }

  lemma InInserts(w: string, e: string)
    ensures e in Inserts(w) <==> exists i: nat, c :: i <= |w| && c in Letters && e == InsertAt(w, i, c)
  {
    var n := Inserts(w);
    if e in n {
      var k :| 0 <= k < |n| && n[k] == e;
      Unpair(k, |w| + 1);
      assert e == InsertAt(w, k / 26, Letters[k % 26]);
    }
    if i: nat, c :| i <= |w| && c in Letters && e == InsertAt(w, i, c) {
      InsertAtIn(w, i, c);
    }
  }

  /** `edits1(w)` holds exactly the strings one edit away from `w`. */
  lemma Edits1Exactly(w: string, e: string)
    ensures e in Edits1(w) <==> OneEdit(w, e)
  {
    InDeletes(w, e);
    InTransposes(w, e);
    InReplaces(w, e);
    InInserts(w, e);
    assert e in AllEdits1(w) <==> e in Deletes(w) || e in Transposes(w) || e in Replaces(w) || e in Inserts(w);
  }

  /** Every deletion, adjacent transposition, substitution and insertion
      of a letter is in `edits1(w)`. */
  lemma Edits1HasEveryEdit(w: string)
    ensures forall i: nat :: i < |w| ==> Delete(w, i) in Edits1(w)
    ensures forall i: nat :: i + 1 < |w| ==> Transpose(w, i) in Edits1(w)
    ensures forall i: nat, c :: i < |w| && c in Letters ==> Replace(w, i, c) in Edits1(w)
    ensures forall i: nat, c :: i <= |w| && c in Letters ==> InsertAt(w, i, c) in Edits1(w)
  {
    forall i: nat | i < |w| ensures Delete(w, i) in Edits1(w) {
      Edits1Exactly(w, Delete(w, i));
    }
    forall i: nat | i + 1 < |w| ensures Transpose(w, i) in Edits1(w) {
      Edits1Exactly(w, Transpose(w, i));
    }
    forall i: nat, c | i < |w| && c in Letters ensures Replace(w, i, c) in Edits1(w) {
      Edits1Exactly(w, Replace(w, i, c));
    }
    forall i: nat, c | i <= |w| && c in Letters ensures InsertAt(w, i, c) in Edits1(w) {
      Edits1Exactly(w, InsertAt(w, i, c));
    }
  }

  /** An edit changes the length by at most one. */
  lemma Edits1Lengths(w: string, e: string)
    requires e in Edits1(w)
    ensures |w| - 1 <= |e| <= |w| + 1
  {
    Edits1Exactly(w, e);
  }

  /** `edits1(w)` has at most as many elements as its four lists together:
      L deletions, L - 1 transpositions (none for the empty word), 26 L
      substitutions and 26 (L + 1) insertions. */
  lemma Edits1Size(w: string)
    ensures |Edits1(w)| <= |w| + (if |w| > 0 then |w| - 1 else 0) + 26 * |w| + 26 * (|w| + 1)
  {
    SeqSetCard(AllEdits1(w));
  }

  lemma {:induction false} SeqSetCard<T>(s: seq<T>)
    ensures |set x | x in s| <= |s|
  {
    if s != [] {
      SeqSetCard(s[1..]);
      assert (set x | x in s) == {s[0]} + (set x | x in s[1..]) by {
        forall x | x in s ensures x == s[0] || x in s[1..] {
          var k :| 0 <= k < |s| && s[k] == x;
          if k > 0 { assert s[1..][k - 1] == x; }
        }
      }
    }
  }

  // Each kind of edit is undone by one edit: a deletion by reinserting
  // the character, a transposition by itself, a substitution by restoring
  // the character, an insertion by deleting it.

  lemma UndoDelete(w: string, i: nat)
    requires i < |w|
    ensures InsertAt(Delete(w, i), i, w[i]) == w
  {
    var e := Delete(w, i);
    assert e[..i] == w[..i] && e[i..] == w[i + 1..];
  }

  lemma UndoTranspose(w: string, i: nat)
    requires i + 1 < |w|
    ensures Transpose(Transpose(w, i), i) == w
  {
    var e := Transpose(w, i);
    assert e[..i] == w[..i] && e[i] == w[i + 1] && e[i + 1] == w[i] && e[i + 2..] == w[i + 2..];
    assert w == w[..i] + [w[i], w[i + 1]] + w[i + 2..];
  }

  lemma UndoReplace(w: string, i: nat, c: char)
    requires i < |w|
    ensures Replace(Replace(w, i, c), i, w[i]) == w
  {
    var e := Replace(w, i, c);
    assert e[..i] == w[..i] && e[i + 1..] == w[i + 1..];
    assert w == w[..i] + [w[i]] + w[i + 1..];
  }

  lemma UndoInsert(w: string, i: nat, c: char)
    requires i <= |w|
    ensures Delete(InsertAt(w, i, c), i) == w
  {
    var e := InsertAt(w, i, c);
    assert e[..i] == w[..i] && e[i + 1..] == w[i..];
  }

  /** For a word over `a`..`z`, every edit can be undone by one edit. */
  lemma Edits1Symmetric(w: string, e: string)
    requires Lower(w)
    requires e in Edits1(w)
    ensures w in Edits1(e)
  {
    Edits1Exactly(w, e);
    Edits1HasEveryEdit(e);
    if i: nat :| i < |w| && e == Delete(w, i) {
      UndoDelete(w, i);
    } else if i: nat :| i + 1 < |w| && e == Transpose(w, i) {
      UndoTranspose(w, i);
    } else if i: nat, c :| i < |w| && c in Letters && e == Replace(w, i, c) {
      UndoReplace(w, i, c);
    } else {
      var i: nat, c :| i <= |w| && c in Letters && e == InsertAt(w, i, c);
      UndoInsert(w, i, c);
    }
  }

  lemma LowerJoin(a: string, b: string, c: string)
    requires Lower(a) && Lower(b) && Lower(c)
    ensures Lower(a + b + c)
  {
    var s := a + b + c;
    forall j | 0 <= j < |s| ensures s[j] in Letters {
      if j < |a| { assert s[j] == a[j]; }
      else if j < |a| + |b| { assert s[j] == b[j - |a|]; }
      else { assert s[j] == c[j - |a| - |b|]; }
    }
  }

  lemma LowerSlice(w: string, i: nat, j: nat)
    requires Lower(w) && i <= j <= |w|
    ensures Lower(w[i..j])
  {
    forall k | 0 <= k < j - i ensures w[i..j][k] in Letters {
      assert w[i..j][k] == w[i + k];
    }
  }

  lemma DeleteLower(w: string, i: nat)
    requires Lower(w) && i < |w|
    ensures Lower(Delete(w, i))
  {
    LowerSlice(w, 0, i);
    LowerSlice(w, i + 1, |w|);
    LowerJoin(w[..i], [], w[i + 1..]);
    assert w[..i] + [] + w[i + 1..] == Delete(w, i);
  }

  lemma TransposeLower(w: string, i: nat)
    requires Lower(w) && i + 1 < |w|
    ensures Lower(Transpose(w, i))
  {
    LowerSlice(w, 0, i);
    LowerSlice(w, i + 2, |w|);
    LowerJoin(w[..i], [w[i + 1], w[i]], w[i + 2..]);
  }

  lemma ReplaceLower(w: string, i: nat, c: char)
    requires Lower(w) && i < |w| && c in Letters
    ensures Lower(Replace(w, i, c))
  {
    LowerSlice(w, 0, i);
    LowerSlice(w, i + 1, |w|);
    LowerJoin(w[..i], [c], w[i + 1..]);
  }

  lemma InsertLower(w: string, i: nat, c: char)
    requires Lower(w) && i <= |w| && c in Letters
    ensures Lower(InsertAt(w, i, c))
  {
    LowerSlice(w, 0, i);
    LowerSlice(w, i, |w|);
    LowerJoin(w[..i], [c], w[i..]);
  }

  /** Edits of a word over `a`..`z` stay over `a`..`z`. */
  lemma Edits1Lower(w: string, e: string)
    requires Lower(w)
    requires e in Edits1(w)
    ensures Lower(e)
  {
    Edits1Exactly(w, e);
    if i: nat :| i < |w| && e == Delete(w, i) {
      DeleteLower(w, i);
    } else if i: nat :| i + 1 < |w| && e == Transpose(w, i) {
      TransposeLower(w, i);
    } else if i: nat, c :| i < |w| && c in Letters && e == Replace(w, i, c) {
      ReplaceLower(w, i, c);
    } else {
      var i: nat, c :| i <= |w| && c in Letters && e == InsertAt(w, i, c);
      InsertLower(w, i, c);
    }
  }

  /** `edits2(w)` does not exclude the word itself. */
  lemma WordInEdits2(w: string)
    ensures w in Edits2(w)
  {
    var e1 := InsertAt(w, 0, 'a');
    Edits1HasEveryEdit(w);
    Edits1HasEveryEdit(e1);
    assert Delete(e1, 0) == w;
    assert e1 in Edits1(w) && w in Edits1(e1);
  }

  /** `edits2(w)` does not exclude the edits of a word over `a`..`z`. */
  lemma Edits1InEdits2(w: string, e: string)
    requires Lower(w)
    requires e in Edits1(w)
    ensures e in Edits2(w)
  {
    Edits1HasEveryEdit(e);
    if e == [] {
      Edits1Lengths(w, e);
      var e1 := Replace(w, 0, 'a');
      Edits1HasEveryEdit(w);
      Edits1HasEveryEdit(e1);
      assert Delete(e1, 0) == e;
      assert e1 in Edits1(w) && e in Edits1(e1);
    } else {
      Edits1Lower(w, e);
      assert Replace(e, 0, e[0]) == e;
      assert e in Edits1(e);
    }
  }

  /** Two edits change the length by at most two. */
  lemma Edits2Lengths(w: string, e: string)
    requires e in Edits2(w)
    ensures |w| - 2 <= |e| <= |w| + 2
  {
    var e1 :| e1 in Edits1(w) && e in Edits1(e1);
    Edits1Lengths(w, e1);
    Edits1Lengths(e1, e);
  }

  /** Two example neighbours: an insertion and a transposition. */
  lemma Edits1Examples()
    ensures "hello" in Edits1("helo")
    ensures "hello" in Edits1("hlelo")
  {
    Edits1HasEveryEdit("helo");
    assert InsertAt("helo", 3, 'l') == "hello";
    Edits1HasEveryEdit("hlelo");
    assert Transpose("hlelo", 1) == "hello";
  }

  /** The sum of the counts of a corpus. */
  ghost function Total(m: map<string, nat>): nat
    decreases |m|
  {
    if m == map[] then 0
    else
      var w :| w in m;
      m[w] + Total(m - {w})
  }

  lemma {:induction false} TotalRemove(m: map<string, nat>, w: string)
    requires w in m
    ensures Total(m) == m[w] + Total(m - {w})
    decreases |m|
  {
    var v :| v in m && Total(m) == m[v] + Total(m - {v});
    if v != w {
      TotalRemove(m - {v}, w);
      TotalRemove(m - {w}, v);
      assert m - {v} - {w} == m - {w} - {v};
    }
  }

  /** `Counter`'s lookup: a word that is not counted counts 0. */
  function Count(m: map<string, nat>, w: string): nat
  {
    if w in m then m[w] else 0
  }

  /** Counting one more occurrence raises the total by one. */
  lemma TotalBump(m: map<string, nat>, w: string)
    ensures Total(m[w := Count(m, w) + 1]) == Total(m) + 1
  {
    var m' := m[w := Count(m, w) + 1];
    TotalRemove(m', w);
    assert m' - {w} == m - {w};
    if w in m {
      TotalRemove(m, w);
    } else {
      assert m - {w} == m;
    }
  }

  /** A non-empty corpus of positive counts has a positive total. */
  lemma {:induction false} TotalPositive(m: map<string, nat>)
    requires forall w :: w in m ==> m[w] > 0
    ensures Total(m) == 0 <==> m == map[]
  {
    if m != map[] {
      var w :| w in m;
      TotalRemove(m, w);
    }
  }

  /** `sum(counts.values())`. */
  method SumCounts(m: map<string, nat>) returns (s: nat)
    ensures s == Total(m)
  {
    s := 0;
    var rest := m;
    while rest != map[]
      invariant s + Total(rest) == Total(m)
      decreases |rest|
    {
      var w :| w in rest;
      TotalRemove(rest, w);
      s := s + rest[w];
      rest := rest - {w};
    }
  }

  /** Ranking by frequency: `a` is at most `b` when it is counted no more
      often. */
  function ByCount(m: map<string, nat>): (le: (string, string) -> bool)
    ensures Sorting.TotalPreorder(le)
    ensures forall a, b :: le(a, b) <==> Count(m, a) <= Count(m, b)
  {
    (a: string, b: string) => Count(m, a) <= Count(m, b)
  }

  /** A word is counted at most as often as the whole corpus. */
  lemma CountAtMostTotal(m: map<string, nat>, w: string)
    ensures Count(m, w) <= Total(m)
  {
    if w in m {
      TotalRemove(m, w);
    }
  }

  /** `count / total` for a word counted `count` times out of `total`: a
      probability. */
  function Share(count: nat, total: nat): (q: real)
    requires total > 0 && count <= total
    ensures 0.0 <= q <= 1.0
  {
    var t := total as real;
    assert (count as real) / t * t == count as real;
    (count as real) / t
  }

  /** `prob(a) <= prob(b)` holds exactly when `a` is counted no more often
      than `b`, since both are divided by the same positive total. */
  lemma ProbRanksLikeCount(a: nat, b: nat, total: nat)
    requires total > 0
    ensures (a as real) / (total as real) <= (b as real) / (total as real) <==> a <= b
  {
    var t := total as real;
    assert (a as real) / t * t == a as real;
    assert (b as real) / t * t == b as real;
    if (a as real) / t <= (b as real) / t {
      assert (a as real) / t * t <= (b as real) / t * t;
    }
    if a <= b {
      assert (a as real) <= (b as real);
      assert (a as real) / t <= (b as real) / t;
    }
  }

  datatype SpellError = NotInCorpus(word: string) | ZeroDivision

  /** `r` is the answer of `alternatives`: the `[:k]` slice of a
      rearrangement of the candidates `cands`, most frequent first, so
      that no candidate left out is more frequent than one kept. */
  ghost predicate Suggests(m: map<string, nat>, cands: set<string>, k: int, r: seq<string>)
  {
    && cands <= m.Keys
    && |r| == SliceEnd(|cands|, Some(k))
    && NoDup(r)
    && (forall x :: x in r ==> x in cands)
    && (forall i, j :: 0 <= i < j < |r| ==> m[r[j]] <= m[r[i]])
    && (forall x, i :: x in cands && x !in r && 0 <= i < |r| ==> m[x] <= m[r[i]])
  }

  /** Ranking the listed candidates by count and cutting at `k` suggests
      them. */
  lemma RankedCut(m: map<string, nat>, listed: seq<string>, cands: set<string>, k: int)
    requires NoDup(listed)
    requires forall x :: x in listed <==> x in cands
    requires cands <= m.Keys
    ensures Suggests(m, cands, k, Take(Sorting.SortDescending(listed, ByCount(m)), Some(k)))
  {
    var le := ByCount(m);
    var sorted := Sorting.SortDescending(listed, le);
    var r := Take(sorted, Some(k));
    var e := |r|;
    DistinctCard(listed, cands);
    assert |sorted| == |listed| by {
      assert |multiset(sorted)| == |multiset(listed)|;
    }
    NoDupPermutation(listed, sorted);
    forall q | 0 <= q < |sorted| ensures sorted[q] in cands {
      assert sorted[q] in multiset(listed);
    }
    assert NoDup(r) by {
      forall i, j | 0 <= i < j < e ensures r[i] != r[j] {
        assert r[i] == sorted[i] && r[j] == sorted[j];
      }
    }
    forall i, j | 0 <= i < j < e ensures m[r[j]] <= m[r[i]] {
      assert r[i] == sorted[i] && r[j] == sorted[j];
      assert le(sorted[j], sorted[i]);
    }
    forall q | 0 <= q < e ensures sorted[q] in r {
      assert r[q] == sorted[q];
    }
    forall x, i | x in cands && x !in r && 0 <= i < e ensures m[x] <= m[r[i]] {
      assert x in multiset(sorted);
      var q :| 0 <= q < |sorted| && sorted[q] == x;
      assert e <= q;
      assert r[i] == sorted[i];
      assert le(sorted[q], sorted[i]);
    }
  }

  /** The speller's state: the corpus `Counter` and its running total. */
  class AltSpell {
    var corpus: map<string, nat>
    var sumWords: int

    ghost predicate Valid()
      reads this
    {
      && (forall w :: w in corpus ==> corpus[w] > 0)
      && sumWords == Total(corpus)
    }

    /** `AltSpell(word_file)`, given the word counts the file yields. */
    constructor (counts: map<string, nat>)
      requires forall w :: w in counts ==> counts[w] > 0
      ensures Valid()
      ensures corpus == counts
    {
      corpus := counts;
      var s := SumCounts(counts);
      sumWords := s;
    }

    /** Counts one more occurrence of `word`, known or not. */
    method Add(word: string)
      requires Valid()
      modifies this
      ensures Valid()
      ensures corpus == old(corpus)[word := Count(old(corpus), word) + 1]
      ensures sumWords == old(sumWords) + 1
    {
      TotalBump(corpus, word);
      corpus := corpus[word := Count(corpus, word) + 1];
      sumWords := sumWords + 1;
    }

    /** Drops `word` and all its occurrences; an unknown word is refused. */
    method Remove(word: string) returns (o: Outcome<SpellError>)
      requires Valid()
      modifies this
      ensures Valid()
      ensures word !in old(corpus) ==>
        o == Fail(NotInCorpus(word)) && corpus == old(corpus) && sumWords == old(sumWords)
      ensures word in old(corpus) ==>
        o == Pass && corpus == old(corpus) - {word} && sumWords == old(sumWords) - old(corpus)[word]
    {
      if word !in corpus {
        return Fail(NotInCorpus(word));
      }
      TotalRemove(corpus, word);
      sumWords := sumWords - corpus[word];
      corpus := corpus - {word};
      o := Pass;
    }

    /** `prob(word)`: the share of the corpus that is `word`; it divides by
        zero on an empty corpus. */
    method Prob(word: string) returns (r: Result<real, SpellError>)
      requires Valid()
      ensures r.Failure? <==> corpus == map[]
      ensures r.Success? ==>
        sumWords > 0 && Count(corpus, word) <= sumWords && r.value == Share(Count(corpus, word), sumWords)
    {
      TotalPositive(corpus);
      if sumWords == 0 {
        return Failure(ZeroDivision);
      }
      CountAtMostTotal(corpus, word);
      r := Success(Share(Count(corpus, word), sumWords));
    }

    /** `known(words)`: the words of `ws` that the corpus counts. */
    function Known(ws: set<string>): (r: set<string>)
      reads this
      ensures r <= ws
      ensures forall w :: w in ws ==> (w in r <==> w in corpus)
    {
      set w | w in ws && w in corpus
    }

    /** The candidates `alternatives(word, k)` ranks: the known words among
        the word and its edits, widened to the known words two edits away
        only when fewer than `k` were found. */
    ghost function Candidates(word: string, k: int): set<string>
      reads this
    {
      var close := Known({word}) + Known(Edits1(word));
      if |close| < k then close + Known(Edits2(word)) else close
    }

    /** Every candidate is a counted word at most two edits away. */
    lemma CandidatesAreNear(word: string, k: int, x: string)
      requires x in Candidates(word, k)
      ensures x in corpus
      ensures x == word || x in Edits1(word) || x in Edits2(word)
    {
    }

    /** The distance-two candidates are consulted only when fewer than `k`
        words are known among the word and its edits. */
    lemma CloseCandidatesFirst(word: string, k: int)
      ensures |Known({word} + Edits1(word))| >= k ==> Candidates(word, k) == Known({word} + Edits1(word))
      ensures Known({word} + Edits1(word)) <= Candidates(word, k)
      ensures word in corpus ==> word in Candidates(word, k)
    {
      assert Known({word}) + Known(Edits1(word)) == Known({word} + Edits1(word));
    }

    /** `alternatives(word, k)`: at most `k` distinct counted words near
        `word`, most frequent first. */
    method Alternatives(word: string, k: int := 3) returns (r: seq<string>)
      requires Valid()
      ensures Suggests(corpus, Candidates(word, k), k, r)
    {
      var close := Known({word}) + Known(Edits1(word));
      var alternatives := close;
      if |close| < k {
        alternatives := close + Known(Edits2(word));
      }
      assert alternatives == Candidates(word, k);
      var listed := ListOf(alternatives);
      var ranked := Sorting.SortDescending(listed, ByCount(corpus));
      r := Take(ranked, Some(k));
      RankedCut(corpus, listed, alternatives, k);
    }
  }
}
