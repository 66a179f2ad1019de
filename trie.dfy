/** The weighted prefix trie of trie.py: a tree of nodes that each list the
    tokens passing through them, and a separate map from token to weight.
    `Query` ranks the tokens under a prefix by (weight, token), highest
    first. */
module WeightedTrie {
  import opened Common
  import opened Sorting
  import opened TextOrder
  import opened TrieShape

  /** The source raises ValueError for a duplicate `add` and for an `update`
      of an unknown token, and KeyError when `query` looks up a weight that
      is not registered. */
  datatype Error = DuplicateToken(word: string) | UnknownToken(word: string) | KeyError(key: string)

  /** An entry of a query's list: a `(weight, token)` pair, or the bare
      string that stands in the list of the "not found" result. */
  datatype Item = Scored(weight: int, token: string) | Placeholder(text: string)

  /** The triple `(found, count, items)` that `query` returns. */
  datatype QueryResult = QueryResult(found: bool, count: int, items: seq<Item>)

  /** `(False, 0, [''])`, returned when no token starts with the prefix. */
  const EMPTY_RESULT: QueryResult := QueryResult(false, 0, [Placeholder("")])

  /** Python's order on `(weight, token)` pairs: by weight, then by token.
      Placeholders never meet pairs in a sort; they are put lowest. */
  predicate ItemLe(a: Item, b: Item)
  {
    match a
    case Placeholder(_) => true
    case Scored(w, t) => b.Scored? && (w < b.weight || (w == b.weight && StrLe(t, b.token)))
  }

  lemma ItemOrder()
    ensures TotalPreorder(ItemLe)
  {
    forall a: Item, b: Item, c: Item
      ensures ItemLe(a, b) || ItemLe(b, a)
      ensures ItemLe(a, b) && ItemLe(b, c) ==> ItemLe(a, c)
    {
      if a.Scored? && b.Scored? && c.Scored? {
        StrLeTotalPreorder(a.token, b.token, c.token);
      } else if a.Scored? && b.Scored? {
        StrLeTotalPreorder(a.token, b.token, a.token);
      }
    }
  }

  /** `sorted(items, reverse=True)` on `(weight, token)` pairs. */
  function SortItems(items: seq<Item>): (r: seq<Item>)
    ensures multiset(r) == multiset(items)
    ensures Descending(r, ItemLe)
  {
    ItemOrder();
    SortDescending(items, ItemLe)
  }

  /** `[(weights[t], t) for t in ts]`: fails with KeyError on a token that
      has no weight. */
  function ScoreAll(ts: seq<string>, weights: map<string, int>): (r: Result<seq<Item>, Error>)
    ensures r.Success? <==> forall t :: t in ts ==> t in weights
    ensures r.Success? ==>
      |r.value| == |ts| && forall i :: 0 <= i < |ts| ==> r.value[i] == Scored(weights[ts[i]], ts[i])
    ensures r.Failure? ==> r.error.KeyError? && r.error.key in ts && r.error.key !in weights
  {
    if ts == [] then Success([])
    else if ts[0] !in weights then Failure(KeyError(ts[0]))
    else
      match ScoreAll(ts[1..], weights)
      case Failure(e) => Failure(e)
      case Success(rest) => Success([Scored(weights[ts[0]], ts[0])] + rest)
  }

  /** `t` is the token of some entry of `items`. */
  predicate Lists(items: seq<Item>, t: string)
  {
    exists i :: 0 <= i < |items| && items[i].Scored? && items[i].token == t
  }

  /** `items` is the truncated ranking of the matches `m`: as many entries
      as the slice `[:maxResults]` keeps, each a match with its current
      weight, each token once, highest first, and no match left out that
      ranks above a listed one. */
  ghost predicate Ranks(weights: map<string, int>, m: set<string>, maxResults: Option<int>, items: seq<Item>)
  {
    && m <= weights.Keys
    && |items| == SliceEnd(|m|, maxResults)
    && (forall i :: 0 <= i < |items| ==>
          items[i].Scored? && items[i].token in m && items[i].weight == weights[items[i].token])
    && Descending(items, ItemLe)
    && (forall i, j :: 0 <= i < j < |items| ==> items[i].token != items[j].token)
    && (forall t :: t in m && !Lists(items, t) ==>
          forall i :: 0 <= i < |items| ==> ItemLe(Scored(weights[t], t), items[i]))
  }

  /** What `query(prefix, maxResults)` returns for the registered weights:
      the empty result when the root has no children (only the empty word,
      if anything, is registered); for the empty prefix, the root's sentinel
      token '*', which raises KeyError unless '*' is registered; otherwise
      the empty result when no token starts with the prefix, and else the
      number of such tokens and their truncated ranking. */
  ghost predicate Answers(weights: map<string, int>, prefix: string, maxResults: Option<int>,
                          r: Result<QueryResult, Error>)
  {
    if forall w :: w in weights ==> w == "" then r == Success(EMPTY_RESULT)
    else if prefix == "" then
      if "*" in weights then r == Success(QueryResult(true, 1, Take([Scored(weights["*"], "*")], maxResults)))
      else r == Failure(KeyError("*"))
    else
      var m := Matches(weights.Keys, prefix);
      if m == {} then r == Success(EMPTY_RESULT)
      else r.Success? && r.value.found && r.value.count == |m| && Ranks(weights, m, maxResults, r.value.items)
  }

  /** `query`'s answer for a node once the walk has reached it: the node's
      count and its tokens ranked and cut at `maxResults`. */
  function RankNode(ts: seq<string>, count: int, weights: map<string, int>, maxResults: Option<int>)
    : (r: Result<QueryResult, Error>)
    ensures r.Failure? <==> exists t :: t in ts && t !in weights
  {
    match ScoreAll(ts, weights)
    case Failure(e) => Failure(e)
    case Success(scored) => Success(QueryResult(true, count, Take(SortItems(scored), maxResults)))
  }

  /** The tokens of a node that lists the matches `m` once each, scored and
      sorted: one entry per match, with its weight, highest first. */
  lemma SortedMatches(weights: map<string, int>, ts: seq<string>, m: set<string>)
    requires NoDup(ts)
    requires forall t :: t in ts <==> t in m
    requires m <= weights.Keys
    ensures ScoreAll(ts, weights).Success?
    ensures var sorted := SortItems(ScoreAll(ts, weights).value);
      && |sorted| == |m|
      && (forall q :: 0 <= q < |sorted| ==>
            sorted[q].Scored? && sorted[q].token in m && sorted[q].weight == weights[sorted[q].token])
      && (forall q, q' :: 0 <= q < q' < |sorted| ==> sorted[q].token != sorted[q'].token)
      && (forall t :: t in m ==> Scored(weights[t], t) in sorted)
  {
    var scored := ScoreAll(ts, weights).value;
    var sorted := SortItems(scored);
    DistinctCard(ts, m);
    assert |sorted| == |scored| by {
      assert |multiset(sorted)| == |multiset(scored)|;
    }
    assert NoDup(scored) by {
      forall i, j | 0 <= i < j < |scored| ensures scored[i] != scored[j] {
        assert ts[i] != ts[j];
      }
    }
    NoDupPermutation(scored, sorted);
    forall q | 0 <= q < |sorted|
      ensures sorted[q].Scored? && sorted[q].token in m && sorted[q].weight == weights[sorted[q].token]
    {
      assert sorted[q] in multiset(scored);
      var k :| 0 <= k < |scored| && scored[k] == sorted[q];
      assert ts[k] in m;
    }
    forall q, q' | 0 <= q < q' < |sorted| ensures sorted[q].token != sorted[q'].token {
      assert sorted[q] != sorted[q'];
    }
    forall t | t in m ensures Scored(weights[t], t) in sorted {
      var k :| 0 <= k < |ts| && ts[k] == t;
      assert scored[k] == Scored(weights[t], t);
      assert scored[k] in multiset(sorted);
    }
  }

  /** Cutting a sorted list of all the matches, each once, at `maxResults`
      gives a truncated ranking of the matches. */
  lemma SliceRanks(weights: map<string, int>, m: set<string>, maxResults: Option<int>, sorted: seq<Item>)
    requires m <= weights.Keys
    requires |sorted| == |m| && Descending(sorted, ItemLe)
    requires forall q :: 0 <= q < |sorted| ==>
      sorted[q].Scored? && sorted[q].token in m && sorted[q].weight == weights[sorted[q].token]
    requires forall q, q' :: 0 <= q < q' < |sorted| ==> sorted[q].token != sorted[q'].token
    requires forall t :: t in m ==> Scored(weights[t], t) in sorted
    ensures Ranks(weights, m, maxResults, Take(sorted, maxResults))
  {
    var items := Take(sorted, maxResults);
    var e := |items|;
    assert forall q :: 0 <= q < e ==> items[q] == sorted[q];
    forall q | 0 <= q < e ensures Lists(items, sorted[q].token) {
      assert items[q] == sorted[q];
    }
    forall t | t in m && !Lists(items, t)
      ensures forall i :: 0 <= i < e ==> ItemLe(Scored(weights[t], t), items[i])
    {
      var q :| 0 <= q < |sorted| && sorted[q] == Scored(weights[t], t);
      assert e <= q;
    }
  }

  /** Ranking the tokens of a node, which lists the matches `m` once each,
      and cutting the ranking at `maxResults` gives a truncated ranking of
      `m`. */
  lemma RankedSlice(weights: map<string, int>, ts: seq<string>, m: set<string>, count: int, maxResults: Option<int>)
    requires NoDup(ts)
    requires forall t :: t in ts <==> t in m
    requires m <= weights.Keys
    ensures RankNode(ts, count, weights, maxResults).Success?
    ensures Ranks(weights, m, maxResults, RankNode(ts, count, weights, maxResults).value.items)
  {
    SortedMatches(weights, ts, m);
    SliceRanks(weights, m, maxResults, SortItems(ScoreAll(ts, weights).value));
  }

  /** The node the walk of `query(prefix)` reaches answers the query. */
  lemma NodeAnswers(nodes: seq<TrieNode>, paths: seq<string>, index: map<string, nat>,
                    weights: map<string, int>, prefix: string, cur: nat, maxResults: Option<int>)
    requires Consistent(nodes, paths, index, weights.Keys)
    requires nodes[0].children != []
    requires cur < |nodes| && paths[cur] == prefix
    ensures Answers(weights, prefix, maxResults, RankNode(nodes[cur].tokens, nodes[cur].count, weights, maxResults))
  {
    RootChildren(nodes, paths, index, weights.Keys);
    if prefix != "" {
      NodeListsMatches(nodes, paths, index, weights.Keys, cur);
      RankedSlice(weights, nodes[cur].tokens, Matches(weights.Keys, prefix), nodes[cur].count, maxResults);
    } else {
      assert index[""] == 0 && cur == 0;
      if "*" in weights {
        var one := [Scored(weights["*"], "*")];
        assert SortItems(one) == one by {
          var s := SortItems(one);
          assert |multiset(s)| == 1;
          assert s[0] in multiset(s);
        }
      }
    }
  }

  lemma SubsetSameSize<T>(a: set<T>, b: set<T>)
    requires a <= b && |a| == |b|
    ensures a == b
  {
    assert b == a + (b - a);
    assert |b - a| == 0;
  }

  /** An uncapped ranking lists every match: its entries are as many as
      the matches, each a different match. */
  lemma {:induction false} UncappedListsAll(weights: map<string, int>, m: set<string>, items: seq<Item>)
    requires Ranks(weights, m, None, items)
    ensures forall t :: t in m ==> Scored(weights[t], t) in items
  {
    var tokens := seq(|items|, i requires 0 <= i < |items| => items[i].token);
    var listed := set i | 0 <= i < |items| :: items[i].token;
    forall x ensures x in tokens <==> x in listed {
      if x in tokens {
        var i :| 0 <= i < |tokens| && tokens[i] == x;
        assert items[i].token == x;
      }
      if x in listed {
        var i :| 0 <= i < |items| && items[i].token == x;
        assert tokens[i] == x;
      }
    }
    DistinctCard(tokens, listed);
    SubsetSameSize(listed, m);
    forall t | t in m ensures Scored(weights[t], t) in items {
      var i :| 0 <= i < |items| && items[i].token == t;
      assert items[i] == Scored(weights[t], t);
    }
  }

  /** Without a cap, the ranking of a prefix lists every registered token
      that starts with it, with its current weight. */
  lemma QueryListsEveryMatch(weights: map<string, int>, prefix: string,
                             r: Result<QueryResult, Error>, w: string)
    requires Answers(weights, prefix, None, r)
    requires prefix != "" && w in weights && prefix <= w
    ensures r.Success? && r.value.found
    ensures Scored(weights[w], w) in r.value.items
  {
    assert w != "";
    var m := Matches(weights.Keys, prefix);
    assert w in m;
    UncappedListsAll(weights, m, r.value.items);
  }

  /** `vs` repeats no word and registers none already in `registered`. */
  ghost predicate Fresh(registered: set<string>, vs: seq<string>)
  {
    NoDup(vs) && forall w :: w in vs ==> w !in registered
  }

  /** The weights after the words `vs` are added with weight 1 to `base`. */
  ghost function Loaded(base: map<string, int>, vs: seq<string>): (m: map<string, int>)
    ensures m.Keys == base.Keys + set w | w in vs
  {
    base + map w | w in vs :: 1
  }

  /** Adding the next word of the vocabulary, when it is new, loads one
      more word. */
  lemma LoadNext(base: map<string, int>, vs: seq<string>, i: nat)
    requires i < |vs|
    requires Fresh(base.Keys, vs[..i])
    requires vs[i] !in Loaded(base, vs[..i])
    ensures Fresh(base.Keys, vs[..i + 1])
    ensures Loaded(base, vs[..i])[vs[i] := 1] == Loaded(base, vs[..i + 1])
  {
    var a, b, w := vs[..i], vs[..i + 1], vs[i];
    assert b == a + [w];
    assert forall x :: x in b <==> x in a || x == w;
    assert NoDup(b) by {
      forall j, k | 0 <= j < k < |b| ensures b[j] != b[k] {
        if k == i { assert b[j] in a; } else { assert b[j] == a[j] && b[k] == a[k]; }
      }
    }
    var lhs, rhs := Loaded(base, a)[w := 1], Loaded(base, b);
    assert lhs.Keys == rhs.Keys;
    forall x | x in lhs ensures lhs[x] == rhs[x] {
      if x == w || x in a { assert x in b; } else { assert x !in b; }
    }
  }

  /** A word of the vocabulary that is already registered, or repeats an
      earlier one, makes the vocabulary unfit to load. */
  lemma RepeatedWord(base: map<string, int>, vs: seq<string>, i: nat)
    requires i < |vs|
    requires vs[i] in Loaded(base, vs[..i])
    ensures !Fresh(base.Keys, vs)
  {
    if vs[i] in vs[..i] {
      var k :| 0 <= k < i && vs[k] == vs[i];
      assert !NoDup(vs);
    }
  }

  lemma WholeSlice(vs: seq<string>)
    ensures vs[..|vs|] == vs
  {
  }

  class Trie {
    var nodes: seq<TrieNode>
    var tokens: map<string, int>
    ghost var paths: seq<string>
    ghost var index: map<string, nat>

    ghost predicate Valid()
      reads this
    {
      Consistent(nodes, paths, index, tokens.Keys)
    }

    /** `word` is listed by the node of each of its non-empty prefixes, and
        the node of the whole word is marked finished. */
    ghost predicate Threaded(word: string)
      reads this
    {
      && (forall k :: 1 <= k <= |word| ==>
            word[..k] in index && index[word[..k]] < |nodes| && word in nodes[index[word[..k]]].tokens)
      && word in index && index[word] < |nodes| && nodes[index[word]].tokenFinished
    }

    /** A trie with only the root sentinel and no tokens. */
    constructor ()
      ensures Valid()
      ensures nodes == [Root] && tokens == map[]
    {
      nodes := [Root];
      tokens := map[];
      paths := [""];
      index := map["" := 0];
      new;
      EmptyConsistent();
    }

    /** `len(trie)`: the number of registered tokens. */
    method Len() returns (n: nat)
      ensures n == |tokens|
    {
      n := |tokens|;
    }

    /** Registers `word` with weight `value` and threads it through the tree,
        creating the nodes its path lacks. A word that is already registered
        is refused before anything changes. */
    method Add(word: string, value: int := 1) returns (o: Outcome<Error>)
      requires Valid()
      modifies this
      ensures Valid()
      ensures word in old(tokens) ==> o == Fail(DuplicateToken(word)) && unchanged(this)
      ensures word !in old(tokens) ==> o == Pass && tokens == old(tokens)[word := value]
      ensures |tokens| == |old(tokens)| + (if o.Pass? then 1 else 0)
      ensures o.Pass? ==> Threaded(word)
    {
      if word in tokens {
        return Fail(DuplicateToken(word));
      }
      ghost var before := tokens.Keys;
      tokens := tokens[word := value];
      AddStart(nodes, paths, index, before, word);

      var cur: nat, i := 0, 0;
      while i < |word|
        invariant 0 <= i <= |word|
        invariant tokens == old(tokens)[word := value] && tokens.Keys == before + {word}
        invariant Partial(nodes, paths, index, tokens.Keys, word, i, before)
        invariant cur < |paths| && paths[cur] == word[..i]
      {
        cur := Descend(word, i, cur, before);
        i := i + 1;
      }
      assert word[..i] == word;
      assert before == tokens.Keys - {word};
      AddFinish(nodes, paths, index, tokens.Keys, word, cur);
      nodes := nodes[cur := nodes[cur].(tokenFinished := true)];
      RegisteredOnPath(nodes, paths, index, tokens.Keys, word);
      o := Pass;
    }

    /** The `for child in node.children` search shared by `add` and `query`:
        the position of the child of `cur` that carries `ch`, or the number
        of children when none does. */
    method FindChild(cur: nat, ch: char) returns (j: nat)
      requires cur < |nodes|
      requires forall k :: 0 <= k < |nodes[cur].children| ==> nodes[cur].children[k] < |nodes|
      ensures j <= |nodes[cur].children|
      ensures j < |nodes[cur].children| ==> nodes[nodes[cur].children[j]].character == ch
      ensures j == |nodes[cur].children| ==>
        forall k :: 0 <= k < |nodes[cur].children| ==> nodes[nodes[cur].children[k]].character != ch
    {
      var kids := nodes[cur].children;
      j := 0;
      while j < |kids| && nodes[kids[j]].character != ch
        invariant 0 <= j <= |kids|
        invariant forall k :: 0 <= k < j ==> nodes[kids[k]].character != ch
      {
        j := j + 1;
      }
    }

    /** One round of the descent in `add`: the child of `cur` that carries
        `word[i]` lists one more token, or a new child is hung for it. */
    method Descend(word: string, i: nat, cur: nat, ghost done: set<string>) returns (next: nat)
      requires word in tokens && i < |word| && done <= tokens.Keys && word !in done
      requires Partial(nodes, paths, index, tokens.Keys, word, i, done)
      requires cur < |paths| && paths[cur] == word[..i]
      modifies this
      ensures tokens == old(tokens)
      ensures Partial(nodes, paths, index, tokens.Keys, word, i + 1, done)
      ensures next < |paths| && paths[next] == word[..i + 1]
    {
      var j := FindChild(cur, word[i]);
      if j < |nodes[cur].children| {
        next := nodes[cur].children[j];
        StepExisting(nodes, paths, index, tokens.Keys, word, i, done, cur, next);
        nodes := nodes[next := Bump(nodes[next], word)];
      } else {
        StepNew(nodes, paths, index, tokens.Keys, word, i, done, cur);
        next := |nodes|;
        nodes := Attach(nodes, cur, word[i], word);
        paths := paths + [word[..i + 1]];
        index := index[word[..i + 1] := next];
      }
    }

    /** `Trie(vocabulary)`: adds each word with weight 1, in order, stopping
        at the first one already registered. */
    method AddVocabulary(vocabulary: seq<string>) returns (o: Outcome<Error>)
      requires Valid()
      modifies this
      ensures Valid()
      ensures o.Pass? <==> Fresh(old(tokens).Keys, vocabulary)
      ensures o.Pass? ==> tokens == Loaded(old(tokens), vocabulary)
      ensures o.Fail? ==> o.error.DuplicateToken? && o.error.word in vocabulary
    {
      ghost var base := tokens;
      var i := 0;
      while i < |vocabulary|
        invariant 0 <= i <= |vocabulary|
        invariant Valid()
        invariant Fresh(base.Keys, vocabulary[..i])
        invariant tokens == Loaded(base, vocabulary[..i])
      {
        var w := vocabulary[i];
        var added := Add(w, 1);
        if added.Fail? {
          RepeatedWord(base, vocabulary, i);
          return added;
        }
        LoadNext(base, vocabulary, i);
        i := i + 1;
      }
      WholeSlice(vocabulary);
      o := Pass;
    }

    /** Adds `delta` to the weight of a registered token; the tree is not
        touched. An unknown token is refused. */
    method Update(word: string, delta: int := 1) returns (o: Outcome<Error>)
      requires Valid()
      modifies this
      ensures Valid()
      ensures nodes == old(nodes) && paths == old(paths) && index == old(index)
      ensures word !in old(tokens) ==> o == Fail(UnknownToken(word)) && tokens == old(tokens)
      ensures word in old(tokens) ==> o == Pass && tokens == old(tokens)[word := old(tokens)[word] + delta]
    {
      if word !in tokens {
        return Fail(UnknownToken(word));
      }
      tokens := tokens[word := tokens[word] + delta];
      o := Pass;
    }

    /** The walk of `query(prefix)`: from the root, child by child along
        `prefix`. It stops early when no child carries the next character,
        and then nothing registered starts with `prefix`. */
    method Walk(prefix: string) returns (found: bool, cur: nat)
      requires Valid()
      ensures cur < |nodes| == |paths|
      ensures found ==> paths[cur] == prefix
      ensures !found ==> prefix != "" && Matches(tokens.Keys, prefix) == {}
    {
      cur := 0;
      var i := 0;
      while i < |prefix|
        invariant 0 <= i <= |prefix| && cur < |nodes| == |paths|
        invariant paths[cur] == prefix[..i]
      {
        var j := FindChild(cur, prefix[i]);
        if j == |nodes[cur].children| {
          NoChildNoMatch(nodes, paths, index, tokens.Keys, prefix, i, cur);
          return false, cur;
        }
        var child := nodes[cur].children[j];
        assert paths[child] == prefix[..i] + [prefix[i]] == prefix[..i + 1];
        cur := child;
        i := i + 1;
      }
      assert prefix[..i] == prefix;
      found := true;
    }

    /** Walks `prefix` from the root, then ranks the tokens of the node it
        reaches by (weight, token), highest first, keeping `maxResults`. */
    method Query(prefix: string, maxResults: Option<int> := None) returns (r: Result<QueryResult, Error>)
      requires Valid()
      ensures Answers(tokens, prefix, maxResults, r)
    {
      RootChildren(nodes, paths, index, tokens.Keys);
      if nodes[0].children == [] {
        return Success(EMPTY_RESULT);
      }
      var found, cur := Walk(prefix);
      if !found {
        return Success(EMPTY_RESULT);
      }
      r := RankNode(nodes[cur].tokens, nodes[cur].count, tokens, maxResults);
      NodeAnswers(nodes, paths, index, tokens, prefix, cur, maxResults);
    }
  }
}
