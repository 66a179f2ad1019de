/** The node tree of the weighted trie (trie.py), stored as an arena: node 0
    is the root sentinel and a node's children are indices into the arena.
    Two ghost views make the shape provable: `paths[n]` is the string spelled
    from the root to node `n`, and `index` maps each such string back to its
    node. This module states the shape invariant and proves that each step of
    `add` keeps it. */
module TrieShape {
  import opened Common

  /** One trie node, with the fields of the source's TrieNode. */
  datatype TrieNode = TrieNode(
    character: char,
    children: seq<nat>,
    tokenFinished: bool,
    count: int,
    tokens: seq<string>)

  /** The root sentinel: character and only token '*', count 1. */
  const Root: TrieNode := TrieNode('*', [], false, 1, ["*"])

  /** `p <= w` is Dafny's prefix test on sequences. */
  lemma PrefixSlice(p: string, w: string)
    ensures p <= w <==> |p| <= |w| && p == w[..|p|]
  {
  }

  /** The path of a non-root node without its last character. */
  function Parent(p: string): string
    requires p != []
  {
    p[..|p| - 1]
  }

  /** Children are in range and extend their parent's path by their own
      character. */
  ghost predicate ChildPaths(nodes: seq<TrieNode>, paths: seq<string>)
    requires |paths| == |nodes|
  {
    forall n, j :: 0 <= n < |nodes| && 0 <= j < |nodes[n].children| ==>
      && nodes[n].children[j] < |nodes|
      && paths[nodes[n].children[j]] == paths[n] + [nodes[nodes[n].children[j]].character]
  }

  /** Siblings carry different characters. */
  ghost predicate SiblingsDistinct(nodes: seq<TrieNode>)
  {
    forall n, j, k :: 0 <= n < |nodes| && 0 <= j < k < |nodes[n].children| ==>
      nodes[n].children[j] < |nodes| && nodes[n].children[k] < |nodes| &&
      nodes[nodes[n].children[j]].character != nodes[nodes[n].children[k]].character
  }

  /** `index` is the inverse of `paths`: no two nodes share a path. */
  ghost predicate Indexed(paths: seq<string>, index: map<string, nat>)
  {
    && (forall n :: 0 <= n < |paths| ==> paths[n] in index && index[paths[n]] == n)
    && (forall s :: s in index ==> index[s] < |paths| && paths[index[s]] == s)
  }

  /** Every non-root node hangs under the node of its parent path. */
  ghost predicate Hung(nodes: seq<TrieNode>, paths: seq<string>, index: map<string, nat>)
    requires |paths| == |nodes|
    requires Indexed(paths, index)
  {
    forall n :: 1 <= n < |nodes| ==>
      && paths[n] != []
      && Parent(paths[n]) in index
      && n in nodes[index[Parent(paths[n])]].children
  }

  /** The arena is a tree rooted at the sentinel, spelled by `paths`. */
  ghost predicate Linked(nodes: seq<TrieNode>, paths: seq<string>, index: map<string, nat>)
  {
    && |nodes| >= 1 && |paths| == |nodes|
    && nodes[0].character == '*' && nodes[0].count == 1 && nodes[0].tokens == ["*"]
    && paths[0] == ""
    && ChildPaths(nodes, paths)
    && SiblingsDistinct(nodes)
    && Indexed(paths, index)
    && Hung(nodes, paths, index)
  }

  /** Registered word `w` passes through node `n`. While `add(word)` is under
      way, `word` has been threaded only through the nodes at depth up to
      `depth`. Outside `add`, `word` is "" and `depth` 0: the empty word's path
      is the root alone, so nothing is pending. */
  ghost predicate Through(paths: seq<string>, keys: set<string>, word: string, depth: nat, n: nat, w: string)
    requires n < |paths|
  {
    w in keys && paths[n] <= w && (w == word ==> |paths[n]| <= depth)
  }

  /** Each non-root node lists every word through it exactly once, and its
      count is the length of that list. */
  ghost predicate Listed(nodes: seq<TrieNode>, paths: seq<string>, keys: set<string>, word: string, depth: nat)
    requires |paths| == |nodes|
  {
    forall n :: 1 <= n < |nodes| ==>
      && NoDup(nodes[n].tokens)
      && |nodes[n].tokens| >= 1
      && nodes[n].count == |nodes[n].tokens|
      && (forall w :: w in nodes[n].tokens <==> Through(paths, keys, word, depth, n, w))
  }

  /** Every prefix of a registered word has a node (the pending word only up
      to `depth`). */
  ghost predicate Reached(index: map<string, nat>, keys: set<string>, word: string, depth: nat)
  {
    forall w, k :: w in keys && 0 <= k <= |w| && (w == word ==> k <= depth) ==> w[..k] in index
  }

  /** A node is marked finished exactly when its path is in `done`. */
  ghost predicate Marked(nodes: seq<TrieNode>, paths: seq<string>, done: set<string>)
    requires |paths| == |nodes|
  {
    forall n :: 0 <= n < |nodes| ==> (nodes[n].tokenFinished <==> paths[n] in done)
  }

  ghost predicate Partial(nodes: seq<TrieNode>, paths: seq<string>, index: map<string, nat>,
                          keys: set<string>, word: string, depth: nat, done: set<string>)
  {
    && Linked(nodes, paths, index)
    && Listed(nodes, paths, keys, word, depth)
    && Reached(index, keys, word, depth)
    && Marked(nodes, paths, done)
  }

  /** The invariant between operations: every registered word is fully
      threaded and marked. */
  ghost predicate Consistent(nodes: seq<TrieNode>, paths: seq<string>, index: map<string, nat>, keys: set<string>)
  {
    Partial(nodes, paths, index, keys, "", 0, keys)
  }

  /** The matches of a prefix: registered words that start with it. */
  ghost function Matches(keys: set<string>, prefix: string): (m: set<string>)
    ensures forall w :: w in m <==> w in keys && prefix <= w
  {
    set w | w in keys && prefix <= w
  }

  /** The arena of a trie with no tokens. */
  lemma EmptyConsistent()
    ensures Consistent([Root], [""], map["" := 0], {})
  {
  }

  /** Registering a new word (before its path is walked) leaves the other
      words threaded and the new one threaded to depth 0. */
  lemma AddStart(nodes: seq<TrieNode>, paths: seq<string>, index: map<string, nat>,
                 keys: set<string>, word: string)
    requires Consistent(nodes, paths, index, keys)
    requires word !in keys
    ensures Partial(nodes, paths, index, keys + {word}, word, 0, keys)
  {
    var keys' := keys + {word};
    forall n, w | 1 <= n < |nodes|
      ensures Through(paths, keys', word, 0, n, w) <==> Through(paths, keys, "", 0, n, w)
    {
      assert paths[n] != [];
    }
    forall w, k | w in keys' && 0 <= k <= |w| && (w == word ==> k <= 0)
      ensures w[..k] in index
    {
      if w == word {
        assert w[..k] == paths[0];
      }
    }
  }

  /** A node that has taken in one more word. */
  function Bump(node: TrieNode, word: string): TrieNode
  {
    node.(count := node.count + 1, tokens := node.tokens + [word])
  }

  /** The arena after a new node for character `ch`, holding only `word`, is
      appended and made the last child of node `cur`. */
  function Attach(nodes: seq<TrieNode>, cur: nat, ch: char, word: string): seq<TrieNode>
    requires cur < |nodes|
  {
    nodes[cur := nodes[cur].(children := nodes[cur].children + [|nodes|])]
    + [TrieNode(ch, [], false, 1, [word])]
  }

  /** Changing only the lists and counts of nodes keeps the tree, its
      marks and the prefixes it reaches. */
  lemma SameShape(nodes: seq<TrieNode>, paths: seq<string>, index: map<string, nat>,
                  done: set<string>, nodes': seq<TrieNode>)
    requires Linked(nodes, paths, index) && Marked(nodes, paths, done)
    requires |nodes'| == |nodes|
    requires forall n :: 0 <= n < |nodes| ==>
      nodes'[n].children == nodes[n].children && nodes'[n].character == nodes[n].character &&
      nodes'[n].tokenFinished == nodes[n].tokenFinished
    requires nodes'[0] == nodes[0]
    ensures Linked(nodes', paths, index) && Marked(nodes', paths, done)
  {
  }

  /** Node `c`, spelled `word[..i + 1]`, takes `word` into its list: every
      node now lists exactly the words through it at depth `i + 1`. */
  lemma BumpListed(nodes: seq<TrieNode>, paths: seq<string>, index: map<string, nat>,
                   keys: set<string>, word: string, i: nat, c: nat, nodes': seq<TrieNode>)
    requires |paths| == |nodes| && Indexed(paths, index)
    requires Listed(nodes, paths, keys, word, i)
    requires word in keys && i < |word|
    requires 1 <= c < |nodes| && paths[c] == word[..i + 1]
    requires nodes' == nodes[c := Bump(nodes[c], word)]
    ensures Listed(nodes', paths, keys, word, i + 1)
  {
    forall n | 1 <= n < |nodes'|
      ensures && NoDup(nodes'[n].tokens)
              && |nodes'[n].tokens| >= 1
              && nodes'[n].count == |nodes'[n].tokens|
              && (forall w :: w in nodes'[n].tokens <==> Through(paths, keys, word, i + 1, n, w))
    {
      if n == c {
        assert !Through(paths, keys, word, i, n, word);
        assert word !in nodes[n].tokens;
        forall w ensures w in nodes'[n].tokens <==> Through(paths, keys, word, i + 1, n, w) {
          assert w in nodes'[n].tokens <==> w in nodes[n].tokens || w == word;
        }
      } else {
        assert nodes'[n] == nodes[n];
        assert paths[n] != word[..i + 1] by { assert index[paths[n]] == n && index[paths[c]] == c; }
        PrefixSlice(paths[n], word);
        forall w ensures Through(paths, keys, word, i + 1, n, w) <==> Through(paths, keys, word, i, n, w) {
        }
      }
    }
  }

  /** The walk of `add(word)` at depth `i` meets an existing child `c` for
      `word[i]`: bumping it threads `word` one level deeper. */
  lemma StepExisting(nodes: seq<TrieNode>, paths: seq<string>, index: map<string, nat>,
                     keys: set<string>, word: string, i: nat, done: set<string>, cur: nat, c: nat)
    requires Partial(nodes, paths, index, keys, word, i, done)
    requires word in keys && i < |word|
    requires cur < |nodes| && paths[cur] == word[..i]
    requires c in nodes[cur].children && nodes[c].character == word[i]
    ensures c < |nodes| && paths[c] == word[..i + 1]
    ensures Partial(nodes[c := Bump(nodes[c], word)], paths, index, keys, word, i + 1, done)
  {
    var j :| 0 <= j < |nodes[cur].children| && nodes[cur].children[j] == c;
    assert paths[c] == word[..i] + [word[i]] == word[..i + 1];
    assert c != 0;
    var nodes' := nodes[c := Bump(nodes[c], word)];
    SameShape(nodes, paths, index, done, nodes');
    BumpListed(nodes, paths, index, keys, word, i, c, nodes');
    ExtendReached(index, keys, word, i);
  }

  /** A node's path is its parent's path and its own character, and the node
      is among the children of the node for the parent path. */
  lemma ChildOf(nodes: seq<TrieNode>, paths: seq<string>, index: map<string, nat>, s: string)
    requires Linked(nodes, paths, index)
    requires s != []
    ensures s in index ==> && Parent(s) in index
                           && index[s] in nodes[index[Parent(s)]].children
                           && nodes[index[s]].character == s[|s| - 1]
  {
    if s in index {
      var m := index[s];
      assert paths[m] == s;
      assert m != 0;
      var p := index[Parent(s)];
      var j :| 0 <= j < |nodes[p].children| && nodes[p].children[j] == m;
      assert paths[m] == paths[p] + [nodes[m].character];
    }
  }

  /** No node is spelled `word[..i + 1]` when the node for `word[..i]` has no
      child for `word[i]`. */
  lemma NoSuchNode(nodes: seq<TrieNode>, paths: seq<string>, index: map<string, nat>,
                   word: string, i: nat, cur: nat)
    requires Linked(nodes, paths, index)
    requires i < |word| && cur < |nodes| && paths[cur] == word[..i]
    requires forall j :: 0 <= j < |nodes[cur].children| ==> nodes[nodes[cur].children[j]].character != word[i]
    ensures word[..i + 1] !in index
  {
    ChildOf(nodes, paths, index, word[..i + 1]);
    assert Parent(word[..i + 1]) == word[..i];
    assert index[word[..i]] == cur;
  }

  /** Attaching a node keeps every child's path its parent's path extended
      by its character. */
  lemma AttachChildPaths(nodes: seq<TrieNode>, paths: seq<string>, word: string, i: nat, cur: nat)
    requires |paths| == |nodes| && ChildPaths(nodes, paths)
    requires i < |word| && cur < |nodes| && paths[cur] == word[..i]
    ensures ChildPaths(Attach(nodes, cur, word[i], word), paths + [word[..i + 1]])
  {
    var added := |nodes|;
    var nodes' := Attach(nodes, cur, word[i], word);
    var paths' := paths + [word[..i + 1]];
    assert word[..i + 1] == paths[cur] + [word[i]];
    forall n, j | 0 <= n < |nodes'| && 0 <= j < |nodes'[n].children|
      ensures nodes'[n].children[j] < |nodes'|
      ensures paths'[nodes'[n].children[j]] == paths'[n] + [nodes'[nodes'[n].children[j]].character]
    {
      assert n < added;
      if n == cur && j == |nodes[cur].children| {
        assert nodes'[n].children[j] == added;
      } else {
        assert nodes'[n].children[j] == nodes[n].children[j];
        assert nodes'[nodes[n].children[j]] == nodes[nodes[n].children[j]] || nodes[n].children[j] == cur;
      }
    }
  }

  /** Attaching a node for a character no child of `cur` carries keeps
      siblings distinct. */
  lemma AttachSiblings(nodes: seq<TrieNode>, word: string, i: nat, cur: nat, nodes': seq<TrieNode>)
    requires SiblingsDistinct(nodes)
    requires i < |word| && cur < |nodes|
    requires forall j :: 0 <= j < |nodes[cur].children| ==> nodes[cur].children[j] < |nodes|
    requires forall j :: 0 <= j < |nodes[cur].children| ==> nodes[nodes[cur].children[j]].character != word[i]
    requires nodes' == Attach(nodes, cur, word[i], word)
    ensures SiblingsDistinct(nodes')
  {
    var added := |nodes|;
    forall n, j, k | 0 <= n < |nodes'| && 0 <= j < k < |nodes'[n].children|
      ensures nodes'[n].children[j] < |nodes'| && nodes'[n].children[k] < |nodes'| &&
              nodes'[nodes'[n].children[j]].character != nodes'[nodes'[n].children[k]].character
    {
      assert n < added;
      if n == cur && k == |nodes[cur].children| {
        assert nodes'[n].children[k] == added;
        assert nodes'[n].children[j] == nodes[cur].children[j];
        assert nodes'[added].character == word[i];
        assert nodes'[nodes[cur].children[j]].character == nodes[nodes[cur].children[j]].character;
      } else {
        assert nodes'[n].children[j] == nodes[n].children[j];
        assert nodes'[n].children[k] == nodes[n].children[k];
        assert nodes'[nodes[n].children[j]].character == nodes[nodes[n].children[j]].character;
        assert nodes'[nodes[n].children[k]].character == nodes[nodes[n].children[k]].character;
      }
    }
  }

  /** Attaching a node spelled by a new path `p` under `cur` keeps every
      non-root node hanging under its parent path. */
  lemma AttachHung(nodes: seq<TrieNode>, paths: seq<string>, index: map<string, nat>,
                   word: string, i: nat, cur: nat)
    requires |paths| == |nodes| && Indexed(paths, index) && Hung(nodes, paths, index)
    requires i < |word| && cur < |nodes| && paths[cur] == word[..i]
    requires word[..i + 1] !in index
    ensures Indexed(paths + [word[..i + 1]], index[word[..i + 1] := |nodes|])
    ensures Hung(Attach(nodes, cur, word[i], word), paths + [word[..i + 1]], index[word[..i + 1] := |nodes|])
  {
    var added := |nodes|;
    var p := word[..i + 1];
    var nodes' := Attach(nodes, cur, word[i], word);
    var paths' := paths + [p];
    var index' := index[p := added];
    assert Parent(p) == paths[cur];
    assert forall n :: 0 <= n < added ==> paths'[n] == paths[n];
    assert Indexed(paths', index');
    forall n | 1 <= n < |nodes'|
      ensures paths'[n] != [] && Parent(paths'[n]) in index'
      ensures n in nodes'[index'[Parent(paths'[n])]].children
    {
      if n == added {
        assert index'[Parent(p)] == cur;
      } else {
        assert Parent(paths[n]) != p by { assert |Parent(paths[n])| < |paths[n]|; }
        var q := index[Parent(paths[n])];
        assert index'[Parent(paths[n])] == q;
        assert nodes[q].children <= nodes'[q].children;
      }
    }
  }

  /** Appending a node for `word[i]` below the node for `word[..i]`, which has
      no child for `word[i]`, keeps the arena a tree. */
  lemma AttachLinked(nodes: seq<TrieNode>, paths: seq<string>, index: map<string, nat>,
                     word: string, i: nat, cur: nat)
    requires Linked(nodes, paths, index)
    requires i < |word| && cur < |nodes| && paths[cur] == word[..i]
    requires forall j :: 0 <= j < |nodes[cur].children| ==> nodes[nodes[cur].children[j]].character != word[i]
    ensures word[..i + 1] !in index
    ensures Linked(Attach(nodes, cur, word[i], word), paths + [word[..i + 1]], index[word[..i + 1] := |nodes|])
  {
    NoSuchNode(nodes, paths, index, word, i, cur);
    AttachChildPaths(nodes, paths, word, i, cur);
    AttachSiblings(nodes, word, i, cur, Attach(nodes, cur, word[i], word));
    AttachHung(nodes, paths, index, word, i, cur);
    var nodes' := Attach(nodes, cur, word[i], word);
    assert nodes'[0].character == nodes[0].character && nodes'[0].tokens == nodes[0].tokens;
  }

  /** The attached node lists `word` alone, which is exactly the word
      through it; the other nodes keep their lists, and `word` reaches none
      of them at the new depth. */
  lemma AttachListed(nodes: seq<TrieNode>, paths: seq<string>, index: map<string, nat>,
                     keys: set<string>, word: string, i: nat, cur: nat,
                     nodes': seq<TrieNode>, paths': seq<string>)
    requires |paths| == |nodes| && Indexed(paths, index)
    requires Listed(nodes, paths, keys, word, i) && Reached(index, keys, word, i)
    requires word in keys && i < |word| && cur < |nodes|
    requires word[..i + 1] !in index
    requires nodes' == Attach(nodes, cur, word[i], word)
    requires paths' == paths + [word[..i + 1]]
    ensures Listed(nodes', paths', keys, word, i + 1)
  {
    var added := |nodes|;
    var p := word[..i + 1];
    forall n | 1 <= n < |nodes'|
      ensures && NoDup(nodes'[n].tokens)
              && |nodes'[n].tokens| >= 1
              && nodes'[n].count == |nodes'[n].tokens|
              && (forall w :: w in nodes'[n].tokens <==> Through(paths', keys, word, i + 1, n, w))
    {
      if n == added {
        assert nodes'[n].tokens == [word] && paths'[n] == p;
        forall w | w in keys && w != word && |w| >= i + 1 ensures w[..i + 1] != p {
          assert w[..i + 1] in index;
        }
        forall w ensures w in nodes'[n].tokens <==> Through(paths', keys, word, i + 1, n, w) {
          PrefixSlice(p, w);
        }
      } else {
        assert nodes'[n].tokens == nodes[n].tokens && nodes'[n].count == nodes[n].count;
        assert paths'[n] == paths[n];
        assert paths[n] != p by { assert paths[n] in index; }
        PrefixSlice(paths[n], word);
        forall w ensures Through(paths', keys, word, i + 1, n, w) <==> Through(paths, keys, word, i, n, w) {
        }
      }
    }
  }

  /** Once the node for `word[..i + 1]` is indexed, every prefix of `word`
      up to length `i + 1` has a node. */
  lemma ExtendReached(index: map<string, nat>, keys: set<string>, word: string, i: nat)
    requires Reached(index, keys, word, i)
    requires i < |word| && word[..i + 1] in index
    ensures Reached(index, keys, word, i + 1)
  {
  }

  /** The attached node is not finished and its path is not a finished
      word, since `word` is still being added. */
  lemma AttachMarked(nodes: seq<TrieNode>, paths: seq<string>, word: string, i: nat, cur: nat,
                     done: set<string>, nodes': seq<TrieNode>, paths': seq<string>)
    requires |paths| == |nodes| && Marked(nodes, paths, done)
    requires i < |word| && cur < |nodes|
    requires word !in done
    requires forall w :: w in done && |w| == i + 1 && w <= word ==> w == word
    requires nodes' == Attach(nodes, cur, word[i], word)
    requires paths' == paths + [word[..i + 1]]
    ensures Marked(nodes', paths', done)
  {
    var p := word[..i + 1];
    assert p <= word;
    forall n | 0 <= n < |nodes'| ensures nodes'[n].tokenFinished <==> paths'[n] in done {
      if n < |nodes| {
        assert nodes'[n].tokenFinished == nodes[n].tokenFinished && paths'[n] == paths[n];
      }
    }
  }

  /** The walk of `add(word)` at depth `i` finds no child for `word[i]`: the
      attached node threads `word` one level deeper. */
  lemma StepNew(nodes: seq<TrieNode>, paths: seq<string>, index: map<string, nat>,
                keys: set<string>, word: string, i: nat, done: set<string>, cur: nat)
    requires Partial(nodes, paths, index, keys, word, i, done)
    requires word in keys && i < |word| && done <= keys && word !in done
    requires cur < |nodes| && paths[cur] == word[..i]
    requires forall j :: 0 <= j < |nodes[cur].children| ==> nodes[nodes[cur].children[j]].character != word[i]
    ensures Partial(Attach(nodes, cur, word[i], word), paths + [word[..i + 1]],
                    index[word[..i + 1] := |nodes|], keys, word, i + 1, done)
  {
    var p := word[..i + 1];
    AttachLinked(nodes, paths, index, word, i, cur);
    var nodes' := Attach(nodes, cur, word[i], word);
    var paths' := paths + [p];
    var index' := index[p := |nodes|];
    AttachListed(nodes, paths, index, keys, word, i, cur, nodes', paths');
    assert Reached(index', keys, word, i) by {
      forall w, k | w in keys && 0 <= k <= |w| && (w == word ==> k <= i) ensures w[..k] in index' {
        assert w[..k] in index;
      }
    }
    ExtendReached(index', keys, word, i);
    forall w | w in done && |w| == i + 1 && w <= word ensures w == word {
      assert w == w[..|w|];
      PrefixSlice(w, word);
    }
    AttachMarked(nodes, paths, word, i, cur, done, nodes', paths');
  }

  /** Once the walk of `add(word)` has covered the whole word and the last
      node is marked finished, the invariant between operations holds again. */
  lemma AddFinish(nodes: seq<TrieNode>, paths: seq<string>, index: map<string, nat>,
                  keys: set<string>, word: string, cur: nat)
    requires Partial(nodes, paths, index, keys, word, |word|, keys - {word})
    requires word in keys
    requires cur < |nodes| && paths[cur] == word
    ensures Consistent(nodes[cur := nodes[cur].(tokenFinished := true)], paths, index, keys)
  {
    var nodes' := nodes[cur := nodes[cur].(tokenFinished := true)];
    assert forall n :: 0 <= n < |nodes| ==>
      nodes'[n].children == nodes[n].children && nodes'[n].character == nodes[n].character &&
      nodes'[n].tokens == nodes[n].tokens && nodes'[n].count == nodes[n].count;
    assert Linked(nodes', paths, index);
    forall n, w | 1 <= n < |nodes|
      ensures Through(paths, keys, "", 0, n, w) <==> Through(paths, keys, word, |word|, n, w)
    {
      assert paths[n] != [];
    }
    assert Listed(nodes', paths, keys, "", 0);
    assert Marked(nodes', paths, keys) by {
      forall n | 0 <= n < |nodes'| ensures nodes'[n].tokenFinished <==> paths[n] in keys {
        assert n != cur ==> paths[n] != word by { assert index[paths[n]] == n && index[paths[cur]] == cur; }
      }
    }
  }

  /** The node for a non-empty prefix lists exactly the matches of that
      prefix, once each; so its count is the number of registered words that
      pass through it, and it is never zero. */
  lemma NodeListsMatches(nodes: seq<TrieNode>, paths: seq<string>, index: map<string, nat>,
                         keys: set<string>, n: nat)
    requires Consistent(nodes, paths, index, keys)
    requires n < |nodes| && paths[n] != ""
    ensures 1 <= n
    ensures NoDup(nodes[n].tokens)
    ensures forall w :: w in nodes[n].tokens <==> w in Matches(keys, paths[n])
    ensures nodes[n].count == |Matches(keys, paths[n])| >= 1
  {
    assert n != 0;
    var m := Matches(keys, paths[n]);
    forall w ensures w in nodes[n].tokens <==> w in m {
      assert Through(paths, keys, "", 0, n, w) <==> w in m;
    }
    DistinctCard(nodes[n].tokens, m);
  }

  /** A registered word is listed by the node of each of its non-empty
      prefixes, and the node of the whole word is marked finished. */
  lemma RegisteredOnPath(nodes: seq<TrieNode>, paths: seq<string>, index: map<string, nat>,
                         keys: set<string>, w: string)
    requires Consistent(nodes, paths, index, keys)
    requires w in keys
    ensures forall k :: 1 <= k <= |w| ==>
      w[..k] in index && index[w[..k]] < |nodes| && w in nodes[index[w[..k]]].tokens
    ensures w in index && index[w] < |nodes| && nodes[index[w]].tokenFinished
  {
    forall k | 1 <= k <= |w|
      ensures w[..k] in index && index[w[..k]] < |nodes| && w in nodes[index[w[..k]]].tokens
    {
      var n := index[w[..k]];
      assert paths[n] == w[..k] != "";
      assert n != 0;
      assert Through(paths, keys, "", 0, n, w);
    }
    assert w[..|w|] == w;
  }

  /** The root has children exactly when some non-empty word is registered. */
  lemma RootChildren(nodes: seq<TrieNode>, paths: seq<string>, index: map<string, nat>, keys: set<string>)
    requires Consistent(nodes, paths, index, keys)
    ensures nodes[0].children == [] <==> forall w :: w in keys ==> w == ""
  {
    if nodes[0].children != [] {
      var c := nodes[0].children[0];
      assert paths[c] == [nodes[c].character];
      assert c != 0;
      var t := nodes[c].tokens[0];
      assert t in nodes[c].tokens;
      assert t in keys && paths[c] <= t;
    }
    if w :| w in keys && w != "" {
      assert w[..1] in index;
      var m := index[w[..1]];
      assert paths[m] == w[..1];
      assert m != 0;
      assert Parent(paths[m]) == "";
      assert index[""] == 0;
    }
  }

  /** The walk of `query(prefix)` finds no child for `prefix[i]` below the
      node for `prefix[..i]`: no registered word starts with `prefix`. */
  lemma NoChildNoMatch(nodes: seq<TrieNode>, paths: seq<string>, index: map<string, nat>,
                       keys: set<string>, prefix: string, i: nat, cur: nat)
    requires Consistent(nodes, paths, index, keys)
    requires i < |prefix| && cur < |nodes| && paths[cur] == prefix[..i]
    requires forall j :: 0 <= j < |nodes[cur].children| ==> nodes[nodes[cur].children[j]].character != prefix[i]
    ensures Matches(keys, prefix) == {}
  {
    NoSuchNode(nodes, paths, index, prefix, i, cur);
    forall w | w in keys && |w| >= i + 1 ensures w[..i + 1] != prefix[..i + 1] {
      assert w[..i + 1] in index;
    }
    forall w | w in keys ensures !(prefix <= w) {
      PrefixSlice(prefix, w);
    }
  }
}
