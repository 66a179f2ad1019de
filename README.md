# Typeahead trie and speller, modelled in Dafny

This project models the two text components of the typeahead repository.

The **weighted prefix trie** (`trie.py`) is a tree of nodes. Each node records its character, its children, a count, the list of every registered token that passes through it, and whether a token ends there. A dictionary beside the tree maps each token to a weight. `add` threads a new token through the tree. `update` changes a weight. `query` walks a prefix and returns the tokens under it, ranked by `(weight, token)` from highest to lowest and cut at `max_results`.

The **spelling suggester** (`alt_spell.py`, after Norvig) keeps a corpus of word counts and their running total. It generates the strings one edit (`edits1`) or two edits (`edits2`) away from a word. `alternatives` ranks the corpus words among them by frequency.

Files:

- `common.dfy` (module `Common`) holds the shared pieces:
  - `Option`, `Result` (a value or a raised error) and `Outcome` (nothing or a raised error);
  - Python's slice `s[:stop]`, including `None` and negative stops;
  - `list(set)`;
  - facts about sequences without repeats.
- `sorting.dfy` (module `Sorting`) models `sorted(..., reverse=True)` over any total preorder: the result is a rearrangement of the input that never increases.
- `text_order.dfy` (module `TextOrder`) models Python's `<` on strings, which compares code points and puts a proper prefix first. It proves that this order is total.
- `trie_shape.dfy` (module `TrieShape`) models the node tree.
  - The tree is an arena: a sequence of nodes whose children are indices into it, with node 0 the `'*'` sentinel.
  - The ghost `paths` and `index` map each node to the string it spells and back.
  - `Consistent` is the shape invariant. `Partial` is the state in the middle of `add`.
  - Each step of `add` has its own lemma.
- `trie.dfy` (module `WeightedTrie`) holds the `Trie` class, with fields `nodes` and `tokens`, and the query specification `Answers`.
- `alt_spell.dfy` (module `Spelling`) holds the edit sets, their lemmas and the `AltSpell` class, with fields `corpus` and `sumWords`.

The empty prefix is modelled as the code behaves. On a trie with at least one non-empty token, `query('')` stops at the root, whose only token is the sentinel `'*'`. It therefore raises `KeyError` unless `'*'` was itself added. When `'*'` was added, the result is `(True, 1, [(weight('*'), '*')][:max_results])`.

## Model

| member | source | states |
|---|---|---|
| WeightedTrie.Trie.constructor | trie.py:22-24 | A new trie is only the root sentinel `'*'` (count 1, token list `['*']`), with no tokens and the shape invariant holding. |
| WeightedTrie.Trie.AddVocabulary | trie.py:25-27 | Each word is added with weight 1, in order. It succeeds exactly when no word repeats and none is already registered, and the weights are then the old ones plus 1 for every word. Otherwise it fails with the duplicate-token error for a word of the vocabulary. |
| WeightedTrie.LoadNext | trie.py:26-27 | Adding one more fresh word of the vocabulary loads it with weight 1 and keeps the loaded words distinct and new. |
| WeightedTrie.RepeatedWord | trie.py:26-27 | A vocabulary word that is already registered, or repeats an earlier one, makes the vocabulary not fresh, so the constructor raises. |
| WeightedTrie.Trie.Len | trie.py:29-30 | `len(trie)` is the number of registered tokens. |
| WeightedTrie.Trie.Add | trie.py:32-55 | A registered word is refused with ValueError and nothing changes. Otherwise its weight is set to `value` and the length grows by exactly one. The word is listed by the node of each of its non-empty prefixes, and the node of the whole word is marked finished. The shape invariant is kept: siblings carry distinct characters, and every node's count equals the length of its token list and the number of registered words through it. |
| WeightedTrie.Trie.FindChild | trie.py:43-44 | The inner `for child in node.children` search returns the position of the child carrying the character, or the number of children when no child does. |
| WeightedTrie.Trie.Descend | trie.py:42-53 | One character of `add`: the matching child takes the word in, or a new child is created for the character. The word is then threaded one level deeper and the weights are untouched. |
| TrieShape.AddStart | trie.py:36-39 | Registering a word that is not yet registered leaves every other word threaded, and the new word threaded to depth 0. |
| TrieShape.StepExisting | trie.py:43-48 | Bumping the existing child for `word[i]` (count + 1, word appended to its tokens) keeps the invariant, with `word` now reaching depth `i + 1`. |
| TrieShape.BumpListed | trie.py:45-46 | After the bump, every node lists exactly the words through it, each once, with count equal to the list's length. |
| TrieShape.StepNew | trie.py:49-53 | When no child carries `word[i]`, appending `TrieNode(char, word)` as the last child keeps the invariant, with `word` now reaching depth `i + 1`. |
| TrieShape.AttachSiblings | trie.py:49-52 | The new child's character differs from those of all its siblings, so siblings stay distinct. |
| TrieShape.AttachListed | trie.py:51 | The new node lists only `word` (count 1), which is exactly the set of words through it. Other nodes keep their lists. |
| TrieShape.AttachLinked | trie.py:51-53 | The arena stays a tree rooted at the sentinel, in which every path has one node. |
| TrieShape.AddFinish | trie.py:55 | Marking the last node of the path as finished restores the invariant between operations. |
| TrieShape.NodeListsMatches | trie.py:45-46 | The node for a non-empty prefix lists every registered word that starts with that prefix, once each. Its count is the number of such words and is at least 1. |
| TrieShape.RegisteredOnPath | trie.py:41-55 | A registered word is in the token list of the node of each of its non-empty prefixes, and the node of the whole word is finished. |
| TrieShape.RootChildren | trie.py:83-84 | The root has no children exactly when no non-empty word is registered. |
| TrieShape.NoChildNoMatch | trie.py:88-94 | If the walk finds no child for `prefix[i]`, then no registered word starts with `prefix`. |
| WeightedTrie.Trie.Update | trie.py:57-64 | An unregistered word is refused with ValueError. Otherwise only its weight changes, by `delta`, and the tree (its counts and token lists) is untouched. |
| WeightedTrie.Trie.Walk | trie.py:86-94 | The prefix walk either reaches the node spelled by the prefix, or stops early when no registered word starts with the prefix. |
| WeightedTrie.Trie.Query | trie.py:78-100 | The result is what `Answers` specifies. It is EMPTY_RESULT when the root has no children or no token starts with the prefix. Otherwise it is `(True, number of matches, ranking)`, and the ranking holds: `[:max_results]` many entries, each a match with its current weight, no token twice, non-increasing in `(weight, token)`, and no omitted match above a listed one. |
| WeightedTrie.RankNode | trie.py:98-100 | Ranking a node's tokens fails with KeyError exactly when one of them has no weight. |
| WeightedTrie.ScoreAll | trie.py:98 | `[(tokens[t], t) for t in ts]` pairs each token with its weight, in order. It fails with KeyError on a token that has no weight. |
| WeightedTrie.ItemOrder | trie.py:99 | Python's order on `(weight, token)` pairs is total and transitive. |
| WeightedTrie.SortItems | trie.py:99 | `sorted(pairs, reverse=True)` is a rearrangement of the pairs that never increases. |
| WeightedTrie.SortedMatches | trie.py:98-99 | Scoring and sorting a node's tokens gives one entry per match, with its weight and no repeated token. |
| WeightedTrie.SliceRanks | trie.py:100 | Cutting that sorted list at `max_results` keeps the top entries. No match that was cut ranks above a kept one. |
| WeightedTrie.RankedSlice | trie.py:98-100 | A node listing the matches once each answers with a truncated ranking of the matches. |
| WeightedTrie.NodeAnswers | trie.py:96-100 | The node reached by the walk answers the query as `Answers` specifies. This covers the root's `'*'` for the empty prefix. |
| WeightedTrie.UncappedListsAll | trie.py:100 | Without a cap, the ranking lists every match with its current weight. |
| WeightedTrie.QueryListsEveryMatch | trie.py:86-100 | For a non-empty prefix of a registered word `w`, `query(prefix)` with no cap returns found = True, and its list contains `(weight(w), w)`. |
| Common.SliceEnd | trie.py:100 | Where `s[:stop]` ends: everything for `None`, at most `stop` for a non-negative stop, and counted from the end, never below 0, for a negative stop. |
| Common.Take | trie.py:100 | `s[:stop]` is a prefix of `s` of length `SliceEnd`. |
| Sorting.SortDescending | trie.py:99 | `sorted(..., reverse=True)`: the result is a permutation of the input, and non-increasing. |
| Sorting.Insert | trie.py:99 | Inserting into a non-increasing sequence keeps it non-increasing and adds exactly that element. |
| TextOrder.StrLtIrreflexive | trie.py:99 | No string is below itself. |
| TextOrder.StrLtAsymmetric | trie.py:99 | String `<` is asymmetric. |
| TextOrder.StrLtTransitive | trie.py:99 | String `<` is transitive. |
| TextOrder.StrLtTotal | trie.py:99 | Of two different strings, one is below the other. |
| TextOrder.StrLeTotalPreorder | trie.py:99 | String `<=` is total and transitive. |
| Spelling.AltSpell.constructor | alt_spell.py:12-16 | The corpus is the given word counts, and `sum_words` is their sum. |
| Spelling.SumCounts | alt_spell.py:16 | `sum(counts.values())` is the sum of all counts. |
| Spelling.AltSpell.Add | alt_spell.py:18-23 | The word's count (0 if it is new) rises by 1, `sum_words` rises by 1, and `sum_words` stays the sum of the counts. |
| Spelling.TotalBump | alt_spell.py:22-23 | Counting one more occurrence raises the total by exactly one. |
| Spelling.AltSpell.Remove | alt_spell.py:25-32 | An absent word is refused with ValueError and nothing changes. Otherwise the word leaves the corpus, other entries are unchanged, `sum_words` drops by the word's former count, and the sum invariant holds. |
| Spelling.TotalRemove | alt_spell.py:31-32 | The total is a word's count plus the total of the rest of the corpus. |
| Spelling.AltSpell.Prob | alt_spell.py:34-38 | `prob` raises ZeroDivisionError exactly on an empty corpus. Otherwise it is the word's count (0 if unknown) over the total, which is a value between 0 and 1. |
| Spelling.Share | alt_spell.py:38 | A count over a positive total it does not exceed lies between 0 and 1. |
| Spelling.CountAtMostTotal | alt_spell.py:38 | No word is counted more often than the whole corpus. |
| Spelling.TotalPositive | alt_spell.py:38 | With positive counts, the total is 0 exactly when the corpus is empty. |
| Spelling.ProbRanksLikeCount | alt_spell.py:49 | `prob(a) <= prob(b)` holds exactly when `count(a) <= count(b)`, because the total is shared and positive. |
| Spelling.ByCount | alt_spell.py:49 | Ranking by count is a total preorder that compares the words' counts. |
| Spelling.AltSpell.Known | alt_spell.py:52-56 | `known(ws)` is the subset of `ws` whose words are corpus keys. |
| Spelling.InDeletes | alt_spell.py:64 | The delete list holds exactly the deletions `w[:i] + w[i+1:]` for `i < len(w)`. |
| Spelling.InTransposes | alt_spell.py:65 | The transpose list holds exactly the adjacent swaps at `i` for `i + 1 < len(w)`. |
| Spelling.InReplaces | alt_spell.py:66 | The replace list holds exactly the substitutions of a letter `a`..`z` at each position. |
| Spelling.ReplaceAt | alt_spell.py:66 | Each substitution at `i` by letter `c` is in the replace list, at position `26 i` plus the index of `c`. |
| Spelling.InInserts | alt_spell.py:67 | The insert list holds exactly the insertions of a letter `a`..`z` at each split `0..len(w)`. |
| Spelling.InsertAtIn | alt_spell.py:67 | Each insertion at `i` of letter `c` is in the insert list. |
| Spelling.Edits1Exactly | alt_spell.py:58-68 | `edits1(w)` is exactly the set of strings one deletion, adjacent transposition, substitution by a letter, or insertion of a letter away from `w`. |
| Spelling.Edits1HasEveryEdit | alt_spell.py:63-68 | Every such deletion, transposition, substitution and insertion is in `edits1(w)`. |
| Spelling.Edits1Lengths | alt_spell.py:63-68 | Every element of `edits1(w)` has length `len(w) - 1`, `len(w)` or `len(w) + 1`. |
| Spelling.Edits1Size | alt_spell.py:63-68 | `edits1(w)` has at most `L + max(L-1, 0) + 26L + 26(L+1)` elements, where `L = len(w)`. |
| Spelling.UndoDelete | alt_spell.py:64 | Reinserting the deleted character at the same position gives back the word. |
| Spelling.UndoTranspose | alt_spell.py:65 | Swapping the same adjacent pair again gives back the word. |
| Spelling.UndoReplace | alt_spell.py:66 | Restoring the replaced character gives back the word. |
| Spelling.UndoInsert | alt_spell.py:67 | Deleting the inserted character gives back the word. |
| Spelling.Edits1Symmetric | alt_spell.py:62-68 | For a word over `a`..`z`, if `e` is in `edits1(w)` then `w` is in `edits1(e)`. |
| Spelling.Edits1Lower | alt_spell.py:62-68 | Edits of a word over `a`..`z` stay over `a`..`z`. |
| Spelling.Edits1Examples | alt_spell.py:63-68 | `'hello'` is in `edits1('helo')` (an insertion) and in `edits1('hlelo')` (a transposition). |
| Spelling.WordInEdits2 | alt_spell.py:70-74 | `edits2(w)` contains `w` itself: distance-0 strings are not excluded. |
| Spelling.Edits1InEdits2 | alt_spell.py:70-74 | For a word over `a`..`z`, `edits2(w)` contains all of `edits1(w)`: distance-1 strings are not excluded. |
| Spelling.Edits2Lengths | alt_spell.py:74 | Every element of `edits2(w)` is within two characters of `len(w)` in length. |
| Spelling.AltSpell.CandidatesAreNear | alt_spell.py:44-47 | Every candidate is a corpus word that is the word itself, in `edits1`, or in `edits2`. |
| Spelling.AltSpell.CloseCandidatesFirst | alt_spell.py:44-47 | The distance-2 words are consulted only when fewer than `k` words are known among `{w}` and `edits1(w)`, and otherwise the candidates are exactly those. A known word is always its own candidate. |
| Spelling.AltSpell.Alternatives | alt_spell.py:40-50 | The result is `min(k, #candidates)` distinct corpus words (Python slice rules for negative `k`), all candidates, in non-increasing count order. No candidate left out is more frequent than one returned. |
| Spelling.RankedCut | alt_spell.py:48-50 | Listing the candidate set, sorting it by count in descending order and cutting at `k` suggests exactly as `Alternatives` states. |
| Common.ListOf | alt_spell.py:48 | `list(set)` lists each element of the set exactly once. |
| Common.DistinctCard | alt_spell.py:48 | A list without repeats that holds exactly the elements of a set is as long as the set. |
| Common.NoDupPermutation | alt_spell.py:49 | A rearrangement of a list without repeats has no repeats. |

## Left out

- File reading and the `re.findall(r'\w+', data.lower())` tokenisation in `AltSpell.__init__` are I/O and a regex library. The constructor takes the resulting word counts as a map, with positive counts, as a `Counter` of matches has.
- `prob` divides floating-point numbers. The model divides exactly, as reals, and ranks by integer count. Floating-point rounding, which could make two different counts equal after division by a very large total, is not modelled.
- The order of equally frequent alternatives depends on Python's set iteration order, so only a non-increasing count is stated. For the trie there is no tie to leave out: the `(weight, token)` pairs of one node are all different.
- The `edits2` generator is lazy and can yield a string more than once. It is modelled as a set, which is all that `known` observes.
- `known` accepts any iterable. It is modelled on sets.
- `Trie.remove` and `Trie.prune_trie` are empty stubs in the source and are not modelled.
- TrieNode objects and their references are modelled as an arena of indices, so object identity and aliasing are not modelled. Only the trie itself mutates the nodes.
- Weights are modelled as integers. Python also accepts floats and other comparable values.
- Exception messages are not modelled. Each error records only its kind and the offending word or key.
- WeightedTrie.Trie.AddVocabulary: on failure, the contract states only the invariant and the error. The words added before the duplicate stay registered, but the source raises from the constructor, so that object is never used.
- Spelling.Edits1InEdits2: proved for words whose characters are all `a`..`z` (the corpus is lower-cased). The proof rebuilds each edit from an edit of it, which needs the word's own characters to be letters that `edits1` can insert.
- Spelling.Edits1Symmetric: stated for words over `a`..`z` for the same reason. Undoing a deletion or a substitution reinserts the original character.
