# AVL word dictionary — a Dafny model

This project models the core of an electronic dictionary: a self-balancing
(AVL) binary search tree. Each node maps a word to its meaning and stores the
height of its subtree. The model covers these operations:

- node creation and the height and balance-factor helpers;
- the two single rotations and the rebalancing rule (`balanceTree`);
- insert-or-overwrite (`addWord`), lookup (`searchWord`) and meaning replacement (`updateWord`);
- delete, including the two-children case that uses the in-order successor (`deleteWord`);
- prefix suggestions capped at `MAX_SUGGESTIONS` = 10 (`suggestWords`/`wordSuggestion`);
- the in-order walk that `displayTree` and `saveTreeToFile` perform.

The tree is an immutable datatype. Every pointer-mutating C++ function becomes
a pure function that returns the new tree. An update through a reference
parameter (`TreeNode*&`) becomes the function's result.

Modules, one file each:

- `StringOrder` (`string_order.dfy`):
  - `Compare` mirrors `std::string::compare`: the first differing character decides, and a proper prefix sorts first.
  - `Less` is the strict total order built on `Compare`.
  - `Find` mirrors `std::string::find`; `NPOS` is its no-match result.
- `AvlTree` (`avl_tree.dfy`):
  - the `Tree` datatype;
  - `CreateNode`, `Height`, `BalanceFactor`, `UpdateHeight`;
  - the abstractions: the in-order sequence `InOrder`, the key set `Keys` and the word→meaning map `ToMap`;
  - the invariants `Ordered` (binary-search order), `Balanced` (AVL balance), `HeightsOk` (stored heights are correct) and `Valid` (all three together).
- `Rebalance` (`rebalance.dfy`): `RightRotate`, `LeftRotate`, `BalanceTree`, and the four AVL cases.
- `Dictionary` (`dictionary.dfy`): `AddWord`, `SearchWord`, `UpdateWord`, `DeleteWord`, and the lemmas about them.
- `Suggestions` (`suggestions.dfy`): `SuggestWords` and `WordSuggestion`. A reference definition `PreOrderMatches` lists every match without the cap.
- `Scenario` (`scenario.dfy`): a five-word session stated for any five ascending words. `AnimalSessionBuilds` and `AnimalSessionLookupAndDelete` apply it to cat, ant, bee, dog and emu.

The functions carry contracts that hold on any tree the C++ code can be given.
For example, `AddWord` adds exactly the word to the key set. Facts that need
the binary-search or AVL invariant are lemmas that require `Ordered` or
`Valid`.

## Model

The functions `AvlTree.Height`, `AvlTree.BalanceFactor`, `AvlTree.InOrder` and
`StringOrder.Find` compute without a contract of their own. The rows for
`AvlTree.HeightIsDepth`, `Rebalance.BalanceTreeRestoresAvl`,
`AvlTree.OrderedIffAscending`, `AvlTree.KeysAreInOrderWords` and
`StringOrder.FindZeroIffPrefix` state what they mean.

| member | source | states |
|---|---|---|
| StringOrder.Compare | ElectronicDictionary-DSA/Project1/Source.cpp:124 | the three-way comparison used by `word.compare(root->word)` returns -1, 0 or 1, and 0 exactly when the words are equal |
| StringOrder.LessAsymmetric | ElectronicDictionary-DSA/Project1/Source.cpp:124-131 | the order never holds both ways and never relates a word to itself, so at most one branch of the comparison applies |
| StringOrder.LessConnected | ElectronicDictionary-DSA/Project1/Source.cpp:124-137 | any two distinct words compare one way or the other, so a word that is not equal to the node's word goes left or right |
| StringOrder.LessTransitive | ElectronicDictionary-DSA/Project1/Source.cpp:124 | the comparison order is transitive, which binary-search order over whole subtrees relies on |
| StringOrder.ProperPrefixIsLess | ElectronicDictionary-DSA/Project1/Source.cpp:124 | a proper prefix sorts before every longer word that starts with it |
| StringOrder.FirstDifferenceDecides | ElectronicDictionary-DSA/Project1/Source.cpp:124 | when two words share their first i characters and differ at position i, the one with the smaller character there sorts first |
| StringOrder.FindFrom | ElectronicDictionary-DSA/Project1/Source.cpp:281 | the search behind `find` returns either npos, when the pattern occurs at no position from the start point, or the first position where it occurs |
| StringOrder.FindZeroIffPrefix | ElectronicDictionary-DSA/Project1/Source.cpp:281 | `word.find(partialTerm) == 0` holds exactly when the partial term is a prefix of the word |
| AvlTree.CreateNode | ElectronicDictionary-DSA/Project1/Source.cpp:40-47 | a new node is a valid one-entry tree of height 1 that binds the word to the meaning |
| AvlTree.HeightIsDepth | ElectronicDictionary-DSA/Project1/Source.cpp:49-59 | when stored heights are correct, `height` equals the true depth (0 for null) and `balanceFactor` equals the difference of the children's depths |
| AvlTree.UpdateHeight | ElectronicDictionary-DSA/Project1/Source.cpp:61-65 | a null node is left alone; recomputing the height keeps the children and contents, makes the node height-correct when its children are, and changes nothing on a height-correct node |
| AvlTree.OrderedIffAscending | ElectronicDictionary-DSA/Project1/Source.cpp:160-166 | the tree is in binary-search order exactly when the in-order walk that `displayTree` prints lists strictly ascending words |
| AvlTree.KeysAreInOrderWords | ElectronicDictionary-DSA/Project1/Source.cpp:216-222 | the words `saveTreeToFile` writes, in order, are exactly the tree's keys |
| AvlTree.ToMapDomain | ElectronicDictionary-DSA/Project1/Source.cpp:13-19 | the word→meaning map of a tree has exactly the tree's words as its keys |
| AvlTree.SameShapeFacts | ElectronicDictionary-DSA/Project1/Source.cpp:198 | rewriting meanings in place keeps heights, key set and number of entries |
| AvlTree.SameShapeKeepsValid | ElectronicDictionary-DSA/Project1/Source.cpp:198 | rewriting meanings in place keeps a valid tree valid |
| AvlTree.RotationKeepsContents | ElectronicDictionary-DSA/Project1/Source.cpp:67-91 | the two arrangements a rotation switches between list the same pairs in the same order |
| Rebalance.RightRotate | ElectronicDictionary-DSA/Project1/Source.cpp:67-78 | given a non-null left child, the rotation keeps the in-order pairs, keys and bindings, and leaves both moved nodes height-correct (the lower one recomputed first) when the three moved subtrees were |
| Rebalance.LeftRotate | ElectronicDictionary-DSA/Project1/Source.cpp:80-91 | given a non-null right child, the rotation keeps the in-order pairs, keys and bindings, and leaves both moved nodes height-correct when the three moved subtrees were |
| Rebalance.RightThenLeftRotate | ElectronicDictionary-DSA/Project1/Source.cpp:67-91 | on a height-correct node, a left rotation undoes a right rotation exactly |
| Rebalance.LeftThenRightRotate | ElectronicDictionary-DSA/Project1/Source.cpp:67-91 | on a height-correct node, a right rotation undoes a left rotation exactly |
| Rebalance.BalanceTree | ElectronicDictionary-DSA/Project1/Source.cpp:93-116 | null stays null, and rebalancing never changes the in-order pairs, keys or bindings |
| Rebalance.LeftLeftCase | ElectronicDictionary-DSA/Project1/Source.cpp:102-106 | when the left side is two higher and the left child does not lean right, one right rotation gives an AVL tree of the left child's height or one more |
| Rebalance.LeftRightCase | ElectronicDictionary-DSA/Project1/Source.cpp:102-106 | when the left child leans right, a left rotation of it followed by a right rotation gives an AVL tree of the left child's height |
| Rebalance.RightRightCase | ElectronicDictionary-DSA/Project1/Source.cpp:108-112 | the mirror image of the left-left case |
| Rebalance.RightLeftCase | ElectronicDictionary-DSA/Project1/Source.cpp:108-112 | the mirror image of the left-right case |
| Rebalance.BalanceTreeRestoresAvl | ElectronicDictionary-DSA/Project1/Source.cpp:93-116 | for a node whose children are AVL trees with correct heights differing by at most 2: the result is an AVL tree with correct heights, its height is the recomputed height or one less, an already balanced node only has its height recomputed, and order is kept |
| Dictionary.AddWord | ElectronicDictionary-DSA/Project1/Source.cpp:118-141 | the result is non-empty, its key set is the old one plus the word, and it grows by exactly one entry when the word was absent and by at most one otherwise (by none on a valid tree, see `AddExistingWordKeepsShape`) |
| Dictionary.AddWordKeepsValid | ElectronicDictionary-DSA/Project1/Source.cpp:118-141 | on a valid tree, the result is ordered, balanced and height-correct, and its height grows by at most one |
| Dictionary.AddLeftKeepsValid | ElectronicDictionary-DSA/Project1/Source.cpp:126-128 | the same, for a word that goes into the left subtree |
| Dictionary.AddRightKeepsValid | ElectronicDictionary-DSA/Project1/Source.cpp:129-131 | the same, for a word that goes into the right subtree |
| Dictionary.AddWordBindings | ElectronicDictionary-DSA/Project1/Source.cpp:118-141 | on an ordered tree, the word is bound to the new meaning and every other binding is unchanged |
| Dictionary.AddLeftBindings | ElectronicDictionary-DSA/Project1/Source.cpp:126-128 | the same, when the word goes left |
| Dictionary.AddRightBindings | ElectronicDictionary-DSA/Project1/Source.cpp:129-131 | the same, when the word goes right |
| Dictionary.AddRootBindings | ElectronicDictionary-DSA/Project1/Source.cpp:132-137 | an equal word has only its meaning overwritten |
| Dictionary.AddExistingWordKeepsShape | ElectronicDictionary-DSA/Project1/Source.cpp:124-137 | re-adding a present word to a valid tree keeps the shape, heights, key set and entry count: no duplicate node is created |
| Dictionary.AddWordTwiceBindings | ElectronicDictionary-DSA/Project1/Source.cpp:118-141 | adding a word twice leaves it bound to the second meaning, with every other binding unchanged |
| Dictionary.AddWordTwiceSize | ElectronicDictionary-DSA/Project1/Source.cpp:132-137 | the second addition of the same word adds no entry |
| Dictionary.SearchWord | ElectronicDictionary-DSA/Project1/Source.cpp:178-191 | a node that is found holds exactly the searched word, which is a key of the tree |
| Dictionary.SearchWordCorrect | ElectronicDictionary-DSA/Project1/Source.cpp:178-191 | on an ordered tree, a node is found exactly when the word is a key, and it carries the word's bound meaning |
| Dictionary.ReplaceMeaning | ElectronicDictionary-DSA/Project1/Source.cpp:194-198 | writing a meaning into the node that is found keeps the shape; an absent word leaves the tree as it was; afterwards the search finds the same node with the new meaning |
| Dictionary.ReplaceMeaningBindings | ElectronicDictionary-DSA/Project1/Source.cpp:194-198 | on an ordered tree, a present word is rebound and every other binding is unchanged |
| Dictionary.ReplaceWithSameMeaning | ElectronicDictionary-DSA/Project1/Source.cpp:207 | assigning a node's meaning to itself changes nothing |
| Dictionary.UpdateWord | ElectronicDictionary-DSA/Project1/Source.cpp:193-214 | as written: the shape never changes, an absent word leaves the tree as it was, and a found word ends up with the new meaning whatever the answer |
| Dictionary.UpdateWordIgnoresAnswer | ElectronicDictionary-DSA/Project1/Source.cpp:199-209 | any answer gives the same tree as "yes" |
| Dictionary.UpdateWordCorrect | ElectronicDictionary-DSA/Project1/Source.cpp:193-214 | on a valid tree the result stays valid with the same key set; a present word is rebound to the new meaning, and otherwise no binding changes |
| Dictionary.DeclinedUpdateOverwritesLeaf | ElectronicDictionary-DSA/Project1/Source.cpp:198-209 | on a one-word dictionary, the update installs the new meaning whatever the answer, while the confirm-first update declined keeps the old meaning |
| Dictionary.DeclinedUpdateStillOverwrites | ElectronicDictionary-DSA/Project1/Source.cpp:198-209 | for "cat"/"feline", updating to "kitten" and answering "No" still gives "kitten", where the confirm-first update keeps "feline" |
| Dictionary.UpdateWordConfirmed | ElectronicDictionary-DSA/Project1/Source.cpp:193-214 | the corrected update: declining leaves the tree as it was; confirming rebinds a found word; the shape never changes |
| Dictionary.UpdateWordConfirmedBindings | ElectronicDictionary-DSA/Project1/Source.cpp:193-214 | on an ordered tree, only a confirmed update of a present word changes a binding |
| Dictionary.Leftmost | ElectronicDictionary-DSA/Project1/Source.cpp:261-264 | following left children from a non-null node reaches a key of the subtree, which is the first pair of its in-order walk |
| Dictionary.LeftmostIsLeast | ElectronicDictionary-DSA/Project1/Source.cpp:261-267 | in an ordered subtree, that successor word sorts before every other key, and the meaning copied with it is the one bound to it |
| Dictionary.DeleteWord | ElectronicDictionary-DSA/Project1/Source.cpp:236-274 | on any tree, the result keeps every key except possibly the word, adds none, and has the same number of entries or one fewer; an absent word removes nothing |
| Dictionary.DeleteWordBindings | ElectronicDictionary-DSA/Project1/Source.cpp:236-274 | on an ordered tree, exactly the word's binding is removed and every other binding is unchanged |
| Dictionary.DeleteLeftBindings | ElectronicDictionary-DSA/Project1/Source.cpp:243-244 | the same, when the word is in the left subtree |
| Dictionary.DeleteRightBindings | ElectronicDictionary-DSA/Project1/Source.cpp:246-247 | the same, when the word is in the right subtree |
| Dictionary.DeleteSplicedBindings | ElectronicDictionary-DSA/Project1/Source.cpp:250-259 | the same, when the node found has at most one child and is replaced by it |
| Dictionary.SplicedChild | ElectronicDictionary-DSA/Project1/Source.cpp:250-259 | a node found with a null child is replaced by its other child, with no rebalancing |
| Dictionary.SplicedBindings | ElectronicDictionary-DSA/Project1/Source.cpp:250-259 | splicing out a node whose word occurs nowhere else drops exactly that word's binding |
| Dictionary.DeleteSuccessorBindings | ElectronicDictionary-DSA/Project1/Source.cpp:261-269 | in the two-children case, copying the successor up and deleting it from the right subtree removes exactly the word's binding |
| Dictionary.DeleteWordKeys | ElectronicDictionary-DSA/Project1/Source.cpp:236-274 | on an ordered tree, the key set loses exactly the word |
| Dictionary.DeleteWordCount | ElectronicDictionary-DSA/Project1/Source.cpp:236-274 | on an ordered tree, one entry is removed when the word is a key and none otherwise |
| Dictionary.DeleteWordKeepsValid | ElectronicDictionary-DSA/Project1/Source.cpp:236-274 | on a valid tree, the result is ordered, balanced and height-correct, and its height drops by at most one |
| Dictionary.DeleteLeftKeepsValid | ElectronicDictionary-DSA/Project1/Source.cpp:243-244 | the same, when the search goes left |
| Dictionary.DeleteRightKeepsValid | ElectronicDictionary-DSA/Project1/Source.cpp:246-247 | the same, when the search goes right |
| Dictionary.DeleteSuccessorKeepsValid | ElectronicDictionary-DSA/Project1/Source.cpp:261-273 | the same, in the two-children case |
| Dictionary.DeleteAbsentWord | ElectronicDictionary-DSA/Project1/Source.cpp:236-274 | on a valid tree, deleting an absent word gives back the very same tree |
| Dictionary.DeleteAllKeys | ElectronicDictionary-DSA/Project1/Source.cpp:236-274 | deleting a list of words one after another from a valid tree keeps it valid and removes exactly those words |
| Dictionary.DeleteEveryWord | ElectronicDictionary-DSA/Project1/Source.cpp:236-274 | deleting every word a valid tree holds leaves the empty tree |
| Suggestions.SuggestWords | ElectronicDictionary-DSA/Project1/Source.cpp:276-288 | the buffer only grows, never beyond 10; a full buffer is returned as it was; every word appended is a key of the tree that passes the `find == 0` test |
| Suggestions.SuggestWordsIsTakeOfPreOrder | ElectronicDictionary-DSA/Project1/Source.cpp:276-288 | the buffer ends as it was followed by the first matches in node-left-right order, as many as still fit |
| Suggestions.WordSuggestion | ElectronicDictionary-DSA/Project1/Source.cpp:290-293 | starting from an empty buffer: at most 10 words, each a key of the tree that starts with the partial term |
| Suggestions.WordSuggestionIsTakeOfPreOrder | ElectronicDictionary-DSA/Project1/Source.cpp:290-293 | the suggestions are exactly the first `MAX_SUGGESTIONS` matches in node-left-right order |
| Suggestions.PreOrderMatchesAreMatchingKeys | ElectronicDictionary-DSA/Project1/Source.cpp:281-287 | without the cap, the traversal lists exactly the keys that start with the partial term |
| Suggestions.WordSuggestionComplete | ElectronicDictionary-DSA/Project1/Source.cpp:276-293 | when there are at most 10 matches, every key that starts with the partial term is suggested |
| Suggestions.PreOrderMatchesDistinct | ElectronicDictionary-DSA/Project1/Source.cpp:276-288 | on a tree in binary-search order, the traversal never lists the same word twice |
| Suggestions.DistinctCardinality | ElectronicDictionary-DSA/Project1/Source.cpp:276-288 | a list of words with no repeats has as many entries as distinct words, so counting matching nodes counts matching words |
| Suggestions.WordSuggestionCompleteForFewWords | ElectronicDictionary-DSA/Project1/Source.cpp:276-293 | on a tree in binary-search order, when at most 10 distinct words start with the partial term, every one of them is suggested |
| Scenario.SessionBuildsShape | ElectronicDictionary-DSA/Project1/Source.cpp:118-141 | inserting five ascending words in the order third, first, second, fourth, fifth rebalances twice (left-right, then right-right) and builds a known tree |
| Scenario.ShapeValid | ElectronicDictionary-DSA/Project1/Source.cpp:160-166 | that tree is valid, and its in-order walk lists the five words in order |
| Scenario.ShapeLookups | ElectronicDictionary-DSA/Project1/Source.cpp:178-191 | in that tree each of the five words is found with its own meaning, the root word at the root and the others at their nodes |
| Scenario.ShapeSuggestsFirst | ElectronicDictionary-DSA/Project1/Source.cpp:276-293 | a partial term that matches only the first word suggests only that word |
| Scenario.ShapeDeleteThird | ElectronicDictionary-DSA/Project1/Source.cpp:236-274 | deleting the third word, which is a leaf of that tree, gives a known tree in which the word is no longer found |
| Scenario.AnimalWordsQualify | ElectronicDictionary-DSA/Project1/Source.cpp:124 | cat, ant, bee, dog, emu inserted in that order meet the premises above, and of them only "ant" starts with "a" |
| Scenario.AnimalSessionBuilds | ElectronicDictionary-DSA/Project1/Source.cpp:118-141 | adding cat, ant, bee, dog, emu in that order gives a valid tree whose in-order walk lists ant, bee, cat, dog, emu, and the partial term "a" suggests only "ant" |
| Scenario.AnimalSessionLookupAndDelete | ElectronicDictionary-DSA/Project1/Source.cpp:236-274 | in that tree "bee" is found with meaning "insect", and deleting "cat" gives a known tree in which "cat" is not found |

## Left out

- `main`, `Interface` and the menu loop: these are the console user interface, `system(...)` calls and Windows console colours. The existence check that `main` does before deleting is caller glue and is left out too.
- `loadDictionary`, `saveDictionary` and the file writing in `saveTreeToFile`: these are file I/O. `saveTreeToFile` and `displayTree` walk the tree in order, and only that walk is modelled, as `InOrder`; `loadDictionary` only feeds the pairs it reads to `addWord`.
- All `cout`/`cerr` messages, and the `cin` read of the confirmation inside `updateWord`. The answer becomes a parameter of `UpdateWord`.
- `deleteTree` and every `delete`: memory management has no counterpart in a model with immutable values.
- The `Dictionary` and `Suggestion` structs: the suggestion array and its count `numSuggestions` are modelled together as the sequence of words written so far.
- The logarithmic bound on AVL height (about 1.44 log2 n): it is stated in real-valued logarithms. The model proves the invariants that imply it, but not the bound.
- AvlTree.Tree: the stored height is a `nat`, not a C++ `int`. The code only ever stores 1, or one more than a child's stored height, so no stored height can be negative and none can overflow for a tree that fits in memory.
- StringOrder.Compare: characters are compared as Dafny `char` values, by code point. `std::string::compare` compares single bytes as `unsigned char`. The two orders agree when each byte is read as the `char` with the same code; for UTF-8 text, byte order also equals code-point order. Only the sign of `compare` is modelled, as -1, 0 or 1: the C++ result may be any negative or positive `int`, and lines 126, 129 and 185 test only its sign.

## Findings

| source | as written | input that shows it | evidently intended | confidence | as-written member | corrected member |
|---|---|---|---|---|---|---|
| ElectronicDictionary-DSA/Project1/Source.cpp:198-209 | the new meaning is stored before the yes/no question, and the "cancel" branch assigns `result->meaning` to itself, so nothing is restored | a dictionary with "cat" meaning "feline", an update to "kitten", and the answer "No": "cat" ends up meaning "kitten" | apply the new meaning only after the user confirms; a declined update leaves the dictionary unchanged | not executed | Dictionary.UpdateWord, Dictionary.DeclinedUpdateStillOverwrites | Dictionary.UpdateWordConfirmed, Dictionary.UpdateWordConfirmedBindings |
