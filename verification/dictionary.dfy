/**
 The dictionary operations on the AVL tree: insert-or-overwrite, lookup,
 meaning replacement and delete. Each operation that changes the tree's
 structure recomputes heights and rebalances on the way back up its search path.
 */
module Dictionary {
  import opened StringOrder
  import opened AvlTree
  import opened Rebalance

  // ---------------------------------------------------------------------------
  // Insert
  // ---------------------------------------------------------------------------

  /** `addWord`: descend by comparison; an empty spot receives a new leaf, an
      equal word has its meaning overwritten in place (with no structural
      change at that node); every node on the way back up has its height
      updated and is rebalanced. */
  function AddWord(t: Tree, word: string, meaning: string): (r: Tree)
    ensures r.Node?
    ensures Keys(r) == Keys(t) + {word}
    ensures |InOrder(r)| <= |InOrder(t)| + 1
    ensures word !in Keys(t) ==> |InOrder(r)| == |InOrder(t)| + 1
    decreases t
  {
    if t.Nil? then CreateNode(word, meaning)
    else
      var c := Compare(word, t.word);
      if c < 0 then BalanceTree(UpdateHeight(t.(left := AddWord(t.left, word, meaning))))
      else if c > 0 then BalanceTree(UpdateHeight(t.(right := AddWord(t.right, word, meaning))))
      else t.(meaning := meaning)
  }

  /** On a valid tree, `addWord` keeps the tree valid (ordered, balanced, with
      correct heights) and grows its height by at most one. */
  lemma {:induction false} AddWordKeepsValid(t: Tree, word: string, meaning: string)
    requires Valid(t)
    ensures Valid(AddWord(t, word, meaning))
    ensures Height(t) <= Height(AddWord(t, word, meaning)) <= Height(t) + 1
    decreases t, 1
  {
    if t.Node? {
      var c := Compare(word, t.word);
      if c < 0 {
        AddLeftKeepsValid(t, word, meaning);
      } else if c > 0 {
        AddRightKeepsValid(t, word, meaning);
      }
    }
  }

  /** The case of `AddWordKeepsValid` where the word sorts before the node's. */
  lemma {:induction false} AddLeftKeepsValid(t: Tree, word: string, meaning: string)
    requires Valid(t) && t.Node? && Less(word, t.word)
    ensures Valid(AddWord(t, word, meaning))
    ensures Height(t) <= Height(AddWord(t, word, meaning)) <= Height(t) + 1
    decreases t, 0
  {
    var l' := AddWord(t.left, word, meaning);
    AddWordKeepsValid(t.left, word, meaning);
    var n := UpdateHeight(t.(left := l'));
    assert Ordered(n) by {
      assert forall k :: k in Keys(l') ==> Less(k, t.word);
    }
    BalanceTreeRestoresAvl(n);
    assert AddWord(t, word, meaning) == BalanceTree(n);
  }

  /** The case of `AddWordKeepsValid` where the word sorts after the node's. */
  lemma {:induction false} AddRightKeepsValid(t: Tree, word: string, meaning: string)
    requires Valid(t) && t.Node? && Compare(word, t.word) > 0
    ensures Valid(AddWord(t, word, meaning))
    ensures Height(t) <= Height(AddWord(t, word, meaning)) <= Height(t) + 1
    decreases t, 0
  {
    CompareAntisymmetric(word, t.word);
    var r' := AddWord(t.right, word, meaning);
    AddWordKeepsValid(t.right, word, meaning);
    var n := UpdateHeight(t.(right := r'));
    assert Ordered(n) by {
      assert forall k :: k in Keys(r') ==> Less(t.word, k);
    }
    BalanceTreeRestoresAvl(n);
    assert AddWord(t, word, meaning) == BalanceTree(n);
  }

  /** On an ordered tree, `addWord` binds the word to the new meaning and leaves
      every other word's binding as it was. */
  lemma {:induction false} AddWordBindings(t: Tree, word: string, meaning: string)
    requires Ordered(t)
    ensures ToMap(AddWord(t, word, meaning)) == ToMap(t)[word := meaning]
    decreases t, 1
  {
    if t.Node? {
      var c := Compare(word, t.word);
      if c < 0 {
        AddLeftBindings(t, word, meaning);
      } else if c > 0 {
        AddRightBindings(t, word, meaning);
      } else {
        AddRootBindings(t, word, meaning);
      }
    }
  }

  /** The case of `AddWordBindings` where the word sorts before the node's. */
  lemma {:induction false} AddLeftBindings(t: Tree, word: string, meaning: string)
    requires Ordered(t) && t.Node? && Less(word, t.word)
    ensures ToMap(AddWord(t, word, meaning)) == ToMap(t)[word := meaning]
    decreases t, 0
  {
    var here := map[t.word := t.meaning];
    ToMapDomain(t.left);
    ToMapDomain(t.right);
    var l' := AddWord(t.left, word, meaning);
    AddWordBindings(t.left, word, meaning);
    assert AddWord(t, word, meaning) == BalanceTree(UpdateHeight(t.(left := l')));
    assert ToMap(AddWord(t, word, meaning)) == ToMap(l') + here + ToMap(t.right);
    if word in Keys(t.right) {
      LessAsymmetric(word, t.word);
    }
    UpdateOnLeft(ToMap(t.left), here, ToMap(t.right), word, meaning);
  }

  /** The case of `AddWordBindings` where the word sorts after the node's. */
  lemma {:induction false} AddRightBindings(t: Tree, word: string, meaning: string)
    requires Ordered(t) && t.Node? && Compare(word, t.word) > 0
    ensures ToMap(AddWord(t, word, meaning)) == ToMap(t)[word := meaning]
    decreases t, 0
  {
    var here := map[t.word := t.meaning];
    var r' := AddWord(t.right, word, meaning);
    AddWordBindings(t.right, word, meaning);
    assert AddWord(t, word, meaning) == BalanceTree(UpdateHeight(t.(right := r')));
    assert ToMap(AddWord(t, word, meaning)) == ToMap(t.left) + here + ToMap(r');
    UpdateOnRight(ToMap(t.left) + here, ToMap(t.right), word, meaning);
  }

  /** The case of `AddWordBindings` where the word is the node's. */
  lemma AddRootBindings(t: Tree, word: string, meaning: string)
    requires Ordered(t) && t.Node? && word == t.word
    ensures ToMap(AddWord(t, word, meaning)) == ToMap(t)[word := meaning]
  {
    ToMapDomain(t.right);
    if word in Keys(t.right) {
      LessAsymmetric(word, word);
    }
    assert Compare(word, t.word) == 0;
    assert ToMap(AddWord(t, word, meaning)) == ToMap(t.left) + map[word := meaning] + ToMap(t.right);
    ReplaceMiddle(ToMap(t.left), word, t.meaning, meaning, ToMap(t.right));
  }

  /** Rebinding a key in the right operand of a union rebinds it in the union. */
  lemma UpdateOnRight(a: map<string, string>, b: map<string, string>, k: string, v: string)
    ensures a + b[k := v] == (a + b)[k := v]
  {
  }

  /** Rebinding the key of the middle part of a three-way union rebinds it in
      the union when the right part does not hold the key. */
  lemma ReplaceMiddle(a: map<string, string>, k: string, v0: string, v: string, c: map<string, string>)
    requires k !in c
    ensures a + map[k := v] + c == (a + map[k := v0] + c)[k := v]
  {
  }

  /** Rebinding a key in the left part of a three-way union rebinds it in the
      union when the later parts do not hold the key. */
  lemma UpdateOnLeft(a: map<string, string>, b: map<string, string>, c: map<string, string>, k: string, v: string)
    requires k !in b && k !in c
    ensures a[k := v] + b + c == (a + b + c)[k := v]
  {
  }

  /** Re-inserting a word that is already present keeps the tree's shape, its
      key set and its number of entries: no duplicate node is created. */
  lemma {:induction false} AddExistingWordKeepsShape(t: Tree, word: string, meaning: string)
    requires Valid(t) && word in Keys(t)
    ensures SameShape(t, AddWord(t, word, meaning))
    ensures Keys(AddWord(t, word, meaning)) == Keys(t)
    ensures |InOrder(AddWord(t, word, meaning))| == |InOrder(t)|
    decreases t
  {
    var c := Compare(word, t.word);
    var l, r := t.left, t.right;
    if c == 0 {
      SameShapeReflexive(l);
      SameShapeReflexive(r);
    } else {
      var n: Tree;
      if c < 0 {
        if word in Keys(r) {
          LessAsymmetric(word, t.word);
        }
        var l' := AddWord(l, word, meaning);
        AddExistingWordKeepsShape(l, word, meaning);
        AddWordKeepsValid(l, word, meaning);
        SameShapeFacts(l, l');
        SameShapeReflexive(r);
        n := UpdateHeight(t.(left := l'));
      } else {
        CompareAntisymmetric(word, t.word);
        if word in Keys(l) {
          LessAsymmetric(word, t.word);
        }
        var r' := AddWord(r, word, meaning);
        AddExistingWordKeepsShape(r, word, meaning);
        AddWordKeepsValid(r, word, meaning);
        SameShapeFacts(r, r');
        SameShapeReflexive(l);
        n := UpdateHeight(t.(right := r'));
      }
      assert n.height == t.height;
      BalanceTreeRestoresAvl(n);
      assert AddWord(t, word, meaning) == n;
    }
  }

  /** Inserting the same word twice binds it to the second meaning. */
  lemma AddWordTwiceBindings(t: Tree, word: string, m1: string, m2: string)
    requires Valid(t)
    ensures ToMap(AddWord(AddWord(t, word, m1), word, m2)) == ToMap(t)[word := m2]
  {
    var t1 := AddWord(t, word, m1);
    AddWordKeepsValid(t, word, m1);
    AddWordBindings(t, word, m1);
    AddWordBindings(t1, word, m2);
    RebindTwice(ToMap(t), word, m1, m2);
  }

  /** Rebinding a key twice keeps only the second binding. */
  lemma RebindTwice(m: map<string, string>, k: string, v1: string, v2: string)
    ensures m[k := v1][k := v2] == m[k := v2]
  {
  }

  /** The second insertion of the same word adds no node. */
  lemma AddWordTwiceSize(t: Tree, word: string, m1: string, m2: string)
    requires Valid(t)
    ensures |InOrder(AddWord(AddWord(t, word, m1), word, m2))| == |InOrder(AddWord(t, word, m1))|
  {
    AddWordKeepsValid(t, word, m1);
    AddExistingWordKeepsShape(AddWord(t, word, m1), word, m2);
  }

  // ---------------------------------------------------------------------------
  // Lookup
  // ---------------------------------------------------------------------------

  /** `searchWord`: the node holding `word` (as a subtree), or `Nil`. An equal
      word is tested first; otherwise the comparison picks the side. */
  function SearchWord(t: Tree, word: string): (r: Tree)
    ensures r.Node? ==> r.word == word && word in Keys(t)
    decreases t
  {
    if t.Nil? || t.word == word then t
    else if Compare(word, t.word) < 0 then SearchWord(t.left, word)
    else SearchWord(t.right, word)
  }

  /** On an ordered tree, `searchWord` finds a node exactly when the word is a
      key, and the node found carries the word's meaning. */
  lemma {:induction false} SearchWordCorrect(t: Tree, word: string)
    requires Ordered(t)
    ensures SearchWord(t, word).Node? <==> word in Keys(t)
    ensures SearchWord(t, word).Node? ==> word in ToMap(t) && ToMap(t)[word] == SearchWord(t, word).meaning
    decreases t
  {
    if t.Node? {
      if t.word == word {
        RootBinding(t);
      } else {
        var c := Compare(word, t.word);
        if c < 0 {
          SearchWordCorrect(t.left, word);
          if word in Keys(t.right) {
            LessAsymmetric(word, t.word);
          }
        } else {
          CompareAntisymmetric(word, t.word);
          SearchWordCorrect(t.right, word);
          if word in Keys(t.left) {
            LessAsymmetric(word, t.word);
          }
        }
        ChildBinding(t, word);
      }
    }
  }

  // ---------------------------------------------------------------------------
  // Update
  // ---------------------------------------------------------------------------

  /** Overwrite, in place, the meaning of the node `searchWord` finds; the tree
      is returned unchanged when it finds none. */
  function ReplaceMeaning(t: Tree, word: string, meaning: string): (r: Tree)
    ensures SameShape(t, r)
    ensures SearchWord(t, word).Nil? ==> r == t
    ensures SearchWord(t, word).Node? ==> SearchWord(r, word) == SearchWord(t, word).(meaning := meaning)
    decreases t
  {
    if t.Nil? then t
    else if t.word == word then
      SameShapeReflexive(t.left);
      SameShapeReflexive(t.right);
      t.(meaning := meaning)
    else if Compare(word, t.word) < 0 then
      SameShapeReflexive(t.right);
      t.(left := ReplaceMeaning(t.left, word, meaning))
    else
      SameShapeReflexive(t.left);
      t.(right := ReplaceMeaning(t.right, word, meaning))
  }

  /** On an ordered tree, replacing the meaning rebinds the word if it is a key
      and changes nothing otherwise. */
  lemma {:induction false} ReplaceMeaningBindings(t: Tree, word: string, meaning: string)
    requires Ordered(t)
    ensures ToMap(ReplaceMeaning(t, word, meaning))
            == if word in Keys(t) then ToMap(t)[word := meaning] else ToMap(t)
    decreases t
  {
    SearchWordCorrect(t, word);
    if t.Node? && word in Keys(t) {
      var here := map[t.word := t.meaning];
      ToMapDomain(t.left);
      ToMapDomain(t.right);
      if t.word == word {
        if word in Keys(t.right) {
          LessAsymmetric(word, word);
        }
        assert ToMap(ReplaceMeaning(t, word, meaning)) == ToMap(t.left) + map[word := meaning] + ToMap(t.right);
        ReplaceMiddle(ToMap(t.left), word, t.meaning, meaning, ToMap(t.right));
      } else if Compare(word, t.word) < 0 {
        if word in Keys(t.right) {
          LessAsymmetric(word, t.word);
        }
        ReplaceMeaningBindings(t.left, word, meaning);
        UpdateOnLeft(ToMap(t.left), here, ToMap(t.right), word, meaning);
      } else {
        CompareAntisymmetric(word, t.word);
        if word in Keys(t.left) {
          LessAsymmetric(word, t.word);
        }
        ReplaceMeaningBindings(t.right, word, meaning);
        UpdateOnRight(ToMap(t.left) + here, ToMap(t.right), word, meaning);
      }
    }
  }

  /** Writing back the meaning a node already has changes nothing. */
  lemma {:induction false} ReplaceWithSameMeaning(t: Tree, word: string)
    requires SearchWord(t, word).Node?
    ensures ReplaceMeaning(t, word, SearchWord(t, word).meaning) == t
    decreases t
  {
    if t.word != word {
      if Compare(word, t.word) < 0 {
        ReplaceWithSameMeaning(t.left, word);
      } else {
        ReplaceWithSameMeaning(t.right, word);
      }
    }
  }

  /** `updateWord` as written: when the word is found its meaning is overwritten
      before the yes/no answer is read; a "Yes"/"yes" answer keeps the new
      meaning, any other answer assigns the node's current meaning to itself. */
  function UpdateWord(t: Tree, word: string, newMeaning: string, answer: string): (r: Tree)
    ensures SameShape(t, r)
    ensures SearchWord(t, word).Nil? ==> r == t
    ensures SearchWord(t, word).Node? ==> SearchWord(r, word).Node? && SearchWord(r, word).meaning == newMeaning
  {
    var result := SearchWord(t, word);
    if result.Nil? then
      SameShapeReflexive(t);
      t
    else
      var t1 := ReplaceMeaning(t, word, newMeaning);
      if answer == "Yes" || answer == "yes" then t1
      else
        var t2 := ReplaceMeaning(t1, word, SearchWord(t1, word).meaning);
        ReplaceWithSameMeaning(t1, word);
        t2
  }

  /** Whatever the answer, `updateWord` leaves the same tree behind: the
      confirmation does not protect the old meaning. */
  lemma UpdateWordIgnoresAnswer(t: Tree, word: string, newMeaning: string, answer: string)
    ensures UpdateWord(t, word, newMeaning, answer) == UpdateWord(t, word, newMeaning, "yes")
  {
    if SearchWord(t, word).Node? {
      ReplaceWithSameMeaning(ReplaceMeaning(t, word, newMeaning), word);
    }
  }

  /** On a valid tree, `updateWord` keeps the tree valid with the same shape and
      key set, binds a present word to the new meaning and leaves an absent
      word's tree unchanged. */
  lemma UpdateWordCorrect(t: Tree, word: string, newMeaning: string, answer: string)
    requires Valid(t)
    ensures Valid(UpdateWord(t, word, newMeaning, answer))
    ensures Keys(UpdateWord(t, word, newMeaning, answer)) == Keys(t)
    ensures ToMap(UpdateWord(t, word, newMeaning, answer))
            == if word in Keys(t) then ToMap(t)[word := newMeaning] else ToMap(t)
  {
    SameShapeFacts(t, UpdateWord(t, word, newMeaning, answer));
    SameShapeKeepsValid(t, UpdateWord(t, word, newMeaning, answer));
    UpdateWordIgnoresAnswer(t, word, newMeaning, answer);
    SearchWordCorrect(t, word);
    ReplaceMeaningBindings(t, word, newMeaning);
  }

  /** `updateWord` with the evident intent: the new meaning is applied only
      after the caller confirms. */
  function UpdateWordConfirmed(t: Tree, word: string, newMeaning: string, confirmed: bool): (r: Tree)
    ensures SameShape(t, r)
    ensures !confirmed ==> r == t
    ensures confirmed && SearchWord(t, word).Node? ==> SearchWord(r, word).Node? && SearchWord(r, word).meaning == newMeaning
  {
    if confirmed then ReplaceMeaning(t, word, newMeaning)
    else
      SameShapeReflexive(t);
      t
  }

  /** On an ordered tree, a confirmed update rebinds a present word, and a
      declined update or an absent word leaves every binding as it was. */
  lemma UpdateWordConfirmedBindings(t: Tree, word: string, newMeaning: string, confirmed: bool)
    requires Ordered(t)
    ensures ToMap(UpdateWordConfirmed(t, word, newMeaning, confirmed))
            == if confirmed && word in Keys(t) then ToMap(t)[word := newMeaning] else ToMap(t)
  {
    ReplaceMeaningBindings(t, word, newMeaning);
  }

  /** On a one-word dictionary, `updateWord` as written installs the new
      meaning whatever the answer, where a declined confirm-first update keeps
      the old one. */
  lemma DeclinedUpdateOverwritesLeaf(word: string, oldMeaning: string, newMeaning: string, answer: string)
    ensures var t := CreateNode(word, oldMeaning);
            && ToMap(UpdateWord(t, word, newMeaning, answer))[word] == newMeaning
            && ToMap(UpdateWordConfirmed(t, word, newMeaning, false))[word] == oldMeaning
  {
    var t := CreateNode(word, oldMeaning);
    assert SearchWord(t, word) == t;
    UpdateWordCorrect(t, word, newMeaning, answer);
  }

  /** With "cat" meaning "feline", updating to "kitten" and answering "No"
      still leaves "kitten". */
  lemma DeclinedUpdateStillOverwrites()
    ensures var t := CreateNode("cat", "feline");
            var updated := ToMap(UpdateWord(t, "cat", "kitten", "No"));
            var declined := ToMap(UpdateWordConfirmed(t, "cat", "kitten", false));
            && "cat" in updated && updated["cat"] == "kitten"
            && "cat" in declined && declined["cat"] == "feline"
  {
    DeclinedUpdateOverwritesLeaf("cat", "feline", "kitten", "No");
  }

  // ---------------------------------------------------------------------------
  // Delete
  // ---------------------------------------------------------------------------

  /** The in-order successor search of `deleteWord`: follow left children from
      the given node as far as they go. The pair found is the first one the
      in-order walk lists. */
  function Leftmost(t: Tree): (e: Entry)
    requires t.Node?
    ensures e.word in Keys(t)
    ensures |InOrder(t)| > 0 && InOrder(t)[0] == e
    decreases t
  {
    if t.left.Nil? then Entry(t.word, t.meaning) else Leftmost(t.left)
  }

  /** In an ordered tree the leftmost word is the least key, and it is bound to
      the leftmost node's meaning. */
  lemma {:induction false} LeftmostIsLeast(t: Tree)
    requires t.Node? && Ordered(t)
    ensures forall k :: k in Keys(t) && k != Leftmost(t).word ==> Less(Leftmost(t).word, k)
    ensures Leftmost(t).word in ToMap(t) && ToMap(t)[Leftmost(t).word] == Leftmost(t).meaning
    decreases t
  {
    var e := Leftmost(t);
    if t.left.Nil? {
      RootBinding(t);
    } else {
      LeftmostIsLeast(t.left);
      forall k | k in Keys(t.right)
        ensures Less(e.word, k)
      {
        LessTransitive(e.word, t.word, k);
      }
      ChildBinding(t, e.word);
    }
  }

  /** `deleteWord`: descend by comparison; a found node with at most one child
      is replaced by that child; a found node with two children takes over the
      word and meaning of its in-order successor, whose word is then deleted
      from the right subtree. Every other node on the way back up has its height
      updated and is rebalanced; the descent for an absent word ends at `Nil`,
      which is returned as it is. */
  function DeleteWord(t: Tree, word: string): (r: Tree)
    ensures Keys(t) - {word} <= Keys(r) <= Keys(t)
    ensures |InOrder(t)| - 1 <= |InOrder(r)| <= |InOrder(t)|
    ensures word !in Keys(t) ==> |InOrder(r)| == |InOrder(t)|
    decreases t
  {
    if t.Nil? then t
    else
      var c := Compare(word, t.word);
      if c < 0 then BalanceTree(UpdateHeight(t.(left := DeleteWord(t.left, word))))
      else if c > 0 then BalanceTree(UpdateHeight(t.(right := DeleteWord(t.right, word))))
      else if t.left.Nil? then t.right
      else if t.right.Nil? then t.left
      else
        var s := Leftmost(t.right);
        var n := t.(word := s.word, meaning := s.meaning);
        BalanceTree(UpdateHeight(n.(right := DeleteWord(t.right, s.word))))
  }

  /** On an ordered tree, `deleteWord` removes exactly the word's binding; in
      particular deleting an absent word leaves the dictionary as it was. */
  lemma {:induction false} DeleteWordBindings(t: Tree, word: string)
    requires Ordered(t)
    ensures ToMap(DeleteWord(t, word)) == ToMap(t) - {word}
    decreases t, 1
  {
    if t.Node? {
      var c := Compare(word, t.word);
      if c < 0 {
        DeleteLeftBindings(t, word);
      } else if c > 0 {
        DeleteRightBindings(t, word);
      } else if t.left.Nil? || t.right.Nil? {
        DeleteSplicedBindings(t, word);
      } else {
        DeleteSuccessorBindings(t, word);
      }
    }
  }

  /** On an ordered tree, `deleteWord` removes exactly the word from the key set. */
  lemma DeleteWordKeys(t: Tree, word: string)
    requires Ordered(t)
    ensures Keys(DeleteWord(t, word)) == Keys(t) - {word}
  {
    DeleteWordBindings(t, word);
    ToMapDomain(t);
    ToMapDomain(DeleteWord(t, word));
  }

  /** The case of `DeleteWordBindings` where the found node has at most one child. */
  lemma DeleteSplicedBindings(t: Tree, word: string)
    requires Ordered(t) && t.Node? && (t.left.Nil? || t.right.Nil?) && word == t.word
    ensures ToMap(DeleteWord(t, word)) == ToMap(t) - {word}
  {
    SplicedChild(t, word);
    if word in Keys(t.right) || word in Keys(t.left) {
      LessAsymmetric(word, word);
    }
    SplicedBindings(t);
  }

  /** Splicing out a node with at most one child, whose word occurs nowhere
      else, removes exactly that word's binding. */
  lemma SplicedBindings(t: Tree)
    requires t.Node? && (t.left.Nil? || t.right.Nil?) && t.word !in Keys(t.left) && t.word !in Keys(t.right)
    ensures ToMap(if t.left.Nil? then t.right else t.left) == ToMap(t) - {t.word}
  {
    var here := map[t.word := t.meaning];
    ToMapDomain(t.left);
    ToMapDomain(t.right);
    if t.left.Nil? {
      assert ToMap(t) == map[] + here + ToMap(t.right);
      RemoveOnLeft(here, map[], ToMap(t.right), t.word);
    } else {
      assert ToMap(t) == ToMap(t.left) + here + map[];
      RemoveOnRight(ToMap(t.left), here, t.word);
    }
  }

  /** A found node with at most one child is replaced by that child. */
  lemma SplicedChild(t: Tree, word: string)
    requires t.Node? && (t.left.Nil? || t.right.Nil?) && word == t.word
    ensures DeleteWord(t, word) == if t.left.Nil? then t.right else t.left
  {
    assert Compare(word, t.word) == 0;
  }

  /** The case of `DeleteWordBindings` where the word sorts before the node's. */
  lemma {:induction false} DeleteLeftBindings(t: Tree, word: string)
    requires Ordered(t) && t.Node? && Less(word, t.word)
    ensures ToMap(DeleteWord(t, word)) == ToMap(t) - {word}
    decreases t, 0
  {
    var l, rt := t.left, t.right;
    var here := map[t.word := t.meaning];
    ToMapDomain(rt);
    DeleteWordBindings(l, word);
    if word in Keys(rt) {
      LessAsymmetric(word, t.word);
    }
    assert ToMap(DeleteWord(t, word)) == ToMap(DeleteWord(l, word)) + here + ToMap(rt);
    RemoveOnLeft(ToMap(l), here, ToMap(rt), word);
  }

  /** The case of `DeleteWordBindings` where the word sorts after the node's. */
  lemma {:induction false} DeleteRightBindings(t: Tree, word: string)
    requires Ordered(t) && t.Node? && Compare(word, t.word) > 0
    ensures ToMap(DeleteWord(t, word)) == ToMap(t) - {word}
    decreases t, 0
  {
    var l, rt := t.left, t.right;
    var here := map[t.word := t.meaning];
    ToMapDomain(l);
    CompareAntisymmetric(word, t.word);
    DeleteWordBindings(rt, word);
    if word in Keys(l) {
      LessAsymmetric(word, t.word);
    }
    assert ToMap(DeleteWord(t, word)) == ToMap(l) + here + ToMap(DeleteWord(rt, word));
    RemoveOnRight(ToMap(l) + here, ToMap(rt), word);
  }

  /** On an ordered tree, `deleteWord` removes one node when the word is a key
      and none otherwise. */
  lemma {:induction false} DeleteWordCount(t: Tree, word: string)
    requires Ordered(t)
    ensures |InOrder(DeleteWord(t, word))| == |InOrder(t)| - (if word in Keys(t) then 1 else 0)
    decreases t
  {
    if t.Node? {
      var c := Compare(word, t.word);
      if c < 0 {
        DeleteWordCount(t.left, word);
        if word in Keys(t.right) {
          LessAsymmetric(word, t.word);
        }
      } else if c > 0 {
        CompareAntisymmetric(word, t.word);
        DeleteWordCount(t.right, word);
        if word in Keys(t.left) {
          LessAsymmetric(word, t.word);
        }
      } else if t.left.Node? && t.right.Node? {
        DeleteWordCount(t.right, Leftmost(t.right).word);
      }
    }
  }

  /** The two-children case of `DeleteWordBindings`. */
  lemma {:induction false} DeleteSuccessorBindings(t: Tree, word: string)
    requires Ordered(t) && t.Node? && t.left.Node? && t.right.Node? && word == t.word
    ensures ToMap(DeleteWord(t, word)) == ToMap(t) - {word}
    decreases t, 0
  {
    var l, rt := t.left, t.right;
    ToMapDomain(l);
    ToMapDomain(rt);
    var s := Leftmost(rt);
    LeftmostIsLeast(rt);
    DeleteWordBindings(rt, s.word);
    if s.word in Keys(l) {
      LessTransitive(s.word, word, s.word);
      LessAsymmetric(s.word, s.word);
    }
    if word in Keys(rt) {
      LessAsymmetric(word, word);
    }
    assert ToMap(DeleteWord(t, word)) == ToMap(l) + map[s.word := s.meaning] + ToMap(DeleteWord(rt, s.word));
    SpliceSuccessor(ToMap(l), word, t.meaning, ToMap(rt), s.word, s.meaning);
  }

  /** On a valid tree, `deleteWord` keeps the tree valid (ordered, balanced,
      with correct heights) and lowers its height by at most one. */
  lemma {:induction false} DeleteWordKeepsValid(t: Tree, word: string)
    requires Valid(t)
    ensures Valid(DeleteWord(t, word))
    ensures Height(t) - 1 <= Height(DeleteWord(t, word)) <= Height(t)
    decreases t, 1
  {
    if t.Node? {
      var c := Compare(word, t.word);
      if c < 0 {
        DeleteLeftKeepsValid(t, word);
      } else if c > 0 {
        DeleteRightKeepsValid(t, word);
      } else if t.left.Nil? || t.right.Nil? {
        SplicedChild(t, word);
      } else {
        DeleteSuccessorKeepsValid(t, word);
      }
    }
  }

  /** The case of `DeleteWordKeepsValid` where the word sorts before the node's. */
  lemma {:induction false} DeleteLeftKeepsValid(t: Tree, word: string)
    requires Valid(t) && t.Node? && Compare(word, t.word) < 0
    ensures Valid(DeleteWord(t, word))
    ensures Height(t) - 1 <= Height(DeleteWord(t, word)) <= Height(t)
    decreases t, 0
  {
    var l' := DeleteWord(t.left, word);
    DeleteWordKeepsValid(t.left, word);
    var n := UpdateHeight(t.(left := l'));
    assert Ordered(n);
    BalanceTreeRestoresAvl(n);
    assert DeleteWord(t, word) == BalanceTree(n);
  }

  /** The case of `DeleteWordKeepsValid` where the word sorts after the node's. */
  lemma {:induction false} DeleteRightKeepsValid(t: Tree, word: string)
    requires Valid(t) && t.Node? && Compare(word, t.word) > 0
    ensures Valid(DeleteWord(t, word))
    ensures Height(t) - 1 <= Height(DeleteWord(t, word)) <= Height(t)
    decreases t, 0
  {
    var r' := DeleteWord(t.right, word);
    DeleteWordKeepsValid(t.right, word);
    var n := UpdateHeight(t.(right := r'));
    assert Ordered(n);
    BalanceTreeRestoresAvl(n);
    assert DeleteWord(t, word) == BalanceTree(n);
  }

  /** The two-children case of `DeleteWordKeepsValid`. */
  lemma {:induction false} DeleteSuccessorKeepsValid(t: Tree, word: string)
    requires Valid(t) && t.Node? && t.left.Node? && t.right.Node? && word == t.word
    ensures Valid(DeleteWord(t, word))
    ensures Height(t) - 1 <= Height(DeleteWord(t, word)) <= Height(t)
    decreases t, 0
  {
    var s := Leftmost(t.right);
    LeftmostIsLeast(t.right);
    var r' := DeleteWord(t.right, s.word);
    DeleteWordKeepsValid(t.right, s.word);
    DeleteWordKeys(t.right, s.word);
    forall k | k in Keys(t.left)
      ensures Less(k, s.word)
    {
      LessTransitive(k, t.word, s.word);
    }
    var n := UpdateHeight(t.(word := s.word, meaning := s.meaning, right := r'));
    assert Ordered(n);
    BalanceTreeRestoresAvl(n);
    assert Compare(word, t.word) == 0;
    assert DeleteWord(t, word) == BalanceTree(n);
  }

  /** On a valid tree, deleting an absent word gives back the very same tree. */
  lemma {:induction false} DeleteAbsentWord(t: Tree, word: string)
    requires Valid(t) && word !in Keys(t)
    ensures DeleteWord(t, word) == t
    decreases t
  {
    if t.Node? {
      var c := Compare(word, t.word);
      if c < 0 {
        DeleteAbsentWord(t.left, word);
        BalanceTreeRestoresAvl(t);
      } else {
        DeleteAbsentWord(t.right, word);
        BalanceTreeRestoresAvl(t);
      }
    }
  }

  /** Deleting a key from the left part of a three-way union deletes it from the
      union when the later parts do not hold it. */
  lemma RemoveOnLeft(a: map<string, string>, b: map<string, string>, c: map<string, string>, k: string)
    requires k !in b && k !in c
    ensures (a - {k}) + b + c == (a + b + c) - {k}
  {
  }

  /** Deleting a key from the right operand of a union deletes it from the union
      when the left operand does not hold it. */
  lemma RemoveOnRight(a: map<string, string>, b: map<string, string>, k: string)
    requires k !in a
    ensures a + (b - {k}) == (a + b) - {k}
  {
  }

  /** Moving the successor's binding up to replace a deleted middle binding
      yields the union without the deleted key. */
  lemma SpliceSuccessor(a: map<string, string>, w: string, m: string, b: map<string, string>, s: string, sm: string)
    requires w !in a && w !in b && s !in a && s in b && b[s] == sm
    ensures a + map[s := sm] + (b - {s}) == (a + map[w := m] + b) - {w}
  {
  }

  /** Delete each word of `words` in turn. */
  function DeleteAll(t: Tree, words: seq<string>): Tree
    decreases |words|
  {
    if |words| == 0 then t else DeleteAll(DeleteWord(t, words[0]), words[1..])
  }

  /** Deleting a list of words from a valid tree keeps it valid and removes
      exactly those words. */
  lemma {:induction false} DeleteAllKeys(t: Tree, words: seq<string>)
    requires Valid(t)
    ensures Valid(DeleteAll(t, words))
    ensures Keys(DeleteAll(t, words)) == Keys(t) - set w | w in words
    decreases |words|
  {
    if |words| > 0 {
      var t1 := DeleteWord(t, words[0]);
      DeleteWordKeepsValid(t, words[0]);
      DeleteWordKeys(t, words[0]);
      DeleteAllKeys(t1, words[1..]);
      SetOfCons(words);
    }
  }

  /** Deleting every word a valid tree holds leaves the empty tree. */
  lemma DeleteEveryWord(t: Tree, words: seq<string>)
    requires Valid(t) && Keys(t) <= set w | w in words
    ensures DeleteAll(t, words) == Nil
  {
    DeleteAllKeys(t, words);
  }
}
