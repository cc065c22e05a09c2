/**
 A small session: five words inserted in the order middle, first, second,
 fourth, fifth, followed by lookups, a prefix query and a deletion. Each step
 is stated for any five ascending words and then for cat, ant, bee, dog, emu.
 */
module Scenario {
  import opened StringOrder
  import opened AvlTree
  import opened Rebalance
  import opened Dictionary
  import opened Suggestions

  function Leaf(e: Entry): Tree
  {
    Node(e.word, e.meaning, Nil, Nil, 1)
  }

  lemma LeafFacts(x: Entry)
    ensures Keys(Leaf(x)) == {x.word} && InOrder(Leaf(x)) == [x] && Valid(Leaf(x))
  {
    assert Leaf(x) == CreateNode(x.word, x.meaning);
  }

  /** The tree the session builds: `b` at the root over `a`, and `d` over `c` and `e`. */
  function Shape(a: Entry, b: Entry, c: Entry, d: Entry, e: Entry): Tree
  {
    Node(b.word, b.meaning, Leaf(a), Node(d.word, d.meaning, Leaf(c), Leaf(e), 2), 3)
  }

  /** Five words in ascending order. */
  predicate Ascending5(a: Entry, b: Entry, c: Entry, d: Entry, e: Entry)
  {
    Less(a.word, b.word) && Less(b.word, c.word) && Less(c.word, d.word) && Less(d.word, e.word)
  }

  function Insert(t: Tree, e: Entry): Tree
  {
    AddWord(t, e.word, e.meaning)
  }

  lemma InsertFirst(a: Entry, c: Entry)
    requires Less(a.word, c.word)
    ensures Insert(Leaf(c), a) == Node(c.word, c.meaning, Leaf(a), Nil, 2)
  {
    assert AddWord(Nil, a.word, a.meaning) == Leaf(a);
    var n := Node(c.word, c.meaning, Leaf(a), Nil, 2);
    assert UpdateHeight(Node(c.word, c.meaning, Leaf(a), Nil, 1)) == n;
    assert BalanceTree(n) == n;
  }

  /** The second word lands right of the first, and the left-right case lifts
      it to the root. */
  lemma InsertSecond(a: Entry, b: Entry, c: Entry)
    requires Less(a.word, b.word) && Less(b.word, c.word)
    ensures Insert(Node(c.word, c.meaning, Leaf(a), Nil, 2), b)
         == Node(b.word, b.meaning, Leaf(a), Leaf(c), 2)
  {
    CompareAntisymmetric(a.word, b.word);
    var ab := Node(a.word, a.meaning, Nil, Leaf(b), 2);
    assert AddWord(Nil, b.word, b.meaning) == Leaf(b);
    assert UpdateHeight(Node(a.word, a.meaning, Nil, Leaf(b), 1)) == ab;
    assert BalanceTree(ab) == ab;
    assert Insert(Leaf(a), b) == ab;
    var n := Node(c.word, c.meaning, ab, Nil, 3);
    assert UpdateHeight(Node(c.word, c.meaning, ab, Nil, 2)) == n;
    var l' := Node(b.word, b.meaning, Leaf(a), Nil, 2);
    assert LeftRotate(ab) == l';
    assert RightRotate(n.(left := l')) == Node(b.word, b.meaning, Leaf(a), Leaf(c), 2);
  }

  lemma InsertFourth(a: Entry, b: Entry, c: Entry, d: Entry)
    requires Less(b.word, c.word) && Less(c.word, d.word)
    ensures Insert(Node(b.word, b.meaning, Leaf(a), Leaf(c), 2), d)
         == Node(b.word, b.meaning, Leaf(a), Node(c.word, c.meaning, Nil, Leaf(d), 2), 3)
  {
    LessTransitive(b.word, c.word, d.word);
    CompareAntisymmetric(b.word, d.word);
    CompareAntisymmetric(c.word, d.word);
    var cd := Node(c.word, c.meaning, Nil, Leaf(d), 2);
    assert AddWord(Nil, d.word, d.meaning) == Leaf(d);
    assert UpdateHeight(Node(c.word, c.meaning, Nil, Leaf(d), 1)) == cd;
    assert BalanceTree(cd) == cd;
    assert Insert(Leaf(c), d) == cd;
    var n := Node(b.word, b.meaning, Leaf(a), cd, 3);
    assert UpdateHeight(Node(b.word, b.meaning, Leaf(a), cd, 2)) == n;
    assert BalanceTree(n) == n;
  }

  /** The fifth word unbalances the third's node, and the right-right case lifts
      the fourth. */
  lemma InsertFifthBelowThird(c: Entry, d: Entry, e: Entry)
    requires Less(c.word, d.word) && Less(d.word, e.word)
    ensures Insert(Node(c.word, c.meaning, Nil, Leaf(d), 2), e)
         == Node(d.word, d.meaning, Leaf(c), Leaf(e), 2)
  {
    LessTransitive(c.word, d.word, e.word);
    CompareAntisymmetric(c.word, e.word);
    CompareAntisymmetric(d.word, e.word);
    var de := Node(d.word, d.meaning, Nil, Leaf(e), 2);
    assert AddWord(Nil, e.word, e.meaning) == Leaf(e);
    assert UpdateHeight(Node(d.word, d.meaning, Nil, Leaf(e), 1)) == de;
    assert BalanceTree(de) == de;
    assert Insert(Leaf(d), e) == de;
    var n := Node(c.word, c.meaning, Nil, de, 3);
    assert UpdateHeight(Node(c.word, c.meaning, Nil, de, 2)) == n;
    assert LeftRotate(n) == Node(d.word, d.meaning, Leaf(c), Leaf(e), 2);
  }

  lemma InsertFifth(a: Entry, b: Entry, c: Entry, d: Entry, e: Entry)
    requires Ascending5(a, b, c, d, e)
    ensures Insert(Node(b.word, b.meaning, Leaf(a), Node(c.word, c.meaning, Nil, Leaf(d), 2), 3), e)
         == Shape(a, b, c, d, e)
  {
    LessTransitive(b.word, c.word, d.word);
    LessTransitive(b.word, d.word, e.word);
    CompareAntisymmetric(b.word, e.word);
    InsertFifthBelowThird(c, d, e);
  }

  /** Inserting five ascending words in the order third, first, second, fourth,
      fifth rebalances twice and builds `Shape`. */
  lemma SessionBuildsShape(a: Entry, b: Entry, c: Entry, d: Entry, e: Entry)
    requires Ascending5(a, b, c, d, e)
    ensures Insert(Insert(Insert(Insert(Insert(Nil, c), a), b), d), e) == Shape(a, b, c, d, e)
  {
    LessTransitive(a.word, b.word, c.word);
    assert Insert(Nil, c) == Leaf(c);
    InsertFirst(a, c);
    InsertSecond(a, b, c);
    InsertFourth(a, b, c, d);
    InsertFifth(a, b, c, d, e);
  }

  /** `Shape` over ascending words is a valid AVL tree listing them in order. */
  lemma ShapeValid(a: Entry, b: Entry, c: Entry, d: Entry, e: Entry)
    requires Ascending5(a, b, c, d, e)
    ensures Valid(Shape(a, b, c, d, e))
    ensures InOrder(Shape(a, b, c, d, e)) == [a, b, c, d, e]
  {
    LessTransitive(b.word, c.word, d.word);
    LessTransitive(b.word, d.word, e.word);
    var de := Node(d.word, d.meaning, Leaf(c), Leaf(e), 2);
    LeafFacts(a);
    LeafFacts(c);
    LeafFacts(e);
    assert Keys(de) == {c.word, d.word, e.word};
    assert Ordered(de);
  }

  /** Deleting the third word, a leaf of `Shape`, leaves the other four in order. */
  lemma ShapeDeleteThird(a: Entry, b: Entry, c: Entry, d: Entry, e: Entry)
    requires Ascending5(a, b, c, d, e)
    ensures DeleteWord(Shape(a, b, c, d, e), c.word)
         == Node(b.word, b.meaning, Leaf(a), Node(d.word, d.meaning, Nil, Leaf(e), 2), 3)
    ensures SearchWord(DeleteWord(Shape(a, b, c, d, e), c.word), c.word).Nil?
  {
    CompareAntisymmetric(b.word, c.word);
    LessTransitive(c.word, d.word, e.word);
    LessAsymmetric(b.word, c.word);
    var de := Node(d.word, d.meaning, Nil, Leaf(e), 2);
    assert DeleteWord(Leaf(c), c.word) == Nil;
    assert DeleteWord(Node(d.word, d.meaning, Leaf(c), Leaf(e), 2), c.word) == de;
    var r := Node(b.word, b.meaning, Leaf(a), de, 3);
    assert UpdateHeight(r) == r;
  }

  /** Every one of the five words is found in that tree with its own meaning;
      the root word is found at the root. */
  lemma ShapeLookups(a: Entry, b: Entry, c: Entry, d: Entry, e: Entry)
    requires Ascending5(a, b, c, d, e)
    ensures SearchWord(Shape(a, b, c, d, e), b.word) == Shape(a, b, c, d, e)
    ensures SearchWord(Shape(a, b, c, d, e), a.word) == Leaf(a)
    ensures SearchWord(Shape(a, b, c, d, e), c.word) == Leaf(c)
    ensures SearchWord(Shape(a, b, c, d, e), d.word).Node? && SearchWord(Shape(a, b, c, d, e), d.word).meaning == d.meaning
    ensures SearchWord(Shape(a, b, c, d, e), e.word) == Leaf(e)
  {
    LessTransitive(b.word, c.word, d.word);
    LessTransitive(b.word, d.word, e.word);
    CompareAntisymmetric(b.word, c.word);
    CompareAntisymmetric(b.word, d.word);
    CompareAntisymmetric(b.word, e.word);
    CompareAntisymmetric(d.word, e.word);
    LessAsymmetric(a.word, b.word);
    LessAsymmetric(c.word, d.word);
    var de := Node(d.word, d.meaning, Leaf(c), Leaf(e), 2);
    assert SearchWord(Shape(a, b, c, d, e), c.word) == SearchWord(de, c.word) == SearchWord(Leaf(c), c.word);
    assert SearchWord(Shape(a, b, c, d, e), e.word) == SearchWord(de, e.word) == SearchWord(Leaf(e), e.word);
  }

  /** A partial term that matches only the first word suggests only that word. */
  lemma ShapeSuggestsFirst(a: Entry, b: Entry, c: Entry, d: Entry, e: Entry, p: string)
    requires Matches(a.word, p)
    requires !Matches(b.word, p) && !Matches(c.word, p) && !Matches(d.word, p) && !Matches(e.word, p)
    ensures WordSuggestion(Shape(a, b, c, d, e), p) == [a.word]
  {
    var t := Shape(a, b, c, d, e);
    WordSuggestionIsTakeOfPreOrder(t, p);
    assert PreOrderMatches(Leaf(c), p) == [] && PreOrderMatches(Leaf(e), p) == [];
    assert PreOrderMatches(t.right, p) == [];
    assert PreOrderMatches(Leaf(a), p) == [a.word];
    assert PreOrderMatches(t, p) == [a.word];
  }

  /** The session on cat, ant, bee, dog and emu meets the premises of the
      lemmas above: the words ascend, and of them only "ant" starts with "a". */
  lemma AnimalWordsQualify()
    ensures Ascending5(Entry("ant", "insect"), Entry("bee", "insect"), Entry("cat", "feline"),
                       Entry("dog", "canine"), Entry("emu", "bird"))
    ensures Matches("ant", "a") && !Matches("bee", "a") && !Matches("cat", "a")
            && !Matches("dog", "a") && !Matches("emu", "a")
  {
    FindZeroIffPrefix("ant", "a");
    FindZeroIffPrefix("bee", "a");
    FindZeroIffPrefix("cat", "a");
    FindZeroIffPrefix("dog", "a");
    FindZeroIffPrefix("emu", "a");
  }

  /** The session on cat, ant, bee, dog and emu builds `Shape` over them: a
      valid tree listing them alphabetically, in which "a" suggests only "ant". */
  lemma AnimalSessionBuilds()
    ensures var ant, bee, cat, dog, emu := Entry("ant", "insect"), Entry("bee", "insect"),
              Entry("cat", "feline"), Entry("dog", "canine"), Entry("emu", "bird");
            var t := Insert(Insert(Insert(Insert(Insert(Nil, cat), ant), bee), dog), emu);
            && t == Shape(ant, bee, cat, dog, emu)
            && Valid(t)
            && InOrder(t) == [ant, bee, cat, dog, emu]
            && WordSuggestion(t, "a") == ["ant"]
  {
    var ant, bee, cat, dog, emu := Entry("ant", "insect"), Entry("bee", "insect"),
      Entry("cat", "feline"), Entry("dog", "canine"), Entry("emu", "bird");
    AnimalWordsQualify();
    SessionBuildsShape(ant, bee, cat, dog, emu);
    ShapeValid(ant, bee, cat, dog, emu);
    ShapeSuggestsFirst(ant, bee, cat, dog, emu, "a");
  }

  /** In the tree that session builds, "bee" is found with its meaning, and
      deleting "cat" leaves "ant", "bee", "dog" and "emu" with "cat" not found. */
  lemma AnimalSessionLookupAndDelete()
    ensures var ant, bee, cat, dog, emu := Entry("ant", "insect"), Entry("bee", "insect"),
              Entry("cat", "feline"), Entry("dog", "canine"), Entry("emu", "bird");
            var t := Shape(ant, bee, cat, dog, emu);
            && SearchWord(t, "bee").Node? && SearchWord(t, "bee").meaning == "insect"
            && DeleteWord(t, "cat") == Node("bee", "insect", Leaf(ant), Node("dog", "canine", Nil, Leaf(emu), 2), 3)
            && SearchWord(DeleteWord(t, "cat"), "cat").Nil?
  {
    var ant, bee, cat, dog, emu := Entry("ant", "insect"), Entry("bee", "insect"),
      Entry("cat", "feline"), Entry("dog", "canine"), Entry("emu", "bird");
    AnimalWordsQualify();
    ShapeDeleteThird(ant, bee, cat, dog, emu);
  }
}
