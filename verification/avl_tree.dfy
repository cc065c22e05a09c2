/**
 The node structure of the dictionary's AVL tree, its height bookkeeping, the
 invariants a well-formed tree keeps, and the abstractions (in-order listing,
 key set, word-to-meaning map) the operations are specified against.

 A pointer-linked `TreeNode` with exclusively owned children becomes an
 immutable value; `Nil` stands for `nullptr`.
 */
module AvlTree {
  import opened StringOrder

  /** One (word, meaning) pair as the in-order walk produces it. */
  datatype Entry = Entry(word: string, meaning: string)

  /** A subtree: empty, or a node holding a word, its meaning, two children and
      the memoised height of the subtree rooted at it. The C++ code stores the
      height in an `int`, but only ever writes 1 or one more than another stored
      height there, so it is never negative. */
  datatype Tree =
    | Nil
    | Node(word: string, meaning: string, left: Tree, right: Tree, height: nat)

  function Max(a: int, b: int): int
  {
    if a < b then b else a
  }

  // ---------------------------------------------------------------------------
  // Abstractions
  // ---------------------------------------------------------------------------

  /** The pairs in left-node-right order: what `displayTree` prints and
      `saveTreeToFile` writes, one pair per node. */
  function InOrder(t: Tree): seq<Entry>
  {
    match t
    case Nil => []
    case Node(w, m, l, r, _) => InOrder(l) + [Entry(w, m)] + InOrder(r)
  }

  /** The words stored anywhere in the tree. */
  function Keys(t: Tree): set<string>
  {
    match t
    case Nil => {}
    case Node(w, _, l, r, _) => Keys(l) + {w} + Keys(r)
  }

  /** The dictionary the tree represents. On an ordered tree no word occurs
      twice, so the bias of `+` towards its right operand never matters. */
  function ToMap(t: Tree): map<string, string>
  {
    match t
    case Nil => map[]
    case Node(w, m, l, r, _) => ToMap(l) + map[w := m] + ToMap(r)
  }

  /** The true height of the tree, counted in nodes; an empty tree has height 0. */
  function Depth(t: Tree): nat
  {
    match t
    case Nil => 0
    case Node(_, _, l, r, _) => 1 + Max(Depth(l), Depth(r))
  }

  // ---------------------------------------------------------------------------
  // Invariants
  // ---------------------------------------------------------------------------

  /** Binary-search-tree order: every word of the left subtree sorts before the
      node's word, every word of the right subtree after it. */
  predicate Ordered(t: Tree)
  {
    match t
    case Nil => true
    case Node(w, _, l, r, _) =>
      && (forall k :: k in Keys(l) ==> Less(k, w))
      && (forall k :: k in Keys(r) ==> Less(w, k))
      && Ordered(l)
      && Ordered(r)
  }

  /** Every stored height is one more than the larger stored height of the children. */
  predicate HeightsOk(t: Tree)
  {
    match t
    case Nil => true
    case Node(_, _, l, r, h) =>
      h == 1 + Max(Height(l), Height(r)) && HeightsOk(l) && HeightsOk(r)
  }

  /** AVL balance: at every node the children's heights differ by at most one. */
  predicate Balanced(t: Tree)
  {
    match t
    case Nil => true
    case Node(_, _, l, r, _) =>
      -1 <= BalanceFactor(t) <= 1 && Balanced(l) && Balanced(r)
  }

  /** An AVL tree with correct stored heights (order aside). */
  predicate AvlShaped(t: Tree)
  {
    Balanced(t) && HeightsOk(t)
  }

  /** The invariant every public operation re-establishes. */
  predicate Valid(t: Tree)
  {
    Ordered(t) && Balanced(t) && HeightsOk(t)
  }

  /** `a` and `b` have the same nodes, words and stored heights; only meanings may differ. */
  predicate SameShape(a: Tree, b: Tree)
  {
    match a
    case Nil => b.Nil?
    case Node(w, _, l, r, h) =>
      b.Node? && b.word == w && b.height == h && SameShape(l, b.left) && SameShape(r, b.right)
  }

  // ---------------------------------------------------------------------------
  // Node construction and height bookkeeping
  // ---------------------------------------------------------------------------

  /** `createNode`: a leaf of height 1. */
  function CreateNode(word: string, meaning: string): (t: Tree)
    ensures Valid(t)
    ensures InOrder(t) == [Entry(word, meaning)]
    ensures Keys(t) == {word} && ToMap(t) == map[word := meaning]
    ensures Depth(t) == 1
  {
    Node(word, meaning, Nil, Nil, 1)
  }

  /** `height`: the stored height, 0 for an empty tree. */
  function Height(t: Tree): nat
  {
    if t.Nil? then 0 else t.height
  }

  /** `balanceFactor`: left height minus right height, 0 for an empty tree. */
  function BalanceFactor(t: Tree): int
  {
    if t.Nil? then 0 else Height(t.left) - Height(t.right)
  }

  /** `updateHeight`: recompute a node's stored height from its children. */
  function UpdateHeight(t: Tree): (r: Tree)
    ensures r.Nil? <==> t.Nil?
    ensures InOrder(r) == InOrder(t) && Keys(r) == Keys(t) && ToMap(r) == ToMap(t)
    ensures r.Node? ==> r.left == t.left && r.right == t.right
    ensures r.Node? && HeightsOk(t.left) && HeightsOk(t.right) ==> HeightsOk(r)
    ensures HeightsOk(t) ==> r == t
  {
    if t.Nil? then t
    else t.(height := Max(Height(t.left), Height(t.right)) + 1)
  }

  // ---------------------------------------------------------------------------
  // Facts about the abstractions
  // ---------------------------------------------------------------------------

  /** With correct bookkeeping the stored height is the true height. */
  lemma {:induction false} HeightIsDepth(t: Tree)
    requires HeightsOk(t)
    ensures Height(t) == Depth(t)
    ensures t.Node? ==> BalanceFactor(t) == Depth(t.left) - Depth(t.right)
  {
    if t.Node? {
      HeightIsDepth(t.left);
      HeightIsDepth(t.right);
    }
  }

  /** The dictionary's domain is the key set. */
  lemma {:induction false} ToMapDomain(t: Tree)
    ensures ToMap(t).Keys == Keys(t)
  {
    if t.Node? {
      ToMapDomain(t.left);
      ToMapDomain(t.right);
    }
  }

  /** A word at the root of an ordered tree is bound to the root's meaning. */
  lemma RootBinding(t: Tree)
    requires t.Node? && Ordered(t)
    ensures t.word in ToMap(t) && ToMap(t)[t.word] == t.meaning
  {
    ToMapDomain(t.right);
    if t.word in Keys(t.right) {
      LessAsymmetric(t.word, t.word);
    }
  }

  /** A word below the root of an ordered tree keeps the binding of the subtree it is in. */
  lemma ChildBinding(t: Tree, k: string)
    requires t.Node? && Ordered(t)
    ensures k in Keys(t.left) ==> k in ToMap(t.left) && k in ToMap(t) && ToMap(t)[k] == ToMap(t.left)[k]
    ensures k in Keys(t.right) ==> k in ToMap(t.right) && k in ToMap(t) && ToMap(t)[k] == ToMap(t.right)[k]
  {
    ToMapDomain(t.left);
    ToMapDomain(t.right);
    if k in Keys(t.left) && k in Keys(t.right) {
      LessTransitive(k, t.word, k);
      LessAsymmetric(k, k);
    }
    if k in Keys(t.left) && k == t.word {
      LessAsymmetric(k, k);
    }
  }

  /** The in-order word sequence is strictly ascending. */
  predicate Ascending(s: seq<Entry>)
  {
    forall i, j :: 0 <= i < j < |s| ==> Less(s[i].word, s[j].word)
  }

  /** The key set is the set of words the in-order walk lists. */
  lemma {:induction false} KeysAreInOrderWords(t: Tree)
    ensures forall k :: k in Keys(t) <==> exists i :: 0 <= i < |InOrder(t)| && InOrder(t)[i].word == k
  {
    if t.Node? {
      KeysAreInOrderWords(t.left);
      KeysAreInOrderWords(t.right);
      var L, R := InOrder(t.left), InOrder(t.right);
      var s := InOrder(t);
      assert s == L + [Entry(t.word, t.meaning)] + R;
      forall k | k in Keys(t)
        ensures exists i :: 0 <= i < |s| && s[i].word == k
      {
        if k in Keys(t.left) {
          var i :| 0 <= i < |L| && L[i].word == k;
          assert s[i] == L[i];
        } else if k == t.word {
          assert s[|L|].word == k;
        } else {
          assert k in Keys(t.right);
          var i :| 0 <= i < |R| && R[i].word == k;
          assert s[|L| + 1 + i] == R[i];
        }
      }
      forall k | exists i :: 0 <= i < |s| && s[i].word == k
        ensures k in Keys(t)
      {
        var i :| 0 <= i < |s| && s[i].word == k;
        if i < |L| {
          assert L[i] == s[i];
        } else if i > |L| {
          assert R[i - |L| - 1] == s[i];
        }
      }
    }
  }

  /** Binary-search-tree order holds exactly when the in-order walk is strictly
      ascending, i.e. when `displayTree` lists the words in sorted order. */
  lemma OrderedIffAscending(t: Tree)
    ensures Ordered(t) <==> Ascending(InOrder(t))
  {
    if Ordered(t) {
      OrderedIsAscending(t);
    }
    if Ascending(InOrder(t)) {
      AscendingIsOrdered(t);
    }
  }

  lemma {:induction false} OrderedIsAscending(t: Tree)
    requires Ordered(t)
    ensures Ascending(InOrder(t))
  {
    if t.Node? {
      OrderedIsAscending(t.left);
      OrderedIsAscending(t.right);
      KeysAreInOrderWords(t.left);
      KeysAreInOrderWords(t.right);
      var L, R := InOrder(t.left), InOrder(t.right);
      var w := t.word;
      var s := InOrder(t);
      assert s == L + [Entry(w, t.meaning)] + R;
      forall i, j | 0 <= i < j < |s|
        ensures Less(s[i].word, s[j].word)
      {
        if j < |L| {
          assert s[i] == L[i] && s[j] == L[j];
        } else if j == |L| {
          assert s[i] == L[i] && L[i].word in Keys(t.left);
        } else if i > |L| {
          assert s[i] == R[i - |L| - 1] && s[j] == R[j - |L| - 1];
        } else if i == |L| {
          assert s[j] == R[j - |L| - 1] && R[j - |L| - 1].word in Keys(t.right);
        } else {
          assert s[i] == L[i] && L[i].word in Keys(t.left);
          assert s[j] == R[j - |L| - 1] && R[j - |L| - 1].word in Keys(t.right);
          LessTransitive(s[i].word, w, s[j].word);
        }
      }
    }
  }

  lemma {:induction false} AscendingIsOrdered(t: Tree)
    requires Ascending(InOrder(t))
    ensures Ordered(t)
  {
    if t.Node? {
      KeysAreInOrderWords(t.left);
      KeysAreInOrderWords(t.right);
      var L, R := InOrder(t.left), InOrder(t.right);
      var w := t.word;
      var s := InOrder(t);
      assert s == L + [Entry(w, t.meaning)] + R;
      forall i, j | 0 <= i < j < |L|
        ensures Less(L[i].word, L[j].word)
      {
        assert s[i] == L[i] && s[j] == L[j];
      }
      forall i, j | 0 <= i < j < |R|
        ensures Less(R[i].word, R[j].word)
      {
        assert s[|L| + 1 + i] == R[i] && s[|L| + 1 + j] == R[j];
      }
      AscendingIsOrdered(t.left);
      AscendingIsOrdered(t.right);
      forall k | k in Keys(t.left)
        ensures Less(k, w)
      {
        var i :| 0 <= i < |L| && L[i].word == k;
        assert s[i] == L[i] && s[|L|].word == w;
      }
      forall k | k in Keys(t.right)
        ensures Less(w, k)
      {
        var i :| 0 <= i < |R| && R[i].word == k;
        assert s[|L| + 1 + i] == R[i] && s[|L|].word == w;
      }
    }
  }

  /** Trees with the same in-order walk represent the same dictionary. */
  lemma SameInOrderSameContents(a: Tree, b: Tree)
    requires InOrder(a) == InOrder(b)
    ensures Keys(a) == Keys(b)
    ensures Ordered(a) <==> Ordered(b)
  {
    KeysAreInOrderWords(a);
    KeysAreInOrderWords(b);
    OrderedIffAscending(a);
    OrderedIffAscending(b);
  }

  /** Every tree has its own shape. */
  lemma {:induction false} SameShapeReflexive(t: Tree)
    ensures SameShape(t, t)
  {
    if t.Node? {
      SameShapeReflexive(t.left);
      SameShapeReflexive(t.right);
    }
  }

  /** Trees of the same shape have the same words, heights and number of entries. */
  lemma {:induction false} SameShapeFacts(a: Tree, b: Tree)
    requires SameShape(a, b)
    ensures Height(a) == Height(b) && Keys(a) == Keys(b) && |InOrder(a)| == |InOrder(b)|
  {
    if a.Node? {
      SameShapeFacts(a.left, b.left);
      SameShapeFacts(a.right, b.right);
    }
  }

  /** Changing meanings only keeps a valid tree valid. */
  lemma {:induction false} SameShapeKeepsValid(a: Tree, b: Tree)
    requires SameShape(a, b) && Valid(a)
    ensures Valid(b)
  {
    if a.Node? {
      SameShapeFacts(a.left, b.left);
      SameShapeFacts(a.right, b.right);
      SameShapeKeepsValid(a.left, b.left);
      SameShapeKeepsValid(a.right, b.right);
    }
  }

  /** Map union is associative. */
  lemma MergeAssociative(a: map<string, string>, b: map<string, string>, c: map<string, string>)
    ensures a + (b + c) == (a + b) + c
  {
  }

  /** The two arrangements a rotation switches between list the same pairs in
      the same order, and so hold the same keys and bindings. */
  lemma RotationKeepsContents(x: Entry, y: Entry, a: Tree, b: Tree, c: Tree, h1: nat, h2: nat, h3: nat, h4: nat)
    ensures var high := Node(x.word, x.meaning, a, Node(y.word, y.meaning, b, c, h1), h2);
            var low := Node(y.word, y.meaning, Node(x.word, x.meaning, a, b, h3), c, h4);
            && InOrder(high) == InOrder(low)
            && Keys(high) == Keys(low)
            && ToMap(high) == ToMap(low)
  {
    var A, B, C := InOrder(a), InOrder(b), InOrder(c);
    assert A + [x] + (B + [y] + C) == A + [x] + B + [y] + C;
    MergeAssociative(ToMap(a) + map[x.word := x.meaning], ToMap(b) + map[y.word := y.meaning], ToMap(c));
    MergeAssociative(ToMap(a) + map[x.word := x.meaning], ToMap(b), map[y.word := y.meaning]);
  }

  /** The words of a non-empty list are its first word and the words of the rest. */
  lemma SetOfCons(s: seq<string>)
    requires |s| > 0
    ensures (set w | w in s) == {s[0]} + set w | w in s[1..]
  {
    assert s == [s[0]] + s[1..];
  }
}
