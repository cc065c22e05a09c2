/**
 Prefix suggestions: collect, into a buffer of fixed capacity, the words that
 start with a partial term, visiting each node before its left and then its
 right subtree. The buffer and its fill count are modelled together as the
 sequence of words written so far.
 */
module Suggestions {
  import opened StringOrder
  import opened AvlTree

  /** `MAX_SUGGESTIONS`, the capacity of the suggestion buffer. */
  const MaxSuggestions: nat := 10

  /** The test `word.find(partialTerm) == 0`. */
  predicate Matches(word: string, partialTerm: string)
  {
    Find(word, partialTerm) == 0
  }

  /** The first `n` elements of `s`, or all of `s` when it is shorter. */
  function Take<T>(s: seq<T>, n: nat): (r: seq<T>)
    ensures |r| == if n < |s| then n else |s|
  {
    if n < |s| then s[..n] else s
  }

  /** Reference definition: every matching word, listed node first, then the
      left subtree, then the right subtree, with no capacity limit. */
  function PreOrderMatches(t: Tree, partialTerm: string): seq<string>
  {
    match t
    case Nil => []
    case Node(w, _, l, r, _) =>
      (if Matches(w, partialTerm) then [w] else [])
      + PreOrderMatches(l, partialTerm) + PreOrderMatches(r, partialTerm)
  }

  /** `suggestWords`: append to the buffer `found` the matching words of `t`,
      stopping at any node reached while the buffer is full. */
  function SuggestWords(t: Tree, partialTerm: string, found: seq<string>): (r: seq<string>)
    ensures found <= r
    ensures |found| <= MaxSuggestions ==> |r| <= MaxSuggestions
    ensures |found| >= MaxSuggestions ==> r == found
    ensures forall i :: |found| <= i < |r| ==> r[i] in Keys(t) && Matches(r[i], partialTerm)
    decreases t
  {
    if t.Nil? || |found| >= MaxSuggestions then found
    else
      var here := if Matches(t.word, partialTerm) then found + [t.word] else found;
      var afterLeft := SuggestWords(t.left, partialTerm, here);
      SuggestWords(t.right, partialTerm, afterLeft)
  }

  /** `wordSuggestion`: empty the buffer, then run `suggestWords` from the root.
      At most `MaxSuggestions` words are returned, each a word of the tree that
      starts with the partial term. */
  function WordSuggestion(t: Tree, partialTerm: string): (r: seq<string>)
    ensures |r| <= MaxSuggestions
    ensures forall w :: w in r ==> w in Keys(t) && partialTerm <= w
  {
    var r := SuggestWords(t, partialTerm, []);
    assert forall w :: w in r ==> Matches(w, partialTerm) by {
      forall w | w in r
        ensures Matches(w, partialTerm)
      {
        var i :| 0 <= i < |r| && r[i] == w;
      }
    }
    forall w | w in r
      ensures partialTerm <= w
    {
      FindZeroIffPrefix(w, partialTerm);
    }
    r
  }

  /** Taking a prefix of a concatenation takes from the first part and then,
      with what is left of the budget, from the second. */
  lemma TakeConcat<T>(a: seq<T>, b: seq<T>, n: nat)
    ensures Take(a + b, n) == Take(a, n) + Take(b, n - |Take(a, n)|)
  {
    if n < |a| {
      assert (a + b)[..n] == a[..n];
    } else if n < |a| + |b| {
      assert (a + b)[..n] == a + b[..n - |a|];
    }
  }

  /** `suggestWords` with a buffer holding `found` yields `found` followed by
      as many pre-order matches as still fit. */
  lemma {:induction false} SuggestWordsIsTakeOfPreOrder(t: Tree, partialTerm: string, found: seq<string>)
    requires |found| <= MaxSuggestions
    ensures SuggestWords(t, partialTerm, found)
            == found + Take(PreOrderMatches(t, partialTerm), MaxSuggestions - |found|)
    decreases t
  {
    if t.Node? && |found| < MaxSuggestions {
      var head := if Matches(t.word, partialTerm) then [t.word] else [];
      var ml := PreOrderMatches(t.left, partialTerm);
      var mr := PreOrderMatches(t.right, partialTerm);
      var here := if Matches(t.word, partialTerm) then found + [t.word] else found;
      assert here == found + head;
      var afterLeft := SuggestWords(t.left, partialTerm, here);
      var k := MaxSuggestions - |found|;
      var k' := k - |head|;
      SuggestWordsIsTakeOfPreOrder(t.left, partialTerm, here);
      SuggestWordsIsTakeOfPreOrder(t.right, partialTerm, afterLeft);
      TakeConcat(ml, mr, k');
      TakeConcat(head, ml + mr, k);
      assert Take(head, k) == head;
      Associative(head, ml, mr);
      Associative(found, head, Take(ml + mr, k'));
      Associative(here, Take(ml, k'), Take(mr, k' - |Take(ml, k')|));
      assert SuggestWords(t, partialTerm, found) == SuggestWords(t.right, partialTerm, afterLeft);
    } else {
      assert Take(PreOrderMatches(t, partialTerm), MaxSuggestions - |found|) == [];
      assert found + [] == found;
    }
  }

  lemma Associative<T>(a: seq<T>, b: seq<T>, c: seq<T>)
    ensures a + b + c == a + (b + c)
  {
  }

  /** `wordSuggestion` returns the first `MaxSuggestions` matches in pre-order. */
  lemma WordSuggestionIsTakeOfPreOrder(t: Tree, partialTerm: string)
    ensures WordSuggestion(t, partialTerm) == Take(PreOrderMatches(t, partialTerm), MaxSuggestions)
  {
    var m := Take(PreOrderMatches(t, partialTerm), MaxSuggestions);
    calc {
      WordSuggestion(t, partialTerm);
      SuggestWords(t, partialTerm, []);
      { SuggestWordsIsTakeOfPreOrder(t, partialTerm, []); }
      [] + m;
      { assert [] + m == m; }
      m;
    }
  }

  /** The pre-order matches are exactly the tree's words that start with the
      partial term. */
  lemma {:induction false} PreOrderMatchesAreMatchingKeys(t: Tree, partialTerm: string)
    ensures forall w :: w in PreOrderMatches(t, partialTerm) <==> w in Keys(t) && partialTerm <= w
  {
    if t.Node? {
      PreOrderMatchesAreMatchingKeys(t.left, partialTerm);
      PreOrderMatchesAreMatchingKeys(t.right, partialTerm);
      FindZeroIffPrefix(t.word, partialTerm);
    }
  }

  /** When the tree has no more matching nodes than the buffer holds, every
      word of the tree that starts with the partial term is suggested. */
  lemma WordSuggestionComplete(t: Tree, partialTerm: string)
    requires |PreOrderMatches(t, partialTerm)| <= MaxSuggestions
    ensures forall w :: w in Keys(t) && partialTerm <= w ==> w in WordSuggestion(t, partialTerm)
  {
    WordSuggestionIsTakeOfPreOrder(t, partialTerm);
    PreOrderMatchesAreMatchingKeys(t, partialTerm);
  }

  /** No word occurs twice in `s`. */
  predicate Distinct(s: seq<string>)
  {
    forall i, j :: 0 <= i < j < |s| ==> s[i] != s[j]
  }

  lemma DistinctConcat(a: seq<string>, b: seq<string>)
    requires Distinct(a) && Distinct(b)
    requires forall w :: w in a ==> w !in b
    ensures Distinct(a + b)
  {
    forall i, j | 0 <= i < j < |a + b|
      ensures (a + b)[i] != (a + b)[j]
    {
      if i < |a| && |a| <= j {
        assert (a + b)[i] in a && (a + b)[j] in b;
      }
    }
  }

  /** On an ordered tree the pre-order matches are pairwise distinct words. */
  lemma {:induction false} PreOrderMatchesDistinct(t: Tree, partialTerm: string)
    requires Ordered(t)
    ensures Distinct(PreOrderMatches(t, partialTerm))
  {
    if t.Node? {
      var head := if Matches(t.word, partialTerm) then [t.word] else [];
      var ml := PreOrderMatches(t.left, partialTerm);
      var mr := PreOrderMatches(t.right, partialTerm);
      PreOrderMatchesDistinct(t.left, partialTerm);
      PreOrderMatchesDistinct(t.right, partialTerm);
      PreOrderMatchesAreMatchingKeys(t.left, partialTerm);
      PreOrderMatchesAreMatchingKeys(t.right, partialTerm);
      forall w | w in ml
        ensures w !in mr && w != t.word
      {
        if w in mr {
          LessTransitive(w, t.word, w);
          LessAsymmetric(w, w);
        }
        LessAsymmetric(w, t.word);
      }
      DistinctConcat(ml, mr);
      forall w | w in head
        ensures w !in ml + mr
      {
        if w in mr {
          LessAsymmetric(t.word, w);
        }
      }
      DistinctConcat(head, ml + mr);
      Associative(head, ml, mr);
    }
  }

  /** A sequence of distinct words has as many elements as it has distinct words. */
  lemma {:induction false} DistinctCardinality(s: seq<string>)
    requires Distinct(s)
    ensures |set w | w in s| == |s|
  {
    if |s| > 0 {
      var rest := s[1..];
      assert forall k :: 0 <= k < |rest| ==> rest[k] == s[k + 1];
      assert Distinct(rest);
      assert s[0] !in rest;
      DistinctCardinality(rest);
      SetOfCons(s);
    }
  }

  /** When at most `MaxSuggestions` words of an ordered tree start with the
      partial term, every one of them is suggested. */
  lemma WordSuggestionCompleteForFewWords(t: Tree, partialTerm: string)
    requires Ordered(t)
    requires |set w | w in Keys(t) && partialTerm <= w| <= MaxSuggestions
    ensures forall w :: w in Keys(t) && partialTerm <= w ==> w in WordSuggestion(t, partialTerm)
  {
    var m := PreOrderMatches(t, partialTerm);
    PreOrderMatchesAreMatchingKeys(t, partialTerm);
    PreOrderMatchesDistinct(t, partialTerm);
    DistinctCardinality(m);
    assert (set w | w in m) == set w | w in Keys(t) && partialTerm <= w;
    WordSuggestionComplete(t, partialTerm);
  }
}
