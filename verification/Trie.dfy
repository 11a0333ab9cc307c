/** The prefix tree that stores sequences under a value and answers which values were
    stored under a sequence with a given prefix. */
module Trie {

  datatype TrieNode<!T(==), V> = TrieNode(values: seq<V>, children: seq<(T, TrieNode<T, V>)>)

  function Empty<T(==), V>(): TrieNode<T, V> {
    TrieNode([], [])
  }

  /** Position of the first child under `element`, or the number of children. */
  function ChildIndex<T(==), V>(children: seq<(T, TrieNode<T, V>)>, element: T): (i: nat)
    ensures i <= |children|
    ensures i < |children| ==> children[i].0 == element
    ensures forall j :: 0 <= j < i ==> children[j].0 != element
  {
    if children == [] then 0
    else if children[0].0 == element then 0
    else 1 + ChildIndex(children[1..], element)
  }

  function Add<T(==), V>(at: TrieNode<T, V>, sequence: seq<T>, value: V, from: nat := 0): TrieNode<T, V>
    requires from <= |sequence|
    decreases |sequence| - from
  {
    var values := at.values + [value];
    if from == |sequence| then TrieNode(values, at.children)
    else
      var i := ChildIndex(at.children, sequence[from]);
      var children := if i == |at.children| then at.children + [(sequence[from], Empty())] else at.children;
      TrieNode(values, children[i := (sequence[from], Add(children[i].1, sequence, value, from + 1))])
  }

  function SequencesWithPrefix<T(==), V>(at: TrieNode<T, V>, prefix: seq<T>, from: nat := 0): seq<V>
    requires from <= |prefix|
    decreases |prefix| - from
  {
    if from == |prefix| then at.values
    else
      var i := ChildIndex(at.children, prefix[from]);
      if i == |at.children| then [] else SequencesWithPrefix(at.children[i].1, prefix, from + 1)
  }

  lemma FirstMatchIsChildIndex<T, V>(children: seq<(T, TrieNode<T, V>)>, element: T, i: nat)
    requires i < |children| && children[i].0 == element
    requires forall j :: 0 <= j < i ==> children[j].0 != element
    ensures ChildIndex(children, element) == i
  {
  }

  lemma {:induction false} EmptyHoldsNothing<T, V>(prefix: seq<T>, from: nat)
    requires from <= |prefix|
    ensures SequencesWithPrefix(Empty<T, V>(), prefix, from) == []
  {
  }

  /** Storing a sequence adds its value, last, to the answers for exactly its prefixes. */
  lemma {:induction false} AddExtendsPrefixes<T, V>(at: TrieNode<T, V>, sequence: seq<T>, value: V, prefix: seq<T>,
                                                    from: nat)
    requires from <= |sequence| && from <= |prefix| && sequence[..from] == prefix[..from]
    ensures SequencesWithPrefix(Add(at, sequence, value, from), prefix, from) ==
            SequencesWithPrefix(at, prefix, from) + if prefix <= sequence then [value] else []
    decreases |prefix| - from
  {
    if from == |prefix| || from == |sequence| {
      return;
    }
    var e, p := sequence[from], prefix[from];
    var i := ChildIndex(at.children, e);
    var children := if i == |at.children| then at.children + [(e, Empty())] else at.children;
    var after := Add(at, sequence, value, from).children;
    if p == e {
      FirstMatchIsChildIndex(after, e, i);
      AddExtendsPrefixes(children[i].1, sequence, value, prefix, from + 1);
      if i == |at.children| {
        EmptyHoldsNothing<T, V>(prefix, from + 1);
      }
    } else {
      var j := ChildIndex(at.children, p);
      if j < |at.children| {
        assert after[j] == at.children[j];
        FirstMatchIsChildIndex(after, p, j);
      } else {
        assert forall m :: 0 <= m < |after| ==> after[m].0 != p;
      }
      assert !(prefix <= sequence);
    }
  }
}
