/**
 Two worked examples, stated for any keys of their shape: two keys that
 share a prefix ("cat" and "car"), and a key that runs through another key's
 node ("do" and "dog").
 */
module Scenarios {
  import opened Wrappers
  import opened Letters
  import opened Nodes
  import Abstract
  import opened Tries
  import opened TrieProperties

  /** Two adds of distinct keys to a new trie store exactly those two keys. */
  lemma TwoAdds(x: string, y: string, v1: int, v2: int)
    requires ValidKey(x) && ValidKey(y) && x != y
    ensures Valid(Add(Add(New(), x, v1).trie, y, v2).trie)
    ensures Contents(Add(Add(New(), x, v1).trie, y, v2).trie) == map[x := v1, y := v2]
  {
    AddKeepsValid(New(), x, v1);
    AddKeepsValid(Add(New(), x, v1).trie, y, v2);
  }

  /**
   A trie storing exactly `p + [a]` and `p + [b]`: removing the first prunes
   its last node, keeps the shared prefix and the second key; removing the
   second too leaves a trie equal to a new one.
   */
  lemma SharedPrefixPruning(t: Trie, p: string, a: char, b: char, v1: int, v2: int)
    requires Valid(t) && ValidKey(p) && IsLetter(a) && IsLetter(b) && a != b
    requires Contents(t) == map[p + [a] := v1, p + [b] := v2]
    ensures ValidKey(p + [a]) && ValidKey(p + [b])
    ensures Remove(t, p + [a]).success
    ensures Points(Remove(t, p + [a]).trie, p + [b]) == Some(v2)
    ensures Find(Remove(t, p + [a]).trie.root, p + [a]) == None
    ensures Find(Remove(t, p + [a]).trie.root, p).Some?
    ensures Remove(Remove(t, p + [a]).trie, p + [b]).trie == New()
  {
    var x, y := p + [a], p + [b];
    assert ValidKey(x) && ValidKey(y);
    assert x != y by { assert x[|p|] != y[|p|]; }
    RemoveKeepsValid(t, x);
    var t2 := Remove(t, x).trie;
    assert Contents(t2) == map[y := v2] by {
      assert (Contents(t) - {x}).Keys == {y};
    }
    if Find(t2.root, x).Some? {
      var ext := RemovePrunesMaximally(t, x, x);
      assert false;
    }
    Abstract.KeysMatchValues(t2.root, y);
    FindConcat(t2.root, p, [b]);
    RemoveKeepsValid(t2, y);
    var t3 := Remove(t2, y).trie;
    assert Contents(t3) == map[];
    Abstract.KeysDetermineTidy(t3.root, New().root);
  }

  /** The shared-prefix example run from a new trie. */
  lemma SharedPrefixFromNew(p: string, a: char, b: char, v1: int, v2: int)
    requires ValidKey(p) && IsLetter(a) && IsLetter(b) && a != b
    ensures ValidKey(p + [a]) && ValidKey(p + [b])
    ensures
      var t2 := Remove(Add(Add(New(), p + [a], v1).trie, p + [b], v2).trie, p + [a]).trie;
      && Points(t2, p + [b]) == Some(v2)
      && Find(t2.root, p + [a]) == None
      && Remove(t2, p + [b]).trie == New()
  {
    assert ValidKey(p + [a]) && ValidKey(p + [b]);
    assert p + [a] != p + [b] by { assert (p + [a])[|p|] != (p + [b])[|p|]; }
    TwoAdds(p + [a], p + [b], v1, v2);
    SharedPrefixPruning(Add(Add(New(), p + [a], v1).trie, p + [b], v2).trie, p, a, b, v1, v2);
  }

  /**
   With `k` and a longer key `k + tail` stored, removing `k` clears only its
   value: its node stays, because the longer key runs through it.
   */
  lemma RemoveKeepsNodeWithChildren(t: Trie, k: string, tail: string)
    requires WellFormed(t.root) && ValidKey(k) && ValidKey(tail) && |k| > 0 && |tail| > 0
    requires k in Contents(t) && k + tail in Contents(t)
    ensures ValidKey(k + tail)
    ensures Remove(t, k).success
    ensures Points(Remove(t, k).trie, k + tail) == Some(Contents(t)[k + tail])
    ensures Points(Remove(t, k).trie, k).None?
    ensures Find(Remove(t, k).trie.root, k).Some?
  {
    var y := k + tail;
    assert ValidKey(y);
    assert k != y by { assert |k| < |y|; }
    var t2 := Remove(t, k).trie;
    Abstract.KeysMatchValues(t2.root, y);
    FindConcat(t2.root, k, tail);
  }
}
