/**
 Properties of the trie operations that relate several calls: the
 "no dead branches" invariant, the shape of the node graph, and the
 add/remove round trip.
 */
module TrieProperties {
  import opened Wrappers
  import opened Letters
  import opened Nodes
  import Abstract
  import opened Tries

  /** Add keeps the invariant. */
  lemma AddKeepsValid(t: Trie, key: string, v: int)
    requires Valid(t) && ValidKey(key)
    ensures Valid(Add(t, key, v).trie)
  {
    AddAtTidy(t.root, key, v);
  }

  /** Change keeps the invariant. */
  lemma ChangeKeepsValid(t: Trie, key: string, v: int)
    requires Valid(t) && ValidKey(key)
    ensures Valid(Change(t, key, v).trie)
  {
    if Change(t, key, v).success {
      SetAtTidy(t.root, key, v);
    }
  }

  /** Remove keeps the invariant. */
  lemma RemoveKeepsValid(t: Trie, key: string)
    requires Valid(t) && ValidKey(key) && (|key| > 0 || t.root.points.None?)
    ensures Valid(Remove(t, key).trie)
  {
    if Remove(t, key).success {
      RemoveAtTidy(t.root, key);
    }
  }

  /** Add creates exactly the missing nodes on the key's path. */
  lemma AddShape(t: Trie, key: string, v: int, k: string)
    requires WellFormed(t.root) && ValidKey(key) && ValidKey(k)
    ensures Find(Add(t, key, v).trie.root, k).Some? <==> Find(t.root, k).Some? || k <= key
  {
    AddAtPaths(t.root, key, v, k);
    if !Add(t, key, v).success && k <= key {
      assert Find(t.root, key).Some?;
      FindConcat(t.root, k, key[|k|..]);
      assert k + key[|k|..] == key;
    }
  }

  /** Change neither creates nor removes a node. */
  lemma ChangeShape(t: Trie, key: string, v: int, k: string)
    requires WellFormed(t.root) && ValidKey(key) && ValidKey(k)
    ensures Find(Change(t, key, v).trie.root, k).Some? <==> Find(t.root, k).Some?
  {
    if Change(t, key, v).success {
      SetAtPaths(t.root, key, v, k);
    }
  }

  /**
   After a remove no node is left that leads to no stored key: the pruning
   removed the whole dead chain, stopping below the root.
   */
  lemma RemovePrunesMaximally(t: Trie, key: string, k: string) returns (ext: string)
    requires Valid(t) && ValidKey(key) && (|key| > 0 || t.root.points.None?)
    requires ValidKey(k) && |k| > 0 && Find(Remove(t, key).trie.root, k).Some?
    ensures k <= ext && ext in Contents(t) && ext != key
  {
    var t' := Remove(t, key).trie;
    RemoveKeepsValid(t, key);
    ext := Abstract.ReachesStoredKey(t'.root, k);
  }

  /**
   After a remove every node that leads to a key still stored is kept: the
   pruning stops at the first node some other key needs.
   */
  lemma RemoveKeepsLivePaths(t: Trie, key: string, k: string, ext: string)
    requires WellFormed(t.root) && ValidKey(key) && (|key| > 0 || t.root.points.None?)
    requires ValidKey(k) && k <= ext && ext in Contents(t) && ext != key
    ensures Find(Remove(t, key).trie.root, k).Some?
  {
    var t' := Remove(t, key).trie;
    Abstract.KeysMatchValues(t.root, ext);
    assert ValidKey(ext);
    assert ValidKey(ext[|k|..]);
    Abstract.KeysMatchValues(t'.root, ext);
    FindConcat(t'.root, k, ext[|k|..]);
    assert k + ext[|k|..] == ext;
  }

  /** The value just added is the one found. */
  lemma AddThenPoints(t: Trie, key: string, v: int)
    requires WellFormed(t.root) && ValidKey(key) && Points(t, key).None?
    ensures Add(t, key, v).success
    ensures Points(Add(t, key, v).trie, key) == Some(v)
  {
  }

  /** A second add for the same key fails and keeps the first value. */
  lemma AddTwice(t: Trie, key: string, v1: int, v2: int)
    requires WellFormed(t.root) && ValidKey(key) && Points(t, key).None?
    ensures !Add(Add(t, key, v1).trie, key, v2).success
    ensures Points(Add(Add(t, key, v1).trie, key, v2).trie, key) == Some(v1)
  {
  }

  /**
   Removing a key just added restores the trie exactly, node for node, and
   so its rendering too.
   */
  lemma AddRemoveRoundTrip(t: Trie, key: string, v: int)
    requires Valid(t) && ValidKey(key) && |key| > 0 && key !in Contents(t)
    ensures Remove(Add(t, key, v).trie, key).trie == t
  {
    var t1 := Add(t, key, v).trie;
    AddKeepsValid(t, key, v);
    RemoveKeepsValid(t1, key);
    var t2 := Remove(t1, key).trie;
    assert Contents(t2) == Contents(t);
    Abstract.KeysDetermineTidy(t2.root, t.root);
  }

  /** Adding one key to a new trie and removing it renders "+" again. */
  lemma SingleKeyRoundTrip(key: string, v: int)
    requires ValidKey(key) && |key| > 0
    ensures ToString(Remove(Add(New(), key, v).trie, key).trie) == [RootChar]
  {
    AddRemoveRoundTrip(New(), key, v);
  }
}
