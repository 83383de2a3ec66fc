/**
 The trie container (Trie.java): a root node with letter `Letters.RootChar`
 and the key-level operations add, change, remove and points. Each operation
 is stated against the abstract map `Contents` of the trie.
 */
module Tries {
  import opened Wrappers
  import opened Letters
  import opened Nodes
  import Abstract

  datatype Trie = Trie(root: Node)

  /** The result of an operation that reports success with a boolean. */
  datatype Outcome = Outcome(success: bool, trie: Trie)

  /** The key/value map the trie represents. */
  function Contents(t: Trie): map<string, int>
    requires WellFormed(t.root)
  {
    Abstract.Keys(t.root)
  }

  /** The invariant the operations keep: no node below the root is unnecessary. */
  predicate Valid(t: Trie) {
    WellFormed(t.root) && Tidy(t.root)
  }

  /** A new trie: just a root, storing nothing, rendering as the root letter. */
  function New(): (t: Trie)
    ensures Valid(t)
    ensures Contents(t) == map[]
    ensures ToString(t) == [RootChar]
  {
    var t := Trie(Empty());
    Abstract.NoKeysIffBare(t.root);
    t
  }

  /**
   The walk of Trie.add: follow `key` from `n`, creating each missing node
   (value-less) on the way; at the end, store `v` unless a value is there.
   Yields whether `v` was stored, and the rebuilt node.
   */
  function AddAt(n: Node, key: string, v: int): (r: (bool, Node))
    requires WellFormed(n) && ValidKey(key)
    ensures WellFormed(r.1)
    ensures r.0 <==> ValueAt(n, key).None?
    ensures !r.0 ==> r.1 == n
    ensures r.0 ==> !IsUnnecessary(r.1)
    decreases key
  {
    if key == [] then
      if n.points.Some? then (false, n) else (true, n.(points := Some(v)))
    else
      var child := match Child(n, key[0]) case None => Empty() case Some(m) => m;
      UnnecessaryHoldsNothing(Empty(), key[1..]);
      var (ok, child') := AddAt(child, key[1..], v);
      assert !ok ==> n.kids[Index(key[0]) := Some(child')] == n.kids;
      (ok, SetChild(n, key[0], Some(child')))
  }

  /** Adding stores `v` for `key` if it had no value; no other key changes. */
  lemma {:induction false} AddAtValues(n: Node, key: string, v: int, k: string)
    requires WellFormed(n) && ValidKey(key) && ValidKey(k)
    ensures ValueAt(AddAt(n, key, v).1, k) ==
      if k == key && AddAt(n, key, v).0 then Some(v) else ValueAt(n, k)
    decreases key
  {
    if key != [] && k != [] && k[0] == key[0] {
      var child := match Child(n, key[0]) case None => Empty() case Some(m) => m;
      AddAtValues(child, key[1..], v, k[1..]);
      UnnecessaryHoldsNothing(Empty(), k[1..]);
      assert k == key <==> k[1..] == key[1..] by {
        assert k == [k[0]] + k[1..] && key == [key[0]] + key[1..];
      }
    }
  }

  /** Adding creates exactly the missing nodes on the key's path and removes none. */
  lemma {:induction false} AddAtPaths(n: Node, key: string, v: int, k: string)
    requires WellFormed(n) && ValidKey(key) && ValidKey(k)
    ensures Find(AddAt(n, key, v).1, k).Some? <==> Find(n, k).Some? || k <= key
    decreases key
  {
    if key != [] && k != [] && k[0] == key[0] {
      var child := match Child(n, key[0]) case None => Empty() case Some(m) => m;
      AddAtPaths(child, key[1..], v, k[1..]);
      assert k <= key <==> k[1..] <= key[1..] by {
        assert k == [k[0]] + k[1..] && key == [key[0]] + key[1..];
      }
      if Child(n, key[0]).None? && k[1..] != [] {
        assert Empty().kids[Index(k[1])].None?;
      }
    }
  }

  /** Adding keeps the "no dead branches" invariant. */
  lemma {:induction false} AddAtTidy(n: Node, key: string, v: int)
    requires WellFormed(n) && ValidKey(key) && Tidy(n)
    ensures Tidy(AddAt(n, key, v).1)
    decreases key
  {
    if key != [] {
      var child := match Child(n, key[0]) case None => Empty() case Some(m) => m;
      AddAtTidy(child, key[1..], v);
    }
  }

  /** The write of Trie.change: replace the value at the end of an existing path. */
  function SetAt(n: Node, key: string, v: int): (r: Node)
    requires WellFormed(n) && ValidKey(key) && Find(n, key).Some?
    ensures WellFormed(r)
    ensures r.points.Some? <==> n.points.Some? || key == []
    decreases key
  {
    if key == [] then n.(points := Some(v))
    else SetChild(n, key[0], Some(SetAt(Child(n, key[0]).value, key[1..], v)))
  }

  /** Changing sets `key` to `v` and no other key. */
  lemma {:induction false} SetAtValues(n: Node, key: string, v: int, k: string)
    requires WellFormed(n) && ValidKey(key) && Find(n, key).Some? && ValidKey(k)
    ensures ValueAt(SetAt(n, key, v), k) == if k == key then Some(v) else ValueAt(n, k)
    decreases key
  {
    if key != [] && k != [] && k[0] == key[0] {
      SetAtValues(Child(n, key[0]).value, key[1..], v, k[1..]);
      assert k == key <==> k[1..] == key[1..] by {
        assert k == [k[0]] + k[1..] && key == [key[0]] + key[1..];
      }
    }
  }

  /** Changing neither creates nor removes a node. */
  lemma {:induction false} SetAtPaths(n: Node, key: string, v: int, k: string)
    requires WellFormed(n) && ValidKey(key) && Find(n, key).Some? && ValidKey(k)
    ensures Find(SetAt(n, key, v), k).Some? <==> Find(n, k).Some?
    decreases key
  {
    if key != [] && k != [] && k[0] == key[0] {
      SetAtPaths(Child(n, key[0]).value, key[1..], v, k[1..]);
    }
  }

  /** Changing keeps the "no dead branches" invariant. */
  lemma {:induction false} SetAtTidy(n: Node, key: string, v: int)
    requires WellFormed(n) && ValidKey(key) && Find(n, key).Some? && Tidy(n)
    ensures Tidy(SetAt(n, key, v))
    decreases key
  {
    if key != [] {
      var m := Child(n, key[0]).value;
      SetAtTidy(m, key[1..], v);
      var m' := SetAt(m, key[1..], v);
      assert HasChildren(m) ==> HasChildren(m') by {
        if HasChildren(m) && key[1..] != [] {
          var j :| 0 <= j < |m.kids| && m.kids[j].Some?;
          if j != Index(key[1]) {
            assert Child(m', Letter(j)) == Child(m, Letter(j));
          }
        }
      }
    }
  }

  /** The node at `key`, if the path exists and the node holds a value. */
  function Target(t: Trie, key: string): (r: Option<Node>)
    requires WellFormed(t.root) && ValidKey(key)
    ensures r.Some? <==> key in Contents(t)
    ensures r.Some? ==> Find(t.root, key) == r
  {
    Abstract.KeysMatchValues(t.root, key);
    match Find(t.root, key)
    case None => None
    case Some(m) => if m.points.None? then None else Some(m)
  }

  /**
   Trie.add: stores `v` for `key` and succeeds iff the key had no value;
   otherwise nothing changes.
   */
  function Add(t: Trie, key: string, v: int): (r: Outcome)
    requires WellFormed(t.root) && ValidKey(key)
    ensures WellFormed(r.trie.root)
    ensures r.success <==> key !in Contents(t)
    ensures r.success ==> Contents(r.trie) == Contents(t)[key := v]
    ensures !r.success ==> r.trie == t
  {
    var (ok, root) := AddAt(t.root, key, v);
    Abstract.KeysMatchValues(t.root, key);
    if ok then
      forall k | k in Contents(t)[key := v] ensures ValidKey(k) {
        Abstract.KeysMatchValues(t.root, k);
      }
      forall k | ValidKey(k) ensures ValueAt(root, k) == Abstract.Lookup(Contents(t)[key := v], k) {
        AddAtValues(t.root, key, v, k);
        Abstract.KeysMatchValues(t.root, k);
      }
      Abstract.KeysEqual(root, Contents(t)[key := v]);
      Outcome(true, Trie(root))
    else
      Outcome(false, t)
  }

  /**
   Trie.change: overwrites the value of `key` with `v` and succeeds iff the
   key held a value; otherwise nothing changes.
   */
  function Change(t: Trie, key: string, v: int): (r: Outcome)
    requires WellFormed(t.root) && ValidKey(key)
    ensures WellFormed(r.trie.root)
    ensures r.success <==> key in Contents(t)
    ensures r.success ==> Contents(r.trie) == Contents(t)[key := v]
    ensures !r.success ==> r.trie == t
  {
    match Target(t, key)
    case None => Outcome(false, t)
    case Some(_) =>
      var root := SetAt(t.root, key, v);
      forall k | k in Contents(t)[key := v] ensures ValidKey(k) {
        Abstract.KeysMatchValues(t.root, k);
      }
      forall k | ValidKey(k) ensures ValueAt(root, k) == Abstract.Lookup(Contents(t)[key := v], k) {
        SetAtValues(t.root, key, v, k);
        Abstract.KeysMatchValues(t.root, k);
      }
      Abstract.KeysEqual(root, Contents(t)[key := v]);
      Outcome(true, Trie(root))
  }

  /**
   Trie.remove: clears the value of `key`, prunes the nodes that became
   unnecessary, and succeeds iff the key held a value; otherwise nothing
   changes. The empty key is excluded while the root holds a value: the
   Java root has no parent to hand the pruning to.
   */
  function Remove(t: Trie, key: string): (r: Outcome)
    requires WellFormed(t.root) && ValidKey(key)
    requires |key| > 0 || t.root.points.None?
    ensures WellFormed(r.trie.root)
    ensures r.success <==> key in Contents(t)
    ensures r.success ==> Contents(r.trie) == Contents(t) - {key}
    ensures !r.success ==> r.trie == t
  {
    match Target(t, key)
    case None => Outcome(false, t)
    case Some(_) =>
      var root := RemoveAt(t.root, key);
      forall k | ValidKey(k) ensures ValueAt(root, k) == Abstract.Lookup(Contents(t) - {key}, k) {
        RemoveAtValues(t.root, key, k);
        Abstract.KeysMatchValues(t.root, k);
      }
      forall k | k in Contents(t) - {key} ensures ValidKey(k) {
        Abstract.KeysMatchValues(t.root, k);
      }
      Abstract.KeysEqual(root, Contents(t) - {key});
      Outcome(true, Trie(root))
  }

  /** Trie.points: the value stored for `key`, or `None`. */
  function Points(t: Trie, key: string): (r: Option<int>)
    requires WellFormed(t.root) && ValidKey(key)
    ensures r == Abstract.Lookup(Contents(t), key)
  {
    Abstract.KeysMatchValues(t.root, key);
    ValueAt(t.root, key)
  }

  /** Trie.toString: the rendering of the root; "+" exactly when nothing is stored. */
  function ToString(t: Trie): (s: string)
    requires WellFormed(t.root)
    ensures |s| >= 1 && s[0] == RootChar
    ensures Tidy(t.root) ==> (s == [RootChar] <==> Contents(t) == map[])
  {
    RenderBare(t.root, RootChar);
    assert Tidy(t.root) ==> (Render(t.root, RootChar) == [RootChar] <==> Contents(t) == map[]) by {
      if Tidy(t.root) {
        Abstract.NoKeysIffBare(t.root);
      }
    }
    Render(t.root, RootChar)
  }
}
