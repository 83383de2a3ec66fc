/**
 The abstract meaning of a trie: the finite map from keys to the values
 stored for them. `Keys` is defined on the tree's structure alone (a node's
 own value under the empty key, plus each child's map with the child's letter
 put in front of every key), independently of `Nodes.Find`.
 */
module Abstract {
  import opened Wrappers
  import opened Letters
  import opened Nodes

  /** The map `m` with `c` put in front of every key. */
  function Lift(c: char, m: map<string, int>): (r: map<string, int>)
    ensures forall k :: k in m ==> [c] + k in r && r[[c] + k] == m[k]
    ensures forall k :: k in r ==> |k| > 0 && k[0] == c && k[1..] in m
  {
    var lifted := set k | k in m :: [c] + k;
    assert forall k :: k in lifted ==> |k| > 0 && k[0] == c && k[1..] in m by {
      forall k | k in lifted ensures |k| > 0 && k[0] == c && k[1..] in m {
        var k' :| k' in m && k == [c] + k';
        assert k[1..] == k';
      }
    }
    var r := map k | k in lifted :: m[k[1..]];
    assert forall k :: k in m ==> [c] + k in r && r[[c] + k] == m[k] by {
      forall k | k in m ensures [c] + k in r && r[[c] + k] == m[k] {
        assert ([c] + k)[1..] == k;
      }
    }
    r
  }

  /** The key/value pairs stored in the subtree at `n`, keys relative to `n`. */
  function Keys(n: Node): map<string, int>
    requires WellFormed(n)
    decreases n, 1, 0
  {
    (if n.points.Some? then map[[] := n.points.value] else map[]) + KidKeys(n, 0)
  }

  /** The pairs stored below the children in slots `i` and above. */
  function KidKeys(n: Node, i: int): map<string, int>
    requires WellFormed(n) && 0 <= i <= Width
    decreases n, 0, Width - i
  {
    if i == Width then map[]
    else
      (match n.kids[i]
       case None => map[]
       case Some(m) => assert m < n by { assert n.kids[i] in n.kids; } Lift(Letter(i), Keys(m)))
      + KidKeys(n, i + 1)
  }

  /** A map lookup in the shape of the trie's nullable result. */
  function Lookup(m: map<string, int>, k: string): Option<int> {
    if k in m then Some(m[k]) else None
  }

  /** The abstract map holds only valid keys. */
  predicate AllValid(m: map<string, int>) {
    forall k :: k in m ==> ValidKey(k)
  }

  /**
   The children's part of the map: a key is there iff it starts with the
   letter of a slot at or above `i` whose child stores the rest of the key.
   */
  lemma {:induction false} KidKeysLookup(n: Node, i: int, k: string)
    requires WellFormed(n) && 0 <= i <= Width
    ensures Lookup(KidKeys(n, i), k) ==
      if |k| > 0 && i <= Index(k[0]) < Width && n.kids[Index(k[0])].Some?
      then Lookup(Keys(n.kids[Index(k[0])].value), k[1..])
      else None
    decreases Width - i
  {
    if i < Width {
      KidKeysLookup(n, i + 1, k);
      match n.kids[i]
      case None =>
      case Some(m) =>
        assert m < n by { assert n.kids[i] in n.kids; }
        var lifted := Lift(Letter(i), Keys(m));
        if k in lifted {
          assert |k| > 0 && Index(k[0]) == i;
        } else if |k| > 0 && Index(k[0]) == i {
          assert k == [Letter(i)] + k[1..];
        }
    }
  }

  /** Two maps that answer every lookup alike are equal. */
  lemma LookupExtensional(m1: map<string, int>, m2: map<string, int>)
    requires forall k :: Lookup(m1, k) == Lookup(m2, k)
    ensures m1 == m2
  {
    assert m1.Keys == m2.Keys by {
      forall k ensures k in m1 <==> k in m2 {
        assert Lookup(m1, k) == Lookup(m2, k);
      }
    }
    forall k | k in m1 ensures m1[k] == m2[k] {
      assert Lookup(m1, k) == Lookup(m2, k);
    }
  }

  /**
   One level of `Keys`: the empty key finds the node's own value, any other
   key the rest of the key in the child for its first letter.
   */
  lemma KeysUnfold(n: Node, k: string)
    requires WellFormed(n)
    ensures Lookup(Keys(n), k) ==
      if k == [] then n.points
      else if 0 <= Index(k[0]) < Width && n.kids[Index(k[0])].Some?
      then Lookup(Keys(n.kids[Index(k[0])].value), k[1..])
      else None
  {
    KidKeysLookup(n, 0, k);
  }

  /**
   `Keys` agrees with the search: a key is in the map iff its node exists
   and holds a value, and then the map gives that value. Every key of the
   map is a valid key.
   */
  lemma {:induction false} KeysMatchValues(n: Node, k: string)
    requires WellFormed(n)
    ensures k in Keys(n) ==> ValidKey(k)
    ensures ValidKey(k) ==> Lookup(Keys(n), k) == ValueAt(n, k)
    decreases n
  {
    KeysUnfold(n, k);
    if k != [] {
      var i := Index(k[0]);
      if 0 <= i < Width && n.kids[i].Some? {
        var m := n.kids[i].value;
        assert m < n by { assert n.kids[i] in n.kids; }
        KeysMatchValues(m, k[1..]);
        if k in Keys(n) {
          ValidKeyCons(k);
        }
      }
    }
  }

  /** A node whose every valid key reads like `m` has `m` as its map. */
  lemma KeysEqual(n: Node, m: map<string, int>)
    requires WellFormed(n) && AllValid(m)
    requires forall k :: ValidKey(k) ==> ValueAt(n, k) == Lookup(m, k)
    ensures Keys(n) == m
  {
    forall k ensures Lookup(Keys(n), k) == Lookup(m, k) {
      KeysMatchValues(n, k);
    }
    LookupExtensional(Keys(n), m);
  }

  /** A necessary node of a tree without dead branches stores some key. */
  lemma {:induction false} StoredKey(n: Node) returns (k: string)
    requires WellFormed(n) && Tidy(n) && !IsUnnecessary(n)
    ensures ValidKey(k) && ValueAt(n, k).Some?
    decreases n
  {
    if n.points.Some? {
      k := [];
    } else {
      var i :| 0 <= i < |n.kids| && n.kids[i].Some?;
      var m := n.kids[i].value;
      assert m < n by { assert n.kids[i] in n.kids; }
      var rest := StoredKey(m);
      FindCons(n, Letter(i), rest);
      k := [Letter(i)] + rest;
    }
  }

  /**
   Without dead branches the stored values determine the tree: two such
   trees that agree on every key are equal.
   */
  lemma {:induction false} ValuesDetermineTidy(a: Node, b: Node)
    requires WellFormed(a) && WellFormed(b) && Tidy(a) && Tidy(b)
    requires forall k :: ValidKey(k) ==> ValueAt(a, k) == ValueAt(b, k)
    ensures a == b
    decreases a
  {
    assert a.points == b.points by {
      assert ValueAt(a, []) == ValueAt(b, []);
    }
    forall i | 0 <= i < Width ensures a.kids[i] == b.kids[i] {
      var c := Letter(i);
      if a.kids[i].Some? && b.kids[i].None? {
        var k := StoredKey(a.kids[i].value);
        FindCons(a, c, k);
        FindCons(b, c, k);
        assert false;
      } else if a.kids[i].None? && b.kids[i].Some? {
        var k := StoredKey(b.kids[i].value);
        FindCons(a, c, k);
        FindCons(b, c, k);
        assert false;
      } else if a.kids[i].Some? {
        var x, y := a.kids[i].value, b.kids[i].value;
        assert x < a by { assert a.kids[i] in a.kids; }
        forall k | ValidKey(k) ensures ValueAt(x, k) == ValueAt(y, k) {
          FindCons(a, c, k);
          FindCons(b, c, k);
          assert ValueAt(a, [c] + k) == ValueAt(b, [c] + k);
        }
        ValuesDetermineTidy(x, y);
      }
    }
    assert a.kids == b.kids;
  }

  /** Without dead branches the abstract map determines the tree. */
  lemma KeysDetermineTidy(a: Node, b: Node)
    requires WellFormed(a) && WellFormed(b) && Tidy(a) && Tidy(b)
    requires Keys(a) == Keys(b)
    ensures a == b
  {
    forall k | ValidKey(k) ensures ValueAt(a, k) == ValueAt(b, k) {
      KeysMatchValues(a, k);
      KeysMatchValues(b, k);
    }
    ValuesDetermineTidy(a, b);
  }

  /** Without dead branches a node stores nothing iff it has no value and no child. */
  lemma NoKeysIffBare(n: Node)
    requires WellFormed(n) && Tidy(n)
    ensures Keys(n) == map[] <==> IsUnnecessary(n)
  {
    if IsUnnecessary(n) {
      forall k | ValidKey(k) ensures ValueAt(n, k) == Lookup(map[], k) {
        UnnecessaryHoldsNothing(n, k);
      }
      KeysEqual(n, map[]);
    } else {
      var k := StoredKey(n);
      KeysMatchValues(n, k);
    }
  }

  /**
   Maximal pruning: in a tree without dead branches every node other than
   the start lies on the path of some stored key.
   */
  lemma ReachesStoredKey(n: Node, key: string) returns (ext: string)
    requires WellFormed(n) && Tidy(n) && ValidKey(key) && |key| > 0
    requires Find(n, key).Some?
    ensures key <= ext && ext in Keys(n)
  {
    FindInTidy(n, key);
    var rest := StoredKey(Find(n, key).value);
    FindConcat(n, key, rest);
    ext := key + rest;
    KeysMatchValues(n, ext);
  }
}
