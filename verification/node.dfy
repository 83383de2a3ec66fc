/**
 One vertex of the trie (Node.java): an optional value and 26 optional
 children, one per letter, indexed by `Letters.Index`.

 The Java node also stores its own letter and a back-link to its parent.
 Here a node's letter is the letter of the slot that holds it (the root's is
 `Letters.RootChar`), and the upward pruning that used the parent link is
 done on the way back out of the recursive `RemoveAt`.
 */
module Nodes {
  import opened Wrappers
  import opened Letters
  import Decimal

  datatype Node = Node(points: Option<int>, kids: seq<Option<Node>>)

  /** Every node of the subtree has exactly one slot per letter. */
  predicate WellFormed(n: Node)
    decreases n
  {
    && |n.kids| == Width
    && forall i :: 0 <= i < |n.kids| ==> n.kids[i].Some? ==> WellFormed(n.kids[i].value)
  }

  /** A freshly constructed node: no value and no children. */
  function Empty(): (n: Node)
    ensures WellFormed(n)
    ensures n.points.None? && !HasChildren(n)
  {
    Node(None, seq(Width, _ => None))
  }

  predicate HasChildren(n: Node) {
    exists i :: 0 <= i < |n.kids| && n.kids[i].Some?
  }

  /** A node with neither a value nor a child serves no key. */
  predicate IsUnnecessary(n: Node) {
    n.points.None? && !HasChildren(n)
  }

  /** The scan of the child slots that Node.hasChildren performs. */
  method ScanChildren(n: Node) returns (result: bool)
    ensures result <==> exists i :: 0 <= i < |n.kids| && n.kids[i].Some?
  {
    result := false;
    var i := 0;
    while i < |n.kids|
      invariant 0 <= i <= |n.kids|
      invariant result <==> exists j :: 0 <= j < i && n.kids[j].Some?
    {
      if n.kids[i].Some? {
        result := true;
      }
      i := i + 1;
    }
  }

  /** The child for letter `c`, if any. */
  function Child(n: Node, c: char): (r: Option<Node>)
    requires WellFormed(n) && IsLetter(c)
    ensures r.Some? ==> WellFormed(r.value) && r.value < n
  {
    assert n.kids[Index(c)] in n.kids;
    n.kids[Index(c)]
  }

  /** Installs (or clears) the child for letter `c`. */
  function SetChild(n: Node, c: char, child: Option<Node>): (r: Node)
    requires WellFormed(n) && IsLetter(c)
    requires child.Some? ==> WellFormed(child.value)
    ensures WellFormed(r)
    ensures Child(r, c) == child && r.points == n.points
    ensures forall d :: IsLetter(d) && d != c ==> Child(r, d) == Child(n, d)
  {
    n.(kids := n.kids[Index(c) := child])
  }

  /**
   The node reached by walking `key` letter by letter from `n`; `None` as soon
   as a letter has no child.
   */
  function Find(n: Node, key: string): (r: Option<Node>)
    requires WellFormed(n) && ValidKey(key)
    ensures r.Some? ==> WellFormed(r.value)
    decreases key
  {
    if key == [] then Some(n)
    else match Child(n, key[0])
      case None => None
      case Some(m) => Find(m, key[1..])
  }

  /** The value stored for `key` below `n`: the key's node's value, if the node exists. */
  function ValueAt(n: Node, key: string): Option<int>
    requires WellFormed(n) && ValidKey(key)
  {
    match Find(n, key)
    case None => None
    case Some(m) => m.points
  }

  /**
   Node.cleanup for the slot `i` through which a removal came back up: the
   rebuilt child is put back, or detached when it is unnecessary. Nothing
   else in the node changes.
   */
  function Cleanup(n: Node, i: int, child: Node): (r: Node)
    requires WellFormed(n) && 0 <= i < Width && WellFormed(child)
    ensures WellFormed(r)
    ensures r.points == n.points
    ensures forall j :: 0 <= j < Width && j != i ==> r.kids[j] == n.kids[j]
    ensures r.kids[i].None? <==> IsUnnecessary(child)
    ensures r.kids[i].Some? ==> r.kids[i].value == child
  {
    n.(kids := n.kids[i := if IsUnnecessary(child) then None else Some(child)])
  }

  /**
   Removes the value of `key` below `n` and prunes every node on the path that
   became unnecessary, except `n` itself: the caller (the parent's `Cleanup`,
   or the trie for its root) decides about `n`. At the end of the path only
   the value is cleared (Node.remove); on the way back up each node cleans up
   the slot the removal came through.
   */
  function RemoveAt(n: Node, key: string): (r: Node)
    requires WellFormed(n) && ValidKey(key) && Find(n, key).Some?
    ensures WellFormed(r)
    ensures key == [] ==> r.points.None? && r.kids == n.kids
    ensures |key| > 0 ==> r.points == n.points
    ensures |key| > 0 ==> forall j :: 0 <= j < Width && j != Index(key[0]) ==> r.kids[j] == n.kids[j]
    decreases key
  {
    if key == [] then n.(points := None)
    else
      var i := Index(key[0]);
      Cleanup(n, i, RemoveAt(n.kids[i].value, key[1..]))
  }

  /**
   The nested text of the subtree at `n`, whose letter is `ch`: the letter,
   then `[value]` when a value is present, then the children's texts in
   letter order inside parentheses when there is at least one child.
   */
  function Render(n: Node, ch: char): (s: string)
    requires WellFormed(n)
    ensures |s| >= 1 && s[0] == ch
    decreases n, 1, 0
  {
    [ch] + ValueText(n.points) + (if HasChildren(n) then "(" + RenderKids(n, 0) + ")" else "")
  }

  /** `[value]` for a present value, nothing for an absent one. */
  function ValueText(points: Option<int>): string {
    match points
    case None => ""
    case Some(v) => "[" + Decimal.Show(v) + "]"
  }

  /** The texts of the children in slots `i` and above, in slot order. */
  function RenderKids(n: Node, i: int): string
    requires WellFormed(n) && 0 <= i <= Width
    decreases n, 0, Width - i
  {
    if i == Width then ""
    else
      (match n.kids[i]
       case None => ""
       case Some(m) => assert m < n by { assert n.kids[i] in n.kids; } Render(m, Letter(i)))
      + RenderKids(n, i + 1)
  }

  /**
   No dead branches: every node below `n` (not `n` itself, which may be the
   root) holds a value or has a child.
   */
  predicate Tidy(n: Node)
    decreases n
  {
    forall i :: 0 <= i < |n.kids| && n.kids[i].Some? ==>
      !IsUnnecessary(n.kids[i].value) && Tidy(n.kids[i].value)
  }

  /** One step of `Find`: the first letter selects the child, the rest is searched there. */
  lemma FindCons(n: Node, c: char, key: string)
    requires WellFormed(n) && IsLetter(c) && ValidKey(key)
    ensures ValidKey([c] + key)
    ensures Find(n, [c] + key) == match Child(n, c) case None => None case Some(m) => Find(m, key)
  {
    assert ([c] + key)[0] == c && ([c] + key)[1..] == key;
  }

  /**
   Searching `a + b` is searching `a` and then `b` from where `a` ended; a
   missing node on `a` ends the search before `b` is looked at.
   */
  lemma {:induction false} FindConcat(n: Node, a: string, b: string)
    requires WellFormed(n) && ValidKey(a) && ValidKey(b)
    ensures ValidKey(a + b)
    ensures Find(n, a + b) == match Find(n, a) case None => None case Some(m) => Find(m, b)
    decreases a
  {
    if a == [] {
      assert a + b == b;
    } else {
      assert a + b == [a[0]] + (a[1..] + b);
      FindCons(n, a[0], a[1..] + b);
      match Child(n, a[0])
      case None =>
      case Some(m) =>
        FindConcat(m, a[1..], b);
    }
  }

  /** An unnecessary node holds no value for any key. */
  lemma UnnecessaryHoldsNothing(m: Node, key: string)
    requires WellFormed(m) && IsUnnecessary(m) && ValidKey(key)
    ensures ValueAt(m, key).None?
  {
    if key != [] {
      assert m.kids[Index(key[0])].None?;
    }
  }

  /**
   After `RemoveAt(n, key)` the key has no value, and every other key keeps
   the value it had: prefixes, extensions and unrelated keys alike.
   */
  lemma {:induction false} RemoveAtValues(n: Node, key: string, k: string)
    requires WellFormed(n) && ValidKey(key) && Find(n, key).Some? && ValidKey(k)
    ensures ValueAt(RemoveAt(n, key), k) == if k == key then None else ValueAt(n, k)
    decreases key
  {
    var r := RemoveAt(n, key);
    if key == [] {
      if k != [] {
        assert r.kids == n.kids;
      }
    } else if k != [] {
      var i := Index(key[0]);
      var child := n.kids[i].value;
      var j := Index(k[0]);
      if j == i {
        var child' := RemoveAt(child, key[1..]);
        RemoveAtValues(child, key[1..], k[1..]);
        assert k == key <==> k[1..] == key[1..] by {
          assert k == [k[0]] + k[1..] && key == [key[0]] + key[1..];
        }
        if IsUnnecessary(child') {
          UnnecessaryHoldsNothing(child', k[1..]);
        }
      }
    }
  }

  /** Removal keeps the "no dead branches" invariant. */
  lemma {:induction false} RemoveAtTidy(n: Node, key: string)
    requires WellFormed(n) && ValidKey(key) && Find(n, key).Some? && Tidy(n)
    ensures Tidy(RemoveAt(n, key))
    decreases key
  {
    if key != [] {
      var i := Index(key[0]);
      RemoveAtTidy(n.kids[i].value, key[1..]);
    }
  }

  /** A node renders as its letter alone exactly when it is unnecessary. */
  lemma RenderBare(n: Node, ch: char)
    requires WellFormed(n)
    ensures Render(n, ch) == [ch] <==> IsUnnecessary(n)
  {
  }

  /**
   Below a tidy node every node is tidy, and every node other than the start
   holds a value or has a child.
   */
  lemma {:induction false} FindInTidy(n: Node, key: string)
    requires WellFormed(n) && ValidKey(key) && Tidy(n) && Find(n, key).Some?
    ensures Tidy(Find(n, key).value)
    ensures |key| > 0 ==> !IsUnnecessary(Find(n, key).value)
    decreases key
  {
    if key != [] {
      FindInTidy(Child(n, key[0]).value, key[1..]);
    }
  }
}
