/**
 A reader for the nested text `Nodes.Render` produces. It is the inverse
 that shows the rendering loses nothing: every tree is read back from its
 text, so distinct tries never print alike.
 */
module Parsing {
  import opened Wrappers
  import opened Letters
  import opened Nodes
  import Decimal
  import Tries

  /** The position of the first `c` in `s`, or `|s|` when there is none. */
  function IndexOf(s: string, c: char): (i: int)
    ensures 0 <= i <= |s|
    ensures i < |s| ==> s[i] == c
    ensures forall j :: 0 <= j < i ==> s[j] != c
  {
    if s == [] then 0 else if s[0] == c then 0 else 1 + IndexOf(s[1..], c)
  }

  /** Reads an optional `[value]`; yields the value and the text after it. */
  function ReadValue(s: string): (r: Option<(Option<int>, string)>)
    ensures r.Some? ==> |r.value.1| <= |s|
  {
    if |s| > 0 && s[0] == '[' then
      var j := IndexOf(s, ']');
      if j == |s| then None
      else match Decimal.Read(s[1..j])
        case None => None
        case Some(v) => Some((Some(v), s[j + 1..]))
    else Some((None, s))
  }

  /** A childless node with the given value. */
  function Bare(points: Option<int>): (n: Node)
    ensures WellFormed(n) && n.points == points && !HasChildren(n)
  {
    Empty().(points := points)
  }

  /** Reads one node's text: its letter, the node, and the text after it. */
  function ReadNode(s: string): (r: Option<(char, Node, string)>)
    ensures r.Some? ==> |s| > 0 && r.value.0 == s[0]
    ensures r.Some? ==> WellFormed(r.value.1) && |r.value.2| < |s|
    decreases |s|, 0
  {
    if |s| == 0 then None
    else match ReadValue(s[1..])
      case None => None
      case Some((points, s2)) => ReadAfterValue(s[0], points, s2)
  }

  /** Reads the optional parenthesised children that follow a node's value. */
  function ReadAfterValue(ch: char, points: Option<int>, s: string): (r: Option<(char, Node, string)>)
    ensures r.Some? ==> r.value.0 == ch
    ensures r.Some? ==> WellFormed(r.value.1) && |r.value.2| <= |s|
    decreases |s|, 2
  {
    if |s| > 0 && s[0] == '(' then
      match ReadKids(s[1..], Bare(points))
      case None => None
      case Some((n, rest)) => Some((ch, n, rest))
    else Some((ch, Bare(points), s))
  }

  /**
   Reads children's texts up to the closing parenthesis, installing each
   child into `acc` under its letter.
   */
  function ReadKids(s: string, acc: Node): (r: Option<(Node, string)>)
    requires WellFormed(acc)
    ensures r.Some? ==> WellFormed(r.value.0) && |r.value.1| < |s|
    decreases |s|, 1
  {
    if |s| == 0 then None
    else if s[0] == ')' then Some((acc, s[1..]))
    else if IsLetter(s[0]) then
      match ReadNode(s)
      case None => None
      case Some((c, kid, rest)) => ReadKids(rest, SetChild(acc, c, Some(kid)))
    else None
  }

  /** What may follow a node's text: nothing, a sibling, or the parent's `)`. */
  predicate CanFollow(rest: string) {
    rest == [] || rest[0] == ')' || IsLetter(rest[0])
  }

  lemma {:induction false} IndexOfFirst(x: string, c: char, rest: string)
    requires forall j :: 0 <= j < |x| ==> x[j] != c
    ensures IndexOf(x + [c] + rest, c) == |x|
    decreases |x|
  {
    if x != [] {
      assert (x + [c] + rest)[1..] == x[1..] + [c] + rest;
      IndexOfFirst(x[1..], c, rest);
    }
  }

  /** The value text reads back as the value. */
  lemma ReadValueText(points: Option<int>, rest: string)
    requires rest == [] || rest[0] != '['
    ensures ReadValue(ValueText(points) + rest) == Some((points, rest))
  {
    if points.Some? {
      var digits := Decimal.Show(points.value);
      var s := ValueText(points) + rest;
      assert s == "[" + digits + "]" + rest;
      IndexOfFirst("[" + digits, ']', rest);
      assert s[1..|digits| + 1] == digits;
      assert s[|digits| + 2..] == rest;
      Decimal.ShowRoundTrip(points.value);
    } else {
      assert ValueText(points) + rest == rest;
    }
  }

  /** The children's text is empty or starts with a letter. */
  lemma {:induction false} RenderKidsStart(n: Node, i: int)
    requires WellFormed(n) && 0 <= i <= Width
    ensures RenderKids(n, i) == [] || IsLetter(RenderKids(n, i)[0])
    decreases Width - i
  {
    if i < Width {
      RenderKidsStart(n, i + 1);
    }
  }

  /** Reading a node's text: its letter, its value text, then what follows. */
  lemma ReadNodeUnfold(ch: char, points: Option<int>, tail: string)
    requires tail == [] || tail[0] != '['
    ensures ReadNode([ch] + ValueText(points) + tail) == ReadAfterValue(ch, points, tail)
  {
    var s := [ch] + ValueText(points) + tail;
    assert s[1..] == ValueText(points) + tail;
    ReadValueText(points, tail);
  }

  /** A node's text reads back as the node, whatever may follow it. */
  lemma {:induction false} ReadRender(n: Node, ch: char, rest: string)
    requires WellFormed(n) && CanFollow(rest)
    ensures ReadNode(Render(n, ch) + rest) == Some((ch, n, rest))
    decreases n, Width + 1, 0
  {
    if HasChildren(n) {
      var inner := RenderKids(n, 0) + ")" + rest;
      assert Render(n, ch) + rest == [ch] + ValueText(n.points) + ("(" + inner);
      ReadNodeUnfold(ch, n.points, "(" + inner);
      assert ("(" + inner)[1..] == inner;
      assert FilledBelow(Bare(n.points), n, 0);
      ReadKidsRender(n, 0, Bare(n.points), rest);
    } else {
      assert Render(n, ch) + rest == [ch] + ValueText(n.points) + rest;
      ReadNodeUnfold(ch, n.points, rest);
      assert n.kids == Bare(n.points).kids;
    }
  }

  /** `acc` holds the value of `n` and exactly the children of `n` below slot `i`. */
  predicate FilledBelow(acc: Node, n: Node, i: int)
    requires WellFormed(acc) && WellFormed(n) && 0 <= i <= Width
  {
    && acc.points == n.points
    && (forall j :: 0 <= j < i ==> acc.kids[j] == n.kids[j])
    && (forall j :: i <= j < Width ==> acc.kids[j].None?)
  }

  /** Installing the child of slot `i` fills one more slot. */
  lemma FillSlot(acc: Node, n: Node, i: int)
    requires WellFormed(acc) && WellFormed(n) && 0 <= i < Width
    requires FilledBelow(acc, n, i)
    ensures FilledBelow(SetChild(acc, Letter(i), n.kids[i]), n, i + 1)
  {
    var acc' := SetChild(acc, Letter(i), n.kids[i]);
    forall j | 0 <= j < Width && j != i ensures acc'.kids[j] == acc.kids[j] {
      assert Child(acc', Letter(j)) == Child(acc, Letter(j));
    }
  }

  /** Reading children: a letter starts a child, which is read and installed. */
  lemma ReadKidsNode(s: string, acc: Node)
    requires WellFormed(acc) && |s| > 0 && IsLetter(s[0]) && ReadNode(s).Some?
    ensures ReadKids(s, acc) ==
      ReadKids(ReadNode(s).value.2, SetChild(acc, s[0], Some(ReadNode(s).value.1)))
  {
  }

  /**
   One child's step of `ReadKidsRender`: the text of the child in slot `i`
   is read and installed, leaving the text of the later slots.
   */
  lemma ReadKidsChild(n: Node, i: int, acc: Node, rest: string)
    requires WellFormed(n) && 0 <= i < Width && WellFormed(acc) && n.kids[i].Some?
    requires FilledBelow(acc, n, i)
    ensures ReadKids(RenderKids(n, i) + ")" + rest, acc) ==
      ReadKids(RenderKids(n, i + 1) + ")" + rest, SetChild(acc, Letter(i), n.kids[i]))
    decreases n, Width - i, 0
  {
    var m := n.kids[i].value;
    assert m < n by { assert n.kids[i] in n.kids; }
    var c := Letter(i);
    var later := RenderKids(n, i + 1) + ")" + rest;
    var s := Render(m, c) + later;
    assert RenderKids(n, i) + ")" + rest == s;
    RenderKidsStart(n, i + 1);
    ReadRender(m, c, later);
    ReadKidsNode(s, acc);
  }

  /**
   The children's text from slot `i` on, closed by `)`, reads back into an
   accumulator that already holds the children below slot `i`.
   */
  lemma {:induction false} ReadKidsRender(n: Node, i: int, acc: Node, rest: string)
    requires WellFormed(n) && 0 <= i <= Width && WellFormed(acc)
    requires FilledBelow(acc, n, i)
    ensures ReadKids(RenderKids(n, i) + ")" + rest, acc) == Some((n, rest))
    decreases n, Width - i, 1
  {
    if i == Width {
      assert acc.kids == n.kids;
      assert (RenderKids(n, i) + ")" + rest)[1..] == rest;
    } else {
      FillSlot(acc, n, i);
      if n.kids[i].None? {
        assert RenderKids(n, i) + ")" + rest == RenderKids(n, i + 1) + ")" + rest;
        assert SetChild(acc, Letter(i), None) == acc;
        ReadKidsRender(n, i + 1, acc, rest);
      } else {
        ReadKidsChild(n, i, acc, rest);
        ReadKidsRender(n, i + 1, SetChild(acc, Letter(i), n.kids[i]), rest);
      }
    }
  }

  /** Distinct nodes with the same letter render differently. */
  lemma RenderInjective(a: Node, b: Node, ch: char)
    requires WellFormed(a) && WellFormed(b)
    ensures Render(a, ch) == Render(b, ch) <==> a == b
  {
    ReadRender(a, ch, []);
    ReadRender(b, ch, []);
    assert Render(a, ch) + [] == Render(a, ch);
    assert Render(b, ch) + [] == Render(b, ch);
  }

  /** Two tries print alike exactly when they are equal. */
  lemma ToStringInjective(t1: Tries.Trie, t2: Tries.Trie)
    requires WellFormed(t1.root) && WellFormed(t2.root)
    ensures Tries.ToString(t1) == Tries.ToString(t2) <==> t1 == t2
  {
    RenderInjective(t1.root, t2.root, RootChar);
  }
}
