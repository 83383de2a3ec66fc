/**
 The 26-letter alphabet of trie keys and the mapping of a letter onto the
 index of its child slot (Node.calculateIndex).
 */
module Letters {

  /** The first and last supported key characters. */
  const FirstChar: char := 'a'
  const LastChar: char := 'z'

  /** Number of child slots of a node: LAST_CHAR - FIRST_CHAR + 1. */
  const Width: int := LastChar as int - FirstChar as int + 1

  /** The character the root node carries; it is never a key character. */
  const RootChar: char := '+'

  predicate IsLetter(c: char) {
    FirstChar <= c <= LastChar
  }

  /** The keys the command front end accepts: lowercase letters only. */
  predicate ValidKey(key: string) {
    forall i :: 0 <= i < |key| ==> IsLetter(key[i])
  }

  /**
   The child-slot index of a character. Like the Java code it is defined for
   every character; exactly the letters land inside the child array.
   */
  function Index(c: char): (i: int)
    ensures IsLetter(c) <==> 0 <= i < Width
  {
    c as int - FirstChar as int
  }

  /** The letter whose child slot is `i`: the inverse of `Index`. */
  function Letter(i: int): (c: char)
    requires 0 <= i < Width
    ensures IsLetter(c) && Index(c) == i
  {
    (FirstChar as int + i) as char
  }

  /** `Index` is a bijection from the letters onto the slots 0..Width-1. */
  lemma IndexBijective(c: char, d: char)
    requires IsLetter(c) && IsLetter(d)
    ensures Letter(Index(c)) == c
    ensures Index(c) == Index(d) <==> c == d
  {
  }

  /** A key whose first character is a letter and whose rest is valid is valid. */
  lemma ValidKeyCons(key: string)
    requires |key| > 0 && IsLetter(key[0]) && ValidKey(key[1..])
    ensures ValidKey(key)
  {
    forall i | 0 < i < |key| ensures IsLetter(key[i]) {
      assert key[i] == key[1..][i - 1];
    }
  }
}
