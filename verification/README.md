# Trie of lowercase keys — a Dafny model

This project models the core of a small Java trie. The trie maps keys made of
the letters `a`..`z` to integer values. A `Node` has 26 child slots, one per
letter, and an optional value. A `Trie` owns a root node, whose letter is `+`,
and offers five operations:

- `add` creates the key's path on demand and refuses a key that already has a value;
- `change` overwrites an existing value;
- `remove` clears a value and prunes the nodes that no longer serve any key;
- `points` looks a key up;
- `toString` renders the tree as nested text such as `+(c(a(r[2]t[1])))`.

The model is functional:

- `Nodes.Node(points, kids)` is an immutable tree whose `kids` has 26 `Option<Node>` slots.
- A node does not store its own letter. It is the letter of the slot that holds
  it, or `+` for the root, and `Nodes.Render` takes it as an argument.
- The Java parent back-links are gone. `Nodes.RemoveAt` clears the value at the
  end of the path, and each ancestor then runs `Nodes.Cleanup` on the way back up.
  `Cleanup` puts the rebuilt child back into its slot, or detaches it when it is
  unnecessary. This is the chain of `cleanup` calls of the Java code.
- The trie operations return an `Outcome(success, trie)`. `success` is the
  Java boolean result.

The meaning of a trie is the finite map `Abstract.Keys`. It is defined on the
tree's shape alone: the node's own value under the empty key, plus each child's
map with the child's letter put in front of every key. Every operation is
proved against this map. `Tidy` ("no node below the root is value-less and
child-less") is the structural invariant. Under it, the map determines the tree
(`Abstract.KeysDetermineTidy`). So an add of a nonempty key that holds no
value, followed by its remove, gives back the original trie exactly
(`TrieProperties.AddRemoveRoundTrip`).

Modules, one file each: `Wrappers` (Option), `Letters` (alphabet and slot
index), `Decimal` (integer rendering), `Nodes` (Node.java), `Abstract` (the map
meaning), `Tries` (Trie.java), `TrieProperties` (multi-call properties),
`Scenarios` (two worked examples) and `Parsing` (an inverse of the
rendering).

Decisions where the code leaves a choice:

- Keys must be over `a`..`z` for every operation (`Letters.ValidKey`). This is
  the front end's `isValidKey` check (Shell.java:225-235). The Java
  `calculateIndex` would index outside the array for any other character.
- The empty key is modelled as the code behaves. `add("", v)` stores the value in
  the root, because the walk runs zero times. `change("")` and `points("")` read
  or write the root. `Tries.Remove` requires `|key| > 0 || root has no value`.
  That excludes exactly the call in which Java's `remove` would dereference the
  root's missing parent (Node.java:71). The front end never passes an empty key,
  because its tokens come from splitting on whitespace.
- The Javadoc of `Trie.root` (Trie.java:10) says the root does not contain any
  data; the code lets `add("")` give it one. The model follows the code, so `Tidy` constrains
  only the nodes below the root.
- Trie.java:35 links a new child a second time, through a private method. The
  constructor call on line 34 already links it. The model links it once.

## Model

| member | source | states |
|---|---|---|
| Letters.Index | Trie/src/de/tim_greller/trie/model/Node.java:186-188 | the slot index of a character lies in 0..25 exactly when the character is one of `a`..`z` |
| Letters.Letter | Trie/src/de/tim_greller/trie/model/Node.java:10-11 | every slot 0..25 belongs to a letter, and that letter's index is the slot |
| Letters.IndexBijective | Trie/src/de/tim_greller/trie/model/Node.java:186-188 | the index is a bijection from the letters onto the slots: letter of index is the identity, and distinct letters get distinct slots |
| Decimal.ShowNat | Trie/src/de/tim_greller/trie/model/Node.java:111 | a natural number renders as a nonempty digit string without a leading zero |
| Decimal.Show | Trie/src/de/tim_greller/trie/model/Node.java:111 | a value renders as digits, starting with `-` exactly when it is negative |
| Decimal.ReadShowNat | Trie/src/de/tim_greller/trie/model/Node.java:111 | the digits of a natural number read back as that number |
| Decimal.ShowRoundTrip | Trie/src/de/tim_greller/trie/model/Node.java:111 | reading a value's rendering back yields the value |
| Decimal.ShowInjective | Trie/src/de/tim_greller/trie/model/Node.java:111 | distinct values render differently |
| Nodes.Empty | Trie/src/de/tim_greller/trie/model/Node.java:29-33 | a new node has 26 empty slots, no value and no children |
| Nodes.ScanChildren | Trie/src/de/tim_greller/trie/model/Node.java:131-139 | the scan over the slots answers true exactly when some slot holds a child |
| Nodes.Child | Trie/src/de/tim_greller/trie/model/Node.java:147-149 | the child stored for a letter is a well-formed node strictly inside the parent |
| Nodes.SetChild | Trie/src/de/tim_greller/trie/model/Node.java:157-159 | setting a letter's child changes that slot only; the value and the other 25 slots stay |
| Nodes.Find | Trie/src/de/tim_greller/trie/model/Node.java:48-64 | a node found by a search is a well-formed node |
| Nodes.FindCons | Trie/src/de/tim_greller/trie/model/Node.java:48-64 | searching `c` then `rest` gives nothing when `c` has no child, and otherwise searches `rest` in that child |
| Nodes.FindConcat | Trie/src/de/tim_greller/trie/model/Node.java:48-64 | searching `a + b` is searching `a` and then `b` from its node; a missing node on `a` ends the search without looking at `b` |
| Nodes.UnnecessaryHoldsNothing | Trie/src/de/tim_greller/trie/model/Node.java:95-97 | a node without value and children stores no value under any key, so detaching it loses nothing |
| Nodes.Cleanup | Trie/src/de/tim_greller/trie/model/Node.java:79-88 | cleanup touches only the calling child's slot: the value and every other slot are unchanged, and the child is detached exactly when it is unnecessary |
| Nodes.RemoveAt | Trie/src/de/tim_greller/trie/model/Node.java:69-88 | at the target node removal clears the value and keeps the children; above it, each node keeps its value and every slot other than the one on the key's path |
| Nodes.RemoveAtValues | Trie/src/de/tim_greller/trie/model/Node.java:69-88 | after removal the key has no value, and every other key, prefixes and extensions included, keeps its value |
| Nodes.RemoveAtTidy | Trie/src/de/tim_greller/trie/model/Node.java:79-97 | the cleanup chain leaves no value-less, child-less node below the start |
| Nodes.Render | Trie/src/de/tim_greller/trie/model/Node.java:106-125 | a node's text is nonempty and starts with the node's letter |
| Nodes.RenderBare | Trie/src/de/tim_greller/trie/model/Node.java:106-125 | a node's text is its letter alone exactly when the node has no value and no children |
| Nodes.FindInTidy | Trie/src/de/tim_greller/trie/model/Node.java:95-97 | in a tree without dead branches every node reached by a nonempty key has a value or a child |
| Abstract.KeysMatchValues | Trie/src/de/tim_greller/trie/model/Trie.java:98-101 | the abstract map holds only valid keys, and for every valid key it answers what the search-then-read of `points` answers |
| Abstract.KeysEqual | Trie/src/de/tim_greller/trie/model/Trie.java:98-101 | a tree whose lookups agree with a map of valid keys has exactly that map as its meaning |
| Abstract.StoredKey | Trie/src/de/tim_greller/trie/model/Node.java:95-97 | in a tree without dead branches, a node with a value or a child stores a value under some key |
| Abstract.ValuesDetermineTidy | Trie/src/de/tim_greller/trie/model/Node.java:79-97 | two trees without dead branches that agree on every key's value are equal |
| Abstract.KeysDetermineTidy | Trie/src/de/tim_greller/trie/model/Node.java:79-97 | two trees without dead branches with the same abstract map are equal |
| Abstract.NoKeysIffBare | Trie/src/de/tim_greller/trie/model/Node.java:95-97 | a tree without dead branches stores nothing exactly when its top node has no value and no children |
| Abstract.ReachesStoredKey | Trie/src/de/tim_greller/trie/model/Node.java:79-88 | in a tree without dead branches every node below the top lies on the path of a stored key |
| Tries.New | Trie/src/de/tim_greller/trie/model/Trie.java:14-16 | a new trie satisfies the invariant, stores nothing and renders as `+` |
| Tries.AddAt | Trie/src/de/tim_greller/trie/model/Trie.java:27-47 | the walk succeeds exactly when the key has no value; on failure the tree is returned unchanged, and on success the rebuilt node is not unnecessary |
| Tries.AddAtValues | Trie/src/de/tim_greller/trie/model/Trie.java:27-47 | adding gives the key the new value if it had none, and no other key changes |
| Tries.AddAtPaths | Trie/src/de/tim_greller/trie/model/Trie.java:30-38 | after the walk a node exists for a key exactly when it existed before or the key is a prefix of the added key |
| Tries.AddAtTidy | Trie/src/de/tim_greller/trie/model/Trie.java:27-47 | adding keeps the no-dead-branches invariant |
| Tries.SetAt | Trie/src/de/tim_greller/trie/model/Trie.java:66 | writing a value never takes one away, and gives the target node one |
| Tries.SetAtValues | Trie/src/de/tim_greller/trie/model/Trie.java:58-68 | changing gives the key the new value and no other key changes |
| Tries.SetAtPaths | Trie/src/de/tim_greller/trie/model/Trie.java:58-68 | changing neither creates nor removes a node |
| Tries.SetAtTidy | Trie/src/de/tim_greller/trie/model/Trie.java:58-68 | changing keeps the no-dead-branches invariant |
| Tries.Target | Trie/src/de/tim_greller/trie/model/Trie.java:59-64 | the search of change and remove finds a valued node exactly when the key is in the abstract map |
| Tries.Add | Trie/src/de/tim_greller/trie/model/Trie.java:27-47 | add succeeds exactly when the key is not stored; then the map becomes `m[key := v]`, otherwise the trie is unchanged |
| Tries.Change | Trie/src/de/tim_greller/trie/model/Trie.java:58-68 | change succeeds exactly when the key is stored; then the map becomes `m[key := v]`, otherwise the trie is unchanged |
| Tries.Remove | Trie/src/de/tim_greller/trie/model/Trie.java:78-88 | remove succeeds exactly when the key is stored; then the map becomes `m - {key}`, otherwise the trie is unchanged |
| Tries.Points | Trie/src/de/tim_greller/trie/model/Trie.java:98-101 | points is the abstract map lookup: the stored value, or none |
| Tries.ToString | Trie/src/de/tim_greller/trie/model/Trie.java:110-112 | the text starts with `+`; under the invariant it is exactly `+` when nothing is stored |
| TrieProperties.AddKeepsValid | Trie/src/de/tim_greller/trie/model/Trie.java:27-47 | add preserves the invariant |
| TrieProperties.ChangeKeepsValid | Trie/src/de/tim_greller/trie/model/Trie.java:58-68 | change preserves the invariant |
| TrieProperties.RemoveKeepsValid | Trie/src/de/tim_greller/trie/model/Trie.java:78-88 | remove preserves the invariant |
| TrieProperties.AddShape | Trie/src/de/tim_greller/trie/model/Trie.java:27-47 | after add a node exists for a key exactly when it existed before or the key is a prefix of the added key; a failed add creates no node |
| TrieProperties.ChangeShape | Trie/src/de/tim_greller/trie/model/Trie.java:58-68 | change never creates or removes a node |
| TrieProperties.RemovePrunesMaximally | Trie/src/de/tim_greller/trie/model/Node.java:79-88 | after remove every remaining node below the root leads to a key that is still stored |
| TrieProperties.RemoveKeepsLivePaths | Trie/src/de/tim_greller/trie/model/Node.java:79-88 | after remove every node on the path of another stored key is still there: pruning stops at the first needed node |
| TrieProperties.AddThenPoints | Trie/src/de/tim_greller/trie/model/Trie.java:27-47 | adding a key without a value succeeds and the key then reads as the added value |
| TrieProperties.AddTwice | Trie/src/de/tim_greller/trie/model/Trie.java:40-43 | a second add of the same key fails and the first value stays |
| TrieProperties.AddRemoveRoundTrip | Trie/src/de/tim_greller/trie/model/Trie.java:27-88 | removing a nonempty key just added to a trie satisfying the invariant gives back the original trie, node for node |
| TrieProperties.SingleKeyRoundTrip | Trie/src/de/tim_greller/trie/model/Trie.java:110-112 | adding one key to a new trie and removing it renders `+` again |
| Scenarios.TwoAdds | Trie/src/de/tim_greller/trie/model/Trie.java:27-47 | two adds of distinct keys to a new trie store exactly those two keys and keep the invariant |
| Scenarios.SharedPrefixPruning | Trie/src/de/tim_greller/trie/model/Node.java:79-88 | with exactly `p+a` and `p+b` stored, removing `p+a` detaches its last node, keeps `p` and `p+b`, and removing `p+b` too yields a new trie |
| Scenarios.SharedPrefixFromNew | Trie/src/de/tim_greller/trie/model/Trie.java:27-88 | the shared-prefix example run from a new trie |
| Scenarios.RemoveKeepsNodeWithChildren | Trie/src/de/tim_greller/trie/model/Node.java:69-72 | removing a key that a longer stored key runs through clears its value but keeps its node and the longer key's value |
| Parsing.ReadValueText | Trie/src/de/tim_greller/trie/model/Node.java:110-112 | the `[value]` text reads back as the value, leaving what follows |
| Parsing.RenderKidsStart | Trie/src/de/tim_greller/trie/model/Node.java:116-120 | the children's text is empty or starts with a letter |
| Parsing.ReadRender | Trie/src/de/tim_greller/trie/model/Node.java:106-125 | a node's text reads back as the letter and the node, whatever sibling or closing text follows |
| Parsing.ReadKidsChild | Trie/src/de/tim_greller/trie/model/Node.java:116-120 | the text of the child in one slot reads back as that child, installed under its letter, leaving the later slots' text |
| Parsing.ReadKidsRender | Trie/src/de/tim_greller/trie/model/Node.java:114-122 | the parenthesised children's text reads back into exactly the node's children, slot by slot |
| Parsing.RenderInjective | Trie/src/de/tim_greller/trie/model/Node.java:106-125 | two nodes with the same letter render alike exactly when they are equal |
| Parsing.ToStringInjective | Trie/src/de/tim_greller/trie/model/Trie.java:110-112 | two tries print alike exactly when they are equal |

## Left out

- The command front end (Shell.java): reading lines, tokenising, dispatch,
  prompts, help and error messages. It is I/O. Only its key check
  (Shell.java:225-235) enters the model, as the `ValidKey` precondition.
- Parsing values with `Integer.valueOf` (Shell.java:243-251). Values are plain
  unbounded `int`s. The trie only stores and prints them, so the Java 32-bit
  range never matters to its behaviour.
- `null` values. Java's `add` and `change` take an `Integer`, which could be `null`.
  The front end always passes a parsed number, so values are never absent here.
- Object identity, aliasing, the parent back-reference and each node's stored
  letter (Node.java:13-14, 35-37). They are replaced by the recursive functional
  formulation described above.
- The second, redundant `setChild` call in `add` (Trie.java:35). It is a private
  method of `Node`, and the constructor has already linked the child.
- `Parsing` models no source operation. It is a reader for the rendering that
  exists to prove the rendering loses no information.
- Nodes.Find: its contract states only that the node found is well-formed.
  The search itself is stated by `Nodes.FindCons` and `Nodes.FindConcat`.
- Nodes.Render: its contract states only the first character.
  `Parsing.ReadRender` and `Parsing.RenderInjective` show that the text loses
  no information, but the reader places each child under its own letter and
  accepts an empty `()`. So the letter order of the children and "parentheses
  only when there is a child" (Node.java:114-122) are fixed by `Render`'s body
  alone, not by a proved property.
- Tries.Remove: on the empty key while the root holds a value, the Java code
  fails with a null dereference. The model excludes that call by its
  precondition instead of modelling the crash.
