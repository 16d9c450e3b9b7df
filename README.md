# PrefixNode, a character trie with nearest-branch prefixes

`main.cpp` defines `PrefixNode`, a trie over `char` strings. Every node keeps
a pointer to its parent, its own key and a `std::map<char, PrefixNode*>` of
children. `add(s)` stores `s` as the path of its characters followed by a
child keyed `'\0'` (the terminator). The distinctive query is `getPrefix(s)`.
It finds the node spelling `s` and climbs to the nearest ancestor with two or
more children (a branch). It then steps back down one level and returns the
string from the root to that node. `getAllStringsWithPrefixes()` pairs every
leaf's string with that prefix, leaf by leaf, in key order.

This project models that class in Dafny and proves what its operations do.

- **Arena.** The nodes live in a sequence (`PrefixTrees.PrefixTree.nodes`, a
  field of a class, because `add` grows the tree in place).
- **Pointers.** A pointer is an index into that sequence. The root is index 0
  with parent `-1` (the null parent) and key NUL.
- **Strings.** `Trie.Path` is the string of keys from the root, exclusive,
  down to a node, inclusive. A stored string `s` is one whose `s + [NUL]` is
  the path of a terminator node (`Trie.Stored`).
- **Undefined behaviour.** Where the C++ code would dereference a null pointer
  or read a missing map entry, the model returns an error value
  (`Trie.Fault`):
  - `MissingKey`: `operator[]` on an absent key.
  - `NullParent`: `getNearestBranch` climbing past the root.
  - `EmptyString`: `getPrefix("")`.

Modules:

- `Strings` (`strings.dfy`): reversal, common prefixes, lexicographic order
  and sorted key lists (the iteration order of `std::map`).
- `Trie` (`trie.dfy`): the node datatype and well-formedness (`Wf`: parent
  and child links agree; terminators have no children). It also holds the
  pure walks:
  - `LeafOf` (getLeafOf);
  - `NearestBranch` (getNearestBranch);
  - `PrefixOf` (getPrefix);
  - `Leaves` (writeLeafsToVector);
  - `Entries` (getAllStringsWithPrefixes);
  - `FullStructure` (getFullStructure).
- `TriePaths`, `TrieGrowth`, `TrieLeaves`, `TriePrefix`, `TrieEntries` and
  `TrieRender`: the lemmas about those walks.
- `PrefixTrees` (`prefix_tree.dfy`): class `PrefixTree`. Its methods follow
  the C++ member functions that update the tree or build strings and vectors
  in loops, and each is proved against the functions above.

### Behaviour worth knowing

- **Prefix length.** `getPrefix` returns the string down to the child *below*
  the branch, so the distinguishing key is included: among `"Fedor"`,
  `"Fedora"` and `"Fez"`, the prefix of `"Fez"` is `"Fez"`. Asked for a stored
  string that other strings extend (`"Alex"` beside `"Alexia"`), the node
  spelling it is itself the branch. The step down is then to its terminator,
  and the result ends in NUL (`"Alex\0"`).
- **A single stored string.** Nothing branches, so the climb passes the root
  and dereferences its null parent. The model returns `Err(NullParent)` there.

## Model

| member | source | states |
|---|---|---|
| `Trie.IsLeaf` | main.cpp:27-35 | a node is a leaf exactly when it has no children, the negation of haveChildren |
| `Trie.IsBranch` | main.cpp:37-41 | a node is a branch exactly when two different keys are among its children; every branch has children |
| `Trie.FirstChild` | main.cpp:68-74 | there is no first child exactly when there are no children; otherwise it is the child under the smallest key |
| `PrefixTrees.PrefixTree.constructor` | main.cpp:17-20 | a new tree is a lone root with key NUL and no parent, and stores no string |
| `PrefixTrees.PrefixTree.AddChild` | main.cpp:43-49 | emplace leaves the tree unchanged when the key is present, otherwise it attaches a fresh child; either way the returned node is the child under `c` and spells the parent's string plus `c`, the tree stays well-formed, and only a NUL key adds a stored string (the parent's) |
| `TrieGrowth.Attach` | main.cpp:46-47 | the new node is appended with the given key and parent and no children and is registered under its key; no other node changes and no existing child is displaced |
| `TrieGrowth.AttachWf` | main.cpp:44-49 | attaching a new key below a node that is not a terminator keeps parent and child links consistent |
| `TrieGrowth.AttachStored` | main.cpp:44-49 | attaching under a non-NUL key stores nothing new; attaching under NUL stores exactly the parent's string |
| `TrieGrowth.AttachComplete` | main.cpp:57-60 | when only the node being extended may be a childless non-terminator, attaching a terminator to it leaves every childless node below the root a terminator; attaching any other key leaves only the new node unfinished |
| `TrieGrowth.PathsKept` | main.cpp:44-49 | growing the tree never changes the string an existing node spells |
| `PrefixTrees.PrefixTree.Add` | main.cpp:51-67 | add(s, index) on a node stores exactly one more string, the node's string followed by `s[index..]`; existing child links are kept, and the tree is unchanged when that string was already stored |
| `TrieGrowth.AddStep` | main.cpp:55-66 | one level of add followed by the recursive call adds the node's string plus `s[index..]` and changes nothing when it was already stored |
| `TrieGrowth.StoredNextKey` | main.cpp:55-61 | when the string being added is already stored, the next key (NUL at the end of `s`) is already a child, so add only re-finds nodes |
| `TrieGrowth.NulChildStored` | main.cpp:57-60 | a node with a terminator child spells a stored string |
| `PrefixTrees.PrefixTree.Insert` | main.cpp:52-67 | add(s) on the root stores exactly `s` in addition, keeps every node's string, and is idempotent |
| `TriePaths.PathInjective` | main.cpp:44-49 | two nodes that spell the same string are the same node |
| `TriePaths.ChildPath` | main.cpp:46 | a child spells its parent's string followed by its key |
| `TriePaths.ExtensionIsChild` | main.cpp:46-47 | the node spelling a node's string plus one key is that node's child under the key |
| `TriePaths.PathPrefix` | main.cpp:12-14 | every prefix of a node's string is spelled by some node placed no later in the arena |
| `TriePaths.PathNul` | main.cpp:57-60 | only a terminator's string contains NUL |
| `TriePaths.StoredTerminator` | main.cpp:57-60 | a stored string has no NUL and has a terminator node spelling it followed by NUL |
| `TriePaths.TerminatorStored` | main.cpp:57-60 | conversely, a node spelling `s` followed by NUL is a terminator and `s` is stored |
| `TriePaths.Divergence` | main.cpp:38-41 | two different stored strings meet at a branch that spells their longest common prefix |
| `TrieRender.TwoStoredAtBranch` | main.cpp:38-41 | below every branch of a complete tree two different strings are stored: the branch's string is a proper prefix of each, followed by NUL |
| `Trie.LeafOf` | main.cpp:75-82 | getLeafOf either fails on a missing key or returns a node that spells the start node's string followed by `s[index..]` |
| `TriePrefix.LeafOfFinds` | main.cpp:77-82 | getLeafOf returns node `j` exactly when `j` spells the start node's string followed by `s[index..]` |
| `TriePrefix.LeafOfStored` | main.cpp:77-82 | for a stored non-empty `s`, getLeafOf from the root finds the node spelling `s`, and that node has a terminator child |
| `Trie.NearestBranch` | main.cpp:84-94 | a successful climb returns a node whose parent is a branch; a failure is a missing key or the null parent |
| `TriePrefix.NearestBranchWalk` | main.cpp:86-94 | the node found spells a prefix of the start's string plus the last key, and no node from it down to the start branches; a missing key happens only at a branch lacking that key; the null parent is reached only when nothing from the root down to the start branches |
| `TrieEntries.TerminatorWalk` | main.cpp:86-94 | climbing from a terminator succeeds exactly when the tree stores some string other than that terminator's |
| `PrefixTrees.PrefixTree.StringToRoot` | main.cpp:96-106 | the collected and reversed keys are the string spelled from the root down to the node |
| `Strings.Reverse` | main.cpp:104 | the result has the same length and holds the characters in the opposite order |
| `Strings.ReverseSnoc` | main.cpp:100-104 | reversing after appending a key puts that key first, which is one turn of the climbing loop |
| `Strings.SortedKeys` | main.cpp:135 | the children's keys in strictly ascending order, each exactly once, as a `std::map` iterates them |
| `PrefixTrees.PrefixTree.GetPrefix` | main.cpp:148-152 | the result is the prefix the composed walks define; for a stored non-empty `s` it fails exactly when `s` is the only stored string; a result is non-empty and a prefix of `s` followed by NUL |
| `TriePrefix.PrefixWithin` | main.cpp:149-152 | a prefix that getPrefix returns is non-empty and starts `s` followed by NUL |
| `TriePrefix.PrefixSeparates` | main.cpp:149-152 | the prefix of a stored string starts no other stored string (followed by NUL): it tells `s` apart |
| `TriePrefix.PrefixShortest` | main.cpp:149-152 | with its last character removed the prefix also starts another stored string, so no shorter prefix tells `s` apart |
| `TriePrefix.PrefixFoundShared` | main.cpp:149-152 | a successful getPrefix(s) means the tree stores something other than `s` |
| `TriePrefix.PrefixFaults` | main.cpp:149-152 | for a stored non-empty string, getPrefix fails exactly when that string is all the tree stores, and then on the root's null parent |
| `Trie.Leaves` | main.cpp:154-167 | every node writeLeafsToVector lists is a leaf placed after the start node |
| `PrefixTrees.PrefixTree.WriteLeafs` | main.cpp:154-167 | the vector ends up as what it held before followed by the leaves below the node, in key order |
| `TrieLeaves.LeavesBelow` | main.cpp:154-167 | every listed leaf lies strictly below the start node |
| `TrieLeaves.LeavesCover` | main.cpp:154-167 | every leaf strictly below the start node is listed |
| `TrieLeaves.LeavesAscending` | main.cpp:154-167 | the listed leaves' strings are in strictly ascending lexicographic order |
| `TrieLeaves.LeavesDistinct` | main.cpp:154-167 | no leaf is listed twice |
| `Trie.EntryOf` | main.cpp:179-180 | a leaf's pair starts with the leaf's own string, and it fails exactly when the climb from the leaf fails |
| `PrefixTrees.PrefixTree.EntryPair` | main.cpp:179-181 | the pair built for one leaf is that leaf's string and the string of its nearest-branch node, or the climb's fault |
| `PrefixTrees.PrefixTree.EntryPairs` | main.cpp:174-183 | the loop over the leaf vector yields the pairs in order, or the fault of the first leaf whose climb fails |
| `PrefixTrees.PrefixTree.AllStringsWithPrefixes` | main.cpp:169-184 | the result is the pairs of the root's leaves in order, and it fails exactly when the tree stores one string |
| `TrieEntries.EntriesAligned` | main.cpp:177-182 | a successful result has one pair per leaf, the i-th pair belonging to the i-th leaf |
| `TrieEntries.EntriesErr` | main.cpp:177-182 | the result fails exactly when the climb fails for some leaf |
| `TrieEntries.EntriesFault` | main.cpp:169-184 | getAllStringsWithPrefixes on a complete tree fails exactly when the tree stores a single string |
| `TrieEntries.EntriesStored` | main.cpp:169-184 | every pair's string is a stored string followed by NUL |
| `TrieEntries.EntriesComplete` | main.cpp:169-184 | every stored string appears, followed by NUL, as the string of some pair |
| `TrieEntries.EntriesAscending` | main.cpp:169-184 | the pairs' strings are in strictly ascending order, hence none is repeated |
| `TrieEntries.EntryPrefix` | main.cpp:179-180 | the prefix paired with a terminator's string is exactly what getPrefix returns for that stored string |
| `TrieEntries.EntriesPrefixes` | main.cpp:169-184 | every pair's prefix is what getPrefix returns for the pair's stored string |
| `Trie.Spaces` | main.cpp:111 | the indentation is `offset` spaces |
| `Trie.FullStructure` | main.cpp:108-146 | every rendering ends with the leaf marker "$" and a newline |
| `Trie.ChildStructures` | main.cpp:135-138 | the concatenated renderings of a branch's children end with "$" and a newline |
| `TrieRender.LeafRendering` | main.cpp:121-127 | an unindented leaf prints its key, "$" and a newline |
| `TrieRender.ChainRendering` | main.cpp:121-142 | from a node down a branch-free chain to a leaf, the rendering is the node's key, the keys below it to the leaf, "$" and a newline, with no indentation |
| `TrieRender.SoleRendering` | main.cpp:109-146 | getFullStructure() on a tree that stores only `s` prints NUL, `s`, NUL, "$" and a newline |

## Left out

- `main` (main.cpp:187-227), the `PRINT_PRETTY` macro and all console output are not modelled: they are the demonstration driver.
- Memory is not modelled: nodes are never freed, and `addChildren` leaks the node it allocates when `emplace` finds the key taken. In the arena that node is never appended.
- Pointers are arena indices, and the null parent is `-1`. Aliasing between nodes cannot arise in the arena and is not modelled.
- `operator[]` on an absent key inserts a null entry into the map before it is dereferenced. The model returns `MissingKey` and does not model that extra entry.
- Keys are ordered by Dafny's `char` order. A `std::map<char, …>` with a signed `char` orders bytes 0x80 to 0xFF before ASCII; that order is not modelled.
- Strings are Dafny strings of characters, not bytes. The corner mark `"└"` in getFullStructure is one character here, where the C++ string receives its three UTF-8 bytes.
- `PrefixTrees.PrefixTree.Add` and `PrefixTrees.PrefixTree.Insert` require a string without NUL. In the C++ code an embedded NUL acts as an early terminator and its remaining characters hang below a terminator node; that case is not modelled.
- `PrefixTrees.PrefixTree.Add` is modelled only on the root and on non-terminator nodes, the only places `add` is reached from `add(s)` on the root.
- `PrefixTrees.PrefixTree.StringToRoot` requires a node other than the root. On the root the C++ loop would climb into the null parent. No caller in the model or in main.cpp asks for the root's string.
- `PrefixTrees.PrefixTree.GetPrefix` returns `EmptyString` for `""`. In the C++ code the index `s.size() - 1` wraps around, so getLeafOf looks up `s[0]`, which is `'\0'`. When `""` is not stored, `children['\0']` on the root inserts a null child and dereferences it. When `""` is stored, the walk goes on to read `s[1]`, past the end of `s`.
- `Trie.FullStructure`: its contract only states that every rendering ends with "$" and a newline. The full layout (indentation, corner marks and line breaks at branches) is stated only for branch-free chains (`TrieRender.ChainRendering`) and for a tree storing one string (`TrieRender.SoleRendering`).
- `Trie.ChildStructures`: its contract only states that the rendering ends with "$" and a newline. It does not state that it concatenates the children's renderings at `offset + 1` in ascending key order. The branch rule is not stated by any contract either: a line break follows the branch's key only when its first child's key is not NUL.
- The `offset` of getFullStructure is a natural number. The C++ `int` is never negative along the calls the code makes.
