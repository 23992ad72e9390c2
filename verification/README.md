# Huffman code: a Dafny model of HuffmanCode.java

`HuffmanCode.java` builds a Huffman tree from an array of symbol frequencies and writes
the tree's code as (symbol, codeword) pairs. It can also grow a tree back from such pairs
and decode a bit stream with a tree. This project models those four parts, plus the
`HuffmanNode` record they share, and proves what each one promises.

- `huffman_node.dfy` (module `HuffmanNodes`): the node as the Java class has it. A node
  has an optional symbol (`ascii`), a frequency and two children that may be absent (`Nil`
  is Java's `null`). The module holds:
  - the two constructors and `compareTo`;
  - the notions used everywhere else: a full tree, the left-to-right list of symbols,
    and the code map `Lookup`. The code map follows a codeword from the root, '0' to the
    left and any other character to the right, and stops at the first node that carries
    a symbol.
- `tree_builder.dfy` (module `TreeBuilder`): the frequency constructor. It seeds the
  queue with one leaf per index whose frequency is at least 1. It then repeatedly removes
  the two lightest nodes and puts back their merge (the first removed on the left). The
  priority queue is a sequence. Removing the minimum may return any lightest node, so no
  result depends on how ties are broken.
- `code_serializer.dfy` (module `CodeSerializer`): `save` and its recursive helper, and
  the Scanner constructor with `createTree`. A saved code is a sequence of already-parsed
  pairs.
- `stream_decoder.dfy` (module `StreamDecoder`): `translate`. The bit source is a sequence
  of bits and the output is the sequence of emitted symbols. Where the Java loop would
  dereference an absent child (a `NullPointerException`), the model stops. It reports
  the symbols emitted so far and the position of the offending bit.

Edge cases, as the Java code handles them and the model keeps them:
- The Java code signals no error for an all-zero frequency table: the root is left
  absent.
- The Java code signals no error for a codeword character other than '0' or '1': it
  treats it as a right turn (for characters of the Basic Multilingual Plane; see
  `CodeSerializer.CreateTree` under "Left out").
- The Java code saves a single-symbol tree with the empty codeword. Decoding with such a
  tree fails on the first bit, because the Java loop steps to an absent child of the
  root.
- The Java node is one record with an optional symbol, not a leaf/branch union. Loading
  creates placeholder nodes with no symbol, and such a node may end up with only one
  child.

## Model

| member | source | states |
|---|---|---|
| HuffmanNodes.Leaf | HuffmanCode.java:144-146 | a node built from a symbol and a frequency is a full tree whose only symbol is that one and whose weight is the given frequency |
| HuffmanNodes.Merge | HuffmanCode.java:152-154 | a merged node is full when its children are, its symbols are the left child's followed by the right child's, and its weight is the sum of theirs |
| HuffmanNodes.CompareTo | HuffmanCode.java:157-159 | the result is negative, zero or positive exactly as the first node is lighter than, as heavy as, or heavier than the second |
| HuffmanNodes.FullTreeCounts | HuffmanCode.java:22-27 | a full tree with n symbols has n - 1 branching nodes, one per merge (Build uses it for its symbol count) |
| HuffmanNodes.LookupPrefixFree | HuffmanCode.java:105-117 | once a codeword reaches a symbol, no longer codeword that extends it reaches anything: the code map of any tree is prefix-free |
| TreeBuilder.SeedsSymbols | HuffmanCode.java:16-20 | the seeded queue holds the leaves of exactly the indices whose frequency is at least 1, in index order |
| TreeBuilder.PositivesCount | HuffmanCode.java:16-20 | each index whose frequency is at least 1 is seeded exactly once, and no other value is |
| TreeBuilder.PositivesOccurrences | HuffmanCode.java:16-20 | counted one by one, each index whose frequency is at least 1 occurs once among the seeded indices, and no other value occurs |
| TreeBuilder.SeedsWeight | HuffmanCode.java:16-20 | the seeded queue weighs the sum of the frequencies that are at least 1 |
| TreeBuilder.SeedsEmpty | HuffmanCode.java:16-20 | the seeded queue is empty if and only if no frequency is at least 1 |
| TreeBuilder.SeedsOk | HuffmanCode.java:16-20 | every seeded node is a full tree whose symbol node holds its own index's frequency |
| TreeBuilder.SeedsLength | HuffmanCode.java:16-20 | the queue is seeded with exactly as many nodes as there are positive frequencies |
| TreeBuilder.SeedsPositive | HuffmanCode.java:16-20 | every seeded node weighs at least 1 |
| TreeBuilder.Seed | HuffmanCode.java:15-20 | the seeding loop leaves the queue of one leaf per positive index, with the symbols, total weight and emptiness stated by the lemmas above |
| TreeBuilder.RemoveAtQueue | HuffmanCode.java:23-24 | removing one node from the queue removes exactly its symbols and its weight |
| TreeBuilder.MinIndex | HuffmanCode.java:23-24 | the node removed compares at most equal to every node in the queue |
| TreeBuilder.MergeKeeps | HuffmanCode.java:22-27 | one round of the loop keeps every queued node full with consistent frequencies, and keeps the multiset of queued symbols and the total weight |
| TreeBuilder.GreedyRound | HuffmanCode.java:23-26 | when the two lightest nodes are merged, every node left weighs at least the second one removed, the merged weight is at most twice that and no less than any earlier merged weight: the record of merged weights stays non-decreasing |
| TreeBuilder.MergeLightest | HuffmanCode.java:23-26 | one turn of the loop, where the greedy choice is stated: it removes a node `i` that compares at most equal to every queued node, then a node `j` of the rest that compares at most equal to every node left, and the new queue is exactly the rest followed by `Merge(first, second)` with the first removed on the left, whose weight is the sum of the two; hence the queue loses exactly one node, every node stays full with consistent frequencies, the multiset of symbols and the total weight are kept, and the merged weight extends the non-decreasing record |
| TreeBuilder.AppendOk | HuffmanCode.java:25-26 | putting a merged node back adds exactly its symbols and its weight and keeps the queue well-formed |
| TreeBuilder.BuiltRoot | HuffmanCode.java:29 | the node left in the drained queue is the root the constructor promises (see Build) |
| TreeBuilder.BuiltMerges | HuffmanCode.java:22-29 | when the queue is drained, the merges recorded are one fewer than the leaves, in non-decreasing order of weight, and the last is the root's weight |
| TreeBuilder.Build | HuffmanCode.java:13-30 | the root is absent if and only if no frequency is at least 1; otherwise it is a full tree in which every branching node weighs the sum of its children and every leaf weighs its symbol's frequency; the root weighs the sum of the positive frequencies; its leaves are exactly the indices with frequency at least 1, each exactly once; the loop keeps queue size plus merges done equal to the seeded size (one node fewer per merge), so the root has one branching node fewer than it has symbols, and as many symbols as there are positive frequencies; the weights of the merges, in the order the loop makes them (a ghost result), never decrease and end with the root's weight; this record follows from merging the two lightest nodes each time (stated by MergeLightest's contract) but some other merge orders produce one too |
| CodeSerializer.SaveFrom | HuffmanCode.java:88-98 | the private `save` helper emits exactly one pair per symbol node below `curr` (their order, paths and symbols are stated by SaveFromSymbols, SaveFromSound and SaveFromComplete) |
| CodeSerializer.Save | HuffmanCode.java:76-78 | the public `save` emits one pair per symbol of the tree (what the pairs are is stated by SaveIsCodeMap and SavePrefixFree) |
| CodeSerializer.SaveFromSound | HuffmanCode.java:88-98 | every pair the helper emits below path `soFar` has a codeword extending `soFar` by '0'/'1' steps that lead to that pair's symbol |
| CodeSerializer.SaveFromComplete | HuffmanCode.java:88-98 | every symbol reached by a '0'/'1' path is emitted with that path |
| CodeSerializer.SaveIsCodeMap | HuffmanCode.java:76-98 | `save` emits the pair (a, c) if and only if c is a '0'/'1' codeword whose walk from the root ends at a node holding a; a leaf root gets the empty codeword |
| CodeSerializer.SaveFromSymbols | HuffmanCode.java:88-98 | `save` emits one pair per symbol node, left subtree before right subtree |
| CodeSerializer.SavePrefixFree | HuffmanCode.java:76-98 | the saved codewords are made of '0' and '1', none is a strict prefix of another, and no codeword is saved twice |
| CodeSerializer.CreateTree | HuffmanCode.java:54-67 | `createTree` always returns a present node; for a non-empty codeword that node keeps the symbol the old node had, or has none when it is a new placeholder (the rest of its behaviour is stated by CreateTreeShape and CreateTreeLookup) |
| CodeSerializer.CreateTreeShape | HuffmanCode.java:54-67 | after grafting, the codeword's path ends at a fresh node holding the symbol; every path that parts from it leads to the same subtree as before; every node strictly above its end is present and keeps its symbol |
| CodeSerializer.CreateTreeLookup | HuffmanCode.java:54-67 | after grafting (a, c), the codeword c names a unless a symbol above it hides it; codewords extending c name nothing; every other codeword names what it named before |
| CodeSerializer.BlockedPrefix | HuffmanCode.java:54-67 | if a symbol node lies strictly above the end of a codeword, then a strict prefix of that codeword already names a symbol |
| CodeSerializer.Loaded | HuffmanCode.java:37-44 | the root the Scanner constructor holds after a sequence of pairs is present as soon as one pair has been read (its code map is stated by LoadIsCodeMap) |
| CodeSerializer.Load | HuffmanCode.java:37-44 | the Scanner constructor grafts the pairs in input order starting from no root; for prefix-free '0'/'1' input, the loaded code map gives each codeword the symbol of the last pair with that codeword |
| CodeSerializer.LoadIsCodeMap | HuffmanCode.java:37-67 | for prefix-free '0'/'1' input, the loaded tree's code map is the input's own |
| CodeSerializer.LoadOrderIndependent | HuffmanCode.java:37-67 | two inputs holding the same prefix-free pairs, with no codeword given two symbols, load trees with the same code map, whatever the order and repetition |
| CodeSerializer.SaveLoadRoundTrip | HuffmanCode.java:37-98 | loading what `save` wrote, in any order and with repeats, gives a tree whose code map equals the saved tree's |
| CodeSerializer.LoadedRootBranches | HuffmanCode.java:37-67 | loading at least one pair, all with non-empty codewords, gives a root without a symbol |
| CodeSerializer.SingleSymbolRoundTrip | HuffmanCode.java:37-98 | a single-leaf tree saves as one pair with the empty codeword, and that loads back as a single leaf |
| CodeSerializer.SymbolForIsMember | HuffmanCode.java:37-44 | when no codeword is given two symbols, the symbol loaded for a codeword is the one paired with it in the input |
| StreamDecoder.TranslateFrom | HuffmanCode.java:103-119 | the decode from a cursor, when it fails, fails at the position of one of the bits it was given (what it emits is stated by TranslateCodeword, TranslateMessage and FullNeverFails) |
| StreamDecoder.Translate | HuffmanCode.java:103-119 | the loop's output is the whole decode of the input; a failure is at a bit of the input; an absent root decodes nothing and does not fail; a root that is a childless leaf fails at the first bit of any non-empty input |
| StreamDecoder.TranslateStep | HuffmanCode.java:105-117 | one turn of the loop: an absent child stops the decode at this bit; a symbol node emits its symbol and resumes from the root; otherwise the cursor moves on |
| StreamDecoder.TranslateCodeword | HuffmanCode.java:105-117 | reading a codeword that names a from a node without a symbol emits a and puts the cursor back at the root, whatever bits follow |
| StreamDecoder.TranslateMessage | HuffmanCode.java:103-119 | decoding the codewords of a message, then any further bits, emits the message's symbols in order and continues from the root at the first further bit |
| StreamDecoder.FullNeverFails | HuffmanCode.java:105-117 | with a full tree whose root has no symbol, the decode of any bit stream never fails, even one that stops inside a codeword: only an incomplete tree can lead to an absent child |
| StreamDecoder.SameCodeSameDecode | HuffmanCode.java:103-119 | the decode depends only on the code: a tree naming the same symbol for every '0'/'1' codeword as a full tree whose root has no symbol decodes every bit stream exactly as it does |
| StreamDecoder.DecodeSaved | HuffmanCode.java:76-119 | with a built tree of two or more symbols, decoding any sequence of saved codewords gives back their symbols in order, without failure |
| StreamDecoder.ReloadedCodeMap | HuffmanCode.java:37-98 | reloading the saved code of a built tree of two or more symbols gives a root without a symbol that maps every saved codeword to its symbol |
| StreamDecoder.DecodeAfterReload | HuffmanCode.java:13-119 | build, save, load in any order, translate: the reloaded tree decodes any sequence of saved codewords to their symbols, without failure |
| StreamDecoder.ReloadDecodesSame | HuffmanCode.java:37-119 | for a built tree of two or more symbols, the tree reloaded from its saved pairs (any order, any repeats) decodes every bit stream exactly as the original tree does, and never fails |

## Left out

- Input and output: the Scanner lines are parsed pairs, and `Integer.parseInt` failures
  and an odd number of lines are not modelled. The PrintStream output is the list of
  pairs or of emitted symbols. The BitInputStream is a sequence of bits. The `(char)`
  cast on output is dropped: symbols stay integers.
- Java `int` arithmetic: frequencies are unbounded integers. The 32-bit overflow of
  summed frequencies in the merging constructor, and of the subtraction in `compareTo`,
  is not modelled.
- The priority queue's internal heap and its tie-breaking among equal weights are not
  modelled. Any lightest node may be removed, and every property above holds for every
  such choice.
- TreeBuilder.Build: optimality of the Huffman code (minimal weighted codeword length)
  is not proved, because it needs an exchange argument over all prefix codes that lies
  outside what the class computes. The greedy choice itself is stated by the contract of
  `MergeLightest` (which two nodes each turn removes and what it puts back); the
  non-decreasing record of merged weights that `Build` returns is only a consequence of
  that choice, which some other merge orders share, and does not imply optimality. The remaining promises of `Build` (shape,
  leaves, weights) hold for every merge order. The codeword lengths for one concrete
  frequency table are not derived either.
- The `HuffmanCode` object itself is not a class. Its one field `root` is assigned only
  inside the constructors (the Scanner constructor reassigns it once per pair) and only
  read afterwards, so `Load` and `Build` return the root and it is passed to `Save` and
  `Translate`.
- CodeSerializer.CreateTree: a codeword is a sequence of Unicode characters, while a
  Java `String` is a sequence of UTF-16 units. A character outside the Basic
  Multilingual Plane is one right turn in the model but two in the Java code, one per
  surrogate unit. The same holds for `Lookup`.
- CodeSerializer.CreateTree: the Java helper updates existing nodes in place. The model
  rebuilds the path as new values, so sharing between trees, which the Java class never
  creates, is not captured.
- CodeSerializer.Load: its code-map property is stated only for input whose codewords
  are '0'/'1' strings, none a strict prefix of another. For other input, only the tree
  itself is given (the fold of `CreateTree` over the pairs).
- HuffmanNodes.Merge: requires both children present. The Java constructor reads their
  frequencies and would throw on an absent child, and the builder never passes one.
- The leaf frequency that `createTree` stores (0) is kept, but nothing is proved about
  frequencies in loaded trees: decoding never reads them.
