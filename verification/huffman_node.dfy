/**
 * The nodes of a Huffman tree, as the `HuffmanNode` class of HuffmanCode.java has them:
 * an optional symbol (`ascii`), a frequency, and two possibly absent children.
 * A node that carries a symbol ends a codeword; a node without one is a branching node.
 */
module HuffmanNodes {

  datatype Option<T> = None | Some(value: T)

  /** `Nil` is Java's `null`; a `Node` is one `HuffmanNode` object, owned by its parent. */
  datatype Tree = Nil | Node(ascii: Option<int>, frequency: int, left: Tree, right: Tree)

  /** The two-argument constructor: a node carrying a symbol and no children. */
  function Leaf(ascii: int, freq: int): (r: Tree)
    ensures Full(r) && Symbols(r) == [ascii] && Weight(r) == freq
  {
    Node(Some(ascii), freq, Nil, Nil)
  }

  /** The merging constructor: no symbol, the two children, and the sum of their frequencies. */
  function Merge(left: Tree, right: Tree): (r: Tree)
    requires left.Node? && right.Node?
    ensures Full(left) && Full(right) ==> Full(r)
    ensures Symbols(r) == Symbols(left) + Symbols(right)
    ensures Weight(r) == Weight(left) + Weight(right)
  {
    Node(None, left.frequency + right.frequency, left, right)
  }

  /** The weight a priority queue orders by (an absent node never enters the queue). */
  function Weight(t: Tree): int
  {
    if t.Nil? then 0 else t.frequency
  }

  /** `compareTo`, on mathematical integers: negative, zero or positive as `a` is lighter, as heavy, or heavier. */
  function CompareTo(a: Tree, b: Tree): (r: int)
    ensures r < 0 <==> Weight(a) < Weight(b)
    ensures r == 0 <==> Weight(a) == Weight(b)
  {
    Weight(a) - Weight(b)
  }

  /** A full binary tree: every symbol node has no children, every other node has two. */
  predicate Full(t: Tree)
  {
    match t
    case Nil => false
    case Node(ascii, _, l, r) =>
      if ascii.Some? then l.Nil? && r.Nil? else Full(l) && Full(r)
  }

  /** The symbols met by a left-before-right walk that stops at each node carrying a symbol. */
  function Symbols(t: Tree): seq<int>
  {
    match t
    case Nil => []
    case Node(ascii, _, l, r) =>
      if ascii.Some? then [ascii.value] else Symbols(l) + Symbols(r)
  }

  /** Number of branching nodes on that walk. */
  function InternalCount(t: Tree): nat
  {
    match t
    case Nil => 0
    case Node(ascii, _, l, r) =>
      if ascii.Some? then 0 else 1 + InternalCount(l) + InternalCount(r)
  }

  /**
   * Frequencies as the builder leaves them: a symbol node holds the frequency of its
   * symbol, a branching node the sum of its children's frequencies.
   */
  predicate WeightsOk(t: Tree, freqs: seq<int>)
  {
    match t
    case Nil => true
    case Node(ascii, w, l, r) =>
      if ascii.Some? then 0 <= ascii.value < |freqs| && w == freqs[ascii.value]
      else w == Weight(l) + Weight(r) && WeightsOk(l, freqs) && WeightsOk(r, freqs)
  }

  /**
   * The code map of a tree: the symbol reached by following codeword `c` from `t`
   * ('0' goes left, any other character right), stopping at the first node that
   * carries a symbol. `None` when the walk falls off the tree, ends on a node
   * without a symbol, or meets a symbol before the codeword is used up.
   */
  function Lookup(t: Tree, c: string): Option<int>
    decreases |c|
  {
    match t
    case Nil => None
    case Node(ascii, _, l, r) =>
      if ascii.Some? then (if c == [] then ascii else None)
      else if c == [] then None
      else Lookup(if c[0] == '0' then l else r, c[1..])
  }

  predicate IsBits(c: string)
  {
    forall k :: 0 <= k < |c| ==> c[k] == '0' || c[k] == '1'
  }

  predicate StrictPrefix(p: string, c: string)
  {
    |p| < |c| && c[..|p|] == p
  }

  /** A full tree with n symbols has n - 1 branching nodes: each merge adds exactly one. */
  lemma {:induction false} FullTreeCounts(t: Tree)
    requires Full(t)
    ensures InternalCount(t) + 1 == |Symbols(t)|
  {
    match t
    case Node(ascii, _, l, r) =>
      if ascii.None? {
        FullTreeCounts(l);
        FullTreeCounts(r);
      }
  }

  /** Once a codeword reaches a symbol, no longer codeword does: the code map is prefix-free. */
  lemma {:induction false} LookupPrefixFree(t: Tree, p: string, c: string)
    requires Lookup(t, p).Some?
    requires StrictPrefix(p, c)
    ensures Lookup(t, c) == None
  {
    match t
    case Node(ascii, _, l, r) =>
      if ascii.None? {
        assert p[0] == c[0];
        assert StrictPrefix(p[1..], c[1..]) by {
          assert c[1..][..|p| - 1] == c[..|p|][1..];
        }
        LookupPrefixFree(if p[0] == '0' then l else r, p[1..], c[1..]);
      }
  }
}
