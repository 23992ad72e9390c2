/**
 * The textual form of a Huffman code: `save` writes one (symbol, codeword) pair per
 * symbol node of the tree, and the Scanner constructor with `createTree` grows a tree
 * back from such pairs. The line format itself (one integer line, one codeword line) is
 * replaced by a sequence of already-parsed pairs.
 */
module CodeSerializer {
  import opened HuffmanNodes

  /** One saved pair: the symbol's integer code point and its codeword of '0' and '1' characters. */
  type Pair = (int, string)

  /**
   * The private `save` helper: a left-before-right depth-first walk that emits
   * (symbol, path) for each node carrying a symbol, the path being `soFar` plus a '0'
   * per left step and a '1' per right step. An absent node emits nothing.
   */
  function SaveFrom(curr: Tree, soFar: string): (r: seq<Pair>)
    ensures |r| == |Symbols(curr)|
  {
    match curr
    case Nil => []
    case Node(ascii, _, l, r) =>
      if ascii.Some? then [(ascii.value, soFar)]
      else SaveFrom(l, soFar + "0") + SaveFrom(r, soFar + "1")
  }

  /** The public `save`: the walk from the root with the empty path. */
  function Save(root: Tree): (r: seq<Pair>)
    ensures |r| == |Symbols(root)|
  {
    SaveFrom(root, "")
  }

  /** The symbols of a sequence of pairs, in order. */
  function Firsts(ps: seq<Pair>): seq<int>
  {
    if ps == [] then [] else [ps[0].0] + Firsts(ps[1..])
  }

  /**
   * `createTree`: walk `binary` from `curr` ('0' left, any other character right),
   * creating a placeholder node with no symbol and frequency 0 wherever a child is
   * absent, and put a fresh node holding `ascii` in the slot the codeword ends at,
   * replacing whatever was there.
   */
  function CreateTree(ascii: int, binary: string, curr: Tree): (r: Tree)
    ensures r.Node?
    ensures |binary| > 0 ==> r.ascii == if curr.Nil? then None else curr.ascii
    decreases |binary|, if curr.Nil? then 1 else 0
  {
    if |binary| == 0 then Node(Some(ascii), 0, Nil, Nil)
    else if curr.Nil? then CreateTree(ascii, binary, Node(None, 0, Nil, Nil))
    else if binary[0] == '0' then curr.(left := CreateTree(ascii, binary[1..], curr.left))
    else curr.(right := CreateTree(ascii, binary[1..], curr.right))
  }

  /** The tree the Scanner constructor holds after reading `pairs`, starting from no root. */
  function Loaded(pairs: seq<Pair>): (r: Tree)
    ensures pairs != [] ==> r.Node?
  {
    if pairs == [] then Nil
    else
      var last := pairs[|pairs| - 1];
      CreateTree(last.0, last.1, Loaded(pairs[..|pairs| - 1]))
  }

  /** The symbol the last pair with codeword `c` names, if any: later pairs overwrite earlier ones. */
  function SymbolFor(pairs: seq<Pair>, c: string): Option<int>
  {
    if pairs == [] then None
    else if pairs[|pairs| - 1].1 == c then Some(pairs[|pairs| - 1].0)
    else SymbolFor(pairs[..|pairs| - 1], c)
  }

  /** Every codeword is made of '0' and '1', and none is a strict prefix of another. */
  predicate PrefixFreeBits(pairs: seq<Pair>)
  {
    && (forall x :: x in pairs ==> IsBits(x.1))
    && (forall x, y :: x in pairs && y in pairs ==> !StrictPrefix(x.1, y.1))
  }

  /** The node reached by following `c` from `t`, whatever symbols lie on the way. */
  function At(t: Tree, c: string): Tree
    decreases |c|
  {
    if c == [] then t
    else match t
      case Nil => Nil
      case Node(_, _, l, r) => At(if c[0] == '0' then l else r, c[1..])
  }

  /** Some node strictly above the end of `c` carries a symbol. */
  predicate Blocked(t: Tree, c: string)
    decreases |c|
  {
    t.Node? && c != [] && (t.ascii.Some? || Blocked(if c[0] == '0' then t.left else t.right, c[1..]))
  }

  /** Two paths part ways: at their first difference one goes left and the other right. */
  predicate Diverge(p: string, c: string)
    decreases |c|
  {
    |p| > 0 && |c| > 0 && ((p[0] == '0') != (c[0] == '0') || Diverge(p[1..], c[1..]))
  }

  // ---------------------------------------------------------------------------
  // save

  /** Every pair `save` emits below `soFar` names a symbol that its codeword reaches. */
  lemma {:induction false} SaveFromSound(t: Tree, soFar: string)
    ensures forall x :: x in SaveFrom(t, soFar) ==>
      && |soFar| <= |x.1| && x.1[..|soFar|] == soFar
      && IsBits(x.1[|soFar|..]) && Lookup(t, x.1[|soFar|..]) == Some(x.0)
  {
    match t
    case Nil =>
    case Node(ascii, _, l, r) =>
      if ascii.None? {
        var p0, p1 := soFar + "0", soFar + "1";
        SaveFromSound(l, p0);
        SaveFromSound(r, p1);
        forall x | x in SaveFrom(t, soFar)
          ensures |soFar| <= |x.1| && x.1[..|soFar|] == soFar
          ensures IsBits(x.1[|soFar|..]) && Lookup(t, x.1[|soFar|..]) == Some(x.0)
        {
          var p := if x in SaveFrom(l, p0) then p0 else p1;
          var child := if x in SaveFrom(l, p0) then l else r;
          assert x.1[..|p|] == p;
          assert x.1[..|soFar|] == p[..|soFar|] == soFar;
          assert x.1[|soFar|..] == [p[|soFar|]] + x.1[|p|..];
          assert x.1[|soFar|..][1..] == x.1[|p|..];
        }
      }
  }

  /** Every symbol the code map gives for a '0'/'1' codeword is emitted by `save` with that codeword. */
  lemma {:induction false} SaveFromComplete(t: Tree, soFar: string, s: string, a: int)
    requires IsBits(s) && Lookup(t, s) == Some(a)
    ensures (a, soFar + s) in SaveFrom(t, soFar)
    decreases |s|
  {
    match t
    case Node(ascii, _, l, r) =>
      if ascii.Some? {
        assert soFar + s == soFar;
      } else {
        var p := soFar + [s[0]];
        assert p + s[1..] == soFar + s;
        if s[0] == '0' {
          SaveFromComplete(l, p, s[1..], a);
        } else {
          SaveFromComplete(r, p, s[1..], a);
        }
      }
  }

  /**
   * `save` emits exactly the code map of the tree: a pair (a, c) is emitted if and only
   * if c is a '0'/'1' codeword that reaches a node holding a.
   */
  lemma SaveIsCodeMap(t: Tree)
    ensures forall a, c :: (a, c) in Save(t) <==> IsBits(c) && Lookup(t, c) == Some(a)
    ensures forall x :: x in Save(t) ==> IsBits(x.1) && Lookup(t, x.1) == Some(x.0)
  {
    SaveFromSound(t, "");
    forall a, c | IsBits(c) && Lookup(t, c) == Some(a) ensures (a, c) in Save(t) {
      SaveFromComplete(t, "", c, a);
      assert "" + c == c;
    }
    forall x | x in Save(t) ensures IsBits(x.1) && Lookup(t, x.1) == Some(x.0) {
      assert x.1[0..] == x.1;
    }
  }

  /** `save` emits one pair per symbol node, left subtree before right subtree. */
  lemma {:induction false} SaveFromSymbols(t: Tree, soFar: string)
    ensures Firsts(SaveFrom(t, soFar)) == Symbols(t)
  {
    match t
    case Nil =>
    case Node(ascii, _, l, r) =>
      if ascii.None? {
        SaveFromSymbols(l, soFar + "0");
        SaveFromSymbols(r, soFar + "1");
        FirstsConcat(SaveFrom(l, soFar + "0"), SaveFrom(r, soFar + "1"));
      }
  }

  lemma {:induction false} FirstsConcat(a: seq<Pair>, b: seq<Pair>)
    ensures Firsts(a + b) == Firsts(a) + Firsts(b)
  {
    if a != [] {
      assert (a + b)[1..] == a[1..] + b;
      FirstsConcat(a[1..], b);
    } else {
      assert a + b == b;
    }
  }

  /** The saved code is prefix-free, and no codeword is saved twice. */
  lemma SavePrefixFree(t: Tree)
    ensures PrefixFreeBits(Save(t))
    ensures forall x, y :: x in Save(t) && y in Save(t) && x.1 == y.1 ==> x == y
  {
    SaveIsCodeMap(t);
    forall x, y | x in Save(t) && y in Save(t) ensures !StrictPrefix(x.1, y.1) {
      if StrictPrefix(x.1, y.1) {
        LookupPrefixFree(t, x.1, y.1);
      }
    }
  }

  // ---------------------------------------------------------------------------
  // createTree

  /**
   * After `createTree(a, c, t)`, following c reaches a fresh node holding a; every path
   * that parts from c leads to the same subtree as before; every node strictly above
   * the end of c is present and keeps the symbol it had (placeholders have none).
   */
  lemma {:induction false} CreateTreeShape(a: int, c: string, t: Tree, p: string)
    ensures At(CreateTree(a, c, t), c) == Node(Some(a), 0, Nil, Nil)
    ensures Diverge(p, c) ==> At(CreateTree(a, c, t), p) == At(t, p)
    ensures StrictPrefix(p, c) ==>
      && At(CreateTree(a, c, t), p).Node?
      && At(CreateTree(a, c, t), p).ascii == (if At(t, p).Nil? then None else At(t, p).ascii)
    decreases |c|, if t.Nil? then 1 else 0
  {
    if |c| == 0 {
    } else if t.Nil? {
      CreateTreeShape(a, c, Node(None, 0, Nil, Nil), p);
      if p != [] {
        assert At(Node(None, 0, Nil, Nil), p) == Nil by {
          assert At(Nil, p[1..]) == Nil;
        }
      }
    } else if p == [] {
      var child := if c[0] == '0' then t.left else t.right;
      CreateTreeShape(a, c[1..], child, p);
    } else {
      var child := if c[0] == '0' then t.left else t.right;
      CreateTreeShape(a, c[1..], child, p[1..]);
      if StrictPrefix(p, c) {
        assert p[0] == c[0];
        assert StrictPrefix(p[1..], c[1..]) by {
          assert c[1..][..|p| - 1] == c[..|p|][1..];
        }
      }
    }
  }

  /** A blocked codeword passes a node whose own codeword already names a symbol. */
  lemma {:induction false} BlockedPrefix(t: Tree, c: string) returns (k: nat)
    requires Blocked(t, c)
    ensures k < |c| && Lookup(t, c[..k]).Some?
    decreases |c|
  {
    if t.ascii.Some? {
      k := 0;
    } else {
      var child := if c[0] == '0' then t.left else t.right;
      var k' := BlockedPrefix(child, c[1..]);
      k := k' + 1;
      assert c[..k][1..] == c[1..][..k'];
    }
  }

  /**
   * The code map after `createTree(a, c, t)`, for '0'/'1' codewords: c now names a unless
   * a symbol above it hides it, codewords below c name nothing, and every other codeword
   * names what it named before.
   */
  lemma {:induction false} CreateTreeLookup(a: int, c: string, t: Tree, p: string)
    requires IsBits(c) && IsBits(p)
    ensures Lookup(CreateTree(a, c, t), p) ==
      if p == c then (if Blocked(t, c) then None else Some(a))
      else if StrictPrefix(c, p) then None
      else Lookup(t, p)
    decreases |c|, if t.Nil? then 1 else 0
  {
    if |c| == 0 {
      if p != [] {
        assert StrictPrefix(c, p);
      }
    } else if t.Nil? {
      CreateTreeLookup(a, c, Node(None, 0, Nil, Nil), p);
      if p != [] {
        assert Lookup(Node(None, 0, Nil, Nil), p) == None by {
          assert Lookup(Nil, p[1..]) == None;
        }
      }
    } else if p == [] {
    } else if t.ascii.Some? {
      assert Blocked(t, c);
    } else if p[0] == c[0] {
      var child := if c[0] == '0' then t.left else t.right;
      CreateTreeLookup(a, c[1..], child, p[1..]);
      assert p == c <==> p[1..] == c[1..] by {
        if p[1..] == c[1..] {
          assert p == [p[0]] + p[1..] && c == [c[0]] + c[1..];
        }
      }
      assert StrictPrefix(c, p) <==> StrictPrefix(c[1..], p[1..]) by {
        if StrictPrefix(c[1..], p[1..]) {
          assert p[..|c|] == [p[0]] + p[1..][..|c| - 1];
          assert c == [c[0]] + c[1..];
        }
        if StrictPrefix(c, p) {
          assert p[1..][..|c| - 1] == p[..|c|][1..];
        }
      }
    } else {
      assert p != c;
      assert |c| <= |p| ==> p[..|c|][0] == p[0];
    }
  }

  // ---------------------------------------------------------------------------
  // load

  /** A symbol given by `SymbolFor` comes from a pair of the input. */
  lemma {:induction false} SymbolForMember(pairs: seq<Pair>, c: string)
    requires SymbolFor(pairs, c).Some?
    ensures (SymbolFor(pairs, c).value, c) in pairs
  {
    if pairs[|pairs| - 1].1 != c {
      SymbolForMember(pairs[..|pairs| - 1], c);
    }
  }

  /** With no codeword a strict prefix of another, the loaded code map is the input's. */
  lemma {:induction false} LoadIsCodeMap(pairs: seq<Pair>)
    requires PrefixFreeBits(pairs)
    ensures forall p :: IsBits(p) ==> Lookup(Loaded(pairs), p) == SymbolFor(pairs, p)
  {
    if pairs != [] {
      var init := pairs[..|pairs| - 1];
      var last := pairs[|pairs| - 1];
      assert last in pairs;
      assert forall x :: x in init ==> x in pairs;
      LoadIsCodeMap(init);
      var prev := Loaded(init);
      if Blocked(prev, last.1) {
        var k := BlockedPrefix(prev, last.1);
        var q := last.1[..k];
        assert IsBits(q);
        SymbolForMember(init, q);
        assert StrictPrefix(q, last.1);
        assert false;
      }
      forall p | IsBits(p) ensures Lookup(Loaded(pairs), p) == SymbolFor(pairs, p) {
        CreateTreeLookup(last.0, last.1, prev, p);
        if p != last.1 && StrictPrefix(last.1, p) && SymbolFor(init, p).Some? {
          SymbolForMember(init, p);
          assert false;
        }
      }
    }
  }

  /**
   * The Scanner constructor: starting from no root, read the pairs in order and graft
   * each one onto the tree with `createTree`.
   */
  method Load(input: seq<Pair>) returns (root: Tree)
    ensures root == Loaded(input)
    ensures PrefixFreeBits(input) ==> forall c :: IsBits(c) ==> Lookup(root, c) == SymbolFor(input, c)
  {
    root := Nil;
    for i := 0 to |input|
      invariant root == Loaded(input[..i])
    {
      var (ascii, code) := input[i];
      assert input[..i + 1][..i] == input[..i];
      root := CreateTree(ascii, code, root);
    }
    assert input[..|input|] == input;
    if PrefixFreeBits(input) {
      LoadIsCodeMap(input);
    }
  }

  /** When no codeword is given two symbols, `SymbolFor` is membership in the input. */
  lemma {:induction false} SymbolForIsMember(pairs: seq<Pair>, a: int, c: string)
    requires forall x, y :: x in pairs && y in pairs && x.1 == y.1 ==> x == y
    ensures SymbolFor(pairs, c) == Some(a) <==> (a, c) in pairs
  {
    if pairs != [] {
      var init := pairs[..|pairs| - 1];
      assert pairs == init + [pairs[|pairs| - 1]];
      assert forall x :: x in init ==> x in pairs;
      SymbolForIsMember(init, a, c);
    }
  }

  /**
   * Loading does not depend on the order of the pairs: two inputs holding the same
   * pairs, prefix-free and with no codeword given two symbols, load the same code map.
   */
  lemma LoadOrderIndependent(p1: seq<Pair>, p2: seq<Pair>)
    requires PrefixFreeBits(p1)
    requires forall x, y :: x in p1 && y in p1 && x.1 == y.1 ==> x == y
    requires forall x :: x in p1 <==> x in p2
    ensures forall c :: IsBits(c) ==> Lookup(Loaded(p1), c) == Lookup(Loaded(p2), c)
  {
    LoadIsCodeMap(p1);
    LoadIsCodeMap(p2);
    forall c | IsBits(c) ensures SymbolFor(p1, c) == SymbolFor(p2, c) {
      if SymbolFor(p1, c).Some? {
        SymbolForIsMember(p1, SymbolFor(p1, c).value, c);
        SymbolForIsMember(p2, SymbolFor(p1, c).value, c);
      } else if SymbolFor(p2, c).Some? {
        SymbolForIsMember(p1, SymbolFor(p2, c).value, c);
        SymbolForIsMember(p2, SymbolFor(p2, c).value, c);
      }
    }
  }

  /**
   * Round trip: loading what `save` wrote, in any order (and with repeats), gives a tree
   * whose code map on '0'/'1' codewords is the saved tree's.
   */
  lemma SaveLoadRoundTrip(t: Tree, pairs: seq<Pair>)
    requires forall x :: x in pairs <==> x in Save(t)
    ensures forall c :: IsBits(c) ==> Lookup(Loaded(pairs), c) == Lookup(t, c)
  {
    SaveIsCodeMap(t);
    SavePrefixFree(t);
    LoadIsCodeMap(pairs);
    forall c | IsBits(c) ensures SymbolFor(pairs, c) == Lookup(t, c) {
      if SymbolFor(pairs, c).Some? {
        SymbolForIsMember(pairs, SymbolFor(pairs, c).value, c);
      } else if Lookup(t, c).Some? {
        SymbolForIsMember(pairs, Lookup(t, c).value, c);
      }
    }
  }

  /** Loading pairs whose codewords are all non-empty gives a root with no symbol. */
  lemma {:induction false} LoadedRootBranches(pairs: seq<Pair>)
    requires pairs != []
    requires forall x :: x in pairs ==> x.1 != []
    ensures Loaded(pairs).Node? && Loaded(pairs).ascii.None?
  {
    var init := pairs[..|pairs| - 1];
    var last := pairs[|pairs| - 1];
    assert last in pairs;
    if init != [] {
      assert forall x :: x in init ==> x in pairs;
      LoadedRootBranches(init);
    }
  }

  /** The degenerate code: a single leaf saves as one pair with the empty codeword, which loads back as a single leaf. */
  lemma SingleSymbolRoundTrip(a: int, f: int)
    ensures Save(Leaf(a, f)) == [(a, "")]
    ensures Loaded(Save(Leaf(a, f))) == Leaf(a, 0)
  {
    assert [(a, "")][..0] == [];
  }
}
