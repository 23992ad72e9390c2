/**
 * `translate`: a cursor walks the tree one bit at a time (0 left, 1 right); on reaching
 * a node that carries a symbol it emits the symbol and goes back to the root. The bit
 * source becomes a sequence of bits and the output stream the sequence of emitted
 * symbols. Where the Java code would dereference an absent child, the model stops and
 * reports the position of the offending bit instead.
 */
module StreamDecoder {
  import opened HuffmanNodes
  import opened CodeSerializer

  type Bit = b: int | 0 <= b <= 1

  /** What a decode produced: the symbols emitted, and the position of the bit that led off the tree, if any. */
  datatype Decoding = Decoding(symbols: seq<int>, failedAt: Option<nat>)

  function Prepend(s: seq<int>, d: Decoding): Decoding
  {
    Decoding(s + d.symbols, d.failedAt)
  }

  /**
   * The decoding loop from cursor `curr`, `bits` being what is left of the stream and
   * `pos` the position of its first bit. It stops when the bits run out or the cursor
   * is absent (only possible for an absent root).
   */
  function TranslateFrom(root: Tree, curr: Tree, bits: seq<Bit>, pos: nat): (r: Decoding)
    ensures r.failedAt.Some? ==> pos <= r.failedAt.value < pos + |bits|
    decreases |bits|
  {
    if bits == [] || curr.Nil? then Decoding([], None)
    else
      var next := if bits[0] == 0 then curr.left else curr.right;
      if next.Nil? then Decoding([], Some(pos))
      else if next.ascii.Some? then Prepend([next.ascii.value], TranslateFrom(root, root, bits[1..], pos + 1))
      else TranslateFrom(root, next, bits[1..], pos + 1)
  }

  /** The whole decode of a stream, starting with the cursor at the root. */
  function Translation(root: Tree, input: seq<Bit>): Decoding
  {
    TranslateFrom(root, root, input, 0)
  }

  /** A codeword written as bits: '0' is 0, every other character 1. */
  function ToBits(c: string): (r: seq<Bit>)
    ensures |r| == |c|
  {
    if c == [] then [] else [if c[0] == '0' then 0 else 1] + ToBits(c[1..])
  }

  /** The bit stream of a message: the codewords of its pairs, one after another. */
  function Flatten(ws: seq<Pair>): seq<Bit>
  {
    if ws == [] then [] else ToBits(ws[0].1) + Flatten(ws[1..])
  }

  /**
   * `translate`: move the cursor on each bit, emit the symbol of each symbol node reached
   * and reset the cursor to the root, until the bits run out.
   */
  method Translate(root: Tree, input: seq<Bit>) returns (out: Decoding)
    ensures out == Translation(root, input)
    ensures out.failedAt.Some? ==> out.failedAt.value < |input|
    ensures root.Nil? ==> out == Decoding([], None)
    ensures root.Node? && root.ascii.Some? && root.left.Nil? && root.right.Nil? && input != [] ==> out == Decoding([], Some(0))
  {
    var curr := root;
    var emitted: seq<int> := [];
    var i := 0;
    while i < |input| && curr != Nil
      invariant i <= |input|
      invariant Translation(root, input) == Prepend(emitted, TranslateFrom(root, curr, input[i..], i))
      invariant root.Nil? ==> curr.Nil?
      invariant i == 0 ==> curr == root && emitted == []
      decreases |input| - i
    {
      TranslateStep(root, curr, input, i, emitted);
      var bit := input[i];
      if bit == 0 {
        curr := curr.left;
      } else {
        curr := curr.right;
      }
      if curr == Nil {
        // The Java loop dereferences the absent child here.
        out := Decoding(emitted, Some(i));
        return;
      }
      if curr.ascii.Some? {
        emitted := emitted + [curr.ascii.value];
        curr := root;
      }
      i := i + 1;
    }
    out := Decoding(emitted, None);
  }

  /** One turn of the decoding loop, seen from the whole decode: where the cursor goes next and what is emitted. */
  lemma TranslateStep(root: Tree, curr: Tree, input: seq<Bit>, i: nat, emitted: seq<int>)
    requires i < |input| && curr.Node?
    ensures var next := if input[i] == 0 then curr.left else curr.right;
            var now := Prepend(emitted, TranslateFrom(root, curr, input[i..], i));
            && (next.Nil? ==> now == Decoding(emitted, Some(i)))
            && (next.Node? && next.ascii.Some? ==>
                  now == Prepend(emitted + [next.ascii.value], TranslateFrom(root, root, input[i + 1..], i + 1)))
            && (next.Node? && next.ascii.None? ==> now == Prepend(emitted, TranslateFrom(root, next, input[i + 1..], i + 1)))
  {
    assert input[i..][1..] == input[i + 1..];
    var next := if input[i] == 0 then curr.left else curr.right;
    if next.Node? && next.ascii.Some? {
      var d := TranslateFrom(root, root, input[i + 1..], i + 1);
      assert emitted + ([next.ascii.value] + d.symbols) == (emitted + [next.ascii.value]) + d.symbols;
    }
  }

  /**
   * Reading one codeword from a node without a symbol emits the symbol it names and puts
   * the cursor back at the root, whatever bits follow.
   */
  lemma {:induction false} TranslateCodeword(root: Tree, curr: Tree, c: string, a: int, rest: seq<Bit>, pos: nat)
    requires curr.Node? && curr.ascii.None? && Lookup(curr, c) == Some(a)
    ensures TranslateFrom(root, curr, ToBits(c) + rest, pos) == Prepend([a], TranslateFrom(root, root, rest, pos + |c|))
    decreases |c|
  {
    var bits := ToBits(c) + rest;
    var next := if c[0] == '0' then curr.left else curr.right;
    assert bits[0] == (if c[0] == '0' then 0 else 1);
    assert bits[1..] == ToBits(c[1..]) + rest;
    if next.ascii.Some? {
      assert c[1..] == [];
    } else {
      TranslateCodeword(root, next, c[1..], a, rest, pos + 1);
    }
  }

  /**
   * Decoding the codewords of a message from the root emits the message's symbols in
   * order and leaves the cursor at the root for whatever follows.
   */
  lemma {:induction false} TranslateMessage(root: Tree, ws: seq<Pair>, rest: seq<Bit>, pos: nat)
    requires root.Node? && root.ascii.None?
    requires AllNamed(root, ws)
    ensures TranslateFrom(root, root, Flatten(ws) + rest, pos) ==
            Prepend(Firsts(ws), TranslateFrom(root, root, rest, pos + |Flatten(ws)|))
  {
    if ws == [] {
      assert Flatten(ws) + rest == rest;
    } else {
      var w, tail := ws[0], ws[1..];
      TranslateMessage(root, tail, rest, pos + |w.1|);
      FlattenCons(ws, rest);
      CodewordThen(root, w.0, w.1, Flatten(tail) + rest, pos, Firsts(tail),
                   TranslateFrom(root, root, rest, pos + |Flatten(ws)|));
    }
  }

  /** Every pair of the message names its symbol by its codeword in the tree. */
  predicate AllNamed(root: Tree, ws: seq<Pair>)
  {
    ws == [] || (Lookup(root, ws[0].1) == Some(ws[0].0) && AllNamed(root, ws[1..]))
  }

  lemma {:induction false} AllNamedFrom(root: Tree, ws: seq<Pair>)
    requires forall w :: w in ws ==> Lookup(root, w.1) == Some(w.0)
    ensures AllNamed(root, ws)
  {
    if ws != [] {
      assert ws[0] in ws;
      assert forall v :: v in ws[1..] ==> v in ws;
      AllNamedFrom(root, ws[1..]);
    }
  }

  /** The first codeword of a message decoded, then the rest as already known. */
  lemma CodewordThen(root: Tree, a: int, c: string, after: seq<Bit>, pos: nat, s: seq<int>, d: Decoding)
    requires root.Node? && root.ascii.None? && Lookup(root, c) == Some(a)
    requires TranslateFrom(root, root, after, pos + |c|) == Prepend(s, d)
    ensures TranslateFrom(root, root, ToBits(c) + after, pos) == Prepend([a] + s, d)
  {
    TranslateCodeword(root, root, c, a, after, pos);
    assert [a] + (s + d.symbols) == ([a] + s) + d.symbols;
  }

  lemma FlattenCons(ws: seq<Pair>, rest: seq<Bit>)
    requires ws != []
    ensures Flatten(ws) + rest == ToBits(ws[0].1) + (Flatten(ws[1..]) + rest)
    ensures |Flatten(ws)| == |ws[0].1| + |Flatten(ws[1..])|
  {
  }

  /**
   * With a full tree whose root has no symbol, the decode never fails: every step from
   * a node without a symbol lands on a present node, whatever the bits.
   */
  lemma {:induction false} FullNeverFails(root: Tree, curr: Tree, bits: seq<Bit>, pos: nat)
    requires root.Node? && root.ascii.None? && Full(root)
    requires Full(curr) && curr.ascii.None?
    ensures TranslateFrom(root, curr, bits, pos).failedAt == None
    decreases |bits|
  {
    if bits != [] {
      var next := if bits[0] == 0 then curr.left else curr.right;
      if next.ascii.Some? {
        FullNeverFails(root, root, bits[1..], pos + 1);
      } else {
        FullNeverFails(root, next, bits[1..], pos + 1);
      }
    }
  }

  /** Two trees give the same symbol for every '0'/'1' codeword. */
  ghost predicate SameCode(a: Tree, b: Tree)
  {
    forall c :: IsBits(c) ==> Lookup(a, c) == Lookup(b, c)
  }

  /** A full tree names some symbol by some '0'/'1' codeword. */
  lemma {:induction false} FullNamesSome(t: Tree) returns (c: string)
    requires Full(t)
    ensures IsBits(c) && Lookup(t, c).Some?
  {
    if t.ascii.Some? {
      c := [];
    } else {
      var c' := FullNamesSome(t.left);
      c := "0" + c';
      assert c[1..] == c';
    }
  }

  /** A tree with the code of a full tree is present and carries the same symbol at its root. */
  lemma SameCodeRoot(a: Tree, b: Tree)
    requires Full(a) && SameCode(a, b)
    ensures b.Node? && b.ascii == a.ascii
  {
    var c := FullNamesSome(a);
    assert Lookup(b, c).Some?;
    assert IsBits([]) && Lookup(a, []) == Lookup(b, []);
  }

  /** Below a node without a symbol, the code of each child is the code that starts with its bit. */
  lemma SameCodeChildren(a: Tree, b: Tree)
    requires a.Node? && b.Node? && a.ascii.None? && b.ascii.None? && SameCode(a, b)
    ensures SameCode(a.left, b.left) && SameCode(a.right, b.right)
  {
    forall c | IsBits(c) ensures Lookup(a.left, c) == Lookup(b.left, c) && Lookup(a.right, c) == Lookup(b.right, c) {
      var c0, c1 := "0" + c, "1" + c;
      assert c0[1..] == c && c1[1..] == c;
      assert IsBits(c0) && IsBits(c1);
      assert Lookup(a, c0) == Lookup(b, c0) && Lookup(a, c1) == Lookup(b, c1);
    }
  }

  /**
   * The decode depends only on the code: a tree with the same code as a full tree whose
   * root has no symbol decodes every bit stream exactly as that tree does.
   */
  lemma {:induction false} SameCodeSameDecode(r1: Tree, r2: Tree, c1: Tree, c2: Tree, bits: seq<Bit>, pos: nat)
    requires Full(r1) && r1.ascii.None? && SameCode(r1, r2)
    requires Full(c1) && c1.ascii.None? && SameCode(c1, c2)
    ensures TranslateFrom(r1, c1, bits, pos) == TranslateFrom(r2, c2, bits, pos)
    decreases |bits|
  {
    SameCodeRoot(r1, r2);
    SameCodeRoot(c1, c2);
    if bits != [] {
      SameCodeChildren(c1, c2);
      var n1 := if bits[0] == 0 then c1.left else c1.right;
      var n2 := if bits[0] == 0 then c2.left else c2.right;
      SameCodeRoot(n1, n2);
      if n1.ascii.Some? {
        SameCodeSameDecode(r1, r2, r1, r2, bits[1..], pos + 1);
      } else {
        SameCodeSameDecode(r1, r2, n1, n2, bits[1..], pos + 1);
      }
    }
  }

  /**
   * Build, save, load (the pairs in any order), translate: the reloaded tree decodes every
   * bit stream, even one that stops inside a codeword, exactly as the saved tree does,
   * and never fails.
   */
  lemma ReloadDecodesSame(t: Tree, pairs: seq<Pair>, bits: seq<Bit>)
    requires Full(t) && |Symbols(t)| >= 2
    requires forall x :: x in pairs <==> x in Save(t)
    ensures Translation(Loaded(pairs), bits) == Translation(t, bits)
    ensures Translation(Loaded(pairs), bits).failedAt == None
  {
    FullRootBranches(t);
    SaveLoadRoundTrip(t, pairs);
    assert SameCode(t, Loaded(pairs));
    SameCodeSameDecode(t, Loaded(pairs), t, Loaded(pairs), bits, 0);
    FullNeverFails(t, t, bits, 0);
  }

  /** A full tree with at least two symbols has a root without a symbol. */
  lemma FullRootBranches(t: Tree)
    requires Full(t) && |Symbols(t)| >= 2
    ensures t.Node? && t.ascii.None?
  {
  }

  /**
   * A built tree (full, two symbols or more) decodes any sequence of its saved codewords
   * back to their symbols, without failing.
   */
  lemma DecodeSaved(t: Tree, ws: seq<Pair>)
    requires Full(t) && |Symbols(t)| >= 2
    requires forall w :: w in ws ==> w in Save(t)
    ensures Translation(t, Flatten(ws)) == Decoding(Firsts(ws), None)
  {
    FullRootBranches(t);
    SaveIsCodeMap(t);
    AllNamedFrom(t, ws);
    TranslateMessage(t, ws, [], 0);
    assert Flatten(ws) + [] == Flatten(ws);
  }

  /**
   * Build, save, load (the pairs in any order), translate: the reloaded tree decodes the
   * saved codewords of any message to the message's symbols.
   */
  lemma DecodeAfterReload(t: Tree, pairs: seq<Pair>, ws: seq<Pair>)
    requires Full(t) && |Symbols(t)| >= 2
    requires forall x :: x in pairs <==> x in Save(t)
    requires forall w :: w in ws ==> w in Save(t)
    ensures Translation(Loaded(pairs), Flatten(ws)) == Decoding(Firsts(ws), None)
  {
    if ws != [] {
      assert ws[0] in ws;
      ReloadedCodeMap(t, pairs);
      var loaded := Loaded(pairs);
      assert forall w :: w in ws ==> Lookup(loaded, w.1) == Some(w.0);
      AllNamedFrom(loaded, ws);
      TranslateMessage(loaded, ws, [], 0);
      assert Flatten(ws) + [] == Flatten(ws);
    }
  }

  /** Reloading a saved code gives a root without a symbol and the same symbol for every saved codeword. */
  lemma ReloadedCodeMap(t: Tree, pairs: seq<Pair>)
    requires Full(t) && |Symbols(t)| >= 2
    requires forall x :: x in pairs <==> x in Save(t)
    ensures Loaded(pairs).Node? && Loaded(pairs).ascii.None?
    ensures forall w :: w in Save(t) ==> Lookup(Loaded(pairs), w.1) == Some(w.0)
  {
    FullRootBranches(t);
    SaveIsCodeMap(t);
    assert Save(t)[0] in pairs;
    assert forall x :: x in pairs ==> x.1 != [] by {
      forall x | x in pairs ensures x.1 != [] {
        assert Lookup(t, x.1) == Some(x.0);
      }
    }
    LoadedRootBranches(pairs);
    SaveLoadRoundTrip(t, pairs);
  }
}
