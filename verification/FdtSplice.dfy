/**
 Byte-level lemmas for the read-write operations: a splice followed by stores into the
 gap is one splice, and a splice of whole items is an edit of the tree.
 */
module FdtSplice {
  import opened Common
  import opened FdtBytes
  import opened FdtTokens
  import opened FdtTree
  import opened FdtScan
  import opened FdtVisit
  import opened FdtNodes
  import opened FdtProps
  import opened FdtEdit
  import opened FdtView
  import opened FdtDecode

  /** Byte offset of the node at `p`. */
  ghost function NodeOff(n: Node, p: Path): nat
    requires WfNode(n) && ValidPath(n, p)
  {
    StreamFacts(n);
    PosBound(n, p);
    Off(Stream(n), Pos(n, p))
  }

  /** Token index of item `i` of the node at `p`. */
  ghost function ItemPos(n: Node, p: Path, i: nat): nat
    requires ValidPath(n, p) && i <= |At(n, p).items|
  {
    Pos(n, p) + 1 + |FlatItems(At(n, p).items[..i])|
  }

  /** Byte offset of item `i` of the node at `p`, or of its end tag. */
  ghost function ItemOff(n: Node, p: Path, i: nat): nat
    requires WfNode(n) && ValidPath(n, p) && i <= |At(n, p).items|
  {
    StreamFacts(n);
    ItemPosBound(n, p, i);
    Off(Stream(n), ItemPos(n, p, i))
  }

  lemma PosBound(n: Node, p: Path)
    requires ValidPath(n, p)
    ensures Has(Stream(n), Pos(n, p), Flat(At(n, p))) && Pos(n, p) + |Flat(At(n, p))| <= |Flat(n)|
  {
    hide Flat;
    AtPos(n, p);
    HasMiddle([], Flat(n), [TFinish]);
    assert [] + Flat(n) + [TFinish] == Stream(n);
    HasInside(Stream(n), 0, Flat(n), Pos(n, p), Flat(At(n, p)));
  }

  lemma ItemPosBound(n: Node, p: Path, i: nat)
    requires ValidPath(n, p) && i <= |At(n, p).items|
    ensures ItemPos(n, p, i) + 1 <= |Flat(n)|
  {
    hide Flat, FlatItems;
    PosBound(n, p);
    var a := At(n, p);
    FlatLen(a);
    FlatItemsSplit(a.items, i, i);
  }

  lemma StreamSplice(n: Node, n': Node, at: nat, k: nat, y: seq<Token>)
    requires at + k <= |Flat(n)| && Flat(n') == Splice(Flat(n), at, k, y)
    ensures at + k <= |Stream(n)| && Stream(n') == Splice(Stream(n), at, k, y)
  {
    hide Flat;
    SpliceInner([], Flat(n), [TFinish], at, k, y);
    assert [] + Flat(n) + [TFinish] == Stream(n);
    assert [] + Splice(Flat(n), at, k, y) + [TFinish] == Splice(Flat(n), at, k, y) + [TFinish];
  }

  /** Replacing items of a node splices exactly their bytes. */
  lemma EncodePutItems(n: Node, p: Path, i: nat, j: nat, new': seq<Item>)
    requires WfNode(n) && ValidPath(n, p) && i <= j <= |At(n, p).items|
    requires WfItems(new') && WfNode(PutItems(n, p, i, j, new'))
    ensures ItemOff(n, p, i) <= ItemOff(n, p, j) <= |Encode(n)| && WfTokens(FlatItems(new'))
    ensures Encode(PutItems(n, p, i, j, new')) ==
            Splice(Encode(n), ItemOff(n, p, i), ItemOff(n, p, j) - ItemOff(n, p, i), Enc(FlatItems(new')))
  {
    hide Splice, Encode, PutItems, WfNode, WfItems, Enc, Off, Flat, FlatItems, Stream, WfTokens;
    var n' := PutItems(n, p, i, j, new');
    StreamFacts(n);
    StreamFacts(n');
    FlatItemsWf(new');
    FlatPutItems(n, p, i, j, new');
    var items := At(n, p).items;
    var at, k := ItemPos(n, p, i), |FlatItems(items[i..j])|;
    StreamSplice(n, n', at, k, FlatItems(new'));
    ItemPosStep(n, p, i, j);
    EncSplice(Stream(n), at, k, FlatItems(new'));
  }

  lemma ItemOffBound(n: Node, p: Path, i: nat)
    requires WfNode(n) && ValidPath(n, p) && i <= |At(n, p).items|
    ensures ItemOff(n, p, i) + 4 <= |Encode(n)|
  {
    hide WfNode, Stream, Flat, ItemPos, FlatItems, Encode, Enc, Off;
    StreamFacts(n);
    ItemPosBound(n, p, i);
    StreamLen(n);
    OffMonotone(Stream(n), ItemPos(n, p, i), |Stream(n)|);
    OffEnd(Stream(n));
  }

  lemma StreamLen(n: Node)
    ensures |Stream(n)| == |Flat(n)| + 1
  {
  }

  lemma ItemPosStep(n: Node, p: Path, i: nat, j: nat)
    requires ValidPath(n, p) && i <= j <= |At(n, p).items|
    ensures ItemPos(n, p, j) == ItemPos(n, p, i) + |FlatItems(At(n, p).items[i..j])|
  {
    hide FlatItems;
    var items := At(n, p).items;
    assert items[..j] == items[..i] + items[i..j];
    FlatItemsConcat(items[..i], items[i..j]);
  }

  /** The bytes of one item lie at its offset. */
  lemma ItemBytes(n: Node, p: Path, i: nat)
    requires WfNode(n) && ValidPath(n, p) && i < |At(n, p).items|
    ensures WfItems([At(n, p).items[i]]) && WfTokens(FlatItem(At(n, p).items[i]))
    ensures Has(Encode(n), ItemOff(n, p, i), Enc(FlatItem(At(n, p).items[i])))
    ensures ItemOff(n, p, i + 1) == ItemOff(n, p, i) + |Enc(FlatItem(At(n, p).items[i]))|
  {
    hide Encode, WfNode, WfItems, Enc, Flat, FlatItems, FlatItem, Stream, WfTokens, Has;
    var items := At(n, p).items;
    var it := items[i];
    WfAt(n, p);
    WfSlice(items, i);
    StreamFacts(n);
    PosBound(n, p);
    ItemPosStep(n, p, i, i + 1);
    assert items[i..i + 1] == [it];
    FlatItemsOne(it);
    FlatItemsWf([it]);
    NodeHasItem(Stream(n), Pos(n, p), At(n, p), i);
    EncHas(Stream(n), ItemPos(n, p, i), FlatItem(it));
  }

  lemma WfSlice(items: seq<Item>, i: nat)
    requires i < |items| && WfItems(items)
    ensures WfItems([items[i]]) && WfItem(items[i])
  {
    hide WfItems;
    assert items == items[..i + 1] + items[i + 1..] && items[..i + 1] == items[..i] + [items[i]];
    WfItemsConcat(items[..i + 1], items[i + 1..]);
    WfItemsConcat(items[..i], [items[i]]);
    OneItem(items[i], []);
  }

  lemma {:induction false} WfAt(n: Node, p: Path)
    requires ValidPath(n, p) && WfNode(n)
    ensures WfNode(At(n, p)) && WfItems(At(n, p).items)
    decreases |p|
  {
    hide WfItems;
    if p != [] {
      WfSlice(n.items, p[0]);
      WfAt(n.items[p[0]].node, p[1..]);
    }
  }

  lemma NodeHasItem(ts: seq<Token>, k: nat, n: Node, i: nat)
    requires Has(ts, k, Flat(n)) && i < |n.items|
    ensures Has(ts, k + 1 + |FlatItems(n.items[..i])|, FlatItem(n.items[i]))
  {
    hide FlatItems, FlatItem, Has, Flat;
    NodeParts(ts, k, n);
    FlatItemsSplit(n.items, i, i + 1);
    assert n.items[i..i + 1] == [n.items[i]];
    FlatItemsOne(n.items[i]);
    var a, b, c := FlatItems(n.items[..i]), FlatItem(n.items[i]), FlatItems(n.items[i + 1..]);
    HasSplit(ts, k + 1, a + b, c);
    HasSplit(ts, k + 1, a, b);
  }

  lemma EncHas(ts: seq<Token>, k: nat, part: seq<Token>)
    requires WfTokens(ts) && Has(ts, k, part) && WfTokens(part)
    ensures k + |part| <= |ts| && Off(ts, k + |part|) == Off(ts, k) + |Enc(part)|
    ensures Has(Enc(ts), Off(ts, k), Enc(part))
  {
    hide Enc;
    var a, b := ts[..k], ts[k + |part|..];
    assert ts[..k + |part|] == a + part && ts == a + part + b;
    EncConcat(a, part);
    EncConcat(a + part, b);
    HasMiddle(Enc(a), Enc(part), Enc(b));
  }

  // ---- stores into a gap ----

  lemma SpliceTwice<T>(s: seq<T>, at: nat, n: nat, g: seq<T>, q: nat, d: seq<T>)
    requires at + n <= |s| && q + |d| <= |g|
    ensures Splice(Splice(s, at, n, g), at + q, |d|, d) == Splice(s, at, n, Splice(g, q, |d|, d))
  {
    SpliceInner(s[..at], g, s[at + n..], q, |d|, d);
  }

  /** The header words of a property stored over the start of a gap. */
  lemma PropHeaderStores(g: Bytes, len: u32, nameoff: u32)
    requires |g| >= 12
    ensures Splice(Splice(Splice(g, 0, 4, Word(FDT_PROP)), 8, 4, Word(nameoff)), 4, 4, Word(len)) ==
            Word(FDT_PROP) + Word(len) + Word(nameoff) + g[12..]
  {
    hide Word;
    var a := Splice(g, 0, 4, Word(FDT_PROP));
    assert a == Word(FDT_PROP) + g[4..8] + g[8..12] + g[12..];
    var b := Splice(a, 8, 4, Word(nameoff));
    assert b == Word(FDT_PROP) + g[4..8] + Word(nameoff) + g[12..];
  }

  /** A part and, before it, a word replaced. */
  lemma ResizeSplices(a: Bytes, f: Bytes, l: Bytes, m: Bytes, v: Bytes, b: Bytes, l2: Bytes, g: Bytes)
    requires |f| == |l| == |m| == |l2| == 4
    ensures var s := a + (f + l + m + v) + b;
            |a| + 12 + |v| <= |s| && |Splice(s, |a| + 12, |v|, g)| >= |a| + 8 &&
            Splice(Splice(s, |a| + 12, |v|, g), |a| + 4, 4, l2) == Splice(s, |a|, 12 + |v|, f + l2 + m + g)
  {
    hide Splice;
    var s := a + (f + l + m + v) + b;
    assert s == (a + (f + l + m)) + v + b;
    SpliceMiddle(a + (f + l + m), v, b, g);
    assert a + (f + l + m) + g + b == (a + f) + l + (m + g + b);
    SpliceMiddle(a + f, l, m + g + b, l2);
    SpliceMiddle(a, f + l + m + v, b, f + l2 + m + g);
    assert a + f + l2 + (m + g + b) == a + (f + l2 + m + g) + b;
  }

  /** A value gap of another size and a new length word replace the whole property. */
  lemma PropResize(s: Bytes, o: nat, nameoff: u32, value: Bytes, vpad: Bytes, len: u32, g: Bytes)
    requires WfToken(TProp(nameoff, value, vpad)) && Has(s, o, EncTok(TProp(nameoff, value, vpad)))
    ensures var x := EncTok(TProp(nameoff, value, vpad));
            o + |x| <= |s| && |x| == 12 + |value + vpad| && |Splice(s, o + 12, |value + vpad|, g)| >= o + 8 &&
            Splice(Splice(s, o + 12, |value + vpad|, g), o + 4, 4, Word(len)) ==
            Splice(s, o, |x|, Word(FDT_PROP) + Word(len) + Word(nameoff) + g)
  {
    hide Word, PadLen, Splice;
    var x := EncTok(TProp(nameoff, value, vpad));
    var a, b := s[..o], s[o + |x|..];
    assert x == Word(FDT_PROP) + Word(|value|) + Word(nameoff) + (value + vpad);
    assert s == a + x + b;
    ResizeSplices(a, Word(FDT_PROP), Word(|value|), Word(nameoff), value + vpad, b, Word(len), g);
  }

  // ---- lookups on the encoding of a tree ----

  lemma HeaderAt(n: Node, p: Path)
    requires WfNode(n) && ValidPath(n, p)
    ensures Scannable(Encode(n), NodeOff(n, p))
    ensures CheckNodeOffset(Encode(n), NodeOff(n, p)) == ItemOff(n, p, 0)
  {
    hide Encode, Stream, Flat, WfNode, Enc, Off, NextTag, Has, Pos, FlatItems;
    var ts, k := Stream(n), Pos(n, p);
    StreamFacts(n);
    PosBound(n, p);
    NodeInside(ts, At(n, p), k);
    BlockScannable(ts, k);
    NextTagAt(ts, k);
    OffAligned(ts, k);
    HasAt(ts, k, Flat(At(n, p)));
    assert ts[k] == Flat(At(n, p))[0];
    ItemPosZero(n, p);
  }

  lemma ItemPosZero(n: Node, p: Path)
    requires ValidPath(n, p)
    ensures ItemPos(n, p, 0) == Pos(n, p) + 1
  {
  }

  lemma {:induction false} LeadLen(items: seq<Item>, i: nat)
    requires i <= |items| && forall j :: 0 <= j < i ==> !items[j].Child?
    ensures |FlatItems(items[..i])| == i
    decreases i
  {
    hide FlatItems, FlatItem;
    if i > 0 {
      LeadLen(items, i - 1);
      assert items[..i] == items[..i - 1] + [items[i - 1]];
      FlatItemsConcat(items[..i - 1], [items[i - 1]]);
      FlatItemsOne(items[i - 1]);
      LeadOne(items[i - 1]);
    } else {
      LeadNone(items);
    }
  }

  lemma LeadNone(items: seq<Item>)
    ensures FlatItems(items[..0]) == []
  {
  }

  /** fdt_get_property on the bytes of a tree. */
  lemma FindPropOnTree(n: Node, p: Path, strs: Bytes, name: Bytes)
    requires WfNode(n) && ValidPath(n, p)
    ensures Scannable(Encode(n), NodeOff(n, p))
    ensures var i := PropIndex(At(n, p).items, strs, name);
            FindProp(Encode(n), strs, NodeOff(n, p), name) ==
            if i < |At(n, p).items| then ItemOff(n, p, i) else NOTFOUND
  {
    hide Encode, Stream, Flat, WfNode, Enc, Off, Has, Pos, FlatItems, FindProp, Scannable;
    StreamFacts(n);
    PosBound(n, p);
    FindPropIsPropIndex(Stream(n), strs, At(n, p), Pos(n, p), name);
    var items := At(n, p).items;
    var i := PropIndex(items, strs, name);
    if i < |items| {
      LeadLen(items, i);
    }
  }

  /** The item after a subnode. */
  lemma ItemPosNext(n: Node, p: Path, i: nat)
    requires ValidPath(n, p) && i < |At(n, p).items| && At(n, p).items[i].Child?
    ensures ItemPos(n, p, i + 1) == ItemPos(n, p, i) + |Flat(At(n, p).items[i].node)|
  {
    hide *;
    var items := At(n, p).items;
    ItemPosStep(n, p, i, i + 1);
    assert items[i..i + 1] == [items[i]];
    FlatItemsOne(items[i]);
    FlatChild(items[i]);
  }

  /** fdt_node_end_offset_ on the bytes of a tree: the offset of the item after the node. */
  lemma NodeEndOnTree(n: Node, p: Path)
    requires WfNode(n) && ValidPath(n, p) && p != []
    ensures Scannable(Encode(n), NodeOff(n, p)) && ParentOf(n, p)
    ensures NodeOff(n, p) == ItemOff(n, p[..|p| - 1], p[|p| - 1])
    ensures NodeEndFrom(Encode(n), NodeOff(n, p), 0) == ItemOff(n, p[..|p| - 1], p[|p| - 1] + 1)
  {
    hide Encode, Stream, Flat, WfNode, Enc, Off, Has, Pos, FlatItems, NodeEndFrom, Scannable, At, ValidPath, Closed,
         Block, WfTokens, ItemPos;
    var q, i := p[..|p| - 1], p[|p| - 1];
    StreamFacts(n);
    PosBound(n, p);
    LastStep(n, p);
    NodeEndIs(Stream(n), At(n, p), Pos(n, p));
    ItemPosNext(n, q, i);
  }

  /** The node at `p` is the subnode item `p[|p| - 1]` of its parent. */
  ghost predicate ParentOf(n: Node, p: Path)
    requires p != []
  {
    var q, i := p[..|p| - 1], p[|p| - 1];
    ValidPath(n, q) && i < |At(n, q).items| && At(n, q).items[i].Child?
  }

  lemma {:induction false} LastStep(n: Node, p: Path)
    requires ValidPath(n, p) && p != []
    ensures ParentOf(n, p)
    ensures At(n, p[..|p| - 1]).items[p[|p| - 1]] == Child(At(n, p))
    ensures Pos(n, p) == ItemPos(n, p[..|p| - 1], p[|p| - 1])
    decreases |p|
  {
    hide FlatItems;
    if |p| > 1 {
      LastStep(n.items[p[0]].node, p[1..]);
      assert p[..|p| - 1][1..] == p[1..][..|p| - 2];
    }
  }
}
