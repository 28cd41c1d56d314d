/**
 The edit each read-write operation makes, on bytes and on the tree at once.
 */
module FdtOps {
  import opened Common
  import opened FdtBytes
  import opened FdtTokens
  import opened FdtTree
  import opened FdtScan
  import opened FdtVisit
  import opened FdtNodes
  import opened FdtProps
  import opened FdtEdit
  import opened FdtView
  import opened FdtDecode
  import opened FdtSplice

  lemma PutItemsGood(n: Node, p: Path, i: nat, j: nat, new': seq<Item>, strs: Bytes)
    requires WfNode(n) && Proper(n, strs) && ValidPath(n, p) && i <= j <= |At(n, p).items|
    requires WfItems(new') && ProperItems(new', strs) && PropsFirst(Splice(At(n, p).items, i, j - i, new'))
    ensures WfNode(PutItems(n, p, i, j, new')) && Proper(PutItems(n, p, i, j, new'), strs)
    ensures WfNode(At(n, p)) && Proper(At(n, p), strs)
  {
    hide WfItems, ProperItems, Splice, PropsFirst;
    AtGood(n, p, strs);
    WfSplice(At(n, p).items, i, j, new');
    ProperSplice(At(n, p).items, i, j, new', strs);
    PutGood(n, p, At(n, p).(items := Splice(At(n, p).items, i, j - i, new')), strs);
  }

  lemma EncOneProp(it: Item)
    requires it.Prop? && WfItem(it)
    ensures WfTokens(FlatItems([it])) && Enc(FlatItems([it])) == EncTok(TProp(it.nameoff, it.value, it.vpad))
  {
    hide EncTok, WfToken;
    var t := TProp(it.nameoff, it.value, it.vpad);
    FlatItemsOne(it);
    assert FlatItem(it) == [t] && [t][1..] == [];
    assert Enc([t]) == EncTok(t) + Enc([]);
  }

  /** A property of `len` bytes made of the gap `g` that follows the header. */
  function GapProp(nameoff: u32, len: nat, g: Bytes): Item
    requires len <= |g|
  {
    Prop(nameoff, g[..len], g[len..])
  }

  lemma GapPropFacts(nameoff: u32, len: nat, g: Bytes, strs: Bytes)
    requires len < FDT_MAX_SIZE && |g| == AlignUp(len) && GetString(strs, nameoff).Some?
    ensures WfItem(GapProp(nameoff, len, g)) && WfItems([GapProp(nameoff, len, g)])
    ensures ProperItems([GapProp(nameoff, len, g)], strs)
    ensures WfTokens(FlatItems([GapProp(nameoff, len, g)]))
    ensures Enc(FlatItems([GapProp(nameoff, len, g)])) == Word(FDT_PROP) + Word(len) + Word(nameoff) + g
  {
    hide Word, AlignUp, GetString, Enc, FlatItems;
    AlignFacts(0, len);
    var it := GapProp(nameoff, len, g);
    OneItem(it, strs);
    EncOneProp(it);
    assert EncTok(TProp(nameoff, g[..len], g[len..])) == Word(FDT_PROP) + Word(len) + Word(nameoff) +
           (g[..len] + g[len..]);
    assert g[..len] + g[len..] == g;
  }

  /** fdt_add_property_: a new first item. */
  lemma AddPropEdit(n: Node, p: Path, strs: Bytes, nameoff: u32, len: nat, g: Bytes)
    requires WfNode(n) && Proper(n, strs) && ValidPath(n, p)
    requires len < FDT_MAX_SIZE && |g| == AlignUp(len) && GetString(strs, nameoff).Some?
    ensures var n' := PutItems(n, p, 0, 0, [GapProp(nameoff, len, g)]);
            WfNode(n') && Proper(n', strs) && ItemOff(n, p, 0) <= |Encode(n)| &&
            Encode(n') == Splice(Encode(n), ItemOff(n, p, 0), 0, Word(FDT_PROP) + Word(len) + Word(nameoff) + g)
  {
    hide Word, AlignUp, GetString, Enc, FlatItems, WfNode, Proper, Encode, PutItems, GapProp, WfItems, ProperItems,
         WfItem;
    AlignFacts(0, len);
    var it := GapProp(nameoff, len, g);
    GapPropFacts(nameoff, len, g, strs);
    GapIsProp(nameoff, len, g);
    AtGood(n, p, strs);
    FrontProp(At(n, p), it, strs);
    PutItemsGood(n, p, 0, 0, [it], strs);
    EncodePutItems(n, p, 0, 0, [it]);
  }

  lemma FrontProp(n: Node, it: Item, strs: Bytes)
    requires Proper(n, strs) && !it.Child?
    ensures PropsFirst(Splice(n.items, 0, 0, [it]))
  {
    hide ProperItems;
    var items := Splice(n.items, 0, 0, [it]);
    assert items == [it] + n.items;
  }

  /** Swapping an item for others that are not subnodes, or for nothing, keeps properties first. */
  lemma SwapKeepsFirst(items: seq<Item>, i: nat, new': seq<Item>)
    requires PropsFirst(items) && i < |items|
    requires forall j :: 0 <= j < |new'| ==> !new'[j].Child? && (new'[j].Prop? ==> items[i].Prop?)
    ensures PropsFirst(Splice(items, i, 1, new'))
  {
    var items' := Splice(items, i, 1, new');
    forall a, b | 0 <= a < b < |items'| && items'[a].Child?
      ensures !items'[b].Prop?
    {
      var a0 := if a < i then a else a - |new'| + 1;
      assert items[a0].Child?;
      if i <= b < i + |new'| {
        assert items'[b] == new'[b - i];
        assert !items[i].Prop?;
      } else {
        assert items'[b] == items[if b < i then b else b - |new'| + 1];
      }
    }
  }

  /** The property item `i` with a value gap of another size. */
  lemma ResizePropEdit(n: Node, p: Path, i: nat, strs: Bytes, len: nat, g: Bytes)
    requires WfNode(n) && Proper(n, strs) && ValidPath(n, p) && i < |At(n, p).items| && At(n, p).items[i].Prop?
    requires len < FDT_MAX_SIZE && |g| == AlignUp(len)
    ensures var it := At(n, p).items[i];
            var o, n' := ItemOff(n, p, i), PutItems(n, p, i, i + 1, [GapProp(it.nameoff, len, g)]);
            WfNode(n') && Proper(n', strs) && o + 12 + AlignUp(|it.value|) <= |Encode(n)| &&
            ReadWord(Encode(n), o + 4) == |it.value| &&
            Encode(n') == Splice(Splice(Encode(n), o + 12, AlignUp(|it.value|), g), o + 4, 4, Word(len))
  {
    hide Word, AlignUp, GetString, Enc, FlatItems, FlatItem, WfNode, Proper, Encode, PutItems, GapProp, WfItems,
         ProperItems, WfItem, EncTok, WfToken, ReadWord, Has, Splice, PropsFirst;
    var it := At(n, p).items[i];
    var o := ItemOff(n, p, i);
    AlignFacts(0, len);
    AtGood(n, p, strs);
    ItemGood(At(n, p), i, strs);
    GapPropFacts(it.nameoff, len, g, strs);
    ItemBytes(n, p, i);
    FlatItemsOne(it);
    EncOneProp(it);
    PropFields(Encode(n), o, it.nameoff, it.value, it.vpad);
    PropResize(Encode(n), o, it.nameoff, it.value, it.vpad, len, g);
    PadSize(it);
    SwapKeepsFirst(At(n, p).items, i, [GapProp(it.nameoff, len, g)]) by {
      GapIsProp(it.nameoff, len, g);
    }
    PutItemsGood(n, p, i, i + 1, [GapProp(it.nameoff, len, g)], strs);
    EncodePutItems(n, p, i, i + 1, [GapProp(it.nameoff, len, g)]);
  }

  lemma GapIsProp(nameoff: u32, len: nat, g: Bytes)
    requires len <= |g|
    ensures GapProp(nameoff, len, g).Prop?
  {
  }

  lemma PadSize(it: Item)
    requires it.Prop? && WfItem(it)
    ensures |it.value + it.vpad| == AlignUp(|it.value|)
  {
  }

  lemma ItemGood(n: Node, i: nat, strs: Bytes)
    requires WfNode(n) && Proper(n, strs) && i < |n.items|
    ensures WfItem(n.items[i]) && ProperItem(n.items[i], strs) && PropsFirst(n.items)
    ensures n.items[i].Prop? ==>
              WfToken(TProp(n.items[i].nameoff, n.items[i].value, n.items[i].vpad)) &&
              GetString(strs, n.items[i].nameoff).Some?
  {
    hide WfItems, ProperItems, GetString, WfToken;
    WfSlice(n.items, i);
    assert n.items[i..i + 1] == [n.items[i]];
    ProperSplice(n.items, i, i + 1, [], strs) by { WfEmpty(strs); }
    OneItem(n.items[i], strs);
  }

  /** Removing item `i`. */
  lemma RemoveEdit(n: Node, p: Path, i: nat, strs: Bytes)
    requires WfNode(n) && Proper(n, strs) && ValidPath(n, p) && i < |At(n, p).items|
    ensures var n' := PutItems(n, p, i, i + 1, []);
            WfNode(n') && Proper(n', strs) && ItemOff(n, p, i) <= ItemOff(n, p, i + 1) <= |Encode(n)| &&
            Encode(n') == Splice(Encode(n), ItemOff(n, p, i), ItemOff(n, p, i + 1) - ItemOff(n, p, i), [])
  {
    hide Enc, FlatItems, WfNode, Proper, Encode, PutItems, WfItems, ProperItems, Splice, PropsFirst;
    AtGood(n, p, strs);
    ItemGood(At(n, p), i, strs);
    WfEmpty(strs);
    SwapKeepsFirst(At(n, p).items, i, []);
    PutItemsGood(n, p, i, i + 1, [], strs);
    EncodePutItems(n, p, i, i + 1, []);
    EncNone();
  }

  lemma EncNone()
    ensures FlatItems([]) == [] && Enc([]) == []
  {
  }

  /** Opening a gap and storing a property header at its start. */
  lemma HeaderInGap(s: Bytes, o: nat, gap: Bytes, len: u32, nameoff: u32)
    requires o <= |s| && |gap| >= 12
    ensures var s1 := Splice(s, o, 0, gap);
            |s1| == |s| + |gap| &&
            var s2 := Splice(s1, o, 4, Word(FDT_PROP));
            |s2| == |s1| &&
            var s3 := Splice(s2, o + 8, 4, Word(nameoff));
            |s3| == |s1| &&
            Splice(s3, o + 4, 4, Word(len)) ==
            Splice(s, o, 0, Word(FDT_PROP) + Word(len) + Word(nameoff) + gap[12..])
  {
    hide Word;
    PropHeaderStores(gap, len, nameoff);
    SpliceTwice(s, o, 0, gap, 0, Word(FDT_PROP));
    var g1 := Splice(gap, 0, 4, Word(FDT_PROP));
    SpliceTwice(s, o, 0, g1, 8, Word(nameoff));
    SpliceTwice(s, o, 0, Splice(g1, 8, 4, Word(nameoff)), 4, Word(len));
  }

  /** Storing a value of the stored size over a property's value. */
  lemma ValueEdit(n: Node, p: Path, i: nat, strs: Bytes, value: Bytes)
    requires WfNode(n) && Proper(n, strs) && ValidPath(n, p) && i < |At(n, p).items| && At(n, p).items[i].Prop?
    requires |At(n, p).items[i].value| == |value|
    ensures var it := At(n, p).items[i];
            var o, n' := ItemOff(n, p, i), PutItems(n, p, i, i + 1, [it.(value := value)]);
            WfNode(n') && Proper(n', strs) && o + 12 + |value| <= |Encode(n)| &&
            Encode(n') == Splice(Encode(n), o + 12, |value|, value)
  {
    hide Word, AlignUp, GetString, Enc, FlatItems, FlatItem, WfNode, Proper, Encode, PutItems, WfItems, ProperItems,
         EncTok, ReadWord, Has, Splice, PropsFirst, PadLen;
    var it := At(n, p).items[i];
    var it' := it.(value := value);
    var o := ItemOff(n, p, i);
    AtGood(n, p, strs);
    ItemGood(At(n, p), i, strs);
    OneItem(it', strs);
    ItemBytes(n, p, i);
    FlatItemsOne(it);
    EncOneProp(it);
    EncOneProp(it');
    ValueStore(Encode(n), o, it, value);
    SwapKeepsFirst(At(n, p).items, i, [it']);
    PutItemsGood(n, p, i, i + 1, [it'], strs);
    EncodePutItems(n, p, i, i + 1, [it']);
  }

  lemma ItemToken(it: Item)
    requires it.Prop? && WfItem(it)
    ensures WfToken(TProp(it.nameoff, it.value, it.vpad))
  {
    hide WfToken;
  }

  lemma HasRoom(s: Bytes, o: nat, x: Bytes)
    requires Has(s, o, x)
    ensures o + |x| <= |s|
  {
  }

  lemma ValueStore(s: Bytes, o: nat, it: Item, value: Bytes)
    requires it.Prop? && WfItem(it) && WfItem(it.(value := value)) && |value| == |it.value|
    requires Has(s, o, EncTok(TProp(it.nameoff, it.value, it.vpad)))
    ensures var x := EncTok(TProp(it.nameoff, it.value, it.vpad));
            o + 12 + |value| <= |s| && o + |x| <= |s| &&
            Splice(s, o + 12, |value|, value) == Splice(s, o, |x|, EncTok(TProp(it.nameoff, value, it.vpad)))
  {
    hide *;
    var t, t' := TProp(it.nameoff, it.value, it.vpad), TProp(it.nameoff, value, it.vpad);
    ItemToken(it);
    ItemToken(it.(value := value));
    PropEnc(t);
    PropEnc(t');
    var x, h := EncTok(t), Word(FDT_PROP) + Word(|value|) + Word(it.nameoff);
    HasRoom(s, o, x);
    SpliceMiddle(h, it.value, it.vpad, value);
    SpliceOver(s, o, x, 12, value);
  }

  /** Items before the first subnode. */
  function LeadCount(items: seq<Item>): (i: nat)
    ensures i <= |items|
    ensures forall j :: 0 <= j < i ==> !items[j].Child?
    ensures i < |items| ==> items[i].Child?
  {
    if items == [] || items[0].Child? then 0 else 1 + LeadCount(items[1..])
  }

  /** A new empty subnode with zeroed padding. */
  function EmptyNode(name: Bytes): Node {
    Node(name, seq(PadLen(|name| + 1), _ => 0), [])
  }

  lemma EmptyNodeFacts(name: Bytes, strs: Bytes)
    requires NulFree(name)
    ensures WfNode(EmptyNode(name)) && Proper(EmptyNode(name), strs)
    ensures forall k :: 0 <= k < |EmptyNode(name).pad| ==> EmptyNode(name).pad[k] == 0
    ensures WfItems([Child(EmptyNode(name))]) && ProperItems([Child(EmptyNode(name))], strs)
    ensures var y := FlatItems([Child(EmptyNode(name))]);
            WfTokens(y) && Enc(y) == Word(FDT_BEGIN_NODE) + (name + [0]) + EmptyNode(name).pad + Word(FDT_END_NODE)
  {
    hide Word, AlignUp;
    var c := EmptyNode(name);
    OneItem(Child(c), strs);
    FlatItemsOne(Child(c));
    var b := TBegin(name, c.pad);
    assert FlatItem(Child(c)) == [b] + [TEnd] by {
      assert FlatItems([]) == [];
      assert Flat(c) == [b] + [] + [TEnd];
    }
    EncConcat([b], [TEnd]);
    EncToken(b);
    EncToken(TEnd);
  }

  lemma InsertKeepsFirst(items: seq<Item>, c: Node)
    requires PropsFirst(items)
    ensures PropsFirst(Splice(items, LeadCount(items), 0, [Child(c)]))
  {
    var i := LeadCount(items);
    var items' := Splice(items, i, 0, [Child(c)]);
    forall a, b | 0 <= a < b < |items'| && items'[a].Child?
      ensures !items'[b].Prop?
    {
      assert a >= i;
      if b > i {
        assert items'[b] == items[b - 1];
        assert b - 1 > i ==> items[i].Child?;
      }
    }
  }

  /** fdt_add_subnode_namelen: an empty node before the first subnode. */
  lemma AddSubnodeEdit(n: Node, p: Path, name: Bytes, strs: Bytes)
    requires WfNode(n) && Proper(n, strs) && ValidPath(n, p) && NulFree(name)
    ensures var i := LeadCount(At(n, p).items);
            var n' := PutItems(n, p, i, i, [Child(EmptyNode(name))]);
            WfNode(n') && Proper(n', strs) && ItemOff(n, p, i) <= |Encode(n)| &&
            Encode(n') == Splice(Encode(n), ItemOff(n, p, i), 0,
                                 Word(FDT_BEGIN_NODE) + (name + [0]) + EmptyNode(name).pad + Word(FDT_END_NODE))
  {
    hide Word, AlignUp, Enc, FlatItems, WfNode, Proper, Encode, PutItems, WfItems, ProperItems, EmptyNode, PropsFirst,
         Splice, LeadCount;
    AtGood(n, p, strs);
    assert PropsFirst(At(n, p).items) by { ProperHere(At(n, p), strs); }
    var i := LeadCount(At(n, p).items);
    EmptyNodeFacts(name, strs);
    InsertKeepsFirst(At(n, p).items, EmptyNode(name));
    PutItemsGood(n, p, i, i, [Child(EmptyNode(name))], strs);
    EncodePutItems(n, p, i, i, [Child(EmptyNode(name))]);
  }

  lemma ProperHere(n: Node, strs: Bytes)
    requires Proper(n, strs)
    ensures PropsFirst(n.items)
  {
  }

  /** The stores of fdt_add_subnode_namelen into its gap. */
  lemma NodeInGap(s: Bytes, o: nat, gap: Bytes, name: Bytes, pad: Bytes)
    requires o <= |s| && |gap| == 8 + |name| + 1 + |pad| && forall i :: 0 <= i < |pad| ==> pad[i] == 0
    ensures var zeros: Bytes := seq(|name| + 1 + |pad|, _ => 0);
            var s1 := Splice(s, o, 0, gap);
            |s1| == |s| + |gap| &&
            var s2 := Splice(s1, o, 4, Word(FDT_BEGIN_NODE));
            |s2| == |s1| &&
            var s3 := Splice(s2, o + 4, |zeros|, zeros);
            |s3| == |s1| &&
            var s4 := Splice(s3, o + 4, |name|, name);
            |s4| == |s1| &&
            Splice(s4, o + 4 + |zeros|, 4, Word(FDT_END_NODE)) ==
            Splice(s, o, 0, Word(FDT_BEGIN_NODE) + (name + [0]) + pad + Word(FDT_END_NODE))
  {
    hide Word;
    var zeros: Bytes := seq(|name| + 1 + |pad|, _ => 0);
    var g1 := Splice(gap, 0, 4, Word(FDT_BEGIN_NODE));
    SpliceTwice(s, o, 0, gap, 0, Word(FDT_BEGIN_NODE));
    SpliceTwice(s, o, 0, g1, 4, zeros);
    var g2 := Splice(g1, 4, |zeros|, zeros);
    SpliceTwice(s, o, 0, g2, 4, name);
    var g3 := Splice(g2, 4, |name|, name);
    SpliceTwice(s, o, 0, g3, 4 + |zeros|, Word(FDT_END_NODE));
    GapStores(gap, name, pad);
  }

  lemma GapStores(gap: Bytes, name: Bytes, pad: Bytes)
    requires |gap| == 8 + |name| + 1 + |pad| && forall i :: 0 <= i < |pad| ==> pad[i] == 0
    ensures var zeros: Bytes := seq(|name| + 1 + |pad|, _ => 0);
            var g1 := Splice(gap, 0, 4, Word(FDT_BEGIN_NODE));
            var g3 := Splice(Splice(g1, 4, |zeros|, zeros), 4, |name|, name);
            |g3| == |gap| &&
            Splice(g3, 4 + |zeros|, 4, Word(FDT_END_NODE)) ==
            Word(FDT_BEGIN_NODE) + (name + [0]) + pad + Word(FDT_END_NODE)
  {
    hide Word;
    var zeros: Bytes := seq(|name| + 1 + |pad|, _ => 0);
    var w, e := Word(FDT_BEGIN_NODE), gap[4 + |zeros|..];
    assert Splice(gap, 0, 4, w) == w + gap[4..4 + |zeros|] + e;
    SpliceMiddle(w, gap[4..4 + |zeros|], e, zeros);
    SpliceInner(w, zeros, e, 0, |name|, name);
    var body := Splice(zeros, 0, |name|, name);
    assert body == name + ([0] + pad);
    hide Splice;
    EndStore(w + body, e, Word(FDT_END_NODE));
    Regroup(w, name, [0], pad, Word(FDT_END_NODE));
  }

  lemma EndStore<T>(a: seq<T>, e: seq<T>, e': seq<T>)
    requires |e| == |e'|
    ensures Splice(a + e, |a|, |e|, e') == a + e'
  {
  }

  lemma Regroup<T>(w: seq<T>, a: seq<T>, b: seq<T>, c: seq<T>, d: seq<T>)
    ensures w + (a + (b + c)) + d == w + (a + b) + c + d
  {
  }

  // ---- overwriting with NOPs ----

  function Nops(m: nat): (items: seq<Item>)
    ensures |items| == m && forall j :: 0 <= j < m ==> items[j] == Nop
  {
    seq(m, _ => Nop)
  }

  /** `m` NOP words. */
  function NopBytes(m: nat): (b: Bytes)
    ensures |b| == 4 * m
  {
    if m == 0 then [] else NopBytes(m - 1) + Word(FDT_NOP)
  }

  lemma {:induction false} NopsFacts(m: nat, strs: Bytes)
    ensures WfItems(Nops(m)) && ProperItems(Nops(m), strs)
    ensures WfTokens(FlatItems(Nops(m))) && Enc(FlatItems(Nops(m))) == NopBytes(m)
  {
    hide Word, FlatItems, WfItems, ProperItems, Enc, WfTokens;
    if m == 0 {
      assert Nops(0) == [];
      WfEmpty(strs);
      EncNone();
      WfNone();
    } else {
      NopsFacts(m - 1, strs);
      assert Nops(m) == Nops(m - 1) + [Nop];
      OneItem(Nop, strs);
      WfItemsConcat(Nops(m - 1), [Nop]);
      ProperItemsConcat(Nops(m - 1), [Nop], strs);
      FlatItemsConcat(Nops(m - 1), [Nop]);
      FlatItemsOne(Nop);
      NopToken();
      EncConcat(FlatItems(Nops(m - 1)), [TNop]);
    }
  }

  lemma WfNone()
    ensures WfTokens([])
  {
  }

  lemma NopToken()
    ensures FlatItem(Nop) == [TNop] && WfTokens([TNop]) && Enc([TNop]) == Word(FDT_NOP)
  {
    hide Word;
    EncToken(TNop);
  }

  /** Overwriting item `i` with NOP words. */
  lemma NopEdit(n: Node, p: Path, i: nat, m: nat, strs: Bytes)
    requires WfNode(n) && Proper(n, strs) && ValidPath(n, p) && i < |At(n, p).items|
    requires ItemOff(n, p, i + 1) == ItemOff(n, p, i) + 4 * m
    ensures var n' := PutItems(n, p, i, i + 1, Nops(m));
            WfNode(n') && Proper(n', strs) && ItemOff(n, p, i) + 4 * m <= |Encode(n)| &&
            Encode(n') == Splice(Encode(n), ItemOff(n, p, i), 4 * m, NopBytes(m))
  {
    hide Enc, FlatItems, WfNode, Proper, Encode, PutItems, WfItems, ProperItems, Splice, PropsFirst, ItemOff, NopBytes;
    AtGood(n, p, strs);
    ItemGood(At(n, p), i, strs);
    NopsFacts(m, strs);
    SwapKeepsFirst(At(n, p).items, i, Nops(m));
    PutItemsGood(n, p, i, i + 1, Nops(m), strs);
    EncodePutItems(n, p, i, i + 1, Nops(m));
  }

  // ---- subnode lookup and the insertion point ----

  /** Index of the first subnode item whose name matches, or the length. */
  function MatchIndex(items: seq<Item>, name: Bytes): (i: nat)
    ensures i <= |items|
    ensures i < |items| ==> items[i].Child? && NodeNameEq(items[i].node.name, name)
    ensures forall j :: 0 <= j < i && items[j].Child? ==> !NodeNameEq(items[j].node.name, name)
  {
    if items == [] then 0
    else if items[0].Child? && NodeNameEq(items[0].node.name, name) then 0
    else 1 + MatchIndex(items[1..], name)
  }

  lemma {:induction false} KidsMatch(items: seq<Item>, k: nat, name: Bytes)
    ensures var kids, m := Kids(items, k), MatchIndex(items, name);
            var f := FirstMatch(kids, name);
            (f < |kids| <==> m < |items|) &&
            (f < |kids| ==> kids[f].k == k + |FlatItems(items[..m])|)
  {
    hide FlatItem, FlatItems, NodeNameEq, Kids, FirstMatch;
    KidsNone(k);
    if items != [] {
      var rest, k' := items[1..], k + |FlatItem(items[0])|;
      KidsStep(items, k);
      KidsMatch(rest, k', name);
      LeadNone(items);
      if items[0].Child? {
        FirstMatchCons(Visit(k, 1, items[0].node), Kids(rest, k'), name);
      }
      if !(items[0].Child? && NodeNameEq(items[0].node.name, name)) {
        TakeOneMore(items, MatchIndex(rest, name));
      }
    }
  }

  lemma KidsNone(k: nat)
    ensures Kids([], k) == []
  {
  }

  lemma FirstMatchCons(v: Visit, kids: seq<Visit>, name: Bytes)
    ensures FirstMatch([v] + kids, name) == if NodeNameEq(v.node.name, name) then 0 else 1 + FirstMatch(kids, name)
  {
    hide NodeNameEq;
    assert ([v] + kids)[1..] == kids;
  }

  lemma TakeOneMore(items: seq<Item>, m: nat)
    requires items != [] && m < |items|
    ensures |FlatItems(items[..m + 1])| == |FlatItem(items[0])| + |FlatItems(items[1..][..m])|
  {
    hide FlatItem, FlatItems;
    assert items[..m + 1] == [items[0]] + items[1..][..m];
    FlatItemsConcat([items[0]], items[1..][..m]);
    FlatItemsOne(items[0]);
  }

  /** fdt_subnode_offset on the bytes of a tree. */
  lemma SubnodeOnTree(n: Node, p: Path, name: Bytes)
    requires WfNode(n) && ValidPath(n, p)
    ensures Scannable(Encode(n), NodeOff(n, p))
    ensures var i := MatchIndex(At(n, p).items, name);
            SubnodeOffset(Encode(n), NodeOff(n, p), name) ==
            if i < |At(n, p).items| then ItemOff(n, p, i) else NOTFOUND
  {
    hide Encode, Stream, Flat, WfNode, Enc, Off, Has, Pos, FlatItems, SubnodeOffset, Scannable, Kids, FirstMatch,
         MatchIndex, WfTokens;
    StreamFacts(n);
    PosBound(n, p);
    SubnodeOffsetIsFirstMatch(Stream(n), At(n, p), Pos(n, p), name);
    var items := At(n, p).items;
    KidsMatch(items, Pos(n, p) + 1, name);
    StreamLen(n);
    if MatchIndex(items, name) < |items| {
      ItemPosBound(n, p, MatchIndex(items, name));
    }
  }

  /** The scan past the properties of a node. */
  function AfterProps(s: Bytes, offset: nat): int
    requires Scannable(s, offset)
    decreases |s| + 4 - offset
  {
    var (tag, next) := NextTag(s, offset);
    if tag == FDT_PROP || tag == FDT_NOP then AfterProps(s, next) else offset
  }

  method ReadAfterProps(s: Bytes, offset: nat) returns (r: int)
    requires Scannable(s, offset)
    ensures r == AfterProps(s, offset)
  {
    var nextoffset, tag: int := offset, FDT_NOP;
    r := offset;
    while tag == FDT_PROP || tag == FDT_NOP
      invariant tag == FDT_PROP || tag == FDT_NOP ==>
                  nextoffset >= 0 && Scannable(s, nextoffset) && AfterProps(s, nextoffset) == AfterProps(s, offset)
      invariant !(tag == FDT_PROP || tag == FDT_NOP) ==> r == AfterProps(s, offset)
      decreases tag == FDT_PROP || tag == FDT_NOP, |s| + 4 - nextoffset
    {
      r := nextoffset;
      tag, nextoffset := ReadNextTag(s, r);
    }
  }

  lemma {:induction false} AfterPropsLoop(ts: seq<Token>, items: seq<Item>, k: nat)
    requires Block(ts) && Inside(ts, items, k)
    ensures k + LeadCount(items) < |ts| && Scannable(Enc(ts), Off(ts, k))
    ensures AfterProps(Enc(ts), Off(ts, k)) == Off(ts, k + LeadCount(items))
    decreases items
  {
    hide Has, Enc, Off, NextTag, FlatItems, Flat, WfTokens, Inside;
    ItemTokens(ts, items, k);
    BlockScannable(ts, k);
    NextTagAt(ts, k);
    if items != [] && !items[0].Child? {
      InsideTail(ts, items, k);
      AfterPropsLoop(ts, items[1..], k + 1) by { LeadOne(items[0]); }
    }
  }

  /** The insertion point of a new subnode on the bytes of a tree. */
  lemma AfterPropsOnTree(n: Node, p: Path)
    requires WfNode(n) && ValidPath(n, p)
    ensures Scannable(Encode(n), ItemOff(n, p, 0))
    ensures AfterProps(Encode(n), ItemOff(n, p, 0)) == ItemOff(n, p, LeadCount(At(n, p).items))
  {
    hide Encode, Stream, Flat, WfNode, Enc, Off, Has, Pos, FlatItems, AfterProps, Scannable, WfTokens, LeadCount;
    StreamFacts(n);
    PosBound(n, p);
    var items := At(n, p).items;
    NodeInside(Stream(n), At(n, p), Pos(n, p));
    AfterPropsLoop(Stream(n), items, Pos(n, p) + 1);
    ItemPosZero(n, p);
    LeadLen(items, LeadCount(items)) by { LeadFacts(items); }
  }

  lemma LeadFacts(items: seq<Item>)
    ensures LeadCount(items) <= |items| && forall j :: 0 <= j < LeadCount(items) ==> !items[j].Child?
  {
  }

  /** Size of one stored item. */
  lemma PropItemSize(n: Node, p: Path, i: nat)
    requires WfNode(n) && ValidPath(n, p) && i < |At(n, p).items| && At(n, p).items[i].Prop?
    ensures ItemOff(n, p, i + 1) == ItemOff(n, p, i) + 12 + AlignUp(|At(n, p).items[i].value|)
  {
    hide WfNode, ItemOff, Enc, FlatItems, EncTok, WfItems, Has, Encode;
    var it := At(n, p).items[i];
    ItemBytes(n, p, i);
    OneItem(it, []);
    FlatItemsOne(it);
    EncOneProp(it);
    EncTokLen(TProp(it.nameoff, it.value, it.vpad));
  }

  lemma ItemOffAligned(n: Node, p: Path, i: nat)
    requires WfNode(n) && ValidPath(n, p) && i <= |At(n, p).items|
    ensures ItemOff(n, p, i) % 4 == 0
  {
    hide WfNode, Off, Stream;
    StreamFacts(n);
    ItemPosBound(n, p, i);
    OffAligned(Stream(n), ItemPos(n, p, i)) by { StreamLen(n); }
  }
}
