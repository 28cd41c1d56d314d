/**
 Walking the properties and the subnodes of a node by offset, in order, on the bytes of a tree.
 */
module FdtIter {
  import opened Common
  import opened FdtBytes
  import opened FdtTokens
  import opened FdtTree
  import opened FdtScan
  import opened FdtVisit
  import opened FdtNodes
  import opened FdtProps
  import opened FdtEdit
  import opened FdtView
  import opened FdtDecode
  import opened FdtSplice
  import opened FdtOps
  import opened FdtMeaning

  lemma {:induction false} InsideDrop(ts: seq<Token>, items: seq<Item>, k: nat, j: nat)
    requires Inside(ts, items, k) && j <= |items|
    ensures Inside(ts, items[j..], k + |FlatItems(items[..j])|)
  {
    hide FlatItems, Has;
    assert items == items[..j] + items[j..];
    FlatItemsConcat(items[..j], items[j..]);
    HasSplit(ts, k, FlatItems(items[..j]), FlatItems(items[j..]));
  }

  // ---- properties ----

  /** NOPs at the start of `items`. */
  function NopRun(items: seq<Item>): (i: nat)
    ensures i <= |items|
    ensures forall j :: 0 <= j < i ==> items[j].Nop?
    ensures i < |items| ==> !items[i].Nop?
  {
    if items == [] || !items[0].Nop? then 0 else 1 + NopRun(items[1..])
  }

  lemma {:induction false} NextPropLoop(ts: seq<Token>, items: seq<Item>, k: nat)
    requires Block(ts) && Inside(ts, items, k)
    ensures Scannable(Enc(ts), Off(ts, k)) && k + NopRun(items) < |ts|
    ensures NextPropFrom(Enc(ts), Off(ts, k)) ==
            if NopRun(items) < |items| && items[NopRun(items)].Prop? then Off(ts, k + NopRun(items)) else NOTFOUND
    decreases items
  {
    hide Has, Enc, Off, NextTag, FlatItems, Flat, WfTokens, Inside;
    ItemTokens(ts, items, k);
    BlockScannable(ts, k);
    NextTagAt(ts, k);
    if items != [] && items[0].Nop? {
      InsideTail(ts, items, k);
      LeadOne(items[0]);
      NextPropLoop(ts, items[1..], k + 1);
    }
  }

  /** Index of the next property item from item `j` on, among items before the first subnode. */
  ghost function NextPropIndex(items: seq<Item>, j: nat): (i: nat)
    requires j <= |items|
    ensures j <= i <= |items|
    ensures i < |items| ==> items[i].Prop? && forall m :: j <= m < i ==> items[m].Nop?
  {
    var i := j + NopRun(items[j..]);
    if i < |items| && items[i].Prop? then i else |items|
  }

  /** The property scan from item `j` of a node. */
  lemma NextPropOnTree(n: Node, p: Path, j: nat)
    requires WfNode(n) && ValidPath(n, p) && j <= |At(n, p).items|
    ensures Scannable(Encode(n), ItemOff(n, p, j))
    ensures var i := NextPropIndex(At(n, p).items, j);
            NextPropFrom(Encode(n), ItemOff(n, p, j)) == if i < |At(n, p).items| then ItemOff(n, p, i) else NOTFOUND
  {
    hide Encode, Stream, Flat, WfNode, Enc, Off, Has, Pos, FlatItems, NextPropFrom, Scannable, WfTokens, Inside, NopRun;
    var items, ts := At(n, p).items, Stream(n);
    StreamFacts(n);
    PosBound(n, p);
    NodeInside(ts, At(n, p), Pos(n, p));
    InsideDrop(ts, items, Pos(n, p) + 1, j);
    NextPropLoop(ts, items[j..], ItemPos(n, p, j));
    var i := NextPropIndex(items, j);
    if i < |items| {
      ItemPosStep(n, p, j, i);
      NopsLen(items[j..i]);
    }
  }

  lemma {:induction false} NopsLen(items: seq<Item>)
    requires forall j :: 0 <= j < |items| ==> items[j].Nop?
    ensures |FlatItems(items)| == |items|
  {
    if items != [] {
      NopsLen(items[1..]);
    }
  }

  lemma FirstPropOnTree(n: Node, p: Path)
    requires WfNode(n) && ValidPath(n, p)
    ensures Scannable(Encode(n), NodeOff(n, p)) && Scannable(Encode(n), ItemOff(n, p, 0))
    ensures FirstProp(Encode(n), NodeOff(n, p)) == NextPropFrom(Encode(n), ItemOff(n, p, 0))
  {
    hide Encode, WfNode, Scannable, NextPropFrom, ItemOff, NodeOff;
    HeaderAt(n, p);
    NextPropOnTree(n, p, 0);
  }

  lemma AfterPropOnTree(n: Node, p: Path, i: nat)
    requires WfNode(n) && ValidPath(n, p) && i < |At(n, p).items| && At(n, p).items[i].Prop?
    ensures Scannable(Encode(n), ItemOff(n, p, i)) && Scannable(Encode(n), ItemOff(n, p, i + 1))
    ensures NextProp(Encode(n), ItemOff(n, p, i)) == NextPropFrom(Encode(n), ItemOff(n, p, i + 1))
  {
    hide Encode, Stream, Flat, WfNode, Enc, Off, Has, Pos, FlatItems, NextPropFrom, Scannable, WfTokens, Inside,
         NextTag;
    var ts := Stream(n);
    StreamFacts(n);
    NextPropOnTree(n, p, i);
    NextPropOnTree(n, p, i + 1);
    ItemPosBound(n, p, i);
    StreamLen(n);
    OffAligned(ts, ItemPos(n, p, i));
    NextTagAt(ts, ItemPos(n, p, i));
    PropToken(n, p, i);
  }

  lemma PropToken(n: Node, p: Path, i: nat)
    requires WfNode(n) && ValidPath(n, p) && i < |At(n, p).items| && At(n, p).items[i].Prop?
    ensures ItemPos(n, p, i + 1) == ItemPos(n, p, i) + 1 < |Stream(n)|
    ensures var it := At(n, p).items[i];
            Stream(n)[ItemPos(n, p, i)] == TProp(it.nameoff, it.value, it.vpad)
  {
    hide Stream, Flat, WfNode, Has, Pos, FlatItems;
    var items := At(n, p).items;
    PosBound(n, p);
    NodeHasItem(Stream(n), Pos(n, p), At(n, p), i);
    HasAt(Stream(n), ItemPos(n, p, i), FlatItem(items[i]));
    ItemPosStep(n, p, i, i + 1);
    assert items[i..i + 1] == [items[i]];
    FlatItemsOne(items[i]);
    ItemPosBound(n, p, i + 1);
    StreamLen(n);
    assert Stream(n)[ItemPos(n, p, i)] == FlatItem(items[i])[0];
  }

  /** Name and value read at a property of a proper tree. */
  lemma PropReadOnTree(n: Node, p: Path, i: nat, strs: Bytes)
    requires WfNode(n) && Proper(n, strs) && ValidPath(n, p) && i < |At(n, p).items| && At(n, p).items[i].Prop?
    ensures var it, o := At(n, p).items[i], ItemOff(n, p, i);
            GetString(strs, it.nameoff).Some? &&
            PropName(Encode(n), strs, o) == GetString(strs, it.nameoff) &&
            PropValue(Encode(n), o) == Some(it.value) &&
            o + 12 + |it.value| <= |Encode(n)|
    ensures NulFree(GetString(strs, At(n, p).items[i].nameoff).value)
  {
    hide Encode, Stream, Flat, WfNode, Enc, Off, Pos, FlatItems, WfTokens, GetString, PropValue, Proper;
    StreamFacts(n);
    PropToken(n, p, i);
    PropAt(Stream(n), ItemPos(n, p, i));
    AtGood(n, p, strs);
    ItemGood(At(n, p), i, strs);
    StringNulFree(strs, At(n, p).items[i].nameoff);
    PropValueBound(Encode(n), ItemOff(n, p, i));
  }

  lemma PropValueBound(s: Bytes, o: nat)
    requires PropValue(s, o).Some?
    ensures o + 12 + |PropValue(s, o).value| <= |s|
  {
    hide ReadWord;
  }

  lemma StringNulFree(strs: Bytes, off: u32)
    requires GetString(strs, off).Some?
    ensures NulFree(GetString(strs, off).value)
  {
    var name := GetString(strs, off).value;
    forall i | 0 <= i < |name|
      ensures name[i] != 0
    {
      assert name[i] == strs[off + i];
    }
  }

  // ---- subnodes ----

  /** Item index of subnode number `m`, or the number of items. */
  ghost function KidItem(items: seq<Item>, m: nat): (i: nat)
    ensures i <= |items|
    ensures i < |items| ==> items[i].Child?
  {
    if items == [] then 0
    else if items[0].Child? then (if m == 0 then 0 else 1 + KidItem(items[1..], m - 1))
    else 1 + KidItem(items[1..], m)
  }

  lemma {:induction false} KidItemFacts(items: seq<Item>, k: nat, m: nat, strs: Bytes)
    ensures |Kids(items, k)| == |ViewKids(items, strs)|
    ensures m < |Kids(items, k)| <==> KidItem(items, m) < |items|
    ensures m < |Kids(items, k)| ==>
              var i := KidItem(items, m);
              Kids(items, k)[m] == Visit(k + |FlatItems(items[..i])|, 1, items[i].node) &&
              ViewKids(items, strs)[m] == View(items[i].node, strs) &&
              |ViewKids(items[..i], strs)| == m
    decreases items
  {
    hide FlatItem, View, FlatItems, ViewKids, Kids;
    LeadNone(items);
    ViewNone(strs);
    assert items[..0] == [];
    if items == [] {
      KidsNone(k);
    } else {
      var rest, k' := items[1..], k + |FlatItem(items[0])|;
      var m' := if items[0].Child? && m > 0 then m - 1 else m;
      KidsStep(items, k);
      ViewKidsStep(items, strs);
      KidItemFacts(rest, k', m', strs);
      if !(items[0].Child? && m == 0) && KidItem(rest, m') < |rest| {
        TakeOneMore(items, KidItem(rest, m'));
        TakeOneMoreView(items, KidItem(rest, m'), strs);
      }
    }
  }

  lemma ViewKidsStep(items: seq<Item>, strs: Bytes)
    requires items != []
    ensures ViewKids(items, strs) ==
            if items[0].Child? then [View(items[0].node, strs)] + ViewKids(items[1..], strs)
              else ViewKids(items[1..], strs)
  {
    hide View;
    assert [] + ViewKids(items[1..], strs) == ViewKids(items[1..], strs);
  }

  lemma TakeOneMoreView(items: seq<Item>, i: nat, strs: Bytes)
    requires items != [] && i < |items|
    ensures |ViewKids(items[..i + 1], strs)| ==
            (if items[0].Child? then 1 else 0) + |ViewKids(items[1..][..i], strs)|
  {
    hide View, ViewKids;
    assert items[..i + 1][0] == items[0] && items[..i + 1][1..] == items[1..][..i];
    ViewKidsStep(items[..i + 1], strs);
  }

  /** The subnode item `i` of the node at `p` is the node at `p + [i]`. */
  lemma {:induction false} ChildPath(n: Node, p: Path, i: nat)
    requires ValidPath(n, p) && i < |At(n, p).items| && At(n, p).items[i].Child?
    ensures ValidPath(n, p + [i]) && At(n, p + [i]) == At(n, p).items[i].node
    ensures Pos(n, p + [i]) == ItemPos(n, p, i)
    decreases |p|
  {
    hide FlatItems;
    if p == [] {
      assert (p + [i])[1..] == [];
    } else {
      assert (p + [i])[1..] == p[1..] + [i] && (p + [i])[0] == p[0];
      ChildPath(n.items[p[0]].node, p[1..], i);
    }
  }

  lemma ChildOff(n: Node, p: Path, i: nat)
    requires WfNode(n) && ValidPath(n, p) && i < |At(n, p).items| && At(n, p).items[i].Child?
    ensures ValidPath(n, p + [i]) && NodeOff(n, p + [i]) == ItemOff(n, p, i)
  {
    hide WfNode, Off, Stream;
    ChildPath(n, p, i);
  }

  /** Offset of subnode number `m` of the node at `p`, or NOTFOUND. */
  ghost function KidOff(n: Node, p: Path, m: nat): int
    requires WfNode(n) && ValidPath(n, p)
  {
    var i := KidItem(At(n, p).items, m);
    if i < |At(n, p).items| then ItemOff(n, p, i) else NOTFOUND
  }

  lemma KidOffIs(n: Node, p: Path, m: nat)
    requires WfNode(n) && ValidPath(n, p)
    ensures WfTokens(Stream(n))
    ensures KidOff(n, p, m) == OffOr(Stream(n), Kids(At(n, p).items, Pos(n, p) + 1), m)
  {
    hide WfNode, Off, Stream, FlatItems, Pos, Kids, WfTokens, ViewKids, View, KidItem, Enc, Flat, Has, Closed, Block,
         At, ValidPath;
    var items := At(n, p).items;
    StreamFacts(n);
    KidItemFacts(items, Pos(n, p) + 1, m, []);
    if KidItem(items, m) < |items| {
      ItemPosBound(n, p, KidItem(items, m));
      StreamLen(n);
    }
  }

  /** fdt_first_subnode and fdt_next_subnode list the subnodes of a node in order and then stop. */
  lemma SubnodesInOrder(n: Node, p: Path, m: nat)
    requires WfNode(n) && ValidPath(n, p)
    ensures Scannable(Encode(n), NodeOff(n, p))
    ensures FirstSubnode(Encode(n), NodeOff(n, p)) == KidOff(n, p, 0)
    ensures KidOff(n, p, m) >= 0 ==>
              Scannable(Encode(n), KidOff(n, p, m)) &&
              NextSubnode(Encode(n), KidOff(n, p, m)) == KidOff(n, p, m + 1)
  {
    hide WfNode, Off, Stream, FlatItems, Pos, Kids, WfTokens, Encode, Scannable, FirstSubnode, NextSubnode, KidOff, Has,
         Flat, Enc, Block, Inside, VisitsOk;
    var ts, items, k := Stream(n), At(n, p).items, Pos(n, p) + 1;
    StreamFacts(n);
    PosBound(n, p);
    NodeInside(ts, At(n, p), Pos(n, p));
    FirstSubnodeIsFirstKid(ts, At(n, p), Pos(n, p));
    KidOffIs(n, p, 0);
    KidOffIs(n, p, m);
    KidOffIs(n, p, m + 1);
    if m < |Kids(items, k)| {
      NextSubnodeIsNextKid(ts, items, k, m);
    }
  }
}
