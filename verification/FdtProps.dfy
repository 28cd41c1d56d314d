/** Property and string lookup: the property list of a node, read tag by tag. */
module FdtProps {
  import opened Common
  import opened FdtBytes
  import opened FdtTokens
  import opened FdtTree
  import opened FdtScan
  import opened FdtVisit
  import opened FdtNodes

  /** fdt_get_string on a finished blob: the NUL-terminated string at `off` of the strings block. */
  function GetString(strs: Bytes, off: u32): Option<Bytes> {
    if off >= |strs| then None
    else if FindNul(strs, off) == |strs| then None
    else Some(strs[off..FindNul(strs, off)])
  }

  function CheckPropOffset(s: Bytes, offset: int): int {
    if offset < 0 || offset % FDT_TAGSIZE != 0 || NextTag(s, offset).0 != FDT_PROP
    then -FDT_ERR_BADOFFSET
    else NextTag(s, offset).1
  }

  /** The loop of nextprop_. */
  function NextPropFrom(s: Bytes, off: nat): (r: int)
    requires Scannable(s, off)
    ensures r >= 0 ==> r >= off && NextTag(s, r).0 == FDT_PROP && Scannable(s, r)
    decreases |s| + 4 - off
  {
    var (tag, next) := NextTag(s, off);
    if tag == FDT_END then (if next >= 0 then -FDT_ERR_BADSTRUCTURE else next)
    else if tag == FDT_PROP then off
    else if tag == FDT_NOP then NextPropFrom(s, next)
    else NOTFOUND
  }

  method ReadNextPropFrom(s: Bytes, off: nat) returns (offset: int)
    requires Scannable(s, off)
    ensures offset == NextPropFrom(s, off)
  {
    var tag := FDT_NOP;
    offset := off;
    while tag == FDT_NOP
      invariant tag == FDT_NOP ==>
                  offset >= 0 && Scannable(s, offset) && NextPropFrom(s, off) == NextPropFrom(s, offset)
      invariant tag != FDT_NOP ==> NextPropFrom(s, off) == NOTFOUND
      decreases tag == FDT_NOP, |s| + 4 - offset
    {
      var nextoffset;
      tag, nextoffset := ReadNextTag(s, offset);
      if tag == FDT_END {
        return if nextoffset >= 0 then -FDT_ERR_BADSTRUCTURE else nextoffset;
      } else if tag == FDT_PROP {
        return offset;
      }
      offset := nextoffset;
    }
    return NOTFOUND;
  }

  function FirstProp(s: Bytes, nodeoffset: int): (r: int)
    requires nodeoffset >= 0 ==> Scannable(s, nodeoffset)
    ensures r >= 0 ==> NextTag(s, r).0 == FDT_PROP && Scannable(s, r)
  {
    var offset := CheckNodeOffset(s, nodeoffset);
    if offset < 0 then offset else NextPropFrom(s, offset)
  }

  function NextProp(s: Bytes, propoffset: int): (r: int)
    requires propoffset >= 0 ==> Scannable(s, propoffset)
    ensures r >= 0 ==> r > propoffset && NextTag(s, r).0 == FDT_PROP && Scannable(s, r)
  {
    var offset := CheckPropOffset(s, propoffset);
    if offset < 0 then offset else NextPropFrom(s, offset)
  }

  lemma PropHeader(s: Bytes, off: nat)
    requires NextTag(s, off).0 == FDT_PROP
    ensures off + 8 <= |s|
  {
  }

  /** The string a property's name offset selects; nothing when the header is cut short. */
  function PropName(s: Bytes, strs: Bytes, off: nat): Option<Bytes> {
    if off + 12 <= |s| then GetString(strs, ReadWord(s, off + 8)) else None
  }

  /** The loop of fdt_get_property_namelen_ from the property at `offset`. */
  function FindPropFrom(s: Bytes, strs: Bytes, offset: int, name: Bytes): int
    requires offset >= 0 ==> Scannable(s, offset) && NextTag(s, offset).0 == FDT_PROP
    decreases if offset < 0 then 0 else if offset > |s| then 1 else |s| + 1 - offset
  {
    if offset < 0 then offset else
    PropHeader(s, offset);
    if PropName(s, strs, offset) == Some(name) then offset
    else FindPropFrom(s, strs, NextProp(s, offset), name)
  }

  /** Offset of the property `name` of the node at `nodeoffset`, or an error. */
  function FindProp(s: Bytes, strs: Bytes, nodeoffset: int, name: Bytes): int
    requires nodeoffset >= 0 ==> Scannable(s, nodeoffset)
  {
    FindPropFrom(s, strs, FirstProp(s, nodeoffset), name)
  }

  method ReadFindProp(s: Bytes, strs: Bytes, nodeoffset: int, name: Bytes) returns (offset: int)
    requires nodeoffset >= 0 ==> Scannable(s, nodeoffset)
    ensures offset == FindProp(s, strs, nodeoffset, name)
  {
    offset := CheckNodeOffset(s, nodeoffset);
    if offset >= 0 {
      offset := ReadNextPropFrom(s, offset);
    }
    while offset >= 0
      invariant offset >= 0 ==> Scannable(s, offset) && NextTag(s, offset).0 == FDT_PROP
      invariant FindProp(s, strs, nodeoffset, name) == FindPropFrom(s, strs, offset, name)
      decreases if offset < 0 then 0 else if offset > |s| then 1 else |s| + 1 - offset
    {
      PropHeader(s, offset);
      if PropName(s, strs, offset) == Some(name) {
        return;
      }
      offset := CheckPropOffset(s, offset);
      if offset >= 0 {
        offset := ReadNextPropFrom(s, offset);
      }
    }
  }

  /** The value of the property at `offset`. */
  function PropValue(s: Bytes, offset: nat): Option<Bytes> {
    if offset + 12 <= |s| && offset + 12 + ReadWord(s, offset + 4) <= |s|
    then Some(s[offset + 12..offset + 12 + ReadWord(s, offset + 4)])
    else None
  }

  // ---- the same facts on the tree ----

  /** Index of the property `name` among the items before the first subnode, or the length. */
  function PropIndex(items: seq<Item>, strs: Bytes, name: Bytes): (i: nat)
    ensures i <= |items|
    ensures i < |items| ==> items[i].Prop? && GetString(strs, items[i].nameoff) == Some(name)
    ensures forall j :: 0 <= j < i < |items| ==>
              !items[j].Child? && (items[j].Prop? ==> GetString(strs, items[j].nameoff) != Some(name))
  {
    if items == [] || items[0].Child? then |items|
    else if items[0].Prop? && GetString(strs, items[0].nameoff) == Some(name) then 0
    else 1 + PropIndex(items[1..], strs, name)
  }

  /** Reading at an encoded property. */
  lemma PropAt(ts: seq<Token>, k: nat)
    requires WfTokens(ts) && k < |ts| && ts[k].TProp?
    ensures Off(ts, k) + 12 <= |Enc(ts)| && ReadWord(Enc(ts), Off(ts, k) + 8) == ts[k].nameoff
    ensures PropValue(Enc(ts), Off(ts, k)) == Some(ts[k].value)
  {
    hide Enc, Off, EncTok, Word, ReadWord;
    WfTokenAt(ts, k);
    EncAt(ts, k);
    PropFields(Enc(ts), Off(ts, k), ts[k].nameoff, ts[k].value, ts[k].pad);
  }

  /** Property lookup from token `k` on ends at the first item of that name. */
  ghost predicate FindsProp(ts: seq<Token>, strs: Bytes, items: seq<Item>, k: nat, name: Bytes)
    requires Block(ts)
  {
    k < |ts| && Scannable(Enc(ts), Off(ts, k)) &&
    var i := PropIndex(items, strs, name);
    var r := FindPropFrom(Enc(ts), strs, NextPropFrom(Enc(ts), Off(ts, k)), name);
    if i < |items| then k + i < |ts| && r == Off(ts, k + i) else r == NOTFOUND
  }

  lemma {:induction false} PropIndexLoop(ts: seq<Token>, strs: Bytes, items: seq<Item>, k: nat, name: Bytes)
    requires Block(ts) && Inside(ts, items, k)
    ensures FindsProp(ts, strs, items, k, name)
    decreases items
  {
    hide Has, Enc, Off, NextTag, FlatItems, Flat, WfTokens, GetString, ReadWord, FindsProp;
    ItemTokens(ts, items, k);
    if items == [] || items[0].Child? {
      PropIndexStop(ts, strs, items, k, name);
    } else {
      InsideTail(ts, items, k);
      PropIndexLoop(ts, strs, items[1..], k + 1, name);
      PropIndexStep(ts, strs, items, k, name);
    }
  }

  lemma PropIndexStop(ts: seq<Token>, strs: Bytes, items: seq<Item>, k: nat, name: Bytes)
    requires Block(ts) && k < |ts| && (ts[k].TEnd? || ts[k].TBegin?) && (items == [] || items[0].Child?)
    ensures FindsProp(ts, strs, items, k, name)
  {
    hide Enc, Off, NextTag, WfTokens, GetString, ReadWord;
    BlockScannable(ts, k);
    NextTagAt(ts, k);
  }

  lemma PropIndexStep(ts: seq<Token>, strs: Bytes, items: seq<Item>, k: nat, name: Bytes)
    requires Block(ts) && k + 1 < |ts| && items != []
    requires (items[0].Nop? && ts[k].TNop?) ||
             (items[0].Prop? && ts[k] == TProp(items[0].nameoff, items[0].value, items[0].vpad))
    requires FindsProp(ts, strs, items[1..], k + 1, name)
    ensures FindsProp(ts, strs, items, k, name)
  {
    hide Enc, Off, NextTag, WfTokens, GetString, ReadWord;
    BlockScannable(ts, k);
    NextTagAt(ts, k);
    OffAligned(ts, k);
    if items[0].Prop? {
      PropAt(ts, k);
    }
  }

  /** fdt_get_property finds exactly the first property of that name. */
  lemma FindPropIsPropIndex(ts: seq<Token>, strs: Bytes, n: Node, k: nat, name: Bytes)
    requires Block(ts) && Has(ts, k, Flat(n))
    ensures Scannable(Enc(ts), Off(ts, k))
    ensures var i := PropIndex(n.items, strs, name);
            if i < |n.items|
            then k + 1 + i < |ts| && FindProp(Enc(ts), strs, Off(ts, k), name) == Off(ts, k + 1 + i) &&
                 ts[k + 1 + i] == TProp(n.items[i].nameoff, n.items[i].value, n.items[i].vpad)
            else FindProp(Enc(ts), strs, Off(ts, k), name) == NOTFOUND
  {
    hide Has, Enc, Off, NextTag, FlatItems, Flat, WfTokens, GetString, ReadWord, FindPropFrom, NextPropFrom, PropIndex;
    NodeInside(ts, n, k);
    BlockScannable(ts, k);
    NextTagAt(ts, k);
    OffAligned(ts, k);
    HasAt(ts, k, Flat(n));
    assert ts[k] == Flat(n)[0];
    PropIndexLoop(ts, strs, n.items, k + 1, name);
    if PropIndex(n.items, strs, name) < |n.items| {
      LeadToken(ts, n.items, k + 1, PropIndex(n.items, strs, name));
    }
  }

  /** Before the first subnode every item is one token. */
  lemma {:induction false} LeadToken(ts: seq<Token>, items: seq<Item>, k: nat, i: nat)
    requires Inside(ts, items, k) && i < |items| && items[i].Prop?
    requires forall j :: 0 <= j < i ==> !items[j].Child?
    ensures k + i < |ts| && ts[k + i] == TProp(items[i].nameoff, items[i].value, items[i].vpad)
    decreases i
  {
    hide Has, Flat, FlatItems, FlatItem, Inside;
    ItemTokens(ts, items, k);
    if i > 0 {
      InsideTail(ts, items, k);
      LeadOne(items[0]);
      LeadToken(ts, items[1..], k + 1, i - 1);
    }
  }

  lemma LeadOne(it: Item)
    requires !it.Child?
    ensures |FlatItem(it)| == 1
  {
  }

  /** The first token of the items of a node. */
  lemma ItemTokens(ts: seq<Token>, items: seq<Item>, k: nat)
    requires Inside(ts, items, k)
    ensures k + |FlatItems(items)| + 1 < |ts|
    ensures items == [] ==> ts[k].TEnd?
    ensures items != [] && items[0].Nop? ==> ts[k].TNop? && FlatItem(items[0]) == [TNop]
    ensures items != [] && items[0].Prop? ==>
              ts[k] == TProp(items[0].nameoff, items[0].value, items[0].vpad) && |FlatItem(items[0])| == 1
    ensures items != [] && items[0].Child? ==> ts[k].TBegin?
  {
    hide Has, Flat;
    if items == [] {
      HasAt(ts, k, [TEnd]);
      assert ts[k] == TEnd;
    } else {
      InsideTail(ts, items, k);
      HasAt(ts, k, FlatItem(items[0]));
      assert ts[k] == FlatItem(items[0])[0];
    }
  }
}
