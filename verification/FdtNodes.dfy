/**
 Subnodes, end of a node, lookup by name: loops over `fdt_next_node` that see only a
 depth counter, proved to compute the corresponding facts about the tree.
 */
module FdtNodes {
  import opened Common
  import opened FdtBytes
  import opened FdtTokens
  import opened FdtTree
  import opened FdtScan
  import opened FdtVisit

  const NOTFOUND := -FDT_ERR_NOTFOUND

  // ---- first and next subnode ----

  function FirstSubnode(s: Bytes, offset: int): int
    requires Scannable(s, if offset >= 0 then offset else 0)
  {
    var (o, d) := NextNode(s, offset, 0);
    if o < 0 || d != 1 then NOTFOUND else o
  }

  /** The loop of fdt_next_subnode. */
  function NextSubnodeFrom(s: Bytes, offset: nat, depth: nat): int
    requires Scannable(s, offset)
    decreases |s| + 4 - offset
  {
    var (o, d) := NextNode(s, offset, depth);
    if o < 0 || d < 1 then NOTFOUND
    else if d > 1 then NextSubnodeFrom(s, o, d)
    else o
  }

  function NextSubnode(s: Bytes, offset: nat): int
    requires Scannable(s, offset)
  {
    NextSubnodeFrom(s, offset, 1)
  }

  method ReadFirstSubnode(s: Bytes, offset: int) returns (r: int)
    requires Scannable(s, if offset >= 0 then offset else 0)
    ensures r == FirstSubnode(s, offset)
  {
    var depth := 0;
    r, depth := ReadNextNode(s, offset, depth);
    if r < 0 || depth != 1 {
      return NOTFOUND;
    }
  }

  method ReadNextSubnode(s: Bytes, offset: nat) returns (r: int)
    requires Scannable(s, offset)
    ensures r == NextSubnode(s, offset)
  {
    var depth := 1;
    r, depth := ReadNextNode(s, offset, depth);
    if r < 0 || depth < 1 {
      return NOTFOUND;
    }
    while depth > 1
      invariant r >= 0 && depth >= 1 && r <= |s| && Scannable(s, r)
      invariant NextSubnode(s, offset) == if depth > 1 then NextSubnodeFrom(s, r, depth) else r
      decreases |s| - r
    {
      r, depth := ReadNextNode(s, r, depth);
      if r < 0 || depth < 1 {
        return NOTFOUND;
      }
    }
  }

  // ---- end of a node ----

  /** Bytes a loop still has before it when it goes on from `offset`. */
  function Left(s: Bytes, offset: int, depth: int): nat {
    if offset < 0 || depth < 0 then 0 else if offset > |s| then 1 else 1 + |s| - offset
  }

  /** The loop of fdt_node_end_offset_. */
  function NodeEndFrom(s: Bytes, offset: int, depth: int): int
    requires offset >= 0 && depth >= 0 ==> Scannable(s, offset)
    decreases Left(s, offset, depth)
  {
    if offset < 0 || depth < 0 then offset else
    var (o, d) := NextNode(s, offset, depth);
    NodeEndFrom(s, o, d)
  }

  method ReadNodeEnd(s: Bytes, offset: nat) returns (r: int)
    requires Scannable(s, offset)
    ensures r == NodeEndFrom(s, offset, 0)
  {
    var depth := 0;
    r := offset;
    while r >= 0 && depth >= 0
      invariant r >= 0 && depth >= 0 ==> Scannable(s, r)
      invariant NodeEndFrom(s, offset, 0) == NodeEndFrom(s, r, depth)
      decreases Left(s, r, depth)
    {
      r, depth := ReadNextNode(s, r, depth);
    }
  }

  // ---- subnode by name ----

  const AT: byte := 64 // '@'

  /** fdt_nodename_eq_: equal, or equal up to a unit address the caller left out. */
  predicate NodeNameEq(name: Bytes, wanted: Bytes) {
    |wanted| <= |name| && name[..|wanted|] == wanted &&
    (|name| == |wanted| || (AT !in wanted && name[|wanted|] == AT))
  }

  /** Index of the first `@` in a name, or its length. */
  function UnitAt(name: Bytes): (i: nat)
    ensures i <= |name| && AT !in name[..i] && (i < |name| ==> name[i] == AT)
  {
    if name == [] || name[0] == AT then 0
    else
      var i := UnitAt(name[1..]);
      assert name[..1 + i] == [name[0]] + name[1..][..i];
      1 + i
  }

  /** A name matches what was asked for when they are equal, or that is what it has before its unit address. */
  lemma NameMatches(name: Bytes, wanted: Bytes)
    ensures NodeNameEq(name, wanted) <==> name == wanted || (UnitAt(name) < |name| && wanted == name[..UnitAt(name)])
  {
    hide UnitAt;
    var i := UnitAt(name);
    assert i < |name| ==> name[i] == AT;
  }

  /** The loop of fdt_subnode_offset_namelen. */
  function SubnodeOffsetFrom(s: Bytes, offset: int, depth: int, name: Bytes): int
    requires offset >= 0 && depth >= 0 ==> Scannable(s, offset)
    requires offset >= 0 && depth == 1 ==> offset + 4 <= |s|
    decreases Left(s, offset, depth)
  {
    if offset < 0 || depth < 0 then
      if depth < 0 then NOTFOUND else offset
    else if depth == 1 && NodeNameEq(NameAt(s, offset), name) then offset
    else
      var (o, d) := NextNode(s, offset, depth);
      SubnodeOffsetFrom(s, o, d, name)
  }

  function SubnodeOffset(s: Bytes, offset: int, name: Bytes): int
    requires offset >= 0 ==> Scannable(s, offset)
  {
    SubnodeOffsetFrom(s, offset, 0, name)
  }

  method ReadSubnodeOffset(s: Bytes, parent: int, name: Bytes) returns (offset: int)
    requires parent >= 0 ==> Scannable(s, parent)
    ensures offset == SubnodeOffset(s, parent, name)
  {
    var depth := 0;
    offset := parent;
    while offset >= 0 && depth >= 0
      invariant offset >= 0 && depth >= 0 ==> Scannable(s, offset)
      invariant offset >= 0 && depth == 1 ==> offset + 4 <= |s|
      invariant SubnodeOffset(s, parent, name) == SubnodeOffsetFrom(s, offset, depth, name)
      decreases Left(s, offset, depth)
    {
      if depth == 1 && NodeNameEq(NameAt(s, offset), name) {
        return;
      }
      offset, depth := ReadNextNode(s, offset, depth);
    }
    if depth < 0 {
      return NOTFOUND;
    }
  }

  // ---- the same facts on the tree ----

  /** The direct subnodes among `items`, which start at token `k`. */
  function Kids(items: seq<Item>, k: nat): (v: seq<Visit>)
    ensures forall i :: 0 <= i < |v| ==> v[i].d == 1
  {
    if items == [] then []
    else (if items[0].Child? then [Visit(k, 1, items[0].node)] else []) +
         Kids(items[1..], k + |FlatItem(items[0])|)
  }

  /** Offset of entry `i` of a list of nodes, or NOTFOUND past its end. */
  function OffOr(ts: seq<Token>, v: seq<Visit>, i: nat): int
    requires WfTokens(ts)
  {
    if i < |v| && v[i].k <= |ts| then Off(ts, v[i].k) else NOTFOUND
  }

  ghost predicate KidsOk(ts: seq<Token>, v: seq<Visit>) {
    VisitsOk(ts, v, 1)
  }

  /** The items of a node and its end tag, all before the last token. */
  ghost predicate Inside(ts: seq<Token>, items: seq<Item>, k: nat) {
    Has(ts, k, FlatItems(items)) && Has(ts, k + |FlatItems(items)|, [TEnd]) &&
    k + |FlatItems(items)| + 1 < |ts|
  }

  lemma NodeInside(ts: seq<Token>, n: Node, k: nat)
    requires Block(ts) && Has(ts, k, Flat(n))
    ensures VisitOk(ts, Visit(k, 0, n)) && Inside(ts, n.items, k + 1) && k + |Flat(n)| < |ts|
  {
    hide FlatItems;
    NodeParts(ts, k, n);
    HasAt(ts, k + 1 + |FlatItems(n.items)|, [TEnd]);
    assert ts[k + 1 + |FlatItems(n.items)|] == TEnd;
  }

  lemma InsideTail(ts: seq<Token>, items: seq<Item>, k: nat)
    requires Inside(ts, items, k) && items != []
    ensures Has(ts, k, FlatItem(items[0])) && Inside(ts, items[1..], k + |FlatItem(items[0])|)
    ensures k + |FlatItem(items[0])| < |ts|
  {
    hide FlatItem, Has;
    HasSplit(ts, k, FlatItem(items[0]), FlatItems(items[1..]));
  }

  lemma {:induction false} KidsAreOk(ts: seq<Token>, items: seq<Item>, k: nat)
    requires Inside(ts, items, k)
    ensures KidsOk(ts, Kids(items, k))
  {
    hide Inside, FlatItems, Has, Flat;
    if items != [] {
      InsideTail(ts, items, k);
      KidsAreOk(ts, items[1..], k + |FlatItem(items[0])|);
    }
  }

  lemma {:induction false} HeadOfKids(items: seq<Item>, k: nat, after: (int, int))
    requires after.1 != 1
    ensures Head(PreItems(items, k, 1), after) == Head(Kids(items, k), after)
  {
    hide FlatItem;
    if items != [] && !items[0].Child? {
      HeadOfKids(items[1..], k + |FlatItem(items[0])|, after);
    }
  }

  /** Between the items of a node, at depth zero, the scan finds the next direct subnode. */
  lemma ScanFindsKid(ts: seq<Token>, items: seq<Item>, k: nat)
    requires Inside(ts, items, k)
    ensures Scan(ts, k, 0) == Head(Kids(items, k), (k + |FlatItems(items)| + 1, -1))
  {
    hide FlatItems, Has, Scan, PreItems, Kids, Chained;
    var e := k + |FlatItems(items)|;
    PreItemsChained(ts, items, k, 0);
    ScanEnd(ts, e, 0);
    HeadOfKids(items, k, (e + 1, -1));
  }

  /** fdt_first_subnode returns the first direct subnode, if there is one. */
  lemma FirstSubnodeIsFirstKid(ts: seq<Token>, n: Node, k: nat)
    requires Block(ts) && Has(ts, k, Flat(n))
    ensures Scannable(Enc(ts), Off(ts, k))
    ensures FirstSubnode(Enc(ts), Off(ts, k)) == OffOr(ts, Kids(n.items, k + 1), 0)
  {
    hide Flat, Has, FlatItems, Scan, Kids, Enc, Off, Scannable, NextNode, WfTokens, Inside;
    NodeInside(ts, n, k);
    NextNodeAt(ts, Visit(k, 0, n));
    ScanFindsKid(ts, n.items, k + 1);
    KidsAreOk(ts, n.items, k + 1);
  }

  /** Loops that wait for depth one pass over everything deeper. */
  lemma {:induction false} NextSubnodeSkips(ts: seq<Token>, v: Visit, deeper: seq<Visit>, after: (int, int))
    requires Block(ts) && VisitOk(ts, v) && v.d >= 1
    requires Scan(ts, v.k + 1, v.d) == Head(deeper, after) && Chained(ts, deeper, after)
    requires VisitsOk(ts, deeper, 2) && after.1 <= 1
    ensures Scannable(Enc(ts), Off(ts, v.k))
    ensures NextSubnodeFrom(Enc(ts), Off(ts, v.k), v.d) ==
            if 0 <= after.0 <= |ts| && after.1 == 1 then Off(ts, after.0) else NOTFOUND
    decreases |deeper|
  {
    hide Flat, Has, Scan, Enc, Off, Scannable, NextNode, WfTokens;
    NextNodeAt(ts, v);
    if deeper != [] {
      NextSubnodeSkips(ts, deeper[0], deeper[1..], after);
    }
  }

  /** fdt_next_subnode goes from each direct subnode to the next one. */
  lemma {:induction false} NextSubnodeIsNextKid(ts: seq<Token>, items: seq<Item>, k: nat, j: nat)
    requires Block(ts) && Inside(ts, items, k) && j < |Kids(items, k)|
    ensures Kids(items, k)[j].k <= |ts| && Scannable(Enc(ts), Off(ts, Kids(items, k)[j].k))
    ensures NextSubnode(Enc(ts), Off(ts, Kids(items, k)[j].k)) == OffOr(ts, Kids(items, k), j + 1)
    decreases items
  {
    hide Flat, Has, Scan, Enc, Off, Scannable, NextNode, WfTokens, Inside, FlatItems, NextSubnodeFrom, PreItems,
         Chained, Block, VisitOk;
    InsideTail(ts, items, k);
    var m := k + |FlatItem(items[0])|;
    if j == 0 && items[0].Child? {
      var c := items[0].node;
      NodeInside(ts, c, k);
      KidAfter(ts, c, k);
      ScanFindsKid(ts, items[1..], m);
      KidsAreOk(ts, items[1..], m);
      VisitBound(ts, Kids(items[1..], m));
    } else {
      NextSubnodeIsNextKid(ts, items[1..], m, if items[0].Child? then j - 1 else j);
    }
  }

  lemma VisitBound(ts: seq<Token>, v: seq<Visit>)
    requires KidsOk(ts, v)
    ensures forall i :: 0 <= i < |v| ==> v[i].k < |ts|
  {
    hide Flat, Has;
  }

  lemma KidAfter(ts: seq<Token>, c: Node, k: nat)
    requires Block(ts) && Has(ts, k, Flat(c))
    ensures Scannable(Enc(ts), Off(ts, k))
    ensures var after := Scan(ts, k + |Flat(c)|, 0);
            NextSubnode(Enc(ts), Off(ts, k)) ==
            if 0 <= after.0 <= |ts| && after.1 == 1 then Off(ts, after.0) else NOTFOUND
  {
    hide Flat, Has, Scan, Enc, Off, Scannable, NextNode, WfTokens, FlatItems, NextSubnodeFrom, PreItems, Inside, Block;
    NodeInside(ts, c, k);
    var v, deeper := Visit(k, 1, c), PreItems(c.items, k + 1, 2);
    var after := Scan(ts, k + |Flat(c)|, 0);
    PreChained(ts, c, k, 1);
    PreOk(ts, c, k, 1);
    ChainedTail(ts, v, deeper, after);
    ScanDepthZero(ts, k + |Flat(c)|);
    NextSubnodeSkips(ts, v, deeper, after);
  }

  lemma {:induction false} ScanDepthZero(ts: seq<Token>, k: nat)
    ensures Scan(ts, k, 0).1 <= 1
    decreases |ts| - k
  {
    if k < |ts| && (ts[k].TProp? || ts[k].TNop?) {
      ScanDepthZero(ts, k + 1);
    }
  }

  lemma ChainedTail(ts: seq<Token>, x: Visit, v: seq<Visit>, after: (int, int))
    requires Chained(ts, [x] + v, after)
    ensures Scan(ts, x.k + 1, x.d) == Head(v, after) && Chained(ts, v, after)
  {
    hide Scan;
    var w := [x] + v;
    assert w[0] == x && w[1..] == v;
    forall i | 0 <= i < |v|
      ensures Scan(ts, v[i].k + 1, v[i].d) == Head(v[i + 1..], after)
    {
      assert w[i + 1] == v[i] && w[i + 2..] == v[i + 1..];
    }
  }

  lemma {:induction false} NodeEndSkips(ts: seq<Token>, v: Visit, rest: seq<Visit>, after: (int, int))
    requires Block(ts) && VisitOk(ts, v) && VisitsOk(ts, rest, 0)
    requires Scan(ts, v.k + 1, v.d) == Head(rest, after) && Chained(ts, rest, after)
    requires 0 <= after.0 <= |ts| && after.1 < 0
    ensures Scannable(Enc(ts), Off(ts, v.k))
    ensures NodeEndFrom(Enc(ts), Off(ts, v.k), v.d) == Off(ts, after.0)
    decreases |rest|
  {
    hide Flat, Has, Scan, Enc, Off, Scannable, NextNode, WfTokens;
    NextNodeAt(ts, v);
    if rest != [] {
      NodeEndSkips(ts, rest[0], rest[1..], after);
    }
  }

  /** fdt_node_end_offset_ finds the offset just past the matching end tag. */
  lemma NodeEndIs(ts: seq<Token>, n: Node, k: nat)
    requires Block(ts) && Has(ts, k, Flat(n))
    ensures k + |Flat(n)| <= |ts| && Scannable(Enc(ts), Off(ts, k))
    ensures NodeEndFrom(Enc(ts), Off(ts, k), 0) == Off(ts, k + |Flat(n)|)
  {
    hide Flat, Has, Scan, Enc, Off, Scannable, NodeEndFrom, WfTokens, FlatItems, PreItems, Inside, Chained, Block,
         VisitOk, Left;
    NodeInside(ts, n, k);
    var v, rest := Visit(k, 0, n), PreItems(n.items, k + 1, 1);
    PreChained(ts, n, k, 0);
    PreOk(ts, n, k, 0);
    ChainedTail(ts, v, rest, (k + |Flat(n)|, -1));
    NodeEndSkips(ts, v, rest, (k + |Flat(n)|, -1));
  }

  /** Index of the first node in `v` whose name matches, or the length. */
  function FirstMatch(v: seq<Visit>, name: Bytes): (i: nat)
    ensures i <= |v|
    ensures i < |v| ==> NodeNameEq(v[i].node.name, name)
    ensures forall j :: 0 <= j < i ==> !NodeNameEq(v[j].node.name, name)
  {
    if v == [] then 0
    else if NodeNameEq(v[0].node.name, name) then 0
    else 1 + FirstMatch(v[1..], name)
  }

  /** The lookup loop, seen from a scan result. */
  function Lookup(ts: seq<Token>, r: (int, int), name: Bytes): int
    requires Block(ts) && 0 <= r.0 < |ts| && r.1 >= 0 ==>
               Off(ts, r.0) + 4 <= |Enc(ts)| && Scannable(Enc(ts), Off(ts, r.0))
    requires Block(ts)
  {
    if 0 <= r.0 < |ts| && r.1 >= 0
    then SubnodeOffsetFrom(Enc(ts), Off(ts, r.0), r.1, name)
    else NOTFOUND
  }

  lemma {:induction false} LookupSkips(ts: seq<Token>, v: Visit, deeper: seq<Visit>, after: (int, int), name: Bytes)
    requires Block(ts) && VisitOk(ts, v) && VisitsOk(ts, deeper, 2)
    requires v.d == 1 ==> !NodeNameEq(v.node.name, name)
    requires Scan(ts, v.k + 1, v.d) == Head(deeper, after) && Chained(ts, deeper, after)
    requires Reachable(ts, after)
    ensures Scannable(Enc(ts), Off(ts, v.k)) && Off(ts, v.k) + 4 <= |Enc(ts)|
    ensures SubnodeOffsetFrom(Enc(ts), Off(ts, v.k), v.d, name) == Lookup(ts, after, name)
    decreases |deeper|
  {
    hide Flat, Has, Scan, Enc, Off, Scannable, NextNode, WfTokens, NodeNameEq, NameAt;
    NextNodeAt(ts, v);
    NameAtVisit(ts, v);
    if deeper != [] {
      LookupSkips(ts, deeper[0], deeper[1..], after, name);
    }
  }

  /** A scan result a loop may go on from: a node, or the end of its parent. */
  ghost predicate Reachable(ts: seq<Token>, r: (int, int))
    requires Block(ts)
  {
    if r.1 < 0 then 0 <= r.0 <= |ts|
    else r.0 < |ts| && (r.0 >= 0 ==> Off(ts, r.0) + 4 <= |Enc(ts)| && Scannable(Enc(ts), Off(ts, r.0)))
  }

  lemma KidReachable(ts: seq<Token>, kids: seq<Visit>, e: nat)
    requires Block(ts) && KidsOk(ts, kids) && e <= |ts|
    ensures Reachable(ts, Head(kids, (e, -1)))
  {
    hide Flat, Has, Enc, Off, Scannable, NextNode, WfTokens, NameAt, Scan;
    if kids != [] {
      NextNodeAt(ts, kids[0]);
      NameAtVisit(ts, kids[0]);
      VisitBound(ts, kids);
    }
  }

  /** Looking `name` up among the items at `k` stops at the first subnode that matches. */
  ghost predicate LooksUp(ts: seq<Token>, items: seq<Item>, k: nat, name: Bytes)
    requires Block(ts)
  {
    var kids := Kids(items, k);
    var r := Head(kids, (k + |FlatItems(items)| + 1, -1));
    Reachable(ts, r) && Lookup(ts, r, name) == OffOr(ts, kids, FirstMatch(kids, name))
  }

  lemma {:induction false} LookupOverItems(ts: seq<Token>, items: seq<Item>, k: nat, name: Bytes)
    requires Block(ts) && Inside(ts, items, k)
    ensures LooksUp(ts, items, k, name)
    decreases items
  {
    hide *;
    if items == [] {
      LookupNone(ts, k, name);
    } else {
      InsideTail(ts, items, k);
      LookupOverItems(ts, items[1..], k + |FlatItem(items[0])|, name);
      LookupStep(ts, items, k, name);
    }
  }

  lemma LookupStep(ts: seq<Token>, items: seq<Item>, k: nat, name: Bytes)
    requires Block(ts) && Inside(ts, items, k)
    requires items != [] && LooksUp(ts, items[1..], k + |FlatItem(items[0])|, name)
    ensures LooksUp(ts, items, k, name)
  {
    hide Flat, Has, Scan, Enc, Off, Scannable, WfTokens, Inside, FlatItems, PreItems, Chained, Reachable, Lookup,
         FirstMatch, Block, VisitOk, OffOr, Kids;
    var m, e := k + |FlatItem(items[0])|, k + |FlatItems(items)| + 1;
    InsideBound(ts, items, k);
    InsideTail(ts, items, k);
    FlatItemsLen(items);
    KidsStep(items, k);
    if items[0].Child? {
      KidsAreOk(ts, items, k);
      KidReachable(ts, Kids(items, k), e);
      HeadOfCons(Visit(k, 1, items[0].node), Kids(items[1..], m), (e, -1));
      LookupKid(ts, items[0].node, Kids(items[1..], m), k, items[1..], name);
    }
  }

  lemma HeadOfCons(v: Visit, kids: seq<Visit>, after: (int, int))
    ensures Head([v] + kids, after) == (v.k, v.d)
  {
  }

  lemma KidsStep(items: seq<Item>, k: nat)
    requires items != []
    ensures var rest := Kids(items[1..], k + |FlatItem(items[0])|);
            Kids(items, k) == if items[0].Child? then [Visit(k, 1, items[0].node)] + rest else rest
  {
    hide FlatItem;
    assert [] + Kids(items[1..], k + |FlatItem(items[0])|) == Kids(items[1..], k + |FlatItem(items[0])|);
  }

  lemma FlatItemsLen(items: seq<Item>)
    requires items != []
    ensures |FlatItems(items)| == |FlatItem(items[0])| + |FlatItems(items[1..])|
  {
  }

  lemma InsideBound(ts: seq<Token>, items: seq<Item>, k: nat)
    requires Inside(ts, items, k)
    ensures k + |FlatItems(items)| + 1 < |ts|
  {
  }

  lemma LookupNone(ts: seq<Token>, k: nat, name: Bytes)
    requires Block(ts) && Inside(ts, [], k)
    ensures LooksUp(ts, [], k, name)
  {
    hide WfTokens, Has;
  }

  lemma LookupKid(ts: seq<Token>, c: Node, kids: seq<Visit>, k: nat, rest: seq<Item>, name: Bytes)
    requires Block(ts) && Has(ts, k, Flat(c)) && Inside(ts, rest, k + |Flat(c)|)
    requires kids == Kids(rest, k + |Flat(c)|) && KidsOk(ts, [Visit(k, 1, c)] + kids)
    requires var r := Head(kids, (k + |Flat(c)| + |FlatItems(rest)| + 1, -1));
             Reachable(ts, r) && Lookup(ts, r, name) == OffOr(ts, kids, FirstMatch(kids, name))
    requires Reachable(ts, (k, 1))
    ensures var all := [Visit(k, 1, c)] + kids;
            Lookup(ts, (k, 1), name) == OffOr(ts, all, FirstMatch(all, name))
  {
    hide Flat, Has, Scan, Enc, Off, Scannable, WfTokens, Inside, FlatItems, PreItems, Chained, NodeNameEq, NameAt, Kids,
         Left, NextNode;
    var v, deeper := Visit(k, 1, c), PreItems(c.items, k + 1, 2);
    var after := Head(kids, (k + |Flat(c)| + |FlatItems(rest)| + 1, -1));
    NodeInside(ts, c, k);
    NameAtVisit(ts, v);
    var all := [v] + kids;
    assert all[0] == v && all[1..] == kids;
    if !NodeNameEq(c.name, name) {
      ScanFindsKid(ts, rest, k + |Flat(c)|);
      PreChained(ts, c, k, 1);
      PreOk(ts, c, k, 1);
      ChainedTail(ts, v, deeper, after);
      LookupSkips(ts, v, deeper, after, name);
      OffOrTail(ts, v, kids, FirstMatch(kids, name));
    }
  }

  lemma OffOrTail(ts: seq<Token>, v: Visit, kids: seq<Visit>, i: nat)
    requires WfTokens(ts)
    ensures OffOr(ts, [v] + kids, 1 + i) == OffOr(ts, kids, i)
  {
    hide Off, WfTokens;
  }

  /** fdt_subnode_offset returns the first direct subnode whose name matches. */
  lemma SubnodeOffsetIsFirstMatch(ts: seq<Token>, n: Node, k: nat, name: Bytes)
    requires Block(ts) && Has(ts, k, Flat(n))
    ensures Scannable(Enc(ts), Off(ts, k))
    ensures var kids := Kids(n.items, k + 1);
            SubnodeOffset(Enc(ts), Off(ts, k), name) == OffOr(ts, kids, FirstMatch(kids, name))
  {
    hide Flat, Has, Scan, Enc, Off, Scannable, WfTokens, Inside, FlatItems, SubnodeOffsetFrom, Reachable, FirstMatch,
         OffOr, Kids, Block, Lookup, Chained;
    NodeInside(ts, n, k);
    ScanFindsKid(ts, n.items, k + 1);
    LookupOverItems(ts, n.items, k + 1, name);
    var after := Head(Kids(n.items, k + 1), (k + 1 + |FlatItems(n.items)| + 1, -1));
    ChainedNone(ts, after);
    LookupSkips(ts, Visit(k, 0, n), [], after, name);
  }
}
