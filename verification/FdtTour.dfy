/**
 The order in which a loop of `fdt_next_node` meets the nodes of a tree: preorder by paths.
 The loops that look for the node at a given offset are proved against it.
 */
module FdtTour {
  import opened Common
  import opened FdtBytes
  import opened FdtTokens
  import opened FdtTree
  import opened FdtScan
  import opened FdtVisit
  import opened FdtNodes
  import opened FdtProps
  import opened FdtEdit
  import opened FdtDecode
  import opened FdtSplice
  import opened FdtOps
  import opened FdtIter

  // ---- the next node in preorder ----

  /** The first node at or after item `j` of the node at `p`: a subnode, or one after an ancestor. */
  ghost function Climb(n: Node, p: Path, j: nat): (r: Option<Path>)
    requires ValidPath(n, p) && j <= |At(n, p).items|
    ensures r.Some? ==> 0 < |r.value| <= |p| + 1 && r.value[..|r.value| - 1] == p[..|r.value| - 1]
    decreases |p|
  {
    var items := At(n, p).items;
    var m := j + LeadCount(items[j..]);
    if m < |items| then Some(p + [m])
    else if p == [] then None
    else
      LastStep(n, p);
      Climb(n, p[..|p| - 1], p[|p| - 1] + 1)
  }

  ghost function NextPath(n: Node, p: Path): Option<Path>
    requires ValidPath(n, p)
  {
    Climb(n, p, 0)
  }

  /** What the scan returns for a path: its token and depth, or the end of the tree. */
  ghost function Landing(n: Node, r: Option<Path>): (int, int)
    requires r.Some? ==> ValidPath(n, r.value)
  {
    match r
    case Some(q) => (Pos(n, q), |q|)
    case None => (|Flat(n)|, -1)
  }

  lemma {:induction false} HeadOfItems(items: seq<Item>, k: nat, d: int, after: (int, int))
    ensures Head(PreItems(items, k, d), after) ==
            if LeadCount(items) < |items| then (k + LeadCount(items), d) else after
    decreases items
  {
    hide FlatItem;
    if items != [] {
      if items[0].Child? {
        HeadOfChild(items, k, d, after);
      } else {
        LeadOne(items[0]);
        HeadOfItems(items[1..], k + 1, d, after);
      }
    }
  }

  lemma {:induction false} HeadOfChild(items: seq<Item>, k: nat, d: int, after: (int, int))
    requires items != [] && items[0].Child?
    ensures Head(PreItems(items, k, d), after) == (k, d)
  {
    hide FlatItem;
    var v := Pre(items[0].node, k, d);
    assert PreItems(items, k, d) == v + PreItems(items[1..], k + |FlatItem(items[0])|, d);
  }

  lemma LeadDrop(items: seq<Item>, j: nat)
    requires j <= |items|
    ensures var m := j + LeadCount(items[j..]);
            m <= |items| && (m < |items| ==> items[m].Child?) && forall i :: j <= i < m ==> !items[i].Child?
  {
    var l := LeadCount(items[j..]);
    forall i | j <= i < j + l
      ensures !items[i].Child?
    {
      assert items[i] == items[j..][i - j];
    }
  }

  lemma {:induction false} ClimbIsScan(n: Node, p: Path, j: nat)
    requires WfNode(n) && ValidPath(n, p) && j <= |At(n, p).items|
    ensures Climb(n, p, j).Some? ==> ValidPath(n, Climb(n, p, j).value)
    ensures Scan(Stream(n), ItemPos(n, p, j), |p|) == Landing(n, Climb(n, p, j))
    decreases |p|
  {
    hide WfNode, Stream, Scan, FlatItems, Flat, Pos, Has, PreItems, LeadCount, At, ValidPath, Chained, Inside, Block,
         WfTokens;
    var ts, items := Stream(n), At(n, p).items;
    var m := j + LeadCount(items[j..]);
    ScanItems(n, p, j);
    if m < |items| {
      LeadDrop(items, j);
      ChildPath(n, p, m);
    } else {
      NodeEndPos(n, p);
      ScanEnd(ts, ItemPos(n, p, |items|), |p|);
      if p != [] {
        LastStep(n, p);
        AfterNode(n, p);
        ClimbIsScan(n, p[..|p| - 1], p[|p| - 1] + 1);
      } else {
        RootEnd(n);
      }
    }
  }

  lemma RootEnd(n: Node)
    ensures ValidPath(n, []) && At(n, []) == n && ItemPos(n, [], |n.items|) + 1 == |Flat(n)|
  {
    hide FlatItems, Flat;
    FlatLen(n);
    assert n.items[..|n.items|] == n.items;
  }

  /** Between items the scan reaches the next subnode, or the end tag. */
  lemma ScanItems(n: Node, p: Path, j: nat)
    requires WfNode(n) && ValidPath(n, p) && j <= |At(n, p).items|
    ensures var items := At(n, p).items;
            var m := j + LeadCount(items[j..]);
            Scan(Stream(n), ItemPos(n, p, j), |p|) ==
            if m < |items| then (ItemPos(n, p, m), |p| + 1) else Scan(Stream(n), ItemPos(n, p, |items|), |p|)
  {
    hide WfNode, Stream, Scan, FlatItems, ItemPos, Has, PreItems, LeadCount, At, ValidPath, Chained;
    var ts, items, k := Stream(n), At(n, p).items, ItemPos(n, p, j);
    ItemsFrom(n, p, j);
    PreItemsChained(ts, items[j..], k, |p|);
    HeadOfItems(items[j..], k, |p| + 1, Scan(ts, k + |FlatItems(items[j..])|, |p|));
    LeadPos(n, p, j);
  }

  lemma ItemPosIs(n: Node, p: Path, j: nat)
    requires ValidPath(n, p) && j <= |At(n, p).items|
    ensures ItemPos(n, p, j) == Pos(n, p) + 1 + |FlatItems(At(n, p).items[..j])|
  {
    hide FlatItems, Pos, At;
  }

  /** The items from `j` on lie at item `j`. */
  lemma ItemsFrom(n: Node, p: Path, j: nat)
    requires WfNode(n) && ValidPath(n, p) && j <= |At(n, p).items|
    ensures Has(Stream(n), ItemPos(n, p, j), FlatItems(At(n, p).items[j..]))
    ensures ItemPos(n, p, |At(n, p).items|) == ItemPos(n, p, j) + |FlatItems(At(n, p).items[j..])|
  {
    hide *;
    var ts, items := Stream(n), At(n, p).items;
    StreamFacts(n);
    PosBound(n, p);
    NodeInside(ts, At(n, p), Pos(n, p));
    ItemPosIs(n, p, j);
    InsideDrop(ts, items, Pos(n, p) + 1, j);
    InsideHas(ts, items[j..], ItemPos(n, p, j));
    ItemPosStep(n, p, j, |items|);
    assert items[j..|items|] == items[j..];
  }

  /** Items before a subnode are one token each. */
  lemma LeadPos(n: Node, p: Path, j: nat)
    requires ValidPath(n, p) && j <= |At(n, p).items|
    ensures var m := j + LeadCount(At(n, p).items[j..]);
            m <= |At(n, p).items| && ItemPos(n, p, m) == ItemPos(n, p, j) + m - j
  {
    hide FlatItems, ItemPos, LeadCount, At, ValidPath;
    var items := At(n, p).items;
    var m := j + LeadCount(items[j..]);
    LeadDrop(items, j);
    ItemPosStep(n, p, j, m);
    assert items[j..][..m - j] == items[j..m];
    LeadLen(items[j..], m - j);
  }

  lemma InsideHas(ts: seq<Token>, items: seq<Item>, k: nat)
    requires Inside(ts, items, k)
    ensures Has(ts, k, FlatItems(items)) && Has(ts, k + |FlatItems(items)|, [TEnd])
  {
  }

  /** The end tag of a node and what follows it. */
  lemma NodeEndPos(n: Node, p: Path)
    requires WfNode(n) && ValidPath(n, p)
    ensures Has(Stream(n), ItemPos(n, p, |At(n, p).items|), [TEnd])
  {
    hide WfNode, Stream, FlatItems, Flat, Pos, Has;
    var a := At(n, p);
    PosBound(n, p);
    NodeParts(Stream(n), Pos(n, p), a);
    assert a.items[..|a.items|] == a.items;
  }

  lemma AfterNode(n: Node, p: Path)
    requires ValidPath(n, p) && p != [] && ParentOf(n, p)
    ensures ItemPos(n, p, |At(n, p).items|) + 1 == ItemPos(n, p[..|p| - 1], p[|p| - 1] + 1)
  {
    hide FlatItems, Flat, Pos, At, ValidPath;
    LastStep(n, p);
    var q, i := p[..|p| - 1], p[|p| - 1];
    var a := At(n, p);
    ItemPosStep(n, q, i, i + 1);
    assert At(n, q).items[i..i + 1] == [At(n, q).items[i]];
    FlatItemsOne(At(n, q).items[i]);
    FlatChild(At(n, q).items[i]);
    FlatLen(a);
    assert a.items[..|a.items|] == a.items;
  }

  // ---- nothing is skipped ----

  /** The scan passes over no node. */
  lemma {:induction false} ScanFirst(ts: seq<Token>, k: nat, d: int)
    ensures var (r, d') := Scan(ts, k, d);
            forall i :: k <= i < |ts| && i < r ==> !ts[i].TBegin?
    decreases |ts| - k
  {
    if k < |ts| && !ts[k].TFinish? && !ts[k].TBegin? && !(ts[k].TEnd? && d - 1 < 0) {
      ScanFirst(ts, k + 1, if ts[k].TEnd? then d - 1 else d);
    }
  }

  lemma NodeToken(n: Node, p: Path)
    requires ValidPath(n, p)
    ensures Pos(n, p) < |Flat(n)| < |Stream(n)| && Stream(n)[Pos(n, p)].TBegin?
  {
    hide Stream, Flat, Pos, Has;
    PosBound(n, p);
    StreamLen(n);
    HasAt(Stream(n), Pos(n, p), Flat(At(n, p)));
    assert Stream(n)[Pos(n, p)] == Flat(At(n, p))[0];
  }

  /** Every node after `p` is the next one or comes after it. */
  lemma NextIsNext(n: Node, p: Path, q: Path)
    requires WfNode(n) && ValidPath(n, p) && ValidPath(n, q) && Pos(n, q) > Pos(n, p)
    ensures NextPath(n, p).Some? && ValidPath(n, NextPath(n, p).value) && Pos(n, NextPath(n, p).value) <= Pos(n, q)
  {
    hide WfNode, Stream, Scan, Flat, Pos, Climb, At, ValidPath;
    ClimbIsScan(n, p, 0);
    ItemPosZero(n, p);
    ScanFirst(Stream(n), Pos(n, p) + 1, |p|);
    NodeToken(n, q);
  }

  lemma NextIsLater(n: Node, p: Path)
    requires WfNode(n) && ValidPath(n, p) && NextPath(n, p).Some?
    ensures ValidPath(n, NextPath(n, p).value) && Pos(n, NextPath(n, p).value) > Pos(n, p)
  {
    hide WfNode, Stream, Scan, Flat, Pos, Climb, At, ValidPath;
    ClimbIsScan(n, p, 0);
    ItemPosZero(n, p);
    ScanLater(Stream(n), Pos(n, p) + 1, |p|);
  }

  lemma {:induction false} ScanLater(ts: seq<Token>, k: nat, d: int)
    ensures Scan(ts, k, d).0 >= 0 ==> Scan(ts, k, d).0 >= k
    decreases |ts| - k
  {
    if k < |ts| && !ts[k].TFinish? && !ts[k].TBegin? && !(ts[k].TEnd? && d - 1 < 0) {
      ScanLater(ts, k + 1, if ts[k].TEnd? then d - 1 else d);
    }
  }

  /** Different nodes lie at different offsets, in the order of their tokens. */
  lemma OffOrder(n: Node, p: Path, q: Path)
    requires WfNode(n) && ValidPath(n, p) && ValidPath(n, q)
    ensures Pos(n, p) < Pos(n, q) <==> NodeOff(n, p) < NodeOff(n, q)
    ensures Pos(n, p) == Pos(n, q) <==> NodeOff(n, p) == NodeOff(n, q)
  {
    hide WfNode, Stream, Flat, Pos, Enc, At, ValidPath, Has, Off;
    StreamFacts(n);
    NodeToken(n, p);
    NodeToken(n, q);
    if Pos(n, p) < Pos(n, q) {
      OffMonotone(Stream(n), Pos(n, p), Pos(n, q));
    } else if Pos(n, q) < Pos(n, p) {
      OffMonotone(Stream(n), Pos(n, q), Pos(n, p));
    }
  }

  lemma {:induction false} PosInjective(n: Node, p: Path, q: Path)
    requires ValidPath(n, p) && ValidPath(n, q) && Pos(n, p) == Pos(n, q)
    ensures p == q
    decreases |p|
  {
    hide FlatItems, Flat;
    if p == [] || q == [] {
    } else if p[0] == q[0] {
      PosInjective(n.items[p[0]].node, p[1..], q[1..]);
      assert p == [p[0]] + p[1..] && q == [q[0]] + q[1..];
    } else if p[0] < q[0] {
      PosBefore(n, p, q);
    } else {
      PosBefore(n, q, p);
    }
  }

  lemma PosBefore(n: Node, p: Path, q: Path)
    requires p != [] && q != [] && p[0] < q[0] && ValidPath(n, p) && ValidPath(n, q)
    ensures Pos(n, p) < Pos(n, q)
  {
    hide FlatItems, Flat;
    var c, items := n.items[p[0]].node, n.items;
    PosBound(c, p[1..]);
    FlatLen(At(c, p[1..]));
    assert items[..q[0]] == items[..p[0]] + [items[p[0]]] + items[p[0] + 1..q[0]];
    FlatItemsConcat(items[..p[0]] + [items[p[0]]], items[p[0] + 1..q[0]]);
    FlatItemsConcat(items[..p[0]], [items[p[0]]]);
    FlatItemsOne(items[p[0]]);
    FlatChild(items[p[0]]);
  }

  // ---- the same on bytes ----

  /** Offset of the first byte after the tree. */
  ghost function TreeEnd(n: Node): nat
    requires WfNode(n)
  {
    StreamFacts(n);
    StreamLen(n);
    Off(Stream(n), |Flat(n)|)
  }

  /** fdt_next_node from a node is the next node in preorder; after the last one the depth turns negative. */
  lemma NextNodeIsNextPath(n: Node, p: Path)
    requires WfNode(n) && ValidPath(n, p)
    ensures Scannable(Encode(n), NodeOff(n, p))
    ensures NextPath(n, p).Some? ==> ValidPath(n, NextPath(n, p).value)
    ensures NextNode(Encode(n), NodeOff(n, p), |p|) ==
            match NextPath(n, p)
            case Some(q) => (NodeOff(n, q), |q|)
            case None => (TreeEnd(n), -1)
  {
    hide WfNode, Stream, Scan, Flat, Pos, Climb, At, ValidPath, Enc, Off, Encode, Scannable, NextNode, Has, FlatItems;
    var ts, v := Stream(n), Visit(Pos(n, p), |p|, At(n, p));
    StreamFacts(n);
    StreamLen(n);
    PosBound(n, p);
    NodeInside(ts, At(n, p), Pos(n, p));
    NextNodeAt(ts, v);
    ClimbIsScan(n, p, 0);
    ItemPosZero(n, p);
    if NextPath(n, p).Some? {
      NodeToken(n, NextPath(n, p).value);
    }
  }

  /** After the tree comes the end tag, which is no node. */
  lemma AfterTree(n: Node)
    requires WfNode(n)
    ensures Scannable(Encode(n), TreeEnd(n)) && NextNode(Encode(n), TreeEnd(n), -1) == (-FDT_ERR_BADOFFSET, -1)
    ensures forall q :: ValidPath(n, q) ==> NodeOff(n, q) != TreeEnd(n)
  {
    hide WfNode, Stream, Flat, Enc, Off, NodeOff, ValidPath;
    StreamFacts(n);
    StreamLen(n);
    NextTagAt(Stream(n), |Flat(n)|);
    LastToken(n);
    hide Encode, NextTag;
    assert NextTag(Encode(n), TreeEnd(n)).0 == FDT_END;
    forall q | ValidPath(n, q)
      ensures NodeOff(n, q) != TreeEnd(n)
    {
      BeforeEnd(n, q);
    }
  }

  lemma LastToken(n: Node)
    ensures |Flat(n)| < |Stream(n)| && Tag(Stream(n)[|Flat(n)|]) == FDT_END
  {
    hide Flat;
  }

  lemma RootOff(n: Node)
    requires WfNode(n)
    ensures ValidPath(n, []) && NodeOff(n, []) == 0 && Scannable(Encode(n), 0)
  {
    hide WfNode, Stream, Encode, Scannable, Flat;
    StreamFacts(n);
    HeaderAt(n, []);
  }

  /** The node at a byte offset, if there is one. */
  ghost predicate NodeIs(n: Node, offset: int, node: Option<Path>)
    requires WfNode(n)
  {
    match node
    case Some(q) => ValidPath(n, q) && NodeOff(n, q) == offset
    case None => forall q :: ValidPath(n, q) ==> NodeOff(n, q) != offset
  }

  /** A loop that looks for `offset` stands at `p`: it has not passed the node it looks for. */
  ghost predicate Seeking(n: Node, p: Path, offset: int, node: Option<Path>)
    requires WfNode(n)
    ensures Seeking(n, p, offset, node) ==> ValidPath(n, p)
  {
    ValidPath(n, p) && NodeIs(n, offset, node) && (node.Some? ==> Pos(n, p) <= Pos(n, node.value))
  }

  lemma SeekStart(n: Node, offset: int, node: Option<Path>)
    requires WfNode(n) && NodeIs(n, offset, node)
    ensures Seeking(n, [], offset, node) && NodeOff(n, []) == 0 && Scannable(Encode(n), 0)
  {
    hide WfNode, NodeOff, Encode, Scannable, FlatItems;
    RootOff(n);
  }

  /** One step of the loop, from a node that is not the one it looks for. */
  lemma SeekStep(n: Node, p: Path, offset: int, node: Option<Path>)
    requires WfNode(n) && Seeking(n, p, offset, node) && NodeOff(n, p) < offset
    ensures Scannable(Encode(n), NodeOff(n, p)) && NodeOff(n, p) < TreeEnd(n)
    ensures var (o, d) := NextNode(Encode(n), NodeOff(n, p), |p|);
            o > NodeOff(n, p) &&
            match NextPath(n, p)
            case Some(q) =>
              o >= 0 && Seeking(n, q, offset, node) && o == NodeOff(n, q) && d == |q| && Scannable(Encode(n), o)
            case None => o == TreeEnd(n) && d == -1 && node == None
  {
    hide WfNode, NodeOff, Encode, Scannable, NextNode, NextPath, TreeEnd, Pos, ValidPath;
    NextNodeIsNextPath(n, p);
    BeforeEnd(n, p);
    if node.Some? {
      OffOrder(n, p, node.value);
      NextIsNext(n, p, node.value);
    }
    if NextPath(n, p).Some? {
      NextIsLater(n, p);
      OffOrder(n, p, NextPath(n, p).value);
      HeaderAt(n, NextPath(n, p).value);
    }
  }

  /** The loop recognises the node by its offset, and passes the offset only if there is none. */
  lemma SeekEnd(n: Node, p: Path, offset: int, node: Option<Path>)
    requires WfNode(n) && Seeking(n, p, offset, node)
    ensures NodeOff(n, p) == offset <==> node == Some(p)
    ensures NodeOff(n, p) > offset ==> node == None
  {
    hide WfNode, NodeOff, Pos, ValidPath;
    if node.Some? {
      OffOrder(n, p, node.value);
      if Pos(n, p) == Pos(n, node.value) {
        PosInjective(n, p, node.value);
      }
    }
  }

  // ---- depth and ancestors ----

  const INTERNAL := -FDT_ERR_INTERNAL

  /** The loop stands at a node, or has come to the end of the tree, or has failed there. */
  ghost predicate Looking(n: Node, p: Path, offset: int, depth: int, nodeoffset: int, node: Option<Path>)
    requires WfNode(n)
  {
    (Seeking(n, p, nodeoffset, node) && offset == NodeOff(n, p) && depth == |p|) ||
    (offset == TreeEnd(n) && depth == -1 && node == None) ||
    (offset == -FDT_ERR_BADOFFSET && node == None && nodeoffset > TreeEnd(n))
  }

  /** What the loop says of an offset at which no node begins. */
  ghost function NoNodeError(n: Node, nodeoffset: int): int
    requires WfNode(n)
  {
    if nodeoffset < TreeEnd(n) then -FDT_ERR_BADOFFSET
    else if nodeoffset == TreeEnd(n) then NOTFOUND
    else -FDT_ERR_BADSTRUCTURE
  }

  /**
   fdt_supernode_atdepth_offset: the ancestor of a node at a given depth, and the node's own depth. The end of the
   tree passes for a node of depth -1.
   */
  method SupernodeAtDepth(s: Bytes, nodeoffset: int, supernodedepth: int, ghost n: Node, ghost node: Option<Path>)
    returns (r: int, nodedepth: int)
    requires WfNode(n) && s == Encode(n) && NodeIs(n, nodeoffset, node)
    ensures supernodedepth < 0 ==> r == NOTFOUND
    ensures supernodedepth >= 0 && node == None ==> r == NoNodeError(n, nodeoffset)
    ensures supernodedepth >= 0 && node.Some? ==>
              nodedepth == |node.value| &&
              if supernodedepth > |node.value| then r == NOTFOUND
              else ValidPath(n, node.value[..supernodedepth]) && r == NodeOff(n, node.value[..supernodedepth])
  {
    hide *;
    ErrorIs(n, nodeoffset);
    nodedepth := 0;
    if supernodedepth < 0 {
      return NOTFOUND, nodedepth;
    }
    var supernodeoffset := INTERNAL;
    var offset, depth := 0, 0;
    ghost var p: Path := [];
    SeekStart(n, nodeoffset, node);
    if nodeoffset >= 0 {
      LookingHere(n, p, nodeoffset, node);
    }
    while offset >= 0 && offset <= nodeoffset
      invariant offset <= nodeoffset ==> Looking(n, p, offset, depth, nodeoffset, node)
      invariant 0 <= offset <= nodeoffset && depth > supernodedepth ==> SuperIs(n, p, supernodedepth, supernodeoffset)
      invariant offset > nodeoffset ==> (node == None && nodeoffset < TreeEnd(n)) || nodeoffset < 0
      invariant nodeoffset < 0 ==> offset == 0
      decreases if offset < 0 then 0 else nodeoffset + 1 - offset
    {
      LookingIs(n, p, offset, depth, nodeoffset, node);
      if depth == supernodedepth {
        supernodeoffset := offset;
        SuperHere(n, p, nodeoffset, node);
      }
      if offset == nodeoffset {
        nodedepth := depth;
        if supernodedepth > depth {
          return NOTFOUND, nodedepth;
        } else {
          SuperFacts(n, p, supernodedepth, supernodeoffset);
          return supernodeoffset, nodedepth;
        }
      }
      ghost var q := p;
      if depth >= 0 {
        SeekStep(n, p, nodeoffset, node);
        if NextPath(n, p).Some? {
          q := NextPath(n, p).value;
          NextStep(n, p);
          if |p| >= supernodedepth && |q| > supernodedepth {
            SuperKept(n, p, q, supernodedepth, supernodeoffset);
          }
          SeekEnd(n, q, nodeoffset, node);
          SeekingEnd(n, q, nodeoffset, node);
        }
      } else {
        AfterTree(n);
      }
      offset, depth := ReadNextNode(s, offset, depth);
      LookingNext(n, q, offset, depth, nodeoffset, node);
      p := q;
    }
    NoNegativeNode(n, nodeoffset, node);
    if offset < 0 {
      LookingFailed(n, p, offset, depth, nodeoffset, node);
    }
    if offset == NOTFOUND || offset >= 0 {
      return -FDT_ERR_BADOFFSET, nodedepth;
    } else if offset == -FDT_ERR_BADOFFSET {
      return -FDT_ERR_BADSTRUCTURE, nodedepth;
    }
    return offset, nodedepth;
  }

  lemma ErrorIs(n: Node, nodeoffset: int)
    requires WfNode(n)
    ensures NOTFOUND == -1 && FDT_ERR_BADOFFSET == 4 && FDT_ERR_BADSTRUCTURE == 11 && INTERNAL == -13
    ensures NoNodeError(n, nodeoffset) ==
            if nodeoffset < TreeEnd(n) then -FDT_ERR_BADOFFSET
            else if nodeoffset == TreeEnd(n) then NOTFOUND else -FDT_ERR_BADSTRUCTURE
  {
    hide TreeEnd, WfNode;
  }

  lemma LookingHere(n: Node, p: Path, nodeoffset: int, node: Option<Path>)
    requires WfNode(n) && Seeking(n, p, nodeoffset, node)
    ensures Looking(n, p, NodeOff(n, p), |p|, nodeoffset, node)
  {
    hide TreeEnd, WfNode, Seeking, NodeOff, ValidPath;
  }

  lemma LookingIs(n: Node, p: Path, offset: int, depth: int, nodeoffset: int, node: Option<Path>)
    requires WfNode(n) && Looking(n, p, offset, depth, nodeoffset, node) && offset >= 0
    ensures if depth >= 0
            then Seeking(n, p, nodeoffset, node) && ValidPath(n, p) && offset == NodeOff(n, p) && depth == |p| &&
              offset < TreeEnd(n)
            else offset == TreeEnd(n) && depth == -1 && node == None
    ensures depth >= 0 && offset == nodeoffset ==> node == Some(p)
  {
    hide TreeEnd, WfNode, NodeOff, ValidPath, Pos;
    if depth >= 0 {
      BeforeEnd(n, p);
      SeekEnd(n, p, nodeoffset, node);
    }
  }

  lemma SeekingEnd(n: Node, q: Path, nodeoffset: int, node: Option<Path>)
    requires WfNode(n) && Seeking(n, q, nodeoffset, node)
    ensures ValidPath(n, q) && NodeOff(n, q) < TreeEnd(n)
  {
    hide TreeEnd, WfNode, NodeOff, ValidPath;
    BeforeEnd(n, q);
  }

  lemma LookingNext(n: Node, q: Path, offset: int, depth: int, nodeoffset: int, node: Option<Path>)
    requires WfNode(n)
    requires || (Seeking(n, q, nodeoffset, node) && offset == NodeOff(n, q) && depth == |q|)
             || (offset == TreeEnd(n) && depth == -1 && node == None)
             || (offset == -FDT_ERR_BADOFFSET && node == None && nodeoffset > TreeEnd(n))
    ensures Looking(n, q, offset, depth, nodeoffset, node)
  {
    hide TreeEnd, WfNode, Seeking, NodeOff, ValidPath;
  }

  lemma LookingFailed(n: Node, p: Path, offset: int, depth: int, nodeoffset: int, node: Option<Path>)
    requires WfNode(n) && Looking(n, p, offset, depth, nodeoffset, node) && offset < 0
    ensures offset == -FDT_ERR_BADOFFSET && node == None && nodeoffset > TreeEnd(n)
  {
    hide TreeEnd, WfNode, Seeking, ValidPath;
  }

  /** `offset` is that of the ancestor of `p` at depth `d`. */
  ghost predicate SuperIs(n: Node, p: Path, d: int, offset: int)
    requires WfNode(n)
  {
    0 <= d <= |p| && ValidPath(n, p[..d]) && offset == NodeOff(n, p[..d])
  }

  lemma SuperHere(n: Node, p: Path, offset: int, node: Option<Path>)
    requires WfNode(n) && Seeking(n, p, offset, node)
    ensures ValidPath(n, p) && SuperIs(n, p, |p|, NodeOff(n, p))
  {
    hide WfNode, NodeOff, ValidPath;
    assert p[..|p|] == p;
  }

  lemma SuperKept(n: Node, p: Path, q: Path, d: nat, offset: int)
    requires WfNode(n) && SuperIs(n, p, d, offset)
    requires d < |q| <= |p| + 1 && q[..|q| - 1] == p[..|q| - 1]
    ensures SuperIs(n, q, d, offset)
  {
    hide WfNode, NodeOff, ValidPath;
    assert q[..d] == q[..|q| - 1][..d] == p[..|q| - 1][..d] == p[..d];
  }

  lemma SuperFacts(n: Node, p: Path, d: int, offset: int)
    requires WfNode(n) && SuperIs(n, p, d, offset)
    ensures 0 <= d <= |p| && ValidPath(n, p[..d]) && offset == NodeOff(n, p[..d])
  {
  }

  lemma NoNegativeNode(n: Node, offset: int, node: Option<Path>)
    requires WfNode(n) && NodeIs(n, offset, node)
    ensures offset < 0 ==> node == None
  {
    hide WfNode, NodeOff, ValidPath;
  }

  lemma NextStep(n: Node, p: Path)
    requires ValidPath(n, p)
    ensures NextPath(n, p).Some? ==>
              var q := NextPath(n, p).value;
              0 < |q| <= |p| + 1 && q[..|q| - 1] == p[..|q| - 1]
  {
    hide Climb, At, ValidPath;
  }

  /** fdt_parent_offset: the parent of a node; the root has none. */
  method ParentOffset(s: Bytes, nodeoffset: int, ghost n: Node, ghost node: Option<Path>) returns (r: int)
    requires WfNode(n) && s == Encode(n) && NodeIs(n, nodeoffset, node)
    ensures node == None ==> r == NoNodeError(n, nodeoffset)
    ensures node == Some([]) ==> r == NOTFOUND
    ensures node.Some? && node.value != [] ==>
              var q := node.value[..|node.value| - 1];
              ValidPath(n, q) && r == NodeOff(n, q)
  {
    hide WfNode, Encode, NodeOff, TreeEnd, ValidPath, Stream;
    var err, nodedepth := SupernodeAtDepth(s, nodeoffset, 0, n, node);
    if node.Some? {
      assert node.value[..0] == [];
      RootOff(n);
    }
    if err != 0 {
      return if err < 0 then err else INTERNAL;
    }
    r, nodedepth := SupernodeAtDepth(s, nodeoffset, nodedepth - 1, n, node);
  }

  /** The parent lookup inverts the subnode loops: the parent of every subnode is the node it was listed under. */
  lemma ParentOfKid(n: Node, p: Path, m: nat)
    requires WfNode(n) && ValidPath(n, p) && KidOff(n, p, m) >= 0
    ensures var q := p + [KidItem(At(n, p).items, m)];
            NodeIs(n, KidOff(n, p, m), Some(q)) && q[..|q| - 1] == p && KidOff(n, p, m) < TreeEnd(n)
  {
    hide WfNode, Encode, ItemOff, NodeOff, KidItem, Flat, Stream, Enc, Off, Pos;
    var q := p + [KidItem(At(n, p).items, m)];
    ChildOff(n, p, KidItem(At(n, p).items, m));
    BeforeEnd(n, q);
  }

  lemma BeforeEnd(n: Node, p: Path)
    requires WfNode(n) && ValidPath(n, p)
    ensures NodeOff(n, p) < TreeEnd(n)
  {
    hide WfNode, Flat, Stream, Enc, Off, Pos, Has, ValidPath;
    StreamFacts(n);
    NodeToken(n, p);
    StreamLen(n);
    OffMonotone(Stream(n), Pos(n, p), |Flat(n)|);
  }
}
