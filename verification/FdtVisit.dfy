/**
 The nodes a loop of `fdt_next_node` visits, in order: exactly the nodes of the tree,
 each with its depth.
 */
module FdtVisit {
  import opened FdtBytes
  import opened FdtTokens
  import opened FdtTree
  import opened FdtScan

  /** A node of the tree, the token it starts at and its depth. */
  datatype Visit = Visit(k: nat, d: int, node: Node)

  /** Preorder of the tree `n` that starts at token `k`. */
  function Pre(n: Node, k: nat, d: int): (v: seq<Visit>)
    ensures v != [] && v[0] == Visit(k, d, n)
    decreases n, 1
  {
    [Visit(k, d, n)] + PreItems(n.items, k + 1, d + 1)
  }

  function PreItem(it: Item, k: nat, d: int): seq<Visit>
    decreases it, 1
  {
    match it
    case Child(c) => Pre(c, k, d)
    case _ => []
  }

  function PreItems(items: seq<Item>, k: nat, d: int): seq<Visit>
    decreases items, 0
  {
    if items == [] then []
    else PreItem(items[0], k, d) + PreItems(items[1..], k + |FlatItem(items[0])|, d)
  }

  /** What the scan finds from token `k` at depth `d`, if the depth is not negative already. */
  function From(ts: seq<Token>, k: nat, d: int): (int, int) {
    if d < 0 then (k, d) else Scan(ts, k, d)
  }

  /** Head of the visits, or what comes after them. */
  function Head(v: seq<Visit>, after: (int, int)): (int, int) {
    if v == [] then after else (v[0].k, v[0].d)
  }

  /** From each visited node the scan finds the next one, and from the last one `after`. */
  ghost predicate Chained(ts: seq<Token>, v: seq<Visit>, after: (int, int)) {
    forall i :: 0 <= i < |v| ==> Scan(ts, v[i].k + 1, v[i].d) == Head(v[i + 1..], after)
  }

  lemma ChainedConcat(ts: seq<Token>, a: seq<Visit>, b: seq<Visit>, after: (int, int))
    requires Chained(ts, a, Head(b, after)) && Chained(ts, b, after)
    ensures Chained(ts, a + b, after)
  {
    hide Scan;
    var v := a + b;
    forall i | 0 <= i < |v|
      ensures Scan(ts, v[i].k + 1, v[i].d) == Head(v[i + 1..], after)
    {
      if i < |a| {
        assert v[i + 1..] == a[i + 1..] + b;
      } else {
        assert v[i] == b[i - |a|] && v[i + 1..] == b[i - |a| + 1..];
      }
    }
  }

  lemma {:induction false} PreChained(ts: seq<Token>, n: Node, k: nat, d: int)
    requires Has(ts, k, Flat(n)) && d >= 0
    ensures Chained(ts, Pre(n, k, d), From(ts, k + |Flat(n)|, d - 1))
    decreases n, 1
  {
    hide Has, Scan, FlatItems, PreItems, Chained;
    var body := FlatItems(n.items);
    var head := [TBegin(n.name, n.pad)];
    HasSplit(ts, k, head + body, [TEnd]);
    HasSplit(ts, k, head, body);
    var e := k + 1 + |body|;
    ScanEnd(ts, e, d);
    PreItemsChained(ts, n.items, k + 1, d);
    ChainedHead(ts, Visit(k, d, n), PreItems(n.items, k + 1, d + 1), Scan(ts, e, d));
  }

  lemma ScanEnd(ts: seq<Token>, e: nat, d: int)
    requires Has(ts, e, [TEnd])
    ensures Scan(ts, e, d) == From(ts, e + 1, d - 1)
  {
    HasAt(ts, e, [TEnd]);
    assert ts[e] == TEnd;
  }

  lemma ChainedHead(ts: seq<Token>, x: Visit, v: seq<Visit>, after: (int, int))
    requires Chained(ts, v, after) && Scan(ts, x.k + 1, x.d) == Head(v, after)
    ensures Chained(ts, [x] + v, after)
  {
    hide Scan;
    assert [x][1..] == [];
    ChainedConcat(ts, [x], v, after);
  }

  /** At depth `d` between the items of a node, the scan reaches the first subnode or the end. */
  lemma {:induction false} PreItemsChained(ts: seq<Token>, items: seq<Item>, k: nat, d: int)
    requires Has(ts, k, FlatItems(items)) && d >= 0
    ensures Chained(ts, PreItems(items, k, d + 1), Scan(ts, k + |FlatItems(items)|, d))
    ensures Scan(ts, k, d) == Head(PreItems(items, k, d + 1), Scan(ts, k + |FlatItems(items)|, d))
    decreases items, 0
  {
    hide Has, Scan, FlatItem, PreItem, Chained;
    if items == [] {
      ChainedNone(ts, Scan(ts, k, d));
    } else {
      HasSplit(ts, k, FlatItem(items[0]), FlatItems(items[1..]));
      var m := k + |FlatItem(items[0])|;
      PreItemsChained(ts, items[1..], m, d);
      PreItemChained(ts, items[0], k, d);
      ChainedConcat(ts, PreItem(items[0], k, d + 1), PreItems(items[1..], m, d + 1),
        Scan(ts, m + |FlatItems(items[1..])|, d));
    }
  }

  lemma ChainedNone(ts: seq<Token>, after: (int, int))
    ensures Chained(ts, [], after)
  {
  }

  lemma {:induction false} PreItemChained(ts: seq<Token>, it: Item, k: nat, d: int)
    requires Has(ts, k, FlatItem(it)) && d >= 0
    ensures Chained(ts, PreItem(it, k, d + 1), Scan(ts, k + |FlatItem(it)|, d))
    ensures Scan(ts, k, d) == Head(PreItem(it, k, d + 1), Scan(ts, k + |FlatItem(it)|, d))
    decreases it, 1
  {
    hide Chained;
    HasAt(ts, k, FlatItem(it));
    assert ts[k] == FlatItem(it)[0];
    match it
    case Child(c) =>
      PreChained(ts, c, k, d + 1);
    case _ =>
      ChainedNone(ts, Scan(ts, k + 1, d));
  }

  /** A visit names a node that really lies at its token. */
  ghost predicate VisitOk(ts: seq<Token>, v: Visit) {
    v.d >= 0 && Has(ts, v.k, Flat(v.node)) && v.k + |Flat(v.node)| < |ts|
  }

  ghost predicate VisitsOk(ts: seq<Token>, v: seq<Visit>, d: int) {
    forall i :: 0 <= i < |v| ==> VisitOk(ts, v[i]) && v[i].d >= d
  }

  lemma NodeParts(ts: seq<Token>, k: nat, n: Node)
    ensures Has(ts, k, Flat(n)) <==>
            Has(ts, k, [TBegin(n.name, n.pad)]) && Has(ts, k + 1, FlatItems(n.items)) &&
            Has(ts, k + 1 + |FlatItems(n.items)|, [TEnd])
    ensures |Flat(n)| == |FlatItems(n.items)| + 2
  {
    hide Has, FlatItems;
    var head, body := [TBegin(n.name, n.pad)], FlatItems(n.items);
    HasSplit(ts, k, head + body, [TEnd]);
    HasSplit(ts, k, head, body);
  }

  lemma {:induction false} PreOk(ts: seq<Token>, n: Node, k: nat, d: int)
    requires Has(ts, k, Flat(n)) && k + |Flat(n)| < |ts| && d >= 0
    ensures VisitsOk(ts, Pre(n, k, d), d)
    ensures VisitsOk(ts, PreItems(n.items, k + 1, d + 1), d + 1)
    decreases n, 1
  {
    hide Has, Flat, FlatItems, PreItems;
    NodeParts(ts, k, n);
    PreItemsOk(ts, n.items, k + 1, d + 1);
  }

  lemma {:induction false} PreItemsOk(ts: seq<Token>, items: seq<Item>, k: nat, d: int)
    requires Has(ts, k, FlatItems(items)) && k + |FlatItems(items)| < |ts| && d >= 0
    ensures VisitsOk(ts, PreItems(items, k, d), d)
    decreases items, 0
  {
    hide Has, FlatItem, PreItem, VisitOk;
    if items != [] {
      HasSplit(ts, k, FlatItem(items[0]), FlatItems(items[1..]));
      PreItemOk(ts, items[0], k, d);
      PreItemsOk(ts, items[1..], k + |FlatItem(items[0])|, d);
    }
  }

  lemma {:induction false} PreItemOk(ts: seq<Token>, it: Item, k: nat, d: int)
    requires Has(ts, k, FlatItem(it)) && k + |FlatItem(it)| < |ts| && d >= 0
    ensures VisitsOk(ts, PreItem(it, k, d), d)
    decreases it, 1
  {
    match it
    case Child(c) => PreOk(ts, c, k, d);
    case _ =>
  }

  /** fdt_next_node from a visited node. */
  lemma NextNodeAt(ts: seq<Token>, v: Visit)
    requires Block(ts) && VisitOk(ts, v)
    ensures Scannable(Enc(ts), Off(ts, v.k))
    ensures NextNode(Enc(ts), Off(ts, v.k), v.d) == OffsetOf(ts, Scan(ts, v.k + 1, v.d))
  {
    hide Enc, Off, NextTag, Flat, WfTokens, Scannable, NextNodeFrom, Scan, OffsetOf;
    BlockScannable(ts, v.k);
    BlockScannable(ts, v.k + 1);
    NextNodeFromIsScan(ts, v.k + 1, v.d);
    NextTagAt(ts, v.k);
    OffAligned(ts, v.k);
    HasAt(ts, v.k, Flat(v.node));
    assert ts[v.k] == Flat(v.node)[0];
  }

  /** The bytes of a node's name, read at its offset. */
  function NameAt(s: Bytes, off: nat): Bytes
    requires off + 4 <= |s|
  {
    s[off + 4..FindNul(s, off + 4)]
  }

  lemma NameAtVisit(ts: seq<Token>, v: Visit)
    requires Block(ts) && VisitOk(ts, v)
    ensures Off(ts, v.k) + 4 <= |Enc(ts)| && NameAt(Enc(ts), Off(ts, v.k)) == v.node.name
  {
    hide Enc, Off, Flat, EncTok, FindNul, Word, ReadWord;
    HasAt(ts, v.k, Flat(v.node));
    assert ts[v.k] == Flat(v.node)[0];
    WfTokenAt(ts, v.k);
    EncAt(ts, v.k);
    BeginFields(Enc(ts), Off(ts, v.k), v.node.name, v.node.pad);
  }
}
