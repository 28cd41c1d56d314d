/**
 Names with slashes: each slash of a name passed on the way to a node leaves one more component in the path written for
 it, and that path then leads elsewhere.
 */
module FdtLeftOver {
  import opened Common
  import opened FdtBytes
  import opened FdtTokens
  import opened FdtTree
  import opened FdtScan
  import opened FdtNodes
  import opened FdtEdit
  import opened FdtDecode
  import opened FdtSplice
  import opened FdtOps
  import opened FdtTrail
  import opened FdtPath
  import opened FdtRoundTrip

  // ---- slashes, room and empty components ----

  /** How many slashes a name holds. */
  function Slashes(name: Bytes): nat {
    |Split(name)| - 1
  }

  ghost function AllSlashes(n: Node): nat
    decreases n, 1
  {
    Slashes(n.name) + ItemsSlashes(n.items)
  }

  ghost function ItemSlashes(it: Item): nat
    decreases it, 1
  {
    match it
    case Child(c) => AllSlashes(c)
    case _ => 0
  }

  ghost function ItemsSlashes(items: seq<Item>): nat
    decreases items, 0
  {
    if items == [] then 0 else ItemSlashes(items[0]) + ItemsSlashes(items[1..])
  }

  /** Slashes in the names of the nodes up to `q` in preorder. */
  ghost function SlashesBefore(n: Node, q: Path): nat
    requires ValidPath(n, q)
    decreases |q|
  {
    Slashes(n.name) +
    if q == [] then 0 else ItemsSlashes(n.items[..q[0]]) + SlashesBefore(n.items[q[0]].node, q[1..])
  }

  /** Room for every name of the tree, each with a slash. */
  ghost function Bulk(n: Node): nat
    decreases n, 1
  {
    |n.name| + 1 + ItemsBulk(n.items)
  }

  ghost function ItemBulk(it: Item): nat
    decreases it, 1
  {
    match it
    case Child(c) => Bulk(c)
    case _ => 0
  }

  ghost function ItemsBulk(items: seq<Item>): nat
    decreases items, 0
  {
    if items == [] then 0 else ItemBulk(items[0]) + ItemsBulk(items[1..])
  }

  /** A name that is not empty, does not start or end with a slash, and has no two in a row. */
  predicate Full(name: Bytes) {
    forall x :: x in Split(name) ==> x != []
  }

  ghost predicate AllFull(n: Node)
    decreases n, 1
  {
    Full(n.name) && ItemsFull(n.items)
  }

  ghost predicate ItemFull(it: Item)
    decreases it, 1
  {
    match it
    case Child(c) => AllFull(c)
    case _ => true
  }

  ghost predicate ItemsFull(items: seq<Item>)
    decreases items, 0
  {
    items == [] || (ItemFull(items[0]) && ItemsFull(items[1..]))
  }

  /** The names of the nodes below the root and up to `q` in preorder are full. */
  ghost predicate FullBefore(n: Node, q: Path)
    requires ValidPath(n, q)
    decreases |q|
  {
    q == [] ||
    (ItemsFull(n.items[..q[0]]) && Full(n.items[q[0]].node.name) && FullBefore(n.items[q[0]].node, q[1..]))
  }

  // ---- every slash leaves a component ----

  /** Components above the bottom one are not empty. */
  predicate FullAbove(segs: seq<Bytes>) {
    forall i :: 0 < i < |segs| ==> segs[i] != []
  }

  /** There is room for `room` more bytes, and the names of the parents are all there. */
  ghost predicate Roomy(s: Trail, depth: nat, room: nat, buflen: nat) {
    TrailOk(s, buflen) && s.pdepth >= depth && |Text(s.segs)| + room <= buflen && FullAbove(s.segs)
  }

  /** From `s` to `t` at most `room` bytes were added, and `slashes` components more than names. */
  ghost predicate Grown(s: Trail, t: Trail, room: nat, slashes: nat) {
    |Text(t.segs)| <= |Text(s.segs)| + room && |t.segs| - t.pdepth == |s.segs| - s.pdepth + slashes
  }

  lemma GrownTrans(s: Trail, t: Trail, u: Trail, a: nat, x: nat, b: nat, y: nat)
    requires Grown(s, t, a, x) && Grown(t, u, b, y)
    ensures Grown(s, u, a + b, x + y)
  {
    hide Text;
  }

  lemma RoomyAfter(s: Trail, t: Trail, d: nat, e: nat, a: nat, b: nat, x: nat, buflen: nat)
    requires Roomy(s, d, a + b, buflen) && Grown(s, t, a, x) && Roomy(t, e, 0, buflen)
    ensures Roomy(t, e, b, buflen)
  {
    hide Text;
  }

  lemma RoomyLess(s: Trail, d: nat, e: nat, a: nat, b: nat, buflen: nat)
    requires Roomy(s, d, a, buflen) && b <= a && e <= d
    ensures Roomy(s, e, b, buflen)
  {
    hide Text;
  }

  lemma FullMore(segs: seq<Bytes>, name: Bytes)
    requires FullAbove(segs) && (Full(name) || (name == [] && segs == []))
    ensures FullAbove(segs + Split(name))
  {
    var own := Split(name);
    forall i | 0 < i < |segs + own|
      ensures (segs + own)[i] != []
    {
      if i >= |segs| {
        assert own[i - |segs|] in own;
      }
    }
  }

  lemma EnterRoomy(s: Trail, name: Bytes, depth: nat, buflen: nat)
    requires Roomy(s, depth, |name| + 1, buflen) && (Full(name) || (name == [] && s.segs == []))
    ensures var t := Enter(s, name, depth, buflen);
            t.pdepth == depth + 1 && Roomy(t, depth + 1, 0, buflen) && Grown(s, t, |name| + 1, Slashes(name))
  {
    hide Text, Split;
    var b := Back(s, depth);
    EnterOk(s, name, depth, buflen);
    if s.pdepth > depth {
      TextPrefix(s.segs, |b.segs|, |s.segs|);
      assert s.segs[..|s.segs|] == s.segs;
    }
    TextSplit(name);
    TextConcat(b.segs, Split(name));
    FullMore(b.segs, name);
  }

  lemma {:induction false} PassRoomy(s: Trail, n: Node, depth: nat, buflen: nat)
    requires Roomy(s, depth, Bulk(n), buflen) && AllFull(n)
    ensures Roomy(Pass(s, n, depth, buflen), depth, 0, buflen)
    ensures Grown(s, Pass(s, n, depth, buflen), Bulk(n), AllSlashes(n))
    decreases n, 1
  {
    hide Enter, Roomy, Grown, Full, Slashes, PassItems, ItemsBulk, ItemsFull, ItemsSlashes;
    RoomyLess(s, depth, depth, Bulk(n), |n.name| + 1, buflen);
    EnterRoomy(s, n.name, depth, buflen);
    var t := Enter(s, n.name, depth, buflen);
    RoomyAfter(s, t, depth, depth + 1, |n.name| + 1, ItemsBulk(n.items), Slashes(n.name), buflen);
    PassItemsRoomy(t, n.items, depth + 1, buflen);
    var u := PassItems(t, n.items, depth + 1, buflen);
    GrownTrans(s, t, u, |n.name| + 1, Slashes(n.name), ItemsBulk(n.items), ItemsSlashes(n.items));
    RoomyLess(u, depth + 1, depth, 0, 0, buflen);
  }

  lemma {:induction false} PassItemRoomy(s: Trail, it: Item, depth: nat, buflen: nat)
    requires Roomy(s, depth, ItemBulk(it), buflen) && ItemFull(it)
    ensures Roomy(PassItem(s, it, depth, buflen), depth, 0, buflen)
    ensures Grown(s, PassItem(s, it, depth, buflen), ItemBulk(it), ItemSlashes(it))
    decreases it, 1
  {
    hide Roomy, Pass, Bulk, AllFull, AllSlashes;
    match it
    case Child(c) => PassRoomy(s, c, depth, buflen);
    case _ => GrownSame(s);
  }

  lemma GrownSame(s: Trail)
    ensures Grown(s, s, 0, 0)
  {
  }

  lemma {:induction false} PassItemsRoomy(s: Trail, items: seq<Item>, depth: nat, buflen: nat)
    requires Roomy(s, depth, ItemsBulk(items), buflen) && ItemsFull(items)
    ensures Roomy(PassItems(s, items, depth, buflen), depth, 0, buflen)
    ensures Grown(s, PassItems(s, items, depth, buflen), ItemsBulk(items), ItemsSlashes(items))
    decreases items, 0
  {
    hide Roomy, Grown, PassItem, ItemBulk, ItemFull, ItemSlashes;
    if items == [] {
      GrownSame(s);
    } else {
      var a, b := ItemBulk(items[0]), ItemsBulk(items[1..]);
      RoomyLess(s, depth, depth, a + b, a, buflen);
      PassItemRoomy(s, items[0], depth, buflen);
      var t := PassItem(s, items[0], depth, buflen);
      RoomyAfter(s, t, depth, depth, a, b, ItemSlashes(items[0]), buflen);
      PassItemsRoomy(t, items[1..], depth, buflen);
      var u := PassItems(t, items[1..], depth, buflen);
      GrownTrans(s, t, u, a, ItemSlashes(items[0]), b, ItemsSlashes(items[1..]));
    }
  }

  lemma {:induction false} BulkTake(items: seq<Item>, k: nat)
    requires k < |items|
    ensures ItemsBulk(items[..k]) + ItemBulk(items[k]) <= ItemsBulk(items)
    decreases |items|
  {
    hide ItemBulk;
    if k > 0 {
      assert items[..k][1..] == items[1..][..k - 1];
      BulkTake(items[1..], k - 1);
    }
  }

  lemma {:induction false} ArriveRoomy(s: Trail, n: Node, depth: nat, buflen: nat, q: Path)
    requires ValidPath(n, q) && Roomy(s, depth, Bulk(n), buflen) && FullBefore(n, q)
    requires Full(n.name) || (n.name == [] && s.segs == [])
    ensures var t := Arrive(s, n, depth, buflen, q);
            t.pdepth == depth + |q| + 1 && Roomy(t, 0, 0, buflen) && Grown(s, t, Bulk(n), SlashesBefore(n, q))
    decreases |q|
  {
    hide Enter, Roomy, Grown, Full, Slashes, PassItems, ItemsBulk, ItemsFull, ItemsSlashes;
    var own := |n.name| + 1;
    RoomyLess(s, depth, depth, Bulk(n), own, buflen);
    EnterRoomy(s, n.name, depth, buflen);
    var t := Enter(s, n.name, depth, buflen);
    if q == [] {
      RoomyLess(t, depth + 1, 0, 0, 0, buflen);
      GrownLess(s, t, own, Bulk(n), Slashes(n.name));
    } else {
      var c, a, b := n.items[q[0]].node, ItemsBulk(n.items[..q[0]]), Bulk(n.items[q[0]].node);
      BulkTake(n.items, q[0]);
      RoomyLess(s, depth, depth, Bulk(n), own + (a + b), buflen);
      RoomyAfter(s, t, depth, depth + 1, own, a + b, Slashes(n.name), buflen);
      RoomyLess(t, depth + 1, depth + 1, a + b, a, buflen);
      PassItemsRoomy(t, n.items[..q[0]], depth + 1, buflen);
      var u, x := PassItems(t, n.items[..q[0]], depth + 1, buflen), ItemsSlashes(n.items[..q[0]]);
      RoomyAfter(t, u, depth + 1, depth + 1, a, b, x, buflen);
      ArriveRoomy(u, c, depth + 1, buflen, q[1..]);
      var v := Arrive(u, c, depth + 1, buflen, q[1..]);
      GrownTrans(s, t, u, own, Slashes(n.name), a, x);
      GrownTrans(s, u, v, own + a, Slashes(n.name) + x, b, SlashesBefore(c, q[1..]));
      GrownLess(s, v, own + a + b, Bulk(n), SlashesBefore(n, q));
    }
  }

  lemma GrownLess(s: Trail, t: Trail, a: nat, b: nat, x: nat)
    requires Grown(s, t, a, x) && a <= b
    ensures Grown(s, t, b, x)
  {
    hide Text;
  }

  lemma {:induction false} AllSeen(segs: seq<Bytes>)
    requires forall i :: 0 <= i < |segs| ==> segs[i] != []
    ensures NonEmpty(segs) == segs
    decreases |segs|
  {
    if segs != [] {
      AllSeen(segs[1..]);
    }
  }

  /** With room enough the path of a node has a component for each node on the way and one for each slash passed. */
  lemma LeftOver(n: Node, q: Path, buflen: nat)
    requires ValidPath(n, q) && n.name == [] && FullBefore(n, q) && Bulk(n) <= buflen
    ensures TrailTo(n, q, buflen).pdepth == |q| + 1
    ensures |Parts(PathWritten(n, q, buflen), 0)| == |q| + SlashesBefore(n, q)
  {
    hide Arrive, PathWritten, Text, Bulk, FullBefore, SlashesBefore, Parts;
    var s := Trail([], 0);
    assert Text([]) == [] by {
      NoText();
    }
    assert Roomy(s, 0, Bulk(n), buflen);
    ArriveRoomy(s, n, 0, buflen, q);
    var t := TrailTo(n, q, buflen);
    RootFirst(n, q, buflen);
    WrittenParts(n, q, buflen);
    assert t.segs == [[]] + t.segs[1..];
    AllSeen(t.segs[1..]);
    assert NonEmpty(t.segs) == t.segs[1..];
  }

  lemma NoText()
    ensures Text([]) == []
  {
  }

  lemma NoSlash(name: Bytes)
    ensures Slashes(name) == 0 <==> SLASH !in name
  {
    var i := FirstSlash(name, 0);
  }

  lemma {:induction false} NoneInNode(n: Node)
    ensures AllSlashes(n) == 0 <==> Free(n)
    decreases n, 1
  {
    hide Slashes, ItemsSlashes, FreeItems;
    NoSlash(n.name);
    NoneInItems(n.items);
  }

  lemma {:induction false} NoneInItem(it: Item)
    ensures ItemSlashes(it) == 0 <==> FreeItem(it)
    decreases it, 1
  {
    hide AllSlashes, Free;
    match it
    case Child(c) => NoneInNode(c);
    case _ =>
  }

  lemma {:induction false} NoneInItems(items: seq<Item>)
    ensures ItemsSlashes(items) == 0 <==> FreeItems(items)
    decreases items, 0
  {
    hide ItemSlashes, FreeItem;
    if items != [] {
      NoneInItem(items[0]);
      NoneInItems(items[1..]);
    }
  }

  lemma {:induction false} NoneBefore(n: Node, q: Path)
    requires ValidPath(n, q)
    ensures SlashesBefore(n, q) == 0 <==> FreeBefore(n, q)
    decreases |q|
  {
    hide Slashes, ItemsSlashes, FreeItems;
    NoSlash(n.name);
    if q != [] {
      NoneInItems(n.items[..q[0]]);
      NoneBefore(n.items[q[0]].node, q[1..]);
    }
  }

  // ---- round trips ----

  /**
   With room enough and no empty components, the path written for a node leads back to it exactly when no node up to it
   has a slash in its name and no name on its path matches an earlier sibling.
   */
  lemma SlashRoundTrip(n: Node, q: Path, buflen: nat)
    requires WfNode(n) && ValidPath(n, q) && n.name == [] && FullBefore(n, q) && Bulk(n) <= buflen
    ensures Scannable(Encode(n), 0) && TrailTo(n, q, buflen).pdepth == |q| + 1
    ensures LookupParts(Encode(n), 0, Parts(PathWritten(n, q, buflen), 0)) == NodeOff(n, q) <==>
            Findable(n, q) && FreeBefore(n, q)
  {
    hide *;
    LeftOver(n, q, buflen);
    PathRoundTrip(n, q, buflen);
    NoneBefore(n, q);
  }

  lemma {:induction false} FreeSegments(n: Node, q: Path)
    requires ValidPath(n, q) && FreeBefore(n, q)
    ensures Segments(Names(n, q)) == Names(n, q)
    decreases |q|
  {
    hide Split;
    SegmentsOfNames(n, q);
    assert Split(n.name) == [n.name];
    if q != [] {
      FreeSegments(n.items[q[0]].node, q[1..]);
    }
  }

  /** Where no name up to the node holds a slash, the path written leads back exactly to findable nodes. */
  lemma PlainRoundTrip(n: Node, q: Path, buflen: nat)
    requires WfNode(n) && ValidPath(n, q) && n.name == [] && FreeBefore(n, q) && |PathText(n, q)| + 1 <= buflen
    ensures Scannable(Encode(n), 0) && TrailTo(n, q, buflen).pdepth == |q| + 1
    ensures PathWritten(n, q, buflen) == PathText(n, q)
    ensures LookupParts(Encode(n), 0, Parts(PathText(n, q), 0)) == NodeOff(n, q) <==> Findable(n, q)
  {
    hide *;
    PathSize(n, q);
    PlainPath(n, q, buflen);
    PathRoundTrip(n, q, buflen);
    FreeTrail(n, q, buflen);
    WrittenParts(n, q, buflen);
    FreeSegments(n, q);
    WantedNames(n, q);
    if Findable(n, q) {
      FindableResolves(n, q);
    }
  }

  lemma PathSize(n: Node, q: Path)
    requires ValidPath(n, q)
    ensures |PathText(n, q)| > 0
  {
    hide Names;
  }

  // ---- a node that is not found again ----

  const A: Bytes := [97]
  const B: Bytes := [98]
  const C: Bytes := [99]

  /** A root with two subnodes, the first with a slash in its name: "a/b" and "c". */
  function Slashed(): Node {
    Node([], [0, 0, 0], [Child(Node([97, 47, 98], [], [])), Child(Node(C, [0, 0], []))])
  }

  lemma SlashedNames()
    ensures Split([97, 47, 98]) == [A, B] && Split(C) == [C] && Split([]) == [[]]
  {
    var x: Bytes := [97, 47, 98];
    assert FirstSlash(x, 0) == 1;
    assert x[2..] == B && x[..1] == A && FirstSlash(B, 0) == 1;
  }

  lemma SlashedTree()
    ensures var n := Slashed();
            WfNode(n) && n.name == [] && ValidPath(n, [1]) && n.items[..1] == [n.items[0]] &&
              n.items[1].node.items == []
  {
    var n := Slashed();
    assert [1][1..] == [] && n.items[1..] == [n.items[1]] && n.items[1..][1..] == [];
    assert WfNode(n.items[0].node) && WfNode(n.items[1].node);
    assert WfItems(n.items[1..]) && WfItems(n.items);
  }

  /** Its second subnode is what its name leads to. */
  lemma SecondIsFindable()
    requires ValidPath(Slashed(), [1])
    ensures Findable(Slashed(), [1])
  {
    var n := Slashed();
    assert [1][1..] == [] && n.items[1..] == [n.items[1]];
    assert !NodeNameEq([97, 47, 98], C) && NodeNameEq(C, C);
    assert MatchIndex(n.items[1..], C) == 0;
    assert MatchIndex(n.items, C) == 1;
  }

  /** On the way to the second subnode: the first one passed, then the second one entered. */
  lemma SecondTrail(buflen: nat)
    requires ValidPath(Slashed(), [1])
    ensures TrailTo(Slashed(), [1], buflen) ==
            Enter(Enter(Enter(Trail([], 0), [], 0, buflen), [97, 47, 98], 1, buflen), C, 1, buflen)
  {
    hide Enter;
    var n := Slashed();
    var s1 := Enter(Trail([], 0), [], 0, buflen);
    assert [1][1..] == [] && n.items[..1] == [n.items[0]];
    PassOne(s1, n.items[0], 1, buflen);
    assert Pass(s1, n.items[0].node, 1, buflen) == Enter(s1, [97, 47, 98], 1, buflen) by {
      NothingPassed(Enter(s1, [97, 47, 98], 1, buflen), 2, buflen);
    }
  }

  lemma FirstTexts()
    ensures Text([[]]) == [SLASH] && Text([[], A, B]) == [SLASH] + A + [SLASH] + B + [SLASH]
    ensures Text([[], A]) == [SLASH] + A + [SLASH] && Text([[], A, C]) == [SLASH] + A + [SLASH] + C + [SLASH]
    ensures Text([[], C]) == [SLASH] + C + [SLASH]
  {
    hide Text;
    TextOne([]);
    TextOne(A);
    TextOne(B);
    TextOne(C);
    TextConcat([[]], [A]);
    TextConcat([[]], [C]);
    TextConcat([[], A], [B]);
    TextConcat([[], A], [C]);
    assert [[]] + [A] == [[], A] && [[]] + [C] == [[], C] && [[], A] + [B] == [[], A, B] &&
           [[], A] + [C] == [[], A, C];
  }

  /** A buffer of five bytes holds "/a/b/", and leaving "a/b" takes off only "b/". */
  lemma SecondWritten(buflen: nat)
    requires ValidPath(Slashed(), [1]) && buflen >= 3
    ensures var t := TrailTo(Slashed(), [1], buflen);
            t == if buflen >= 5 then Trail([[], A, C], 2) else Trail([[], C], 2)
  {
    hide Text, Arrive, Split;
    SecondTrail(buflen);
    SlashedNames();
    FirstTexts();
    var s1 := Enter(Trail([], 0), [], 0, buflen);
    NoText();
    assert s1 == Trail([[]], 1);
    var s2 := Enter(s1, [97, 47, 98], 1, buflen);
    if buflen >= 5 {
      assert [[]] + [A, B] == [[], A, B];
      assert s2 == Trail([[], A, B], 2);
      assert Back(s2, 1) == Trail([[], A], 1);
      assert [[], A] + [C] == [[], A, C];
    } else {
      assert s2 == s1;
      assert [[]] + [C] == [[], C];
    }
  }

  /**
   The path of "c" is written as "/a/c", which is not found, in a buffer of five bytes or more, and as "/c", which is
   found, in one of three or four.
   */
  lemma SlashedNotFound(buflen: nat)
    requires buflen >= 3
    ensures var n := Slashed();
            WfNode(n) && ValidPath(n, [1]) && Findable(n, [1]) && Scannable(Encode(n), 0) &&
            TrailTo(n, [1], buflen).pdepth == 2 &&
            PathWritten(n, [1], buflen) == (if buflen >= 5 then [SLASH] + A + [SLASH] + C else [SLASH] + C) &&
            (LookupParts(Encode(n), 0, Parts(PathWritten(n, [1], buflen), 0)) == NodeOff(n, [1]) <==> buflen < 5)
  {
    hide *;
    SlashedTree();
    SecondIsFindable();
    SecondWritten(buflen);
    var n := Slashed();
    PathRoundTrip(n, [1], buflen);
    WrittenParts(n, [1], buflen);
    PathWrittenIs(n, [1], buflen);
    SecondParts();
  }

  lemma SecondParts()
    ensures Trim(Text([[], A, C])) == [SLASH] + A + [SLASH] + C && Trim(Text([[], C])) == [SLASH] + C
    ensures |NonEmpty([[], A, C])| == 2 && |NonEmpty([[], C])| == 1
  {
    hide Text;
    FirstTexts();
    var x, y := [SLASH] + A + [SLASH] + C, [SLASH] + C;
    assert (x + [SLASH])[..4] == x && (y + [SLASH])[..2] == y;
    assert |NonEmpty([C])| == 1 && NonEmpty([A, C]) == [A] + NonEmpty([C]);
    assert [[], A, C][1..] == [A, C] && [A, C][1..] == [C] && [[], C][1..] == [C] && [C][1..] == [];
  }
}
