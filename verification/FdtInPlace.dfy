/** Storing a property's value over one of the same size moves nothing: every node and item keeps its offset. */
module FdtInPlace {
  import opened Common
  import opened FdtBytes
  import opened FdtTokens
  import opened FdtTree
  import opened FdtScan
  import opened FdtVisit
  import opened FdtNodes
  import opened FdtProps
  import opened FdtEdit
  import opened FdtView
  import opened FdtDecode
  import opened FdtSplice
  import opened FdtOps
  import opened FdtBlob
  import opened FdtMeaning
  import opened FdtIter
  import opened FdtOverlay

  /** Items of the same kinds. */
  predicate SameKinds(items: seq<Item>, items': seq<Item>) {
    |items'| == |items| &&
    forall i :: 0 <= i < |items| ==> items'[i].Child? == items[i].Child? && items'[i].Prop? == items[i].Prop?
  }

  /** Items of the same kinds and numbers of tokens. */
  predicate SameLengths(items: seq<Item>, items': seq<Item>) {
    SameKinds(items, items') && forall i :: 0 <= i < |items| ==> |FlatItem(items'[i])| == |FlatItem(items[i])|
  }

  lemma {:induction false} SameFlat(items: seq<Item>, items': seq<Item>, k: nat)
    requires SameLengths(items, items') && k <= |items|
    ensures |FlatItems(items'[..k])| == |FlatItems(items[..k])|
    decreases k
  {
    hide FlatItem, FlatItems;
    if k > 0 {
      SameFlat(items, items', k - 1);
      assert items[..k] == items[..k - 1] + [items[k - 1]] && items'[..k] == items'[..k - 1] + [items'[k - 1]];
      FlatItemsConcat(items[..k - 1], [items[k - 1]]);
      FlatItemsConcat(items'[..k - 1], [items'[k - 1]]);
      FlatItemsOne(items[k - 1]);
      FlatItemsOne(items'[k - 1]);
    } else {
      assert items[..0] == [] && items'[..0] == [];
    }
  }

  lemma SameNodeLen(n: Node, n': Node)
    requires SameLengths(n.items, n'.items)
    ensures |Flat(n')| == |Flat(n)|
  {
    hide FlatItems, Flat;
    SameFlat(n.items, n'.items, |n.items|);
    assert n.items[..|n.items|] == n.items && n'.items[..|n.items|] == n'.items;
    FlatLen(n);
    FlatLen(n');
  }

  /** The node with one property item in place of another. */
  function Swapped(n: Node, i: nat, it: Item): Node
    requires i < |n.items|
  {
    n.(items := Splice(n.items, i, 1, [it]))
  }

  lemma SwappedIs(n: Node, i: nat, it: Item)
    requires i < |n.items|
    ensures Swapped(n, i, it).items == n.items[i := it]
  {
  }

  lemma SwappedLengths(n: Node, i: nat, it: Item)
    requires i < |n.items| && n.items[i].Prop? && it.Prop?
    ensures SameLengths(n.items, Swapped(n, i, it).items)
  {
    SwappedIs(n, i, it);
  }

  /** The node at `q` has moved by no token. */
  ghost predicate SamePlace(n: Node, n': Node, q: Path) {
    ValidPath(n, q) && ValidPath(n', q) && Pos(n', q) == Pos(n, q) && SameLengths(At(n, q).items, At(n', q).items)
  }

  lemma LengthsSelf(items: seq<Item>)
    ensures SameLengths(items, items)
  {
  }

  lemma {:induction false} PutLengths(n: Node, p: Path, m: Node)
    requires ValidPath(n, p) && SameLengths(At(n, p).items, m.items)
    ensures SameLengths(n.items, Put(n, p, m).items)
    decreases |p|
  {
    hide FlatItems, Flat;
    if p != [] {
      var c := n.items[p[0]].node;
      PutLengths(c, p[1..], m);
      SameNodeLen(c, Put(c, p[1..], m));
      FlatChild(n.items[p[0]]);
      FlatChild(Child(Put(c, p[1..], m)));
      assert Put(n, p, m).items == n.items[p[0] := Child(Put(c, p[1..], m))];
    }
  }

  lemma SameBelow(n: Node, n': Node, q: Path)
    requires SameLengths(n.items, n'.items) && ValidPath(n, q) && q != [] && n'.items[q[0]] == n.items[q[0]]
    ensures SamePlace(n, n', q)
  {
    SameFlat(n.items, n'.items, q[0]);
    LengthsSelf(At(n, q).items);
    hide FlatItems, FlatItem, SameKinds;
  }

  lemma {:induction false} PutSame(n: Node, p: Path, i: nat, it: Item, q: Path)
    requires ValidPath(n, p) && i < |At(n, p).items| && At(n, p).items[i].Prop? && it.Prop? && ValidPath(n, q)
    ensures SamePlace(n, Put(n, p, Swapped(At(n, p), i, it)), q)
    decreases |p|
  {
    hide FlatItems, Flat, FlatItem, SameLengths, Swapped;
    var m := Swapped(At(n, p), i, it);
    SwappedLengths(At(n, p), i, it);
    PutLengths(n, p, m);
    if q == [] {
    } else if p == [] {
      SwappedIs(n, i, it);
      SameBelow(n, m, q);
    } else {
      var n', c := Put(n, p, m), n.items[p[0]].node;
      assert n'.items == n.items[p[0] := Child(Put(c, p[1..], m))];
      if q[0] == p[0] {
        PutSame(c, p[1..], i, it, q[1..]);
        SameFlat(n.items, n'.items, p[0]);
      } else {
        SameBelow(n, n', q);
      }
    }
  }

  // ---- bytes ----

  lemma {:induction false} OffSame(ts: seq<Token>, at: nat, t: Token, k: nat)
    requires WfTokens(ts) && at < |ts| && WfTokens(ts[at := t]) && WfToken(t) && WfToken(ts[at])
    requires |EncTok(t)| == |EncTok(ts[at])| && k <= |ts|
    ensures Off(ts[at := t], k) == Off(ts, k)
    decreases k
  {
    hide EncTok, WfTokens, Off;
    if k > 0 {
      OffSame(ts, at, t, k - 1);
      EncAt(ts, k - 1);
      EncAt(ts[at := t], k - 1);
    } else {
      OffZero(ts);
      OffZero(ts[at := t]);
    }
  }

  /** The node at `q` and its items are where they were. */
  ghost predicate SteadyAt(n: Node, n': Node, q: Path) {
    WfNode(n) && WfNode(n') && ValidPath(n, q) && ValidPath(n', q) && NodeOff(n', q) == NodeOff(n, q) &&
    SameKinds(At(n, q).items, At(n', q).items) &&
    forall i :: 0 <= i <= |At(n, q).items| ==> ItemOff(n', q, i) == ItemOff(n, q, i)
  }

  ghost predicate Steady(n: Node, n': Node) {
    forall q :: ValidPath(n, q) ==> SteadyAt(n, n', q)
  }

  lemma SteadyHere(n: Node, n': Node, q: Path)
    requires Steady(n, n') && ValidPath(n, q)
    ensures SteadyAt(n, n', q)
  {
    hide SteadyAt;
  }

  lemma SteadySelf(n: Node)
    requires WfNode(n)
    ensures Steady(n, n)
  {
    hide WfNode, NodeOff, ItemOff;
  }

  lemma SteadyTrans(a: Node, b: Node, c: Node)
    requires Steady(a, b) && Steady(b, c)
    ensures Steady(a, c)
  {
    hide WfNode, NodeOff, ItemOff;
    forall q | ValidPath(a, q)
      ensures SteadyAt(a, c, q)
    {
      assert SteadyAt(a, b, q) && SteadyAt(b, c, q);
    }
  }

  lemma PlaceIsOffset(n: Node, n': Node, q: Path)
    requires WfNode(n) && WfNode(n') && SamePlace(n, n', q)
    requires |Stream(n')| == |Stream(n)| && forall k: nat :: k <= |Stream(n)| ==> SameOffs(n, n', k)
    ensures SteadyAt(n, n', q)
  {
    hide WfNode, Stream, Pos, FlatItems, FlatItem, WfTokens, Off, SameOffs, Flat, Has, NodeOff, ItemOff, ItemPos, At,
         ValidPath;
    NodeOffSame(n, n', q);
    forall i | 0 <= i <= |At(n, q).items|
      ensures ItemOff(n', q, i) == ItemOff(n, q, i)
    {
      ItemOffSame(n, n', q, i);
    }
  }

  lemma NodeOffSame(n: Node, n': Node, q: Path)
    requires WfNode(n) && WfNode(n') && SamePlace(n, n', q)
    requires |Stream(n')| == |Stream(n)| && forall k: nat :: k <= |Stream(n)| ==> SameOffs(n, n', k)
    ensures NodeOff(n', q) == NodeOff(n, q)
  {
    hide WfNode, Stream, Pos, FlatItems, FlatItem, WfTokens, Off, SameOffs, Flat, Has, At, ValidPath, SameLengths;
    PosBound(n, q);
    StreamLen(n);
    SameOffIs(n, n', Pos(n, q));
  }

  lemma ItemOffSame(n: Node, n': Node, q: Path, i: nat)
    requires WfNode(n) && WfNode(n') && SamePlace(n, n', q) && i <= |At(n, q).items|
    requires |Stream(n')| == |Stream(n)| && forall k: nat :: k <= |Stream(n)| ==> SameOffs(n, n', k)
    ensures |At(n', q).items| == |At(n, q).items| && ItemOff(n', q, i) == ItemOff(n, q, i)
  {
    hide WfNode, Stream, Pos, FlatItems, FlatItem, WfTokens, Off, SameOffs, Flat, Has, At, ValidPath;
    StreamLen(n);
    SameFlat(At(n, q).items, At(n', q).items, i);
    ItemPosBound(n, q, i);
    SameOffIs(n, n', ItemPos(n, q, i));
  }

  ghost predicate SameOffs(n: Node, n': Node, k: nat)
    requires WfNode(n) && WfNode(n') && |Stream(n')| == |Stream(n)| && k <= |Stream(n)|
  {
    StreamFacts(n);
    StreamFacts(n');
    Off(Stream(n'), k) == Off(Stream(n), k)
  }

  lemma SameOffIs(n: Node, n': Node, k: nat)
    requires WfNode(n) && WfNode(n') && |Stream(n')| == |Stream(n)| && k <= |Stream(n)| && SameOffs(n, n', k)
    ensures WfTokens(Stream(n)) && WfTokens(Stream(n')) && Off(Stream(n'), k) == Off(Stream(n), k)
  {
    hide Off, Stream, WfNode, WfTokens;
    StreamFacts(n);
    StreamFacts(n');
  }

  /** A value stored over one of the same size. */
  lemma ValueSteady(n: Node, p: Path, i: nat, value: Bytes)
    requires WfNode(n) && ValidPath(n, p) && i < |At(n, p).items| && At(n, p).items[i].Prop?
    requires |value| == |At(n, p).items[i].value|
    requires WfNode(PutItems(n, p, i, i + 1, [At(n, p).items[i].(value := value)]))
    ensures Steady(n, PutItems(n, p, i, i + 1, [At(n, p).items[i].(value := value)]))
  {
    hide WfNode, Stream, Pos, FlatItems, WfTokens, Off, SameOffs, Flat, Has, SamePlace, SteadyAt, EncTok, At, ValidPath,
         Put;
    var it := At(n, p).items[i].(value := value);
    var n' := PutItems(n, p, i, i + 1, [it]);
    var at, t := ItemPos(n, p, i), TProp(it.nameoff, value, it.vpad);
    StreamSwapped(n, p, i, it);
    StreamFacts(n);
    StreamFacts(n');
    PropToken(n, p, i);
    WfTokenAt(Stream(n), at);
    WfTokenAt(Stream(n'), at);
    PropSizes(it.nameoff, At(n, p).items[i].value, value, it.vpad);
    forall k: nat | k <= |Stream(n)|
      ensures SameOffs(n, n', k)
    {
      OffSame(Stream(n), at, t, k);
      SameOffsIs(n, n', k);
    }
    forall q | ValidPath(n, q)
      ensures SteadyAt(n, n', q)
    {
      PutSame(n, p, i, it, q);
      PlaceIsOffset(n, n', q);
    }
  }

  lemma SameOffsIs(n: Node, n': Node, k: nat)
    requires WfNode(n) && WfNode(n') && |Stream(n')| == |Stream(n)| && k <= |Stream(n)|
    requires WfTokens(Stream(n)) && WfTokens(Stream(n')) && Off(Stream(n'), k) == Off(Stream(n), k)
    ensures SameOffs(n, n', k)
  {
    hide Off, Stream, WfNode, WfTokens;
  }

  lemma PropSizes(nameoff: u32, a: Bytes, b: Bytes, pad: Bytes)
    requires WfToken(TProp(nameoff, a, pad)) && WfToken(TProp(nameoff, b, pad)) && |a| == |b|
    ensures |EncTok(TProp(nameoff, a, pad))| == |EncTok(TProp(nameoff, b, pad))|
  {
    hide Word;
  }

  lemma StreamSwapped(n: Node, p: Path, i: nat, it: Item)
    requires WfNode(n) && ValidPath(n, p) && i < |At(n, p).items| && At(n, p).items[i].Prop? && it.Prop?
    ensures ItemPos(n, p, i) < |Stream(n)|
    ensures Stream(PutItems(n, p, i, i + 1, [it])) ==
            Stream(n)[ItemPos(n, p, i) := TProp(it.nameoff, it.value, it.vpad)]
  {
    hide WfNode, Stream, Pos, FlatItems, Flat, PutItems, At, ValidPath;
    var items := At(n, p).items;
    FlatPutItems(n, p, i, i + 1, [it]);
    assert items[i..i + 1] == [items[i]];
    FlatItemsOne(items[i]);
    FlatItemsOne(it);
    PropToken(n, p, i);
    StreamSplice(n, PutItems(n, p, i, i + 1, [it]), ItemPos(n, p, i), 1, FlatItems([it]));
    SpliceOne(Stream(n), ItemPos(n, p, i), TProp(it.nameoff, it.value, it.vpad));
  }

  lemma SpliceOne<T>(s: seq<T>, i: nat, x: T)
    requires i < |s|
    ensures Splice(s, i, 1, [x]) == s[i := x]
  {
  }

  // ---- edits in place at a node ----

  /** Only the tree at `p` has changed, and nothing has moved. */
  ghost predicate InPlace(n: Node, n': Node, p: Path) {
    Within(n, n', p) && Steady(n, n')
  }

  lemma InPlaceFacts(n: Node, n': Node, p: Path)
    requires InPlace(n, n', p)
    ensures ValidPath(n, p) && ValidPath(n', p) && SteadyAt(n, n', p) && WfNode(n) && WfNode(n') &&
            NodeOff(n', p) == NodeOff(n, p)
  {
    hide WfNode, NodeOff, ItemOff, Put;
    SteadyHere(n, n', p);
  }

  lemma InPlaceSelf(n: Node, p: Path)
    requires WfNode(n) && ValidPath(n, p)
    ensures InPlace(n, n, p)
  {
    hide WfNode, Steady, Within;
    WithinSelf(n, p);
    SteadySelf(n);
  }

  lemma InPlaceTrans(n: Node, n1: Node, n2: Node, p: Path)
    requires InPlace(n, n1, p) && InPlace(n1, n2, p)
    ensures InPlace(n, n2, p)
  {
    hide Steady, Within;
    WithinTrans(n, n1, n2, p);
    SteadyTrans(n, n1, n2);
  }

  /** An edit in place at a subnode is one at its parent. */
  lemma InPlaceChild(n: Node, n': Node, p: Path, i: nat)
    requires ValidPath(n, p) && i < |At(n, p).items| && At(n, p).items[i].Child? && InPlace(n, n', p + [i])
    ensures InPlace(n, n', p) && ValidPath(n', p) && ValidPath(n', p + [i])
    ensures At(n', p) == At(n, p).(items := Splice(At(n, p).items, i, 1, [Child(At(n', p + [i]))]))
  {
    hide Steady, Put, Splice;
    WithinChild(n, n', p, i);
  }

  lemma {:induction false} KidItemSame(items: seq<Item>, items': seq<Item>, m: nat)
    requires SameKinds(items, items')
    ensures KidItem(items', m) == KidItem(items, m)
    decreases items
  {
    if items != [] {
      forall i | 0 <= i < |items[1..]|
        ensures items'[1..][i].Child? == items[1..][i].Child? && items'[1..][i].Prop? == items[1..][i].Prop?
      {
        assert items'[1..][i] == items'[i + 1] && items[1..][i] == items[i + 1];
      }
      KidItemSame(items[1..], items'[1..], if items[0].Child? && m > 0 then m - 1 else m);
    }
  }

  /** The subnodes of every node are where they were. */
  lemma KidOffSame(n: Node, n': Node, p: Path, m: nat)
    requires Steady(n, n') && ValidPath(n, p)
    ensures WfNode(n) && WfNode(n') && ValidPath(n', p) && KidOff(n', p, m) == KidOff(n, p, m)
    ensures KidItem(At(n', p).items, m) == KidItem(At(n, p).items, m)
  {
    hide WfNode, NodeOff, ItemOff, KidItem, At, ValidPath, Steady;
    SteadyHere(n, n', p);
    KidItemSame(At(n, p).items, At(n', p).items, m);
  }
}
