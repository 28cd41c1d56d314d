/** `overlay_apply_node`: one blob merged into another, node by node, holding offsets across splices. */
module FdtOverlay {
  import opened Common
  import opened FdtBytes
  import opened FdtTokens
  import opened FdtTree
  import opened FdtScan
  import opened FdtVisit
  import opened FdtNodes
  import opened FdtProps
  import opened FdtEdit
  import opened FdtView
  import opened FdtDecode
  import opened FdtSplice
  import opened FdtOps
  import opened FdtBlob
  import opened FdtMeaning
  import opened FdtMerge
  import opened FdtIter

  // ---- trees that differ only at one node ----

  /** `n'` is `n` with another node at `p`. */
  ghost predicate Within(n: Node, n': Node, p: Path) {
    ValidPath(n, p) && ValidPath(n', p) && n' == Put(n, p, At(n', p))
  }

  lemma WithinPut(n: Node, p: Path, m: Node)
    requires ValidPath(n, p)
    ensures Within(n, Put(n, p, m), p) && At(Put(n, p, m), p) == m
  {
    PutFacts(n, p, m);
  }

  lemma {:induction false} WithinSelf(n: Node, p: Path)
    requires ValidPath(n, p)
    ensures Within(n, n, p)
    decreases |p|
  {
    if p != [] {
      WithinSelf(n.items[p[0]].node, p[1..]);
      SpliceSame(n.items, p[0]);
    }
  }

  lemma SpliceSame<T>(s: seq<T>, i: nat)
    requires i < |s|
    ensures Splice(s, i, 1, [s[i]]) == s
  {
  }

  lemma WithinTrans(n: Node, n1: Node, n2: Node, p: Path)
    requires Within(n, n1, p) && Within(n1, n2, p)
    ensures Within(n, n2, p)
  {
    PutFacts(n, p, At(n1, p));
  }

  /** A change at a subnode is a change of that item of its parent. */
  lemma {:induction false} PutChild(n: Node, p: Path, i: nat, c: Node)
    requires ValidPath(n, p) && i < |At(n, p).items| && At(n, p).items[i].Child?
    ensures ValidPath(n, p + [i])
    ensures Put(n, p + [i], c) == Put(n, p, At(n, p).(items := Splice(At(n, p).items, i, 1, [Child(c)])))
    decreases |p|
  {
    hide Splice;
    if p == [] {
      assert (p + [i])[1..] == [];
    } else {
      assert (p + [i])[1..] == p[1..] + [i] && (p + [i])[0] == p[0];
      PutChild(n.items[p[0]].node, p[1..], i, c);
    }
  }

  lemma WithinChild(n: Node, n': Node, p: Path, i: nat)
    requires ValidPath(n, p) && i < |At(n, p).items| && At(n, p).items[i].Child?
    requires Within(n, n', p + [i])
    ensures Within(n, n', p)
    ensures At(n', p) == At(n, p).(items := Splice(At(n, p).items, i, 1, [Child(At(n', p + [i]))]))
  {
    hide Put, Splice;
    PutChild(n, p, i, At(n', p + [i]));
    PutFacts(n, p, At(n, p).(items := Splice(At(n, p).items, i, 1, [Child(At(n', p + [i]))])));
  }

  /** A node keeps its offset while only the tree below it changes. */
  lemma OffsetKept(n: Node, n': Node, p: Path)
    requires WfNode(n) && WfNode(n') && Within(n, n', p)
    ensures NodeOff(n', p) == NodeOff(n, p)
  {
    hide Flat, WfNode, Enc, WfTokens, FlatItems, Splice, Stream, Pos, Put;
    StreamFacts(n);
    StreamFacts(n');
    var a, m := At(n, p), At(n', p);
    SpliceAll(Flat(a), Flat(m));
    FlatPut(n, p, m, 0, |Flat(a)|, Flat(m));
    StreamSplice(n, n', Pos(n, p), |Flat(a)|, Flat(m));
    PutFacts(n, p, m);
    PosBound(n, p);
    PosBound(n', p);
    SplicePrefix(Stream(n), Pos(n, p), |Flat(a)|, Flat(m));
  }

  lemma SpliceAll<T>(s: seq<T>, t: seq<T>)
    ensures Splice(s, 0, |s|, t) == t
  {
  }

  // ---- one step of the merge, on the node ----

  lemma SetStep(n: Node, n': Node, p: Path, strs: Bytes, extra: Bytes, name: Bytes, value: Bytes)
    requires WfNode(n) && Proper(n, strs) && SetIn(n, n', p, strs, strs + extra, name, value)
    ensures Within(n, n', p)
    ensures View(At(n', p), strs + extra) == SetProp(View(At(n, p), strs), name, value)
  {
    hide WfNode, View, Proper, GetString, PropIndex, SetProp, Splice;
    var strs' := strs + extra;
    var items := At(n, p).items;
    var i := PropIndex(items, strs, name);
    var it: Item :| it.Prop? && it.value == value && GetString(strs', it.nameoff) == Some(name) &&
      n' == if i < |items| then PutItems(n, p, i, i + 1, [it]) else PutItems(n, p, 0, 0, [it]);
    AtGood(n, p, strs);
    ViewGrows(At(n, p), strs, extra);
    SameIndex(At(n, p), strs, extra, name);
    SetAtNode(At(n, p), strs', name, it);
    WithinPut(n, p, SetNode(At(n, p), strs', name, it));
  }

  /** The subnode item the lookup finds is the matching subnode of the meaning. */
  lemma {:induction false} MatchIndexIsMatchTree(items: seq<Item>, strs: Bytes, name: Bytes)
    ensures var i, f := MatchIndex(items, name), MatchTree(ViewKids(items, strs), name);
            if i < |items|
            then f < |ViewKids(items, strs)| && f == |ViewKids(items[..i], strs)|
            else f == |ViewKids(items, strs)|
  {
    hide NodeNameEq, View, MatchTree, ViewKids;
    ViewNone(strs);
    assert items[..0] == [];
    if items == [] {
      MatchNone(name);
    } else {
      var rest := items[1..];
      ViewKidsStep(items, strs);
      MatchIndexIsMatchTree(rest, strs, name);
      if items[0].Child? {
        ViewName(items[0].node, strs);
        MatchTreeCons(View(items[0].node, strs), ViewKids(rest, strs), name);
      }
      var i := MatchIndex(rest, name);
      if i < |rest| {
        TakeOneMoreView(items, i, strs);
      }
    }
  }

  lemma MatchNone(name: Bytes)
    ensures MatchTree([], name) == 0
  {
  }

  lemma ViewName(n: Node, strs: Bytes)
    ensures View(n, strs).name == n.name
  {
  }

  lemma MatchTreeCons(t: Tree, kids: seq<Tree>, name: Bytes)
    ensures MatchTree([t] + kids, name) == if NodeNameEq(t.name, name) then 0 else 1 + MatchTree(kids, name)
  {
    hide NodeNameEq;
    assert ([t] + kids)[1..] == kids;
  }

  /** The merge of overlay subnode `k` when a subnode matches. */
  lemma MatchedStep(a: Node, strs: Bytes, extra: Bytes, c': Node, k: Tree)
    requires Proper(a, strs)
    requires var i := MatchIndex(a.items, k.name);
             i < |a.items| && a.items[i].Child? && View(c', strs + extra) == Merge(View(a.items[i].node, strs), k)
    ensures var i := MatchIndex(a.items, k.name);
            View(a.(items := Splice(a.items, i, 1, [Child(c')])), strs + extra) == MergeKid(View(a, strs), k)
  {
    hide Merge, MatchIndex, MatchTree, Splice, ViewProps, ViewKids, ProperItems;
    var i, strs' := MatchIndex(a.items, k.name), strs + extra;
    MatchIndexIsMatchTree(a.items, strs, k.name);
    ViewGrows(a, strs, extra);
    ViewPutStep(a, i, c', strs');
    KidAt(a.items, i, strs);
    KidsGrow(a, i, strs, extra);
  }

  /** The merge of overlay subnode `k` when none matches: a new subnode, then merged into. */
  lemma AddedStep(a: Node, a1: Node, strs: Bytes, extra: Bytes, c': Node, k: Tree)
    requires Proper(a, strs) && Proper(a1, strs) && MatchIndex(a.items, k.name) == |a.items|
    requires a1 == a.(items := Splice(a.items, LeadCount(a.items), 0, [Child(EmptyNode(k.name))]))
    requires View(c', strs + extra) == Merge(Tree(k.name, [], []), k)
    ensures LeadCount(a.items) < |a1.items| && a1.items[LeadCount(a.items)] == Child(EmptyNode(k.name))
    ensures View(a1.(items := Splice(a1.items, LeadCount(a.items), 1, [Child(c')])), strs + extra) ==
            MergeKid(View(a, strs), k)
  {
    hide Merge, MatchIndex, MatchTree, View, Proper, EmptyNode, LeadCount, ViewKids, Splice;
    var i, strs' := LeadCount(a.items), strs + extra;
    MatchIndexIsMatchTree(a.items, strs, k.name);
    ViewIs(a, strs);
    ViewGrows(a, strs, extra);
    FrontNodeView(a, strs', k.name);
    SpliceAt(a.items, i, Child(EmptyNode(k.name)));
    ViewPutStep(a1, i, c', strs');
    FrontReplaced(View(a, strs), Tree(k.name, [], []), View(c', strs'));
  }

  lemma ViewIs(n: Node, strs: Bytes)
    ensures View(n, strs).kids == ViewKids(n.items, strs)
  {
  }

  lemma FrontReplaced(t: Tree, x: Tree, y: Tree)
    ensures t.(kids := [x] + t.kids).(kids := ([x] + t.kids)[0 := y]) == t.(kids := [y] + t.kids)
  {
  }

  /** The meaning of a node with a new empty subnode before the others. */
  lemma FrontNodeView(a: Node, strs: Bytes, name: Bytes)
    ensures var i := LeadCount(a.items);
            var a1 := a.(items := Splice(a.items, i, 0, [Child(EmptyNode(name))]));
            View(a1, strs) == View(a, strs).(kids := [Tree(name, [], [])] + View(a, strs).kids) &&
            ViewKids(a1.items[..i], strs) == []
  {
    hide ViewProps, ViewKids, EmptyNode, LeadCount;
    var i := LeadCount(a.items);
    SpliceAt(a.items, i, Child(EmptyNode(name)));
    hide Splice;
    LeadFacts(a.items);
    NoKids(a.items[..i], strs);
    ViewSplice(a.items, i, i, [Child(EmptyNode(name))], strs);
    assert a.items[i..i] == [];
    ViewNone(strs);
    ViewOne(Child(EmptyNode(name)), strs);
    EmptyView(name, strs);
    SpliceFront(ViewKids(a.items, strs), Tree(name, [], []));
    SpliceNothing(ViewProps(a.items, strs), |ViewProps(a.items[..i], strs)|);
  }

  lemma SpliceAt<T>(s: seq<T>, i: nat, x: T)
    requires i <= |s|
    ensures var t := Splice(s, i, 0, [x]);
            i < |t| && t[i] == x && t[..i] == s[..i]
  {
  }

  // ---- reading the overlay ----

  lemma NameOnTree(n: Node, p: Path)
    requires WfNode(n) && ValidPath(n, p)
    ensures NodeOff(n, p) + 5 + |At(n, p).name| <= |Encode(n)|
    ensures NameAt(Encode(n), NodeOff(n, p)) == At(n, p).name && NulFree(At(n, p).name)
  {
    hide Encode, Stream, Flat, WfNode, Enc, Off, Pos, FlatItems, WfTokens, NameAt, Has, Inside;
    StreamFacts(n);
    PosBound(n, p);
    NodeInside(Stream(n), At(n, p), Pos(n, p));
    NameAtVisit(Stream(n), Visit(Pos(n, p), 0, At(n, p)));
    WfAt(n, p);
    WfName(At(n, p));
    NameFits(Stream(n), Pos(n, p), At(n, p));
  }

  lemma WfName(n: Node)
    requires WfNode(n)
    ensures NulFree(n.name) && WfToken(TBegin(n.name, n.pad))
  {
  }

  lemma NameFits(ts: seq<Token>, k: nat, n: Node)
    requires Block(ts) && Has(ts, k, Flat(n)) && WfToken(TBegin(n.name, n.pad))
    ensures k < |ts| && Off(ts, k) + 5 + |n.name| <= |Enc(ts)|
  {
    hide Enc, Off, Flat, EncTok, PadLen;
    HasAt(ts, k, Flat(n));
    assert ts[k] == Flat(n)[0];
    EncAt(ts, k);
    BeginFields(Enc(ts), Off(ts, k), n.name, n.pad);
  }

  /** Properties of a proper node from item `j` to the next property item. */
  lemma PropsUpTo(items: seq<Item>, j: nat, strs: Bytes)
    requires ProperItems(items, strs) && PropsFirst(items) && j <= |items|
    ensures var i := NextPropIndex(items, j);
            i < |items| ==>
              GetString(strs, items[i].nameoff).Some? &&
              ViewProps(items[..i + 1], strs) ==
              ViewProps(items[..j], strs) + [(GetString(strs, items[i].nameoff).value, items[i].value)]
    ensures NextPropIndex(items, j) == |items| ==> ViewProps(items[..j], strs) == ViewProps(items, strs)
  {
    hide ViewProps, GetString, ProperItems, NopRun;
    var i := NextPropIndex(items, j);
    if i < |items| {
      assert items[..i + 1] == items[..j] + items[j..i] + [items[i]];
      ViewConcat(items[..j] + items[j..i], [items[i]], strs);
      ViewConcat(items[..j], items[j..i], strs);
      NoProps(items[j..i], strs);
      ViewOne(items[i], strs);
      ItemsHave(items, i, strs);
      ViewHasOne(items[i], strs, GetString(strs, items[i].nameoff).value);
    } else {
      assert items == items[..j] + items[j..];
      ViewConcat(items[..j], items[j..], strs);
      NoPropsLeft(items, j);
      NoProps(items[j..], strs);
    }
  }

  lemma ItemsHave(items: seq<Item>, i: nat, strs: Bytes)
    requires ProperItems(items, strs) && i < |items| && items[i].Prop?
    ensures GetString(strs, items[i].nameoff).Some?
  {
    hide ProperItems, GetString;
    WfEmpty(strs);
    assert items[i..i + 1] == [items[i]];
    ProperSplice(items, i, i + 1, [], strs);
    OneItem(items[i], strs);
  }

  lemma NoPropsLeft(items: seq<Item>, j: nat)
    requires PropsFirst(items) && j <= |items| && NextPropIndex(items, j) == |items|
    ensures forall m :: j <= m < |items| ==> !items[m].Prop?
  {
    var r := NopRun(items[j..]);
    forall m | j <= m < |items|
      ensures !items[m].Prop?
    {
      if m < j + r {
        assert items[j..][m - j].Nop?;
      } else {
        assert items[j..][r] == items[j + r];
        assert !items[j + r].Prop? && items[j + r].Child?;
      }
    }
  }

  // ---- overlay_apply_node ----

  /** The base in mid-merge: only the node at `p` differs from the start, and strings were only added. */
  ghost predicate Merging(n0: Node, strs0: Bytes, n: Node, strs: Bytes, p: Path) {
    Within(n0, n, p) && strs0 <= strs
  }

  lemma MergingFacts(n0: Node, strs0: Bytes, n: Node, strs: Bytes, p: Path)
    requires Merging(n0, strs0, n, strs, p)
    ensures ValidPath(n0, p) && ValidPath(n, p)
    ensures WfNode(n0) && WfNode(n) ==> NodeOff(n, p) == NodeOff(n0, p)
  {
    hide WfNode, NodeOff, Put;
    if WfNode(n0) && WfNode(n) {
      OffsetKept(n0, n, p);
    }
  }

  lemma MergingSelf(n: Node, strs: Bytes, p: Path)
    requires ValidPath(n, p)
    ensures Merging(n, strs, n, strs, p)
  {
    WithinSelf(n, p);
  }

  lemma MergingTrans(n: Node, s: Bytes, n1: Node, s1: Bytes, n2: Node, s2: Bytes, p: Path)
    requires Merging(n, s, n1, s1, p) && Merging(n1, s1, n2, s2, p)
    ensures Merging(n, s, n2, s2, p)
  {
    WithinTrans(n, n1, n2, p);
  }

  /** One overlay property set on the target; it is item `i` of the overlay node. */
  method ApplyProperty(fdt: Blob, target: int, fdto: Blob, property: nat, ghost p: Path, ghost op: Path, ghost i: nat)
    returns (err: int)
    requires fdt != fdto && fdt.buf != fdto.buf && fdt.Valid() && fdto.Valid()
    requires ValidPath(fdt.root, p) && target == NodeOff(fdt.root, p)
    requires ValidPath(fdto.root, op) && i < |At(fdto.root, op).items| && At(fdto.root, op).items[i].Prop?
    requires property == ItemOff(fdto.root, op, i)
    modifies fdt`sizeStruct, fdt`offStrings, fdt`sizeStrings, fdt`root, fdt.buf
    ensures fdt.Valid() && fdt.Reserve() == old(fdt.Reserve())
    ensures err == 0 || err == -FDT_ERR_NOSPACE
    ensures Merging(old(fdt.root), old(fdt.Strings()), fdt.root, fdt.Strings(), p)
    ensures err == 0 ==>
              var it := At(fdto.root, op).items[i];
              GetString(fdto.Strings(), it.nameoff).Some? &&
              View(At(fdt.root, p), fdt.Strings()) ==
              SetProp(old(View(At(fdt.root, p), fdt.Strings())), GetString(fdto.Strings(), it.nameoff).value, it.value)
  {
    hide View, NodeOff, ItemOff, Merging, Encode, WfNode, Proper, SetProp, GetString, SetIn, PropName, PropValue,
         CheckNodeOffset;
    fdto.StructIs();
    PropReadOnTree(fdto.root, op, i, fdto.Strings());
    var os := fdto.buf[fdto.offStruct..fdto.offStruct + fdto.sizeStruct];
    var ostrs := fdto.buf[fdto.offStrings..fdto.offStrings + fdto.sizeStrings];
    var name := PropName(os, ostrs, property).value;
    var value := PropValue(os, property).value;
    HeaderAt(fdt.root, p);
    ghost var n0, strs0 := fdt.root, fdt.Strings();
    err := fdt.Setprop(target, name, value, p);
    if err == 0 {
      AfterSet(n0, fdt.root, p, strs0, fdt.Strings(), name, value);
    } else {
      MergingSelf(n0, strs0, p);
    }
  }

  lemma AfterSet(n: Node, n': Node, p: Path, strs: Bytes, strs': Bytes, name: Bytes, value: Bytes)
    requires WfNode(n) && Proper(n, strs) && strs <= strs' && SetIn(n, n', p, strs, strs', name, value)
    ensures Merging(n, strs, n', strs', p)
    ensures View(At(n', p), strs') == SetProp(View(At(n, p), strs), name, value)
  {
    hide WfNode, View, Proper, SetIn, SetProp, Put;
    var extra := strs'[|strs|..];
    assert strs' == strs + extra;
    SetStep(n, n', p, strs, extra, name, value);
  }

  /** The property scan stands at the first property item from `j` on. */
  ghost predicate PropCursor(n: Node, op: Path, j: nat, property: int) {
    WfNode(n) && ValidPath(n, op) && j <= |At(n, op).items| &&
    var i := NextPropIndex(At(n, op).items, j);
    property == if i < |At(n, op).items| then ItemOff(n, op, i) else NOTFOUND
  }

  lemma CursorStart(n: Node, op: Path)
    requires WfNode(n) && ValidPath(n, op)
    ensures Scannable(Encode(n), NodeOff(n, op)) && PropCursor(n, op, 0, FirstProp(Encode(n), NodeOff(n, op)))
  {
    hide Encode, WfNode, Scannable, FirstProp, NextPropFrom, NextPropIndex, NodeOff, ItemOff;
    FirstPropOnTree(n, op);
    NextPropOnTree(n, op, 0);
  }

  lemma CursorStep(n: Node, op: Path, j: nat, property: int)
    requires PropCursor(n, op, j, property) && property >= 0
    ensures var items := At(n, op).items;
            var i := NextPropIndex(items, j);
            j <= i < |items| && items[i].Prop? && property == ItemOff(n, op, i) &&
            Scannable(Encode(n), property) && PropCursor(n, op, i + 1, NextProp(Encode(n), property))
  {
    hide Encode, WfNode, Scannable, NextProp, NextPropFrom, NextPropIndex, NodeOff, ItemOff;
    var items := At(n, op).items;
    NextIsProp(items, j);
    var i := NextPropIndex(items, j);
    AfterPropOnTree(n, op, i);
    NextPropOnTree(n, op, i + 1);
  }

  /** The properties among the first `j` items of the overlay node have been applied. */
  ghost predicate PropsDone(n0: Node, strs0: Bytes, n: Node, strs: Bytes, p: Path, o: Node, ostrs: Bytes, j: nat) {
    Merging(n0, strs0, n, strs, p) && ValidPath(n0, p) && ValidPath(n, p) && j <= |o.items| &&
    View(At(n, p), strs) == SetAll(View(At(n0, p), strs0), ViewProps(o.items[..j], ostrs))
  }

  lemma PropsStart(n: Node, strs: Bytes, p: Path, o: Node, ostrs: Bytes)
    requires ValidPath(n, p)
    ensures PropsDone(n, strs, n, strs, p, o, ostrs, 0)
  {
    hide View, ViewProps, SetAll;
    MergingSelf(n, strs, p);
    SetNothing(View(At(n, p), strs), o.items, ostrs);
  }

  lemma PropsStep(n0: Node, strs0: Bytes, n1: Node, strs1: Bytes, n2: Node, strs2: Bytes, p: Path, o: Node,
                  ostrs: Bytes, j: nat)
    requires PropsDone(n0, strs0, n1, strs1, p, o, ostrs, j) && Merging(n1, strs1, n2, strs2, p)
    requires Proper(o, ostrs) && NextPropIndex(o.items, j) < |o.items|
    requires var it := o.items[NextPropIndex(o.items, j)];
             it.Prop? && GetString(ostrs, it.nameoff).Some? && ValidPath(n1, p) && ValidPath(n2, p) &&
             View(At(n2, p), strs2) == SetProp(View(At(n1, p), strs1), GetString(ostrs, it.nameoff).value, it.value)
    ensures PropsDone(n0, strs0, n2, strs2, p, o, ostrs, NextPropIndex(o.items, j) + 1)
  {
    hide View, ViewProps, SetAll, SetProp, GetString, NextPropIndex, Proper, Merging, ValidPath;
    MergingTrans(n0, strs0, n1, strs1, n2, strs2, p);
    ItemsOf(o, ostrs);
    SetOneMore(View(At(n0, p), strs0), o.items, j, ostrs);
  }

  lemma PropsEnd(n0: Node, strs0: Bytes, n: Node, strs: Bytes, p: Path, o: Node, ostrs: Bytes, j: nat)
    requires PropsDone(n0, strs0, n, strs, p, o, ostrs, j) && Proper(o, ostrs) && NextPropIndex(o.items, j) == |o.items|
    ensures ValidPath(n0, p) && ValidPath(n, p) && Merging(n0, strs0, n, strs, p)
    ensures View(At(n, p), strs) == SetAll(View(At(n0, p), strs0), ViewProps(o.items, ostrs))
  {
    hide View, ViewProps, SetAll, NextPropIndex, Merging, Proper;
    ItemsOf(o, ostrs);
    PropsUpTo(o.items, j, ostrs);
  }

  lemma ProperAt(n: Node, op: Path, strs: Bytes)
    requires WfNode(n) && Proper(n, strs) && ValidPath(n, op)
    ensures Proper(At(n, op), strs)
  {
    hide WfNode, Proper;
    AtGood(n, op, strs);
  }

  lemma DoneFacts(n0: Node, strs0: Bytes, n: Node, strs: Bytes, p: Path, o: Node, ostrs: Bytes, j: nat)
    requires PropsDone(n0, strs0, n, strs, p, o, ostrs, j)
    ensures Merging(n0, strs0, n, strs, p) && ValidPath(n0, p) && ValidPath(n, p) && j <= |o.items|
    ensures WfNode(n0) && WfNode(n) ==> NodeOff(n, p) == NodeOff(n0, p)
  {
    hide View, ViewProps, SetAll, WfNode, NodeOff, Merging;
    MergingFacts(n0, strs0, n, strs, p);
  }

  /** The first loop: every property of the overlay node, in order. */
  method ApplyProperties(fdt: Blob, target: int, fdto: Blob, node: nat, ghost p: Path, ghost op: Path)
    returns (err: int)
    requires fdt != fdto && fdt.buf != fdto.buf && fdt.Valid() && fdto.Valid()
    requires ValidPath(fdt.root, p) && target == NodeOff(fdt.root, p)
    requires ValidPath(fdto.root, op) && node == NodeOff(fdto.root, op)
    modifies fdt`sizeStruct, fdt`offStrings, fdt`sizeStrings, fdt`root, fdt.buf
    ensures fdt.Valid() && fdt.Reserve() == old(fdt.Reserve())
    ensures err == 0 || err == -FDT_ERR_NOSPACE
    ensures Merging(old(fdt.root), old(fdt.Strings()), fdt.root, fdt.Strings(), p)
    ensures err == 0 ==>
              View(At(fdt.root, p), fdt.Strings()) ==
              SetAll(old(View(At(fdt.root, p), fdt.Strings())), ViewProps(At(fdto.root, op).items, fdto.Strings()))
  {
    hide *;
    ghost var n0, strs0, o, ostrs := fdt.root, fdt.Strings(), At(fdto.root, op), fdto.Strings();
    BlobFacts(fdt);
    BlobFacts(fdto);
    ProperAt(fdto.root, op, ostrs);
    PropsStart(n0, strs0, p, o, ostrs);
    CursorStart(fdto.root, op);
    var os := fdto.buf[fdto.offStruct..fdto.offStruct + fdto.sizeStruct];
    var property := FirstProp(os, node);
    ghost var j := 0;
    while property >= 0
      invariant fdt.Valid() && fdto.Valid() && fdt.Reserve() == old(fdt.Reserve())
      invariant PropCursor(fdto.root, op, j, property)
      invariant PropsDone(n0, strs0, fdt.root, fdt.Strings(), p, o, ostrs, j)
      decreases |o.items| - j
    {
      ghost var n1, strs1 := fdt.root, fdt.Strings();
      DoneFacts(n0, strs0, n1, strs1, p, o, ostrs, j);
      ghost var i := NextPropIndex(o.items, j);
      CursorStep(fdto.root, op, j, property);
      BlobFacts(fdt);
      err := ApplyProperty(fdt, target, fdto, property, p, op, i);
      if err != 0 {
        MergingTrans(n0, strs0, n1, strs1, fdt.root, fdt.Strings(), p);
        return;
      }
      BlobFacts(fdt);
      MergingFacts(n1, strs1, fdt.root, fdt.Strings(), p);
      PropsStep(n0, strs0, n1, strs1, fdt.root, fdt.Strings(), p, o, ostrs, j);
      property := NextProp(os, property);
      j := i + 1;
    }
    CursorEnd(fdto.root, op, j, property);
    PropsEnd(n0, strs0, fdt.root, fdt.Strings(), p, o, ostrs, j);
    err := 0;
  }

  lemma CursorEnd(n: Node, op: Path, j: nat, property: int)
    requires PropCursor(n, op, j, property) && property < 0
    ensures j <= |At(n, op).items| && NextPropIndex(At(n, op).items, j) == |At(n, op).items|
  {
    hide NextPropIndex, ItemOff;
    NextIsProp(At(n, op).items, j);
  }

  lemma BlobFacts(b: Blob)
    requires b.Valid()
    ensures b.Layout() && WfNode(b.root) && b.Struct() == Encode(b.root) && Proper(b.root, b.Strings())
    ensures b.Struct() == b.buf[b.offStruct..b.offStruct + b.sizeStruct] 
    ensures b.Strings() == b.buf[b.offStrings..b.offStrings + b.sizeStrings]
    ensures b.offStruct + b.sizeStruct <= b.buf.Length && b.offStrings + b.sizeStrings <= b.buf.Length
    ensures b.sizeStruct == |Encode(b.root)| && b.sizeStruct + 56 < FDT_MAX_SIZE
  {
    hide WfNode, Encode, Proper;
  }

  lemma ItemsOf(n: Node, strs: Bytes)
    requires Proper(n, strs)
    ensures ProperItems(n.items, strs) && PropsFirst(n.items)
  {
  }

  lemma NextIsProp(items: seq<Item>, j: nat)
    requires j <= |items|
    ensures j <= NextPropIndex(items, j) <= |items|
    ensures NextPropIndex(items, j) < |items| ==> items[NextPropIndex(items, j)].Prop?
  {
  }

  lemma SetNothing(t: Tree, items: seq<Item>, strs: Bytes)
    ensures SetAll(t, ViewProps(items[..0], strs)) == t
  {
  }

  lemma SetOneMore(t: Tree, items: seq<Item>, j: nat, strs: Bytes)
    requires ProperItems(items, strs) && PropsFirst(items) && j <= |items| && NextPropIndex(items, j) < |items|
    ensures var i := NextPropIndex(items, j);
            GetString(strs, items[i].nameoff).Some? &&
            SetAll(t, ViewProps(items[..i + 1], strs)) ==
            SetProp(SetAll(t, ViewProps(items[..j], strs)), GetString(strs, items[i].nameoff).value, items[i].value)
  {
    hide ViewProps, GetString, ProperItems, SetProp, NextPropIndex, SetAll;
    PropsUpTo(items, j, strs);
    var i := NextPropIndex(items, j);
    var x := (GetString(strs, items[i].nameoff).value, items[i].value);
    SetAllConcat(t, ViewProps(items[..j], strs), [x]);
    SetAllOne(SetAll(t, ViewProps(items[..j], strs)), x);
  }

  lemma SetAllOne(t: Tree, x: (Bytes, Bytes))
    ensures SetAll(t, [x]) == SetProp(t, x.0, x.1)
  {
    hide SetProp;
    assert [x][1..] == [];
  }

  // ---- the subnodes ----

  /** Subnode number `m` of the overlay node, as the loop over subnodes meets it. */
  lemma KidStep(n: Node, op: Path, strs: Bytes, m: nat)
    requires WfNode(n) && ValidPath(n, op) && KidOff(n, op, m) >= 0
    ensures var k := KidItem(At(n, op).items, m);
            ValidPath(n, op + [k]) && KidOff(n, op, m) == NodeOff(n, op + [k]) &&
            m < |ViewKids(At(n, op).items, strs)| &&
            View(At(n, op + [k]), strs) == ViewKids(At(n, op).items, strs)[m] &&
            |Flat(At(n, op + [k]))| < |Flat(At(n, op))|
    ensures Scannable(Encode(n), KidOff(n, op, m)) &&
            NextSubnode(Encode(n), KidOff(n, op, m)) == KidOff(n, op, m + 1)
  {
    hide WfNode, Encode, Scannable, NextSubnode, ViewKids, View, KidItem, NodeOff, ItemOff, Flat, FlatItems, Kids;
    var items := At(n, op).items;
    var k := KidItem(items, m);
    SubnodesInOrder(n, op, m);
    KidItemFacts(items, 0, m, strs);
    ChildOff(n, op, k);
    ChildPath(n, op, k);
    ChildShorter(At(n, op), k);
  }

  lemma ChildShorter(n: Node, k: nat)
    requires k < |n.items| && n.items[k].Child?
    ensures |Flat(n.items[k].node)| < |Flat(n)|
  {
    hide FlatItems, Flat;
    FlatLen(n);
    FlatItemsSplit(n.items, k, k + 1);
    assert n.items[k..k + 1] == [n.items[k]];
    FlatItemsOne(n.items[k]);
    FlatChild(n.items[k]);
  }

  lemma KidEnd(n: Node, op: Path, strs: Bytes, m: nat)
    requires WfNode(n) && ValidPath(n, op) && KidOff(n, op, m) < 0
    ensures |ViewKids(At(n, op).items, strs)| <= m
  {
    hide WfNode, ViewKids, View, KidItem, ItemOff, FlatItems, Kids;
    KidItemFacts(At(n, op).items, 0, m, strs);
  }

  /** Subnode item `i` of the node at `p` is where overlay subnode `name` goes: found in `n0`, or new in `n`. */
  ghost predicate Slot(n0: Node, n: Node, p: Path, name: Bytes, i: nat) {
    ValidPath(n0, p) &&
    var items := At(n0, p).items;
    if MatchIndex(items, name) < |items| then n == n0 && i == MatchIndex(items, name)
    else NodeAdded(n0, n, p, name) && i == LeadCount(items)
  }

  /** The slot is a node of the tree; a new one is empty. */
  lemma SlotFacts(n0: Node, n: Node, p: Path, name: Bytes, i: nat)
    requires Slot(n0, n, p, name, i) && WfNode(n0) && WfNode(n)
    ensures Within(n0, n, p) && i < |At(n, p).items| && At(n, p).items[i].Child?
    ensures ValidPath(n, p + [i]) && NodeOff(n, p + [i]) == ItemOff(n, p, i) == ItemOff(n0, p, i)
    ensures At(n, p + [i]) == At(n, p).items[i].node
    ensures var a, a1 := At(n0, p), At(n, p);
            if MatchIndex(a.items, name) < |a.items| then a1 == a
            else
              a1 == a.(items := Splice(a.items, i, 0, [Child(EmptyNode(name))])) &&
              a1.items[i] == Child(EmptyNode(name))
  {
    hide WfNode, ItemOff, NodeOff, MatchIndex, LeadCount, EmptyNode, Put;
    var a := At(n0, p);
    if MatchIndex(a.items, name) < |a.items| {
      WithinSelf(n0, p);
    } else {
      WithinPut(n0, p, a.(items := Splice(a.items, i, 0, [Child(EmptyNode(name))])));
      SameOff(n0, n, p, i, i, [Child(EmptyNode(name))]);
    }
    ChildOff(n, p, i);
    ChildPath(n, p, i);
  }

  /** Merging into the slot is merging the overlay subnode into the node. */
  lemma SlotMerged(n0: Node, n1: Node, n2: Node, p: Path, i: nat, strs: Bytes, strs': Bytes, k: Tree)
    requires WfNode(n0) && Proper(n0, strs) && WfNode(n1) && Proper(n1, strs)
    requires Slot(n0, n1, p, k.name, i) && ValidPath(n1, p + [i]) && Merging(n1, strs, n2, strs', p + [i])
    requires ValidPath(n2, p + [i]) && View(At(n2, p + [i]), strs') == Merge(View(At(n1, p + [i]), strs), k)
    ensures Merging(n0, strs, n2, strs', p)
    ensures ValidPath(n2, p) && View(At(n2, p), strs') == MergeKid(View(At(n0, p), strs), k)
  {
    hide WfNode, Proper, View, Merge, MergeKid, MatchIndex, LeadCount, EmptyNode, Slot, NodeOff, ItemOff, Splice, Put;
    var extra := strs'[|strs|..];
    assert strs' == strs + extra;
    SlotFacts(n0, n1, p, k.name, i);
    SlotIndex(n0, n1, p, k.name, i);
    var a, a1, c' := At(n0, p), At(n1, p), At(n2, p + [i]);
    WithinChild(n1, n2, p, i);
    WithinTrans(n0, n1, n2, p);
    ProperAt(n0, p, strs);
    ProperAt(n1, p, strs);
    if MatchIndex(a.items, k.name) < |a.items| {
      MatchedStep(a, strs, extra, c', k);
    } else {
      EmptyNodeView(k.name, strs);
      AddedStep(a, a1, strs, extra, c', k);
    }
  }

  lemma SlotIndex(n0: Node, n: Node, p: Path, name: Bytes, i: nat)
    requires Slot(n0, n, p, name, i)
    ensures ValidPath(n0, p)
    ensures var items := At(n0, p).items;
            i == if MatchIndex(items, name) < |items| then MatchIndex(items, name) else LeadCount(items)
  {
    hide MatchIndex, LeadCount, NodeAdded;
  }

  lemma EmptyNodeView(name: Bytes, strs: Bytes)
    ensures View(EmptyNode(name), strs) == Tree(name, [], [])
  {
    EmptyView(name, strs);
  }

  lemma SlotMerging(n0: Node, n1: Node, n2: Node, p: Path, name: Bytes, i: nat, strs: Bytes, strs': Bytes)
    requires WfNode(n0) && WfNode(n1) && Slot(n0, n1, p, name, i)
    requires ValidPath(n1, p + [i]) && Merging(n1, strs, n2, strs', p + [i])
    ensures Merging(n0, strs, n2, strs', p)
  {
    hide WfNode, Slot, NodeOff, ItemOff, Splice, Put, MatchIndex, LeadCount, EmptyNode;
    SlotFacts(n0, n1, p, name, i);
    WithinChild(n1, n2, p, i);
    WithinTrans(n0, n1, n2, p);
  }

  /** The subnode of the target for `name`: a new one, or the one the lookup finds. */
  method TargetSubnode(fdt: Blob, target: int, name: Bytes, ghost p: Path) returns (nnode: int, ghost i: nat)
    requires fdt.Valid() && ValidPath(fdt.root, p) && target == NodeOff(fdt.root, p)
    requires NulFree(name) && |name| + 32 <= FDT_MAX_SIZE
    modifies fdt`sizeStruct, fdt`offStrings, fdt`root, fdt.buf
    ensures fdt.Valid() && fdt.Reserve() == old(fdt.Reserve()) && fdt.Strings() == old(fdt.Strings())
    ensures nnode < 0 ==> nnode == -FDT_ERR_NOSPACE && fdt.root == old(fdt.root)
    ensures nnode >= 0 ==> Slot(old(fdt.root), fdt.root, p, name, i)
    ensures nnode >= 0 ==> ValidPath(fdt.root, p + [i]) && nnode == NodeOff(fdt.root, p + [i])
  {
    hide *;
    ghost var n0 := fdt.root;
    ErrorCodes();
    BlobFacts(fdt);
    TargetArg(fdt, target, p);
    i := 0;
    nnode := fdt.AddSubnode(target, name, p);
    BlobFacts(fdt);
    if nnode == -FDT_ERR_EXISTS {
      SubnodeOnTree(n0, p, name);
      nnode := ReadSubnodeOffset(fdt.buf[fdt.offStruct..fdt.offStruct + fdt.sizeStruct], target, name);
      if nnode == NOTFOUND {
        return -FDT_ERR_INTERNAL, i;
      }
      i := MatchIndex(At(n0, p).items, name);
      SlotFound(n0, p, name);
    } else if nnode >= 0 {
      i := LeadCount(At(n0, p).items);
      SlotNew(n0, fdt.root, p, name);
    }
    if nnode >= 0 {
      SlotFacts(n0, fdt.root, p, name, i);
    }
  }

  lemma ErrorCodes()
    ensures FDT_ERR_EXISTS == 2 && FDT_ERR_NOSPACE == 3 && FDT_ERR_BADOFFSET == 4 && NOTFOUND == -1
  {
  }

  lemma TargetArg(b: Blob, target: int, p: Path)
    requires b.Valid() && ValidPath(b.root, p) && target == NodeOff(b.root, p)
    ensures b.NodeArg(target, p) && CheckNodeOffset(b.Struct(), target) >= 0
  {
    hide WfNode, Proper, Encode, NodeOff, ItemOff, CheckNodeOffset;
    HeaderAt(b.root, p);
  }

  lemma SlotFound(n: Node, p: Path, name: Bytes)
    requires ValidPath(n, p) && MatchIndex(At(n, p).items, name) < |At(n, p).items|
    ensures Slot(n, n, p, name, MatchIndex(At(n, p).items, name))
  {
  }

  lemma SlotNew(n: Node, n': Node, p: Path, name: Bytes)
    requires ValidPath(n, p) && MatchIndex(At(n, p).items, name) == |At(n, p).items| && NodeAdded(n, n', p, name)
    ensures Slot(n, n', p, name, LeadCount(At(n, p).items))
  {
    hide MatchIndex, LeadCount;
  }

  /** The first `m` subnodes of the overlay node have been merged. */
  ghost predicate KidsDone(n0: Node, strs0: Bytes, n: Node, strs: Bytes, p: Path, o: Node, ostrs: Bytes, m: nat) {
    Merging(n0, strs0, n, strs, p) && ValidPath(n0, p) && ValidPath(n, p) && m <= |ViewKids(o.items, ostrs)| &&
    View(At(n, p), strs) == MergeKids(View(At(n0, p), strs0), ViewKids(o.items, ostrs)[..m])
  }

  lemma KidsStart(n: Node, strs: Bytes, p: Path, o: Node, ostrs: Bytes)
    requires ValidPath(n, p)
    ensures KidsDone(n, strs, n, strs, p, o, ostrs, 0)
  {
    hide View, ViewKids;
    MergingSelf(n, strs, p);
  }

  lemma KidsDoneStep(n0: Node, strs0: Bytes, n1: Node, strs1: Bytes, n2: Node, strs2: Bytes, p: Path, o: Node,
                     ostrs: Bytes, m: nat)
    requires KidsDone(n0, strs0, n1, strs1, p, o, ostrs, m) && Merging(n1, strs1, n2, strs2, p)
    requires m < |ViewKids(o.items, ostrs)| && ValidPath(n1, p) && ValidPath(n2, p)
    requires View(At(n2, p), strs2) == MergeKid(View(At(n1, p), strs1), ViewKids(o.items, ostrs)[m])
    ensures KidsDone(n0, strs0, n2, strs2, p, o, ostrs, m + 1)
  {
    hide View, ViewKids, MergeKids, MergeKid, Merging, ValidPath;
    MergingTrans(n0, strs0, n1, strs1, n2, strs2, p);
    var kids := ViewKids(o.items, ostrs);
    assert kids[..m + 1] == kids[..m] + [kids[m]];
    MergeKidsConcat(View(At(n0, p), strs0), kids[..m], [kids[m]]);
    MergeOneKid(MergeKids(View(At(n0, p), strs0), kids[..m]), kids[m]);
  }

  lemma MergeOneKid(t: Tree, k: Tree)
    ensures MergeKids(t, [k]) == MergeKid(t, k)
  {
    hide MergeKid;
    assert [k][1..] == [];
  }

  lemma KidsDoneFacts(n0: Node, strs0: Bytes, n: Node, strs: Bytes, p: Path, o: Node, ostrs: Bytes, m: nat)
    requires KidsDone(n0, strs0, n, strs, p, o, ostrs, m)
    ensures Merging(n0, strs0, n, strs, p) && ValidPath(n0, p) && ValidPath(n, p) && m <= |ViewKids(o.items, ostrs)|
    ensures m == |ViewKids(o.items, ostrs)| ==>
              View(At(n, p), strs) == MergeKids(View(At(n0, p), strs0), ViewKids(o.items, ostrs))
    ensures WfNode(n0) && WfNode(n) ==> NodeOff(n, p) == NodeOff(n0, p)
  {
    hide View, ViewKids, MergeKids, WfNode, NodeOff, Merging;
    MergingFacts(n0, strs0, n, strs, p);
    var kids := ViewKids(o.items, ostrs);
    assert kids[..|kids|] == kids;
  }

  /**
   overlay_apply_node: when it succeeds the target means the merge of what it meant with the
   overlay node. Every target offset held across a recursive call is still the offset of its
   node afterwards, as the precondition of the next call demands.
   */
  method ApplyNode(fdt: Blob, target: int, fdto: Blob, node: nat, ghost p: Path, ghost op: Path) returns (err: int)
    requires fdt != fdto && fdt.buf != fdto.buf && fdt.Valid() && fdto.Valid()
    requires ValidPath(fdt.root, p) && target == NodeOff(fdt.root, p)
    requires ValidPath(fdto.root, op) && node == NodeOff(fdto.root, op)
    modifies fdt`sizeStruct, fdt`offStrings, fdt`sizeStrings, fdt`root, fdt.buf
    ensures fdt.Valid() && fdt.Reserve() == old(fdt.Reserve())
    ensures err == 0 || err == -FDT_ERR_NOSPACE
    ensures Merging(old(fdt.root), old(fdt.Strings()), fdt.root, fdt.Strings(), p)
    ensures err == 0 ==>
              ValidPath(fdt.root, p) &&
              View(At(fdt.root, p), fdt.Strings()) ==
              Merge(old(View(At(fdt.root, p), fdt.Strings())), View(At(fdto.root, op), fdto.Strings()))
    decreases |Flat(At(fdto.root, op))|, 2
  {
    hide *;
    ghost var n0, strs0, o, ostrs := fdt.root, fdt.Strings(), At(fdto.root, op), fdto.Strings();
    BlobFacts(fdt);
    BlobFacts(fdto);
    err := ApplyProperties(fdt, target, fdto, node, p, op);
    ghost var n1, strs1 := fdt.root, fdt.Strings();
    BlobFacts(fdt);
    MergingFacts(n0, strs0, n1, strs1, p);
    if err != 0 {
      return;
    }
    err := ApplySubnodes(fdt, target, fdto, node, p, op);
    MergingTrans(n0, strs0, n1, strs1, fdt.root, fdt.Strings(), p);
    MergingFacts(n0, strs0, fdt.root, fdt.Strings(), p);
    MergeIs(View(At(n0, p), strs0), o, ostrs);
  }

  lemma MergeIs(b: Tree, o: Node, ostrs: Bytes)
    ensures Merge(b, View(o, ostrs)) == MergeKids(SetAll(b, ViewProps(o.items, ostrs)), ViewKids(o.items, ostrs))
  {
    hide MergeKids, SetAll, ViewProps, ViewKids;
  }

  /** The second loop: every subnode of the overlay node, in order. */
  method ApplySubnodes(fdt: Blob, target: int, fdto: Blob, node: nat, ghost p: Path, ghost op: Path) returns (err: int)
    requires fdt != fdto && fdt.buf != fdto.buf && fdt.Valid() && fdto.Valid()
    requires ValidPath(fdt.root, p) && target == NodeOff(fdt.root, p)
    requires ValidPath(fdto.root, op) && node == NodeOff(fdto.root, op)
    modifies fdt`sizeStruct, fdt`offStrings, fdt`sizeStrings, fdt`root, fdt.buf
    ensures fdt.Valid() && fdt.Reserve() == old(fdt.Reserve())
    ensures err == 0 || err == -FDT_ERR_NOSPACE
    ensures Merging(old(fdt.root), old(fdt.Strings()), fdt.root, fdt.Strings(), p)
    ensures err == 0 ==>
              ValidPath(fdt.root, p) &&
              View(At(fdt.root, p), fdt.Strings()) ==
              MergeKids(old(View(At(fdt.root, p), fdt.Strings())), ViewKids(At(fdto.root, op).items, fdto.Strings()))
    decreases |Flat(At(fdto.root, op))|, 1
  {
    hide *;
    ghost var n0, strs0, o, ostrs := fdt.root, fdt.Strings(), At(fdto.root, op), fdto.Strings();
    BlobFacts(fdt);
    BlobFacts(fdto);
    KidsStart(n0, strs0, p, o, ostrs);
    SubnodesInOrder(fdto.root, op, 0);
    var os := fdto.buf[fdto.offStruct..fdto.offStruct + fdto.sizeStruct];
    var subnode := ReadFirstSubnode(os, node);
    ghost var m := 0;
    while subnode >= 0
      invariant fdt.Valid() && fdto.Valid() && fdt.Reserve() == old(fdt.Reserve())
      invariant subnode == KidOff(fdto.root, op, m)
      invariant KidsDone(n0, strs0, fdt.root, fdt.Strings(), p, o, ostrs, m)
      decreases |ViewKids(o.items, ostrs)| - m
    {
      ghost var n1, strs1 := fdt.root, fdt.Strings();
      KidStep(fdto.root, op, ostrs, m);
      KidsDoneFacts(n0, strs0, n1, strs1, p, o, ostrs, m);
      BlobFacts(fdt);
      err := ApplySubnode(fdt, target, fdto, subnode, p, op, KidItem(o.items, m));
      if err != 0 {
        MergingTrans(n0, strs0, n1, strs1, fdt.root, fdt.Strings(), p);
        return;
      }
      KidsDoneStep(n0, strs0, n1, strs1, fdt.root, fdt.Strings(), p, o, ostrs, m);
      subnode := ReadNextSubnode(os, subnode);
      m := m + 1;
    }
    KidEnd(fdto.root, op, ostrs, m);
    KidsDoneFacts(n0, strs0, fdt.root, fdt.Strings(), p, o, ostrs, m);
    err := 0;
  }

  /** The body of that loop. */
  method ApplySubnode(fdt: Blob, target: int, fdto: Blob, subnode: nat, ghost p: Path, ghost op: Path, ghost k: nat)
    returns (err: int)
    requires fdt != fdto && fdt.buf != fdto.buf && fdt.Valid() && fdto.Valid()
    requires ValidPath(fdt.root, p) && target == NodeOff(fdt.root, p)
    requires ValidPath(fdto.root, op + [k]) && subnode == NodeOff(fdto.root, op + [k])
    modifies fdt`sizeStruct, fdt`offStrings, fdt`sizeStrings, fdt`root, fdt.buf
    ensures fdt.Valid() && fdt.Reserve() == old(fdt.Reserve())
    ensures err == 0 || err == -FDT_ERR_NOSPACE
    ensures Merging(old(fdt.root), old(fdt.Strings()), fdt.root, fdt.Strings(), p)
    ensures err == 0 ==>
              ValidPath(fdt.root, p) &&
              View(At(fdt.root, p), fdt.Strings()) ==
              MergeKid(old(View(At(fdt.root, p), fdt.Strings())), View(At(fdto.root, op + [k]), fdto.Strings()))
    decreases |Flat(At(fdto.root, op + [k]))|, 3
  {
    hide *;
    ghost var n0, strs0 := fdt.root, fdt.Strings();
    ghost var c, ostrs := At(fdto.root, op + [k]), fdto.Strings();
    BlobFacts(fdt);
    BlobFacts(fdto);
    NameOnTree(fdto.root, op + [k]);
    var name := NameAt(fdto.buf[fdto.offStruct..fdto.offStruct + fdto.sizeStruct], subnode);
    var nnode; ghost var i;
    nnode, i := TargetSubnode(fdt, target, name, p);
    ghost var n1 := fdt.root;
    BlobFacts(fdt);
    if nnode < 0 {
      MergingSelf(n0, strs0, p);
      return nnode;
    }
    err := ApplyNode(fdt, nnode, fdto, subnode, p + [i], op + [k]);
    if err == 0 {
      ViewName(c, ostrs);
      SlotMerged(n0, n1, fdt.root, p, i, strs0, fdt.Strings(), View(c, ostrs));
    } else {
      SlotMerging(n0, n1, fdt.root, p, name, i, strs0, fdt.Strings());
    }
  }

  /** What a merge in progress leaves alone: the meaning of the base differs at the target only. */
  lemma MergingMeaning(n0: Node, strs0: Bytes, n: Node, strs: Bytes, p: Path)
    requires WfNode(n0) && Proper(n0, strs0) && Merging(n0, strs0, n, strs, p)
    ensures ValidPath(n0, p) && ValidPath(n, p)
    ensures var t, q := View(n0, strs0), ViewPath(n0, p, strs0);
            InTree(t, q) && View(n, strs) == TreePut(t, q, View(At(n, p), strs))
  {
    hide WfNode, View, Proper, InTree, TreePut, ViewPath;
    var extra := strs[|strs0|..];
    assert strs == strs0 + extra;
    ViewGrows(n0, strs0, extra);
    ViewPathGrows(n0, p, strs0, extra);
    ViewPut(n0, p, At(n, p), strs);
  }
}
