/** What the edits of the read-write operations do to the meaning of a blob. */
module FdtMeaning {
  import opened Common
  import opened FdtBytes
  import opened FdtTokens
  import opened FdtTree
  import opened FdtNodes
  import opened FdtProps
  import opened FdtEdit
  import opened FdtView
  import opened FdtDecode
  import opened FdtSplice
  import opened FdtOps
  import opened FdtBlob

  // ---- properties of a tree ----

  /** Index of the first property called `name`, or the length. */
  function FirstNamed(props: seq<(Bytes, Bytes)>, name: Bytes): (i: nat)
    ensures i <= |props|
    ensures i < |props| ==> props[i].0 == name
    ensures forall j :: 0 <= j < i ==> props[j].0 != name
  {
    if props == [] || props[0].0 == name then 0 else 1 + FirstNamed(props[1..], name)
  }

  function PropOf(t: Tree, name: Bytes): Option<Bytes> {
    var i := FirstNamed(t.props, name);
    if i < |t.props| then Some(t.props[i].1) else None
  }

  function SetProp(t: Tree, name: Bytes, value: Bytes): Tree {
    var i := FirstNamed(t.props, name);
    if i < |t.props| then t.(props := t.props[i := (name, value)])
    else t.(props := [(name, value)] + t.props)
  }

  /** Setting a property changes the lookup of that name and of no other. */
  lemma SetPropLookup(t: Tree, name: Bytes, value: Bytes, x: Bytes)
    ensures PropOf(SetProp(t, name, value), x) == if x == name then Some(value) else PropOf(t, x)
    ensures SetProp(t, name, value).kids == t.kids && SetProp(t, name, value).name == t.name
  {
    var i := FirstNamed(t.props, name);
    if i < |t.props| {
      UpdateLookup(t.props, i, name, value, x);
    } else {
      assert ([(name, value)] + t.props)[1..] == t.props;
    }
  }

  lemma {:induction false} UpdateLookup(props: seq<(Bytes, Bytes)>, i: nat, name: Bytes, value: Bytes, x: Bytes)
    requires i == FirstNamed(props, name) < |props|
    ensures var props' := props[i := (name, value)];
            FirstNamed(props', x) == FirstNamed(props, x) &&
            (x == name ==> FirstNamed(props', x) == i)
    decreases |props|
  {
    if i > 0 {
      UpdateLookup(props[1..], i - 1, name, value, x);
      assert props[i := (name, value)][1..] == props[1..][i - 1 := (name, value)];
    } else {
      assert props[i := (name, value)][1..] == props[1..];
    }
  }

  // ---- item indices and property indices ----

  lemma {:induction false} NoProps(items: seq<Item>, strs: Bytes)
    requires forall j :: 0 <= j < |items| ==> !items[j].Prop?
    ensures ViewProps(items, strs) == []
  {
    if items != [] {
      NoProps(items[1..], strs);
    }
  }

  lemma {:induction false} NoKids(items: seq<Item>, strs: Bytes)
    requires forall j :: 0 <= j < |items| ==> !items[j].Child?
    ensures ViewKids(items, strs) == []
  {
    if items != [] {
      NoKids(items[1..], strs);
    }
  }

  lemma FirstNamedStep(p: seq<(Bytes, Bytes)>, rest: seq<(Bytes, Bytes)>, name: Bytes)
    requires |p| <= 1 && (|p| == 1 ==> p[0].0 != name)
    ensures FirstNamed(p + rest, name) == |p| + FirstNamed(rest, name)
  {
    if |p| == 1 {
      assert (p + rest)[1..] == rest;
    } else {
      assert p + rest == rest;
    }
  }

  /** The item the property scan finds is the first property of that name in the meaning. */
  lemma ViewTake(items: seq<Item>, i: nat, strs: Bytes)
    requires i < |items|
    ensures ViewProps(items[..i + 1], strs) == ViewProp(items[0], strs) + ViewProps(items[1..][..i], strs)
  {
    hide ViewProps, ViewProp;
    ViewStep(items[..i + 1], strs);
    assert items[..i + 1][1..] == items[1..][..i];
  }

  lemma {:induction false} PropIndexIsFirstNamed(items: seq<Item>, strs: Bytes, name: Bytes)
    requires PropsFirst(items) && ProperItems(items, strs)
    ensures var i := PropIndex(items, strs, name);
            var f := FirstNamed(ViewProps(items, strs), name);
            if i < |items|
            then f < |ViewProps(items, strs)| && f == |ViewProps(items[..i], strs)|
            else f == |ViewProps(items, strs)|
  {
    hide GetString, ViewProp, ViewProps, FirstNamed;
    ViewStep(items, strs);
    if items == [] || items[0].Child? {
      if items != [] {
        ChildThenNoProps(items);
      }
      NoProps(items, strs);
      FirstNamedNone(name);
    } else {
      var p, rest := ViewProp(items[0], strs), items[1..];
      assert PropsFirst(rest) by { FirstTail(items); }
      OnePropView(items[0], strs);
      if items[0].Prop? && GetString(strs, items[0].nameoff) == Some(name) {
        FirstNamedHere(p, ViewProps(rest, strs), name);
        assert items[..0] == [];
        ViewStep(items[..0], strs);
      } else {
        PropIndexIsFirstNamed(rest, strs, name);
        FirstNamedStep(p, ViewProps(rest, strs), name);
        var i := PropIndex(rest, strs, name);
        if i < |rest| {
          ViewTake(items, i, strs);
        }
      }
    }
  }

  lemma FirstTail(items: seq<Item>)
    requires PropsFirst(items) && items != []
    ensures PropsFirst(items[1..])
  {
    var t := items[1..];
    forall i, j | 0 <= i < j < |t| && t[i].Child?
      ensures !t[j].Prop?
    {
      assert items[i + 1].Child?;
    }
  }

  lemma ChildThenNoProps(items: seq<Item>)
    requires PropsFirst(items) && items != [] && items[0].Child?
    ensures forall j :: 0 <= j < |items| ==> !items[j].Prop?
  {
  }

  lemma FirstNamedNone(name: Bytes)
    ensures FirstNamed([], name) == 0
  {
  }

  lemma FirstNamedHere(p: seq<(Bytes, Bytes)>, rest: seq<(Bytes, Bytes)>, name: Bytes)
    requires |p| == 1 && p[0].0 == name
    ensures FirstNamed(p + rest, name) == 0
  {
  }

  lemma OnePropView(it: Item, strs: Bytes)
    requires ProperItem(it, strs) && !it.Child?
    ensures it.Nop? ==> ViewProp(it, strs) == []
    ensures it.Prop? ==> ViewProp(it, strs) == [(GetString(strs, it.nameoff).value, it.value)]
  {
    hide GetString;
  }

  // ---- the edits ----

  /** Setting a property changes, in the meaning of the blob, that property of that node only. */
  lemma SetInMeaning(n: Node, n': Node, p: Path, strs: Bytes, extra: Bytes, name: Bytes, value: Bytes)
    requires WfNode(n) && Proper(n, strs) && SetIn(n, n', p, strs, strs + extra, name, value)
    ensures var t, q := View(n, strs), ViewPath(n, p, strs);
            ValidPath(n, p) && InTree(t, q) &&
            View(n', strs + extra) == TreePut(t, q, SetProp(TreeAt(t, q), name, value))
  {
    hide WfNode, View, Proper, ProperItems, GetString, PropIndex, PutItems, InTree, TreePut, TreeAt, SetProp;
    var strs' := strs + extra;
    var items := At(n, p).items;
    var i := PropIndex(items, strs, name);
    var it: Item :| it.Prop? && it.value == value && GetString(strs', it.nameoff) == Some(name) &&
      n' == if i < |items| then PutItems(n, p, i, i + 1, [it]) else PutItems(n, p, 0, 0, [it]);
    ViewGrows(n, strs, extra);
    AtGood(n, p, strs);
    ViewGrows(At(n, p), strs, extra);
    ViewPathGrows(n, p, strs, extra);
    SameIndex(At(n, p), strs, extra, name);
    ViewAt(n, p, strs);
    SetAtNode(At(n, p), strs', name, it);
    PutIs(n, p, i, items, it);
    ViewPut(n, p, SetNode(At(n, p), strs', name, it), strs');
  }

  /** The node with the property item put in. */
  ghost function SetNode(n: Node, strs: Bytes, name: Bytes, it: Item): Node {
    var i := PropIndex(n.items, strs, name);
    if i < |n.items| then n.(items := Splice(n.items, i, 1, [it])) else n.(items := Splice(n.items, 0, 0, [it]))
  }

  lemma PutIs(n: Node, p: Path, i: nat, items: seq<Item>, it: Item)
    requires ValidPath(n, p) && items == At(n, p).items && i <= |items|
    ensures i < |items| ==> PutItems(n, p, i, i + 1, [it]) == Put(n, p, At(n, p).(items := Splice(items, i, 1, [it])))
    ensures PutItems(n, p, 0, 0, [it]) == Put(n, p, At(n, p).(items := Splice(items, 0, 0, [it])))
  {
  }

  lemma SameIndex(n: Node, strs: Bytes, extra: Bytes, name: Bytes)
    requires Proper(n, strs)
    ensures PropIndex(n.items, strs + extra, name) == PropIndex(n.items, strs, name)
  {
    hide ProperItems, PropIndex;
    SameIndexItems(n.items, strs, extra, name);
  }

  lemma {:induction false} SameIndexItems(items: seq<Item>, strs: Bytes, extra: Bytes, name: Bytes)
    requires ProperItems(items, strs)
    ensures PropIndex(items, strs + extra, name) == PropIndex(items, strs, name)
  {
    hide GetString;
    if items != [] && !items[0].Child? {
      if items[0].Prop? {
        GetStringGrows(strs, extra, items[0].nameoff);
      }
      SameIndexItems(items[1..], strs, extra, name);
    }
  }

  lemma {:induction false} ViewPathGrows(n: Node, p: Path, strs: Bytes, extra: Bytes)
    requires WfNode(n) && Proper(n, strs) && ValidPath(n, p)
    ensures ViewPath(n, p, strs + extra) == ViewPath(n, p, strs)
    decreases |p|
  {
    hide WfNode, Proper, ViewKids, ProperItems;
    if p != [] {
      ChildGood(n, p[0], strs);
      ViewPathGrows(n.items[p[0]].node, p[1..], strs, extra);
      KidsGrow(n, p[0], strs, extra);
    }
  }

  lemma KidsGrow(n: Node, i: nat, strs: Bytes, extra: Bytes)
    requires Proper(n, strs) && i <= |n.items|
    ensures ViewKids(n.items[..i], strs + extra) == ViewKids(n.items[..i], strs)
  {
    hide ProperItems, ViewKids;
    assert n.items == n.items[..i] + n.items[i..];
    ProperItemsConcat(n.items[..i], n.items[i..], strs);
    ViewItemsGrows(n.items[..i], strs, extra);
  }

  lemma SetAtNode(n: Node, strs: Bytes, name: Bytes, it: Item)
    requires Proper(n, strs) && it.Prop? && GetString(strs, it.nameoff) == Some(name)
    ensures View(SetNode(n, strs, name, it), strs) == SetProp(View(n, strs), name, it.value)
  {
    hide GetString, PropIndex, ProperItems, ViewProps, ViewKids, PropsFirst;
    var items := n.items;
    var i := PropIndex(items, strs, name);
    PropIndexIsFirstNamed(items, strs, name);
    ViewOne(it, strs);
    if i < |items| {
      ViewSplice(items, i, i + 1, [it], strs);
      FoundItem(items, strs, name);
      assert items[i..i + 1] == [items[i]];
      ViewOne(items[i], strs);
      ViewHasOne(items[i], strs, name);
    } else {
      ViewSplice(items, 0, 0, [it], strs);
      assert items[..0] == [] && items[0..0] == [];
      ViewNone(strs);
    }
  }

  lemma FoundItem(items: seq<Item>, strs: Bytes, name: Bytes)
    requires PropIndex(items, strs, name) < |items|
    ensures var i := PropIndex(items, strs, name);
            items[i].Prop? && GetString(strs, items[i].nameoff) == Some(name)
  {
    hide GetString;
  }

  lemma ViewHasOne(it: Item, strs: Bytes, name: Bytes)
    requires it.Prop? && GetString(strs, it.nameoff) == Some(name)
    ensures ViewProp(it, strs) == [(name, it.value)] && ViewKid(it, strs) == []
  {
    hide GetString;
  }

  lemma ViewNone(strs: Bytes)
    ensures ViewProps([], strs) == [] && ViewKids([], strs) == []
  {
  }

  /** Items replaced by NOPs and items removed leave the same meaning. */
  lemma NopMeansDelete(n: Node, p: Path, i: nat, m: nat, strs: Bytes)
    requires ValidPath(n, p) && i < |At(n, p).items|
    ensures View(PutItems(n, p, i, i + 1, Nops(m)), strs) == View(PutItems(n, p, i, i + 1, []), strs)
  {
    hide View, ViewProps, ViewKids, Splice;
    var a := At(n, p);
    ViewPut(n, p, a.(items := Splice(a.items, i, 1, Nops(m))), strs);
    ViewPut(n, p, a.(items := Splice(a.items, i, 1, [])), strs);
    ViewSplice(a.items, i, i + 1, Nops(m), strs);
    ViewSplice(a.items, i, i + 1, [], strs);
    NoProps(Nops(m), strs);
    NoKids(Nops(m), strs);
    ViewNone(strs);
    ViewOfItems(a, Splice(a.items, i, 1, Nops(m)), strs);
    ViewOfItems(a, Splice(a.items, i, 1, []), strs);
  }

  lemma ViewOfItems(n: Node, items: seq<Item>, strs: Bytes)
    ensures View(n.(items := items), strs) == Tree(n.name, ViewProps(items, strs), ViewKids(items, strs))
  {
    hide ViewProps, ViewKids;
  }

  function Without<T>(s: seq<T>, i: nat): seq<T>
    requires i < |s|
  {
    s[..i] + s[i + 1..]
  }

  /** Deleting a node removes it from its parent's subnodes and changes nothing else. */
  lemma DelNodeMeaning(n: Node, p: Path, strs: Bytes)
    requires p != [] && ValidPath(n, p) && ParentOf(n, p)
    ensures var q, i := p[..|p| - 1], p[|p| - 1];
            var t, u, k := View(n, strs), ViewPath(n, q, strs), |ViewKids(At(n, q).items[..i], strs)|;
            InTree(t, u) && k < |TreeAt(t, u).kids| &&
            ViewPath(n, p, strs) == u + [k] &&
            View(PutItems(n, q, i, i + 1, []), strs) ==
            TreePut(t, u, TreeAt(t, u).(kids := Without(TreeAt(t, u).kids, k)))
  {
    hide View, ViewProps, ViewKids, Splice, InTree, TreeAt, TreePut, ViewPath, At;
    var q, i := p[..|p| - 1], p[|p| - 1];
    var a := At(n, q);
    ViewAt(n, q, strs);
    ViewPut(n, q, a.(items := Splice(a.items, i, 1, [])), strs);
    ViewSplice(a.items, i, i + 1, [], strs);
    KidAt(a.items, i, strs);
    ViewNone(strs);
    ViewOfItems(a, Splice(a.items, i, 1, []), strs);
    ViewOfItems(a, a.items, strs);
    assert a.(items := a.items) == a;
    SpliceNothing(ViewProps(a.items, strs), |ViewProps(a.items[..i], strs)|);
    SpliceOut(ViewKids(a.items, strs), |ViewKids(a.items[..i], strs)|);
    ViewPathLast(n, p, strs);
  }

  lemma SpliceNothing<T>(s: seq<T>, at: nat)
    requires at <= |s|
    ensures Splice(s, at, 0, []) == s
  {
  }

  lemma SpliceOut<T>(s: seq<T>, at: nat)
    requires at < |s|
    ensures Splice(s, at, 1, []) == Without(s, at)
  {
  }

  lemma {:induction false} ViewPathLast(n: Node, p: Path, strs: Bytes)
    requires p != [] && ValidPath(n, p)
    ensures ParentOf(n, p)
    ensures var q, i := p[..|p| - 1], p[|p| - 1];
            ViewPath(n, p, strs) == ViewPath(n, q, strs) + [|ViewKids(At(n, q).items[..i], strs)|]
    decreases |p|
  {
    hide ViewKids;
    if |p| > 1 {
      ViewPathLast(n.items[p[0]].node, p[1..], strs);
      assert p[..|p| - 1][1..] == p[1..][..|p| - 2];
    }
  }

  /** Deleting a property removes its first occurrence in the meaning. */
  lemma DelPropMeaning(n: Node, p: Path, strs: Bytes, name: Bytes)
    requires WfNode(n) && Proper(n, strs) && ValidPath(n, p)
    requires PropIndex(At(n, p).items, strs, name) < |At(n, p).items|
    ensures var i := PropIndex(At(n, p).items, strs, name);
            var t, u := View(n, strs), ViewPath(n, p, strs);
            InTree(t, u) &&
            var f := FirstNamed(TreeAt(t, u).props, name);
            f < |TreeAt(t, u).props| &&
            View(PutItems(n, p, i, i + 1, []), strs) ==
            TreePut(t, u, TreeAt(t, u).(props := Without(TreeAt(t, u).props, f)))
  {
    hide View, ViewProps, ViewKids, Splice, InTree, TreeAt, TreePut, ViewPath, At, PropIndex, ProperItems, GetString;
    var a := At(n, p);
    var i := PropIndex(a.items, strs, name);
    AtGood(n, p, strs);
    PropIndexIsFirstNamed(a.items, strs, name);
    FoundItem(a.items, strs, name);
    ViewAt(n, p, strs);
    ViewPut(n, p, a.(items := Splice(a.items, i, 1, [])), strs);
    ViewSplice(a.items, i, i + 1, [], strs);
    assert a.items[i..i + 1] == [a.items[i]];
    ViewOne(a.items[i], strs);
    ViewHasOne(a.items[i], strs, name);
    ViewNone(strs);
    ViewOfItems(a, Splice(a.items, i, 1, []), strs);
    ViewOfItems(a, a.items, strs);
    assert a.(items := a.items) == a;
    SpliceNothing(ViewKids(a.items, strs), |ViewKids(a.items[..i], strs)|);
    SpliceOut(ViewProps(a.items, strs), |ViewProps(a.items[..i], strs)|);
  }

  /** A new subnode is empty and comes first. */
  lemma AddSubnodeMeaning(n: Node, n': Node, p: Path, strs: Bytes, name: Bytes)
    requires WfNode(n) && Proper(n, strs) && NodeAdded(n, n', p, name)
    ensures var t, u := View(n, strs), ViewPath(n, p, strs);
            InTree(t, u) &&
            View(n', strs) == TreePut(t, u, TreeAt(t, u).(kids := [Tree(name, [], [])] + TreeAt(t, u).kids))
  {
    hide View, ViewProps, ViewKids, Splice, InTree, TreeAt, TreePut, ViewPath, At, LeadCount, EmptyNode, Proper;
    var a := At(n, p);
    var i, c := LeadCount(a.items), EmptyNode(name);
    ViewAt(n, p, strs);
    ViewPut(n, p, a.(items := Splice(a.items, i, 0, [Child(c)])), strs);
    ViewSplice(a.items, i, i, [Child(c)], strs);
    assert a.items[i..i] == [];
    ViewNone(strs);
    ViewOne(Child(c), strs);
    EmptyView(name, strs);
    NoKids(a.items[..i], strs) by { LeadFacts(a.items); }
    ViewOfItems(a, Splice(a.items, i, 0, [Child(c)]), strs);
    ViewOfItems(a, a.items, strs);
    assert a.(items := a.items) == a;
    SpliceNothing(ViewProps(a.items, strs), |ViewProps(a.items[..i], strs)|);
    SpliceFront(ViewKids(a.items, strs), Tree(name, [], []));
  }

  lemma EmptyView(name: Bytes, strs: Bytes)
    ensures ViewKid(Child(EmptyNode(name)), strs) == [Tree(name, [], [])] &&
            ViewProp(Child(EmptyNode(name)), strs) == []
  {
    ViewNone(strs);
  }

  lemma SpliceFront<T>(s: seq<T>, x: T)
    ensures Splice(s, 0, 0, [x]) == [x] + s
  {
  }

  // ---- what an edit leaves alone ----

  ghost predicate StartsWith(r: seq<nat>, q: seq<nat>) {
    q == [] || (r != [] && r[0] == q[0] && StartsWith(r[1..], q[1..]))
  }

  /** Replacing a subtree leaves the name and the properties of every node outside it. */
  lemma {:induction false} TreePutElsewhere(t: Tree, q: seq<nat>, u: Tree, r: seq<nat>)
    requires InTree(t, q) && InTree(t, r) && !StartsWith(r, q)
    ensures InTree(TreePut(t, q, u), r)
    ensures TreeAt(TreePut(t, q, u), r).name == TreeAt(t, r).name
    ensures TreeAt(TreePut(t, q, u), r).props == TreeAt(t, r).props
    decreases |q|
  {
    if r != [] && r[0] == q[0] {
      TreePutElsewhere(t.kids[q[0]], q[1..], u, r[1..]);
    }
  }

  /** The subtree put in place is what is found there. */
  lemma {:induction false} TreePutHere(t: Tree, q: seq<nat>, u: Tree)
    requires InTree(t, q)
    ensures InTree(TreePut(t, q, u), q) && TreeAt(TreePut(t, q, u), q) == u
    decreases |q|
  {
    if q != [] {
      TreePutHere(t.kids[q[0]], q[1..], u);
    }
  }
}
