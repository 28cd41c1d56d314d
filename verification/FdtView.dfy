/**
 What a blob means: a tree of named nodes with named property values. NOPs, padding and
 string offsets are gone. Edits of the stored tree are edits of this one.
 */
module FdtView {
  import opened Common
  import opened FdtBytes
  import opened FdtTokens
  import opened FdtTree
  import opened FdtNodes
  import opened FdtProps
  import opened FdtEdit

  datatype Tree = Tree(name: Bytes, props: seq<(Bytes, Bytes)>, kids: seq<Tree>)

  /** No property after the first subnode. */
  predicate PropsFirst(items: seq<Item>) {
    forall i, j :: 0 <= i < j < |items| && items[i].Child? ==> !items[j].Prop?
  }

  /** Properties come first, and their name offsets select strings of `strs`, at every level. */
  predicate Proper(n: Node, strs: Bytes)
    decreases n, 1
  {
    PropsFirst(n.items) && ProperItems(n.items, strs)
  }

  predicate ProperItem(it: Item, strs: Bytes)
    decreases it, 1
  {
    match it
    case Nop => true
    case Prop(nameoff, _, _) => GetString(strs, nameoff).Some?
    case Child(c) => Proper(c, strs)
  }

  predicate ProperItems(items: seq<Item>, strs: Bytes)
    decreases items, 0
  {
    items == [] || (ProperItem(items[0], strs) && ProperItems(items[1..], strs))
  }

  function View(n: Node, strs: Bytes): Tree
    decreases n, 1
  {
    Tree(n.name, ViewProps(n.items, strs), ViewKids(n.items, strs))
  }

  function ViewProp(it: Item, strs: Bytes): seq<(Bytes, Bytes)> {
    match it
    case Prop(nameoff, value, _) =>
      (match GetString(strs, nameoff)
       case Some(name) => [(name, value)]
       case None => [])
    case _ => []
  }

  function ViewProps(items: seq<Item>, strs: Bytes): seq<(Bytes, Bytes)> {
    if items == [] then [] else ViewProp(items[0], strs) + ViewProps(items[1..], strs)
  }

  function ViewKid(it: Item, strs: Bytes): seq<Tree>
    decreases it, 1
  {
    match it
    case Child(c) => [View(c, strs)]
    case _ => []
  }

  function ViewKids(items: seq<Item>, strs: Bytes): seq<Tree>
    decreases items, 0
  {
    if items == [] then [] else ViewKid(items[0], strs) + ViewKids(items[1..], strs)
  }

  lemma ViewStep(items: seq<Item>, strs: Bytes)
    ensures items == [] ==> ViewProps(items, strs) == [] && ViewKids(items, strs) == []
    ensures items != [] ==> ViewProps(items, strs) == ViewProp(items[0], strs) + ViewProps(items[1..], strs)
    ensures items != [] ==> ViewKids(items, strs) == ViewKid(items[0], strs) + ViewKids(items[1..], strs)
  {
    hide ViewProp, ViewKid;
  }

  lemma {:induction false} ViewConcat(a: seq<Item>, b: seq<Item>, strs: Bytes)
    ensures ViewProps(a + b, strs) == ViewProps(a, strs) + ViewProps(b, strs)
    ensures ViewKids(a + b, strs) == ViewKids(a, strs) + ViewKids(b, strs)
    decreases |a|
  {
    hide *;
    ConcatFirst(a, b);
    ViewStep(a, strs);
    if a == [] {
      ConcatFirst(ViewProps(a, strs), ViewProps(b, strs));
      ConcatFirst(ViewKids(a, strs), ViewKids(b, strs));
    } else {
      ViewStep(a + b, strs);
      ViewConcat(a[1..], b, strs);
      ConcatAssoc(ViewProp(a[0], strs), ViewProps(a[1..], strs), ViewProps(b, strs));
      ConcatAssoc(ViewKid(a[0], strs), ViewKids(a[1..], strs), ViewKids(b, strs));
    }
  }

  lemma ViewOne(it: Item, strs: Bytes)
    ensures ViewProps([it], strs) == ViewProp(it, strs) && ViewKids([it], strs) == ViewKid(it, strs)
  {
    hide ViewProp, ViewKid;
    assert [it][1..] == [];
  }

  /** Replacing items replaces their part of the view. */
  lemma ViewSplice(items: seq<Item>, i: nat, j: nat, new': seq<Item>, strs: Bytes)
    requires i <= j <= |items|
    ensures |ViewProps(items[..i], strs)| + |ViewProps(items[i..j], strs)| <= |ViewProps(items, strs)|
    ensures |ViewKids(items[..i], strs)| + |ViewKids(items[i..j], strs)| <= |ViewKids(items, strs)|
    ensures ViewProps(Splice(items, i, j - i, new'), strs) ==
            Splice(ViewProps(items, strs), |ViewProps(items[..i], strs)|, |ViewProps(items[i..j], strs)|,
              ViewProps(new', strs))
    ensures ViewKids(Splice(items, i, j - i, new'), strs) ==
            Splice(ViewKids(items, strs), |ViewKids(items[..i], strs)|, |ViewKids(items[i..j], strs)|,
              ViewKids(new', strs))
  {
    hide ViewProps, ViewKids, Splice;
    SpliceIs(items, i, j, new');
    ViewConcat(items[..i] + new', items[j..], strs);
    ViewConcat(items[..i], new', strs);
    assert items == items[..j] + items[j..] && items[..j] == items[..i] + items[i..j];
    ViewConcat(items[..j], items[j..], strs);
    ViewConcat(items[..i], items[i..j], strs);
    SpliceMiddle(ViewProps(items[..i], strs), ViewProps(items[i..j], strs), ViewProps(items[j..], strs),
      ViewProps(new', strs));
    SpliceMiddle(ViewKids(items[..i], strs), ViewKids(items[i..j], strs), ViewKids(items[j..], strs),
      ViewKids(new', strs));
  }

  // ---- paths in the view ----

  /** Subnode numbers from the root to a node. */
  ghost function ViewPath(n: Node, p: Path, strs: Bytes): seq<nat>
    requires ValidPath(n, p)
    decreases |p|
  {
    if p == [] then []
    else [|ViewKids(n.items[..p[0]], strs)|] + ViewPath(n.items[p[0]].node, p[1..], strs)
  }

  ghost predicate InTree(t: Tree, q: seq<nat>)
    decreases |q|
  {
    q == [] || (q[0] < |t.kids| && InTree(t.kids[q[0]], q[1..]))
  }

  ghost function TreeAt(t: Tree, q: seq<nat>): Tree
    requires InTree(t, q)
    decreases |q|
  {
    if q == [] then t else TreeAt(t.kids[q[0]], q[1..])
  }

  ghost function TreePut(t: Tree, q: seq<nat>, u: Tree): Tree
    requires InTree(t, q)
    decreases |q|
  {
    if q == [] then u else t.(kids := t.kids[q[0] := TreePut(t.kids[q[0]], q[1..], u)])
  }

  lemma KidAt(items: seq<Item>, i: nat, strs: Bytes)
    requires i < |items| && items[i].Child?
    ensures var k := |ViewKids(items[..i], strs)|;
            k < |ViewKids(items, strs)| && ViewKids(items, strs)[k] == View(items[i].node, strs)
    ensures ViewProps(items[i..i + 1], strs) == [] && |ViewKids(items[i..i + 1], strs)| == 1
  {
    hide ViewProps, ViewKids, View;
    assert items[i..i + 1] == [items[i]] && items == items[..i + 1] + items[i + 1..];
    assert items[..i + 1] == items[..i] + [items[i]];
    ViewConcat(items[..i + 1], items[i + 1..], strs);
    ViewConcat(items[..i], [items[i]], strs);
    ViewOne(items[i], strs);
  }

  lemma {:induction false} ViewAt(n: Node, p: Path, strs: Bytes)
    requires ValidPath(n, p)
    ensures InTree(View(n, strs), ViewPath(n, p, strs))
    ensures TreeAt(View(n, strs), ViewPath(n, p, strs)) == View(At(n, p), strs)
    decreases |p|
  {
    hide ViewProps, ViewKids;
    if p != [] {
      KidAt(n.items, p[0], strs);
      ViewAt(n.items[p[0]].node, p[1..], strs);
      assert ViewPath(n, p, strs)[1..] == ViewPath(n.items[p[0]].node, p[1..], strs);
    }
  }

  /** Replacing the node at a path replaces exactly that subtree of the meaning. */
  lemma {:induction false} ViewPut(n: Node, p: Path, m: Node, strs: Bytes)
    requires ValidPath(n, p)
    ensures InTree(View(n, strs), ViewPath(n, p, strs))
    ensures View(Put(n, p, m), strs) == TreePut(View(n, strs), ViewPath(n, p, strs), View(m, strs))
    decreases |p|
  {
    hide ViewProps, ViewKids;
    ViewAt(n, p, strs);
    if p != [] {
      KidAt(n.items, p[0], strs);
      ViewPut(n.items[p[0]].node, p[1..], m, strs);
      assert ViewPath(n, p, strs)[1..] == ViewPath(n.items[p[0]].node, p[1..], strs);
      ViewPutStep(n, p[0], Put(n.items[p[0]].node, p[1..], m), strs);
    }
  }

  lemma ViewPutStep(n: Node, i: nat, c': Node, strs: Bytes)
    requires i < |n.items| && n.items[i].Child?
    ensures |ViewKids(n.items[..i], strs)| < |View(n, strs).kids|
    ensures View(n.(items := Splice(n.items, i, 1, [Child(c')])), strs) ==
            View(n, strs).(kids := View(n, strs).kids[|ViewKids(n.items[..i], strs)| := View(c', strs)])
  {
    hide ViewProps, ViewKids;
    KidAt(n.items, i, strs);
    ViewSplice(n.items, i, i + 1, [Child(c')], strs);
    ViewOne(Child(c'), strs);
  }

  // ---- string tables grow at the end ----

  lemma GetStringGrows(strs: Bytes, extra: Bytes, off: u32)
    requires GetString(strs, off).Some?
    ensures GetString(strs + extra, off) == GetString(strs, off)
  {
    var e := FindNul(strs, off);
    var name := strs[off..e];
    var all := strs + extra;
    assert Has(all, off, name + [0]) by {
      assert all[off..off + |name + [0]|] == name + [0];
    }
    FindNulIs(all, off, name);
    assert all[off..e] == name;
  }

  /** A longer string table changes the meaning of no node whose names it already held. */
  lemma {:induction false} ViewGrows(n: Node, strs: Bytes, extra: Bytes)
    requires Proper(n, strs)
    ensures Proper(n, strs + extra) && View(n, strs + extra) == View(n, strs)
    decreases n, 1
  {
    ViewItemsGrows(n.items, strs, extra);
  }

  lemma {:induction false} ViewItemGrows(it: Item, strs: Bytes, extra: Bytes)
    requires ProperItem(it, strs)
    ensures ProperItem(it, strs + extra)
    ensures ViewProp(it, strs + extra) == ViewProp(it, strs) && ViewKid(it, strs + extra) == ViewKid(it, strs)
    decreases it, 1
  {
    hide GetString;
    match it
    case Nop =>
    case Prop(nameoff, _, _) => GetStringGrows(strs, extra, nameoff);
    case Child(c) => ViewGrows(c, strs, extra);
  }

  lemma {:induction false} ViewItemsGrows(items: seq<Item>, strs: Bytes, extra: Bytes)
    requires ProperItems(items, strs)
    ensures ProperItems(items, strs + extra)
    ensures ViewProps(items, strs + extra) == ViewProps(items, strs)
    ensures ViewKids(items, strs + extra) == ViewKids(items, strs)
    decreases items, 0
  {
    hide ViewProp, ViewKid, ProperItem;
    if items != [] {
      ViewItemGrows(items[0], strs, extra);
      ViewItemsGrows(items[1..], strs, extra);
    }
  }

  lemma {:induction false} ProperItemsConcat(a: seq<Item>, b: seq<Item>, strs: Bytes)
    ensures ProperItems(a + b, strs) <==> ProperItems(a, strs) && ProperItems(b, strs)
  {
    hide ProperItem;
    if a == [] {
      assert a + b == b;
    } else {
      ProperItemsConcat(a[1..], b, strs);
      assert (a + b)[1..] == a[1..] + b;
    }
  }

  // ---- edits keep well-formedness ----

  lemma WfSplice(items: seq<Item>, i: nat, j: nat, new': seq<Item>)
    requires i <= j <= |items| && WfItems(items) && WfItems(new')
    ensures WfItems(Splice(items, i, j - i, new')) && WfItems(items[i..j])
  {
    hide WfItems;
    assert items == items[..j] + items[j..] && items[..j] == items[..i] + items[i..j];
    WfItemsConcat(items[..j], items[j..]);
    WfItemsConcat(items[..i], items[i..j]);
    WfItemsConcat(items[..i] + new', items[j..]);
    WfItemsConcat(items[..i], new');
  }

  lemma ProperSplice(items: seq<Item>, i: nat, j: nat, new': seq<Item>, strs: Bytes)
    requires i <= j <= |items| && ProperItems(items, strs) && ProperItems(new', strs)
    ensures ProperItems(Splice(items, i, j - i, new'), strs) && ProperItems(items[i..j], strs)
  {
    hide ProperItems;
    assert items == items[..j] + items[j..] && items[..j] == items[..i] + items[i..j];
    ProperItemsConcat(items[..j], items[j..], strs);
    ProperItemsConcat(items[..i], items[i..j], strs);
    ProperItemsConcat(items[..i] + new', items[j..], strs);
    ProperItemsConcat(items[..i], new', strs);
  }

  lemma OneItem(it: Item, strs: Bytes)
    ensures WfItems([it]) <==> WfItem(it)
    ensures ProperItems([it], strs) <==> ProperItem(it, strs)
  {
    hide WfItem, ProperItem;
    assert [it][1..] == [];
  }

  lemma {:induction false} AtGood(n: Node, p: Path, strs: Bytes)
    requires ValidPath(n, p) && WfNode(n) && Proper(n, strs)
    ensures WfNode(At(n, p)) && Proper(At(n, p), strs)
    decreases |p|
  {
    hide WfItems, ProperItems;
    if p != [] {
      ChildGood(n, p[0], strs);
      AtGood(n.items[p[0]].node, p[1..], strs);
    }
  }

  lemma ChildGood(n: Node, i: nat, strs: Bytes)
    requires i < |n.items| && n.items[i].Child? && WfNode(n) && Proper(n, strs)
    ensures WfNode(n.items[i].node) && Proper(n.items[i].node, strs)
  {
    hide WfItems, ProperItems;
    WfSplice(n.items, i, i + 1, []) by { OneItem(Nop, strs); WfEmpty(strs); }
    ProperSplice(n.items, i, i + 1, [], strs) by { WfEmpty(strs); }
    assert n.items[i..i + 1] == [n.items[i]];
    OneItem(n.items[i], strs);
  }

  lemma WfEmpty(strs: Bytes)
    ensures WfItems([]) && ProperItems([], strs)
  {
  }

  lemma {:induction false} PutGood(n: Node, p: Path, m: Node, strs: Bytes)
    requires ValidPath(n, p) && WfNode(n) && Proper(n, strs) && WfNode(m) && Proper(m, strs)
    ensures WfNode(Put(n, p, m)) && Proper(Put(n, p, m), strs)
    decreases |p|
  {
    hide WfItems, ProperItems, WfNode, Proper;
    if p != [] {
      ChildGood(n, p[0], strs);
      PutGood(n.items[p[0]].node, p[1..], m, strs);
      ReplaceChildGood(n, p[0], Put(n.items[p[0]].node, p[1..], m), strs);
    }
  }

  lemma ReplaceChildGood(n: Node, i: nat, c: Node, strs: Bytes)
    requires i < |n.items| && n.items[i].Child? && WfNode(n) && Proper(n, strs) && WfNode(c) && Proper(c, strs)
    ensures var n' := n.(items := Splice(n.items, i, 1, [Child(c)]));
            WfNode(n') && Proper(n', strs)
  {
    hide WfItems, ProperItems;
    OneItem(Child(c), strs);
    WfSplice(n.items, i, i + 1, [Child(c)]);
    ProperSplice(n.items, i, i + 1, [Child(c)], strs);
  }

  lemma {:induction false} PutFacts(n: Node, p: Path, m: Node)
    requires ValidPath(n, p)
    ensures ValidPath(Put(n, p, m), p) && At(Put(n, p, m), p) == m && Pos(Put(n, p, m), p) == Pos(n, p)
    ensures forall m' :: Put(Put(n, p, m), p, m') == Put(n, p, m')
    decreases |p|
  {
    hide FlatItems;
    if p != [] {
      PutFacts(n.items[p[0]].node, p[1..], m);
      var n' := Put(n, p, m);
      assert n'.items[..p[0]] == n.items[..p[0]];
      forall m'
        ensures Put(n', p, m') == Put(n, p, m')
      {
        assert Splice(n'.items, p[0], 1, [Child(Put(n'.items[p[0]].node, p[1..], m'))]) ==
               Splice(n.items, p[0], 1, [Child(Put(n.items[p[0]].node, p[1..], m'))]);
      }
    }
  }
}
