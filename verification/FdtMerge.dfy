/**
 Merging an overlay tree into a base tree, as `overlay_apply_node` does it, and what the
 result holds: the overlay's property where it has one, the base's elsewhere, at every path.
 */
module FdtMerge {
  import opened Common
  import opened FdtBytes
  import opened FdtNodes
  import opened FdtProps
  import opened FdtView
  import opened FdtMeaning

  function SetAll(t: Tree, props: seq<(Bytes, Bytes)>): Tree
    decreases |props|
  {
    if props == [] then t else SetAll(SetProp(t, props[0].0, props[0].1), props[1..])
  }

  /** Index of the first subnode the lookup of `name` accepts, or the length. */
  function MatchTree(kids: seq<Tree>, name: Bytes): (i: nat)
    ensures i <= |kids|
    ensures i < |kids| ==> NodeNameEq(kids[i].name, name)
    ensures forall j :: 0 <= j < i ==> !NodeNameEq(kids[j].name, name)
  {
    if kids == [] || NodeNameEq(kids[0].name, name) then 0 else 1 + MatchTree(kids[1..], name)
  }

  /** The overlay node `o` applied to the node `b`. */
  function Merge(b: Tree, o: Tree): Tree
    decreases o, 1
  {
    MergeKids(SetAll(b, o.props), o.kids)
  }

  function MergeKids(b: Tree, kids: seq<Tree>): Tree
    decreases kids, 0
  {
    if kids == [] then b else MergeKids(MergeKid(b, kids[0]), kids[1..])
  }

  /** One subnode of the overlay: merged into the subnode it matches, or added first. */
  function MergeKid(b: Tree, k: Tree): Tree
    decreases k, 2
  {
    var i := MatchTree(b.kids, k.name);
    if i < |b.kids| then b.(kids := b.kids[i := Merge(b.kids[i], k)])
    else b.(kids := [Merge(Tree(k.name, [], []), k)] + b.kids)
  }

  lemma {:induction false} SetAllConcat(t: Tree, a: seq<(Bytes, Bytes)>, b: seq<(Bytes, Bytes)>)
    ensures SetAll(t, a + b) == SetAll(SetAll(t, a), b)
    decreases |a|
  {
    hide SetProp;
    if a == [] {
      assert a + b == b;
    } else {
      assert (a + b)[1..] == a[1..] + b;
      SetAllConcat(SetProp(t, a[0].0, a[0].1), a[1..], b);
    }
  }

  lemma {:induction false} MergeKidsConcat(t: Tree, a: seq<Tree>, b: seq<Tree>)
    ensures MergeKids(t, a + b) == MergeKids(MergeKids(t, a), b)
    decreases a
  {
    hide MergeKid;
    if a == [] {
      assert a + b == b;
    } else {
      assert (a + b)[1..] == a[1..] + b;
      MergeKidsConcat(MergeKid(t, a[0]), a[1..], b);
    }
  }

  // ---- deep merge ----

  /** The subnode called exactly `name`, if there is one. */
  function KidNamed(kids: seq<Tree>, name: Bytes): Option<Tree> {
    if kids == [] then None
    else if kids[0].name == name then Some(kids[0])
    else KidNamed(kids[1..], name)
  }

  /** The node at a path of names. */
  function NodeNamed(t: Tree, path: seq<Bytes>): Option<Tree>
    decreases |path|
  {
    if path == [] then Some(t)
    else match KidNamed(t.kids, path[0])
         case None => None
         case Some(k) => NodeNamed(k, path[1..])
  }

  /** The value of property `name` of the node at `path`. */
  function ValueAt(t: Tree, path: seq<Bytes>, name: Bytes): Option<Bytes> {
    match NodeNamed(t, path)
    case None => None
    case Some(u) => PropOf(u, name)
  }

  /** Among these names a lookup accepts only the name itself. */
  ghost predicate ClearNames(names: set<Bytes>) {
    forall x, y :: x in names && y in names && NodeNameEq(x, y) ==> x == y
  }

  function NamesOf(kids: seq<Tree>): set<Bytes> {
    if kids == [] then {} else {kids[0].name} + NamesOf(kids[1..])
  }

  /** No sibling is taken for another when `o` is applied to `b`, at any level. */
  ghost predicate Unambiguous(b: Tree, o: Tree)
    decreases o, 1
  {
    ClearNames(NamesOf(b.kids) + NamesOf(o.kids)) && KidsUnambiguous(b.kids, o.kids)
  }

  ghost predicate KidsUnambiguous(bkids: seq<Tree>, okids: seq<Tree>)
    decreases okids, 0
  {
    okids == [] ||
    (okids[0].name !in NamesOf(okids[1..]) &&
     (match KidNamed(bkids, okids[0].name)
      case Some(c) => Unambiguous(c, okids[0])
      case None => Unambiguous(Tree(okids[0].name, [], []), okids[0])) &&
     KidsUnambiguous(bkids, okids[1..]))
  }

  lemma {:induction false} NamedIn(kids: seq<Tree>, name: Bytes)
    ensures KidNamed(kids, name).Some? <==> name in NamesOf(kids)
    ensures KidNamed(kids, name).Some? ==> KidNamed(kids, name).value.name == name
  {
    if kids != [] {
      NamedIn(kids[1..], name);
    }
  }

  /** Where lookups accept only exact names, the matched subnode is the named one. */
  lemma {:induction false} MatchIsNamed(kids: seq<Tree>, name: Bytes, names: set<Bytes>)
    requires NamesOf(kids) <= names && name in names && ClearNames(names)
    ensures var i := MatchTree(kids, name);
            KidNamed(kids, name) == if i < |kids| then Some(kids[i]) else None
  {
    hide NodeNameEq;
    if kids != [] {
      EqReflexive(name);
      assert kids[0].name in names;
      if !NodeNameEq(kids[0].name, name) {
        MatchIsNamed(kids[1..], name, names);
      }
    }
  }

  lemma EqReflexive(name: Bytes)
    ensures NodeNameEq(name, name)
  {
  }

  lemma {:induction false} ReplaceKid(kids: seq<Tree>, i: nat, k: Tree, y: Bytes)
    requires i < |kids| && kids[i].name == k.name
    requires forall j :: 0 <= j < i ==> kids[j].name != k.name
    ensures KidNamed(kids[i := k], y) == if y == k.name then Some(k) else KidNamed(kids, y)
    ensures NamesOf(kids[i := k]) == NamesOf(kids)
  {
    if i > 0 {
      ReplaceKid(kids[1..], i - 1, k, y);
      assert kids[i := k][1..] == kids[1..][i - 1 := k];
    } else {
      assert kids[i := k][1..] == kids[1..];
    }
  }

  lemma {:induction false} SetAllKeeps(t: Tree, props: seq<(Bytes, Bytes)>)
    ensures SetAll(t, props).name == t.name && SetAll(t, props).kids == t.kids
    decreases |props|
  {
    if props != [] {
      SetPropLookup(t, props[0].0, props[0].1, []);
      SetAllKeeps(SetProp(t, props[0].0, props[0].1), props[1..]);
    }
  }

  predicate DistinctNames(props: seq<(Bytes, Bytes)>) {
    forall i, j :: 0 <= i < j < |props| ==> props[i].0 != props[j].0
  }

  /** The last value that the properties give a name. */
  function LastNamed(props: seq<(Bytes, Bytes)>, x: Bytes): Option<Bytes> {
    if props == [] then None
    else if props[|props| - 1].0 == x then Some(props[|props| - 1].1)
    else LastNamed(props[..|props| - 1], x)
  }

  lemma {:induction false} LastNamedStep(props: seq<(Bytes, Bytes)>, x: Bytes)
    requires props != []
    ensures LastNamed(props, x) ==
            if LastNamed(props[1..], x).Some? then LastNamed(props[1..], x)
            else if props[0].0 == x then Some(props[0].1) else None
    decreases |props|
  {
    var n := |props| - 1;
    if n > 0 {
      LastNamedStep(props[..n], x);
      assert props[..n][1..] == props[1..][..n - 1];
    } else {
      assert props[..n] == [] && props[1..] == [];
    }
  }

  /** Setting all properties in order leaves each name with the last value. */
  lemma {:induction false} SetAllLookup(t: Tree, props: seq<(Bytes, Bytes)>, x: Bytes)
    ensures PropOf(SetAll(t, props), x) == if LastNamed(props, x).Some? then LastNamed(props, x) else PropOf(t, x)
    decreases |props|
  {
    hide SetProp, PropOf, LastNamed;
    if props != [] {
      SetPropLookup(t, props[0].0, props[0].1, x);
      SetAllLookup(SetProp(t, props[0].0, props[0].1), props[1..], x);
      LastNamedStep(props, x);
    } else {
      LastNamedNone(x);
    }
  }

  lemma LastNamedNone(x: Bytes)
    ensures LastNamed([], x) == None
  {
  }

  /** The last value of property `x` of the node at `path`. */
  function LastAt(t: Tree, path: seq<Bytes>, x: Bytes): Option<Bytes> {
    match NodeNamed(t, path)
    case None => None
    case Some(u) => LastNamed(u.props, x)
  }

  /** Where names are distinct, the last value is the one that a lookup finds. */
  lemma {:induction false} LastIsFirst(props: seq<(Bytes, Bytes)>, x: Bytes)
    requires DistinctNames(props)
    ensures var f := FirstNamed(props, x); LastNamed(props, x) == if f < |props| then Some(props[f].1) else None
    decreases |props|
  {
    hide LastNamed;
    if props != [] {
      LastNamedStep(props, x);
      LastIsFirst(props[1..], x);
    } else {
      LastNamedNone(x);
    }
  }

  /** The subnode of `b` that an overlay subnode called `name` merges into. */
  function BaseKid(kids: seq<Tree>, name: Bytes): Tree {
    match KidNamed(kids, name)
    case Some(c) => c
    case None => Tree(name, [], [])
  }

  lemma {:induction false} MergeKidsKeeps(b: Tree, kids: seq<Tree>)
    ensures MergeKids(b, kids).name == b.name && MergeKids(b, kids).props == b.props
    decreases kids
  {
    hide Merge, MatchTree;
    if kids != [] {
      MergeKidsKeeps(MergeKid(b, kids[0]), kids[1..]);
    }
  }

  lemma MergeName(b: Tree, o: Tree)
    ensures Merge(b, o).name == b.name && Merge(b, o).props == SetAll(b, o.props).props
  {
    SetAllKeeps(b, o.props);
    MergeKidsKeeps(SetAll(b, o.props), o.kids);
  }

  /** Merging one subnode changes the lookup of its name only. */
  lemma MergeKidLookup(b: Tree, k: Tree, y: Bytes, names: set<Bytes>)
    requires NamesOf(b.kids) <= names && k.name in names && ClearNames(names)
    ensures KidNamed(MergeKid(b, k).kids, y) ==
            if y == k.name then Some(Merge(BaseKid(b.kids, k.name), k)) else KidNamed(b.kids, y)
    ensures NamesOf(MergeKid(b, k).kids) == NamesOf(b.kids) + {k.name}
  {
    hide Merge, NodeNameEq, ClearNames;
    MatchIsNamed(b.kids, k.name, names);
    NamedIn(b.kids, k.name);
    var i := MatchTree(b.kids, k.name);
    if i < |b.kids| {
      MergeName(b.kids[i], k);
      NotNamedBefore(b.kids, k.name, i);
      ReplaceKid(b.kids, i, Merge(b.kids[i], k), y);
    } else {
      MergeName(Tree(k.name, [], []), k);
      var kids := [Merge(Tree(k.name, [], []), k)] + b.kids;
      assert kids[1..] == b.kids;
    }
  }

  lemma NotNamedBefore(kids: seq<Tree>, name: Bytes, i: nat)
    requires i == MatchTree(kids, name)
    ensures forall j :: 0 <= j < i ==> kids[j].name != name
  {
    forall j | 0 <= j < i
      ensures kids[j].name != name
    {
      EqReflexive(name);
    }
  }

  lemma {:induction false} UnambiguousFrame(bk: seq<Tree>, bk': seq<Tree>, kids: seq<Tree>)
    requires KidsUnambiguous(bk, kids)
    requires forall y :: y in NamesOf(kids) ==> KidNamed(bk', y) == KidNamed(bk, y)
    ensures KidsUnambiguous(bk', kids)
    decreases kids
  {
    hide Unambiguous, KidNamed;
    if kids != [] {
      UnambiguousFrame(bk, bk', kids[1..]);
    }
  }

  /** The subnodes of a merged node, by name. */
  lemma {:induction false} MergeKidsLookup(b: Tree, kids: seq<Tree>, y: Bytes)
    requires ClearNames(NamesOf(b.kids) + NamesOf(kids)) && KidsUnambiguous(b.kids, kids)
    ensures KidNamed(MergeKids(b, kids).kids, y) ==
            match KidNamed(kids, y)
            case Some(k) => Some(Merge(BaseKid(b.kids, y), k))
            case None => KidNamed(b.kids, y)
    decreases kids
  {
    hide Merge, MergeKid, ClearNames, Unambiguous;
    if kids != [] {
      var k, b' := kids[0], MergeKid(b, kids[0]);
      var names := NamesOf(b.kids) + NamesOf(kids);
      forall z | z == y || z in NamesOf(kids[1..])
        ensures KidNamed(b'.kids, z) ==
                if z == k.name then Some(Merge(BaseKid(b.kids, k.name), k)) else KidNamed(b.kids, z)
      {
        MergeKidLookup(b, k, z, names);
      }
      MergeKidLookup(b, k, y, names);
      assert NamesOf(b'.kids) + NamesOf(kids[1..]) == names;
      UnambiguousFrame(b.kids, b'.kids, kids[1..]);
      MergeKidsLookup(b', kids[1..], y);
      NamedIn(kids[1..], k.name);
    }
  }

  lemma {:induction false} KidsPairs(bk: seq<Tree>, kids: seq<Tree>, y: Bytes)
    requires KidsUnambiguous(bk, kids) && KidNamed(kids, y).Some?
    ensures Unambiguous(BaseKid(bk, y), KidNamed(kids, y).value)
    decreases kids
  {
    hide Unambiguous;
    if kids[0].name != y {
      KidsPairs(bk, kids[1..], y);
    }
  }

  lemma EmptyHasNothing(name: Bytes, path: seq<Bytes>, x: Bytes)
    ensures ValueAt(Tree(name, [], []), path, x) == None
    ensures path != [] ==> NodeNamed(Tree(name, [], []), path) == None
  {
  }

  /**
   Deep merge: at every path the merged tree has the overlay's last value of a property if the
   overlay has one there and the base's otherwise, and it has a node wherever either has one.
   */
  lemma {:induction false} MergeIsDeep(b: Tree, o: Tree, path: seq<Bytes>, x: Bytes)
    requires Unambiguous(b, o)
    ensures ValueAt(Merge(b, o), path, x) ==
            if LastAt(o, path, x).Some? then LastAt(o, path, x) else ValueAt(b, path, x)
    ensures NodeNamed(Merge(b, o), path).Some? <==> NodeNamed(b, path).Some? || NodeNamed(o, path).Some?
    decreases |path|
  {
    hide Merge, MergeKids, SetAll, PropOf, KidNamed, ClearNames, KidsUnambiguous, LastNamed;
    MergeName(b, o);
    if path == [] {
      SetAllLookup(b, o.props, x);
      SamePropOf(Merge(b, o), SetAll(b, o.props), x);
    } else {
      SetAllKeeps(b, o.props);
      MergeKidNamed(b, o, path[0]);
      if KidNamed(o.kids, path[0]).Some? {
        var k, c := KidNamed(o.kids, path[0]).value, BaseKid(b.kids, path[0]);
        KidsPairs(b.kids, o.kids, path[0]);
        MergeIsDeep(c, k, path[1..], x);
        if KidNamed(b.kids, path[0]).None? {
          EmptyHasNothing(path[0], path[1..], x);
        }
      }
    }
  }

  /** What the merge takes over is what a lookup in the overlay finds, unless a node gives one property two values. */
  lemma LookupIsLast(o: Tree, path: seq<Bytes>, x: Bytes)
    requires NodeNamed(o, path).Some? ==> DistinctNames(NodeNamed(o, path).value.props)
    ensures LastAt(o, path, x) == ValueAt(o, path, x)
  {
    hide NodeNamed, LastNamed;
    if NodeNamed(o, path).Some? {
      PropOfIs(NodeNamed(o, path).value, x);
      LastIsFirst(NodeNamed(o, path).value.props, x);
    }
  }

  /** With two values of one property the merged tree has the second, and a lookup in the overlay finds the first. */
  lemma TwoValues(b: Tree, name: Bytes, x: Bytes, v: Bytes, w: Bytes)
    ensures var o := Tree(name, [(x, v), (x, w)], []);
            ValueAt(o, [], x) == Some(v) && ValueAt(Merge(b, o), [], x) == Some(w)
  {
    hide SetAll, PropOf, LastNamed;
    var o := Tree(name, [(x, v), (x, w)], []);
    MergeName(b, o);
    SetAllLookup(b, o.props, x);
    SamePropOf(Merge(b, o), SetAll(b, o.props), x);
    PropOfIs(o, x);
    LastNamedStep(o.props, x);
    LastNamedStep([(x, w)], x);
    assert o.props[1..] == [(x, w)] && [(x, w)][1..] == [];
    LastNamedNone(x);
  }

  lemma SamePropOf(t: Tree, u: Tree, x: Bytes)
    requires t.props == u.props
    ensures PropOf(t, x) == PropOf(u, x)
  {
  }

  lemma PropOfIs(t: Tree, x: Bytes)
    ensures var f := FirstNamed(t.props, x);
            PropOf(t, x) == if f < |t.props| then Some(t.props[f].1) else None
  {
  }

  lemma MergeKidNamed(b: Tree, o: Tree, y: Bytes)
    requires Unambiguous(b, o)
    ensures KidNamed(Merge(b, o).kids, y) ==
            match KidNamed(o.kids, y)
            case Some(k) => Some(Merge(BaseKid(b.kids, y), k))
            case None => KidNamed(b.kids, y)
  {
    hide KidNamed, ClearNames, KidsUnambiguous;
    SetAllKeeps(b, o.props);
    MergeKidsLookup(SetAll(b, o.props), o.kids, y);
  }
}
