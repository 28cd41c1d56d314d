/** overlay_update_local_node_references: the words that the fixup nodes list, raised in place. */
module FdtReference {
  import opened Common
  import opened FdtBytes
  import opened FdtTokens
  import opened FdtTree
  import opened FdtScan
  import opened FdtVisit
  import opened FdtNodes
  import opened FdtProps
  import opened FdtEdit
  import opened FdtView
  import opened FdtDecode
  import opened FdtSplice
  import opened FdtOps
  import opened FdtBlob
  import opened FdtMeaning
  import opened FdtMerge
  import opened FdtIter
  import opened FdtOverlay
  import opened FdtTour
  import opened FdtInPlace
  import opened FdtRenumber
  import opened FdtFixup
  import opened FdtPhandle

  // ---- one property ----

  lemma {:induction false} PlaceAt(v: Bytes, i: nat)
    requires i < |v| / 4
    ensures 4 * i + 4 <= |v| && Places(v)[i] == ReadWord(v, 4 * i)
    decreases i
  {
    hide ReadWord;
    if i > 0 {
      PlaceAt(v[4..], i - 1);
      DropRead(v, 4 * (i - 1));
    }
  }

  lemma DropRead(v: Bytes, o: nat)
    requires o + 8 <= |v|
    ensures ReadWord(v[4..], o) == ReadWord(v, o + 4)
  {
  }

  /** The words at the first `i` places have been raised. */
  ghost predicate Raising(t: Tree, u: Tree, name: Bytes, places: seq<u32>, i: nat, delta: u32) {
    i <= |places| && PropOf(t, name).Some? &&
    var (err, v) := FixWords(PropOf(t, name).value, places[..i], delta);
    err == 0 && u == SetProp(t, name, v) && PropOf(u, name) == Some(v)
  }

  lemma SetSame(t: Tree, name: Bytes)
    requires PropOf(t, name).Some?
    ensures SetProp(t, name, PropOf(t, name).value) == t
  {
    var i := FirstNamed(t.props, name);
    assert t.props[i := (name, t.props[i].1)] == t.props;
  }

  lemma SetTwice(t: Tree, name: Bytes, a: Bytes, b: Bytes)
    requires PropOf(t, name).Some?
    ensures SetProp(SetProp(t, name, a), name, b) == SetProp(t, name, b) && PropOf(SetProp(t, name, b), name) == Some(b)
  {
    SetPropLookup(t, name, b, name);
    var i := FirstNamed(t.props, name);
    UpdateLookup(t.props, i, name, a, name);
  }

  lemma RaisingStart(t: Tree, name: Bytes, places: seq<u32>, delta: u32)
    requires PropOf(t, name).Some?
    ensures Raising(t, t, name, places, 0, delta)
  {
    hide PropOf, SetProp;
    assert places[..0] == [];
    SetSame(t, name);
  }

  lemma RaisingStep(t: Tree, u: Tree, name: Bytes, places: seq<u32>, i: nat, delta: u32)
    requires Raising(t, u, name, places, i, delta) && i < |places|
    ensures PropOf(u, name).Some? && PropOf(t, name).Some?
    ensures var v := PropOf(u, name).value;
            if PlaceRefused(v, places[i])
            then FixWords(PropOf(t, name).value, places, delta) == (-FDT_ERR_BADOVERLAY, v) && u == SetProp(t, name, v)
            else Raising(t, SetProp(u, name, FixWord(v, places[i], delta)), name, places, i + 1, delta)
  {
    hide PropOf, SetProp, FixWords, FixWord, PlaceRefused;
    var w, v := PropOf(t, name).value, PropOf(u, name).value;
    assert places[..i + 1] == places[..i] + [places[i]] && places == places[..i] + places[i..];
    FixWordsSplit(w, places[..i], [places[i]], delta);
    FixWordsSplit(w, places[..i], places[i..], delta);
    FixWordsStep(v, places[i..], delta);
    FixWordsStep(v, [places[i]], delta);
    assert [places[i]][1..] == [];
    if !PlaceRefused(v, places[i]) {
      var v' := FixWord(v, places[i], delta);
      SetTwice(t, name, v, v');
      FixWordsNone(v', delta);
    }
  }

  lemma FixWordsStep(v: Bytes, places: seq<u32>, delta: u32)
    requires places != []
    ensures FixWords(v, places, delta) ==
            if PlaceRefused(v, places[0]) then (-FDT_ERR_BADOVERLAY, v)
            else FixWords(FixWord(v, places[0], delta), places[1..], delta)
  {
    hide FixWord, PlaceRefused;
  }

  lemma FixWordsNone(v: Bytes, delta: u32)
    ensures FixWords(v, [], delta) == (0, v)
  {
  }

  lemma RaisingEnd(t: Tree, u: Tree, name: Bytes, fixup: Bytes, i: nat, delta: u32)
    requires Raising(t, u, name, Places(fixup), i, delta) && i >= |Places(fixup)| && |fixup| % 4 == 0
    ensures FixProp(t, name, fixup, delta) == (0, u)
  {
    hide PropOf, SetProp, FixWords, Places;
    assert Places(fixup)[..i] == Places(fixup);
  }

  lemma RaisingFails(t: Tree, u: Tree, name: Bytes, fixup: Bytes, delta: u32)
    requires PropOf(t, name).Some? && PropOf(u, name).Some? && |fixup| % 4 == 0
    requires FixWords(PropOf(t, name).value, Places(fixup), delta) == (-FDT_ERR_BADOVERLAY, PropOf(u, name).value)
    requires u == SetProp(t, name, PropOf(u, name).value)
    ensures FixProp(t, name, fixup, delta) == (-FDT_ERR_BADOVERLAY, u)
  {
    hide PropOf, SetProp, FixWords, Places;
  }

  lemma FixPropBad(t: Tree, name: Bytes, fixup: Bytes, delta: u32)
    ensures |fixup| % 4 != 0 || PropOf(t, name) == None ==> FixProp(t, name, fixup, delta) == (-FDT_ERR_BADOVERLAY, t)
  {
    hide PropOf, SetProp, FixWords, Places;
  }

  /** One word of the property raised; what a place outside the value holds is not read. */
  method FixOneWord(b: Blob, tree: nat, name: Bytes, poffset: u32, delta: u32, ghost p: Path) returns (err: int)
    requires b.Valid() && ValidPath(b.root, p) && tree == NodeOff(b.root, p) && PropOf(Meaning(b, p), name).Some?
    modifies b`root, b.buf
    ensures b.Valid() && b.Strings() == old(b.Strings()) && b.Reserve() == old(b.Reserve())
    ensures OwnEdit(old(b.root), b.root, p) && ValidPath(b.root, p)
    ensures var v := old(PropOf(Meaning(b, p), name).value);
            if PlaceRefused(v, poffset) then err == -FDT_ERR_BADOVERLAY && Meaning(b, p) == old(Meaning(b, p))
            else err == 0 && Meaning(b, p) == SetProp(old(Meaning(b, p)), name, FixWord(v, poffset, delta))
  {
    hide *;
    BlobFacts(b);
    OwnSelf(b.root, p);
    var prop, len := GetProp(b, tree, name, p);
    ValueHere(b, p, name, prop, len);
    var adjusted: u32 := 0;
    if poffset + 4 <= len {
      WordInside(b.Struct(), prop + 12, prop + 12 + len, poffset);
      adjusted := Wrap32(ReadWord(b.buf[b.offStruct..b.offStruct + b.sizeStruct], prop + 12 + poffset) + delta);
    }
    FixWordIs(PropOf(Meaning(b, p), name).value, poffset, delta);
    SetSame(Meaning(b, p), name);
    PhandleCodes();
    err := SetWord(b, tree, name, poffset, adjusted, p);
    if err == -FDT_ERR_NOSPACE {
      err := -FDT_ERR_BADOVERLAY;
    }
  }

  lemma FixWordIs(v: Bytes, off: u32, delta: u32)
    ensures FixWord(v, off, delta) == if off + 4 <= |v| then WithWord(v, off, Wrap32(ReadWord(v, off) + delta)) else v
  {
    hide ReadWord, Word, Wrap32;
  }

  /** One property of a fixup node, its words applied to the property of that name of the tree node. */
  method FixProperty(b: Blob, tree: nat, name: Bytes, fixup: Bytes, delta: u32, ghost p: Path) returns (err: int)
    requires b.Valid() && ValidPath(b.root, p) && tree == NodeOff(b.root, p)
    modifies b`root, b.buf
    ensures b.Valid() && b.Strings() == old(b.Strings()) && b.Reserve() == old(b.Reserve())
    ensures OwnEdit(old(b.root), b.root, p) && ValidPath(b.root, p)
    ensures (err, Meaning(b, p)) == FixProp(old(Meaning(b, p)), name, fixup, delta)
  {
    hide *;
    BlobFacts(b);
    PhandleCodes();
    ghost var n, t := b.root, Meaning(b, p);
    OwnSelf(n, p);
    FixPropBad(t, name, fixup, delta);
    if |fixup| % 4 != 0 {
      return -FDT_ERR_BADOVERLAY;
    }
    var prop, len := GetProp(b, tree, name, p);
    if prop < 0 {
      return -FDT_ERR_BADOVERLAY;
    }
    ValueHere(b, p, name, prop, len);
    ghost var places := Places(fixup);
    RaisingStart(t, name, places, delta);
    var i := 0;
    while i < |fixup| / 4
      invariant b.Valid() && b.Strings() == old(b.Strings()) && b.Reserve() == old(b.Reserve())
      invariant OwnEdit(n, b.root, p) && ValidPath(b.root, p)
      invariant Raising(t, Meaning(b, p), name, places, i, delta)
    {
      ghost var n1, u := b.root, Meaning(b, p);
      OwnFacts(n, n1, p);
      PlaceAt(fixup, i);
      RaisingStep(t, u, name, places, i, delta);
      err := FixOneWord(b, tree, name, ReadWord(fixup, 4 * i), delta, p);
      OwnTrans(n, n1, b.root, p);
      if err != 0 {
        RaisingFails(t, u, name, fixup, delta);
        return;
      }
      i := i + 1;
    }
    RaisingEnd(t, Meaning(b, p), name, fixup, i, delta);
    err := 0;
  }

  // ---- tree nodes and fixup nodes ----

  /** Neither node lies below the other. */
  ghost predicate Diverge(p: Path, f: Path) {
    p != [] && f != [] && (p[0] != f[0] || Diverge(p[1..], f[1..]))
  }

  /** The fixup node is a subnode of the tree node. */
  predicate Own(p: Path, f: Path) {
    |f| == |p| + 1 && f[..|p|] == p
  }

  /** How a tree node and the fixup node for it lie: as at the root, or apart. */
  ghost predicate Fixes(p: Path, f: Path) {
    Own(p, f) || Diverge(p, f)
  }

  lemma {:induction false} DivergeBelow(p: Path, f: Path, i: nat, j: nat)
    requires Diverge(p, f)
    ensures Diverge(p + [i], f + [j])
    decreases |p|
  {
    if p[0] == f[0] {
      assert (p + [i])[1..] == p[1..] + [i] && (f + [j])[1..] == f[1..] + [j];
      DivergeBelow(p[1..], f[1..], i, j);
    }
  }

  lemma OwnTail(p: Path, f: Path)
    requires Own(p, f) && p != []
    ensures p[0] == f[0] && Own(p[1..], f[1..])
  {
    assert f[0] == f[..|p|][0] && f[1..][..|p| - 1] == f[..|p|][1..];
  }

  lemma {:induction false} DivergeNotOwn(p: Path, f: Path)
    requires Diverge(p, f)
    ensures !Own(p, f)
    decreases |p|
  {
    hide Own;
    if Own(p, f) {
      OwnTail(p, f);
      DivergeNotOwn(p[1..], f[1..]);
    }
  }

  lemma OwnLength(p: Path, f: Path)
    ensures Own(p, f) ==> |f| == |p| + 1
  {
  }

  lemma {:induction false} OwnDiverges(p: Path, f: Path, i: nat, j: nat)
    requires Own(p, f) && i != f[|p|]
    ensures Diverge(p + [i], f + [j])
    decreases |p|
  {
    if p == [] {
      assert (p + [i])[0] == i && (f + [j])[0] == f[0];
    } else {
      OwnTail(p, f);
      assert (p + [i])[1..] == p[1..] + [i] && (f + [j])[1..] == f[1..] + [j];
      OwnDiverges(p[1..], f[1..], i, j);
    }
  }

  /** The nodes that the recursion goes on with lie in one of these ways again. */
  lemma FixesBelow(p: Path, f: Path, i: nat, j: nat)
    requires Fixes(p, f)
    ensures Fixes(p + [i], f + [j])
    ensures Own(p, f) && i == f[|p|] ==> p + [i] == f && Own(p + [i], f + [j])
    ensures !(Own(p, f) && i == f[|p|]) ==> !Own(p + [i], f + [j])
  {
    hide Diverge;
    if Own(p, f) && i == f[|p|] {
      assert f == f[..|p|] + [i] && (f + [j])[..|f|] == f;
    } else {
      if Own(p, f) {
        OwnDiverges(p, f, i, j);
      } else {
        DivergeBelow(p, f, i, j);
      }
      DivergeNotOwn(p + [i], f + [j]);
    }
  }

  /** The node at `f` is the same, with all below it. */
  ghost predicate Keeps(n: Node, n': Node, f: Path) {
    ValidPath(n, f) && ValidPath(n', f) && At(n', f) == At(n, f)
  }

  lemma {:induction false} PutDiverge(n: Node, p: Path, m: Node, f: Path)
    requires ValidPath(n, p) && ValidPath(n, f) && Diverge(p, f)
    ensures Keeps(n, Put(n, p, m), f)
    decreases |p|
  {
    var c := n.items[p[0]].node;
    assert Put(n, p, m).items == n.items[p[0] := Child(Put(c, p[1..], m))];
    if p[0] == f[0] {
      PutDiverge(c, p[1..], m, f[1..]);
    }
  }

  lemma WithinDiverges(n: Node, n': Node, p: Path, f: Path)
    requires Within(n, n', p) && ValidPath(n, f) && Diverge(p, f)
    ensures Keeps(n, n', f)
  {
    hide Diverge, Put;
    PutDiverge(n, p, At(n', p), f);
  }

  /** The fixup node as a subnode of the tree node. */
  lemma {:induction false} OwnAt(n: Node, p: Path, f: Path)
    requires Own(p, f) && ValidPath(n, f)
    ensures ValidPath(n, p) && f[|p|] < |At(n, p).items| && At(n, p).items[f[|p|]].Child?
    ensures At(n, f) == At(n, p).items[f[|p|]].node
    decreases |p|
  {
    if p == [] {
      assert f[1..] == [];
    } else {
      OwnTail(p, f);
      OwnAt(n.items[p[0]].node, p[1..], f[1..]);
    }
  }

  lemma {:induction false} AtOwn(n: Node, p: Path, f: Path)
    requires Own(p, f) && ValidPath(n, p) && f[|p|] < |At(n, p).items| && At(n, p).items[f[|p|]].Child?
    ensures ValidPath(n, f) && At(n, f) == At(n, p).items[f[|p|]].node
  {
    hide At, ValidPath;
    ChildPath(n, p, f[|p|]);
    assert f == p + [f[|p|]];
  }

  /** An edit of the tree node's own properties leaves the fixup node. */
  lemma OwnKeeps(n: Node, n': Node, p: Path, f: Path)
    requires OwnEdit(n, n', p) && Fixes(p, f) && ValidPath(n, f)
    ensures Keeps(n, n', f)
  {
    hide Steady, Diverge, At, ValidPath;
    if Own(p, f) {
      OwnAt(n, p, f);
      KidItemKept(n, n', p, f[|p|]);
      AtOwn(n', p, f);
    } else {
      hide Within;
      WithinDiverges(n, n', p, f);
    }
  }

  lemma KidItemKept(n: Node, n': Node, p: Path, k: nat)
    requires OwnEdit(n, n', p) && ValidPath(n, p) && k < |At(n, p).items| && At(n, p).items[k].Child?
    ensures ValidPath(n', p) && k < |At(n', p).items| && At(n', p).items[k] == At(n, p).items[k]
  {
    hide InPlace;
  }

  /** The fixup node and the scans over it after an edit elsewhere. */
  lemma FixupStill(n: Node, n': Node, f: Path)
    requires Steady(n, n') && Keeps(n, n', f)
    ensures FixupSame(n, n', f)
  {
    hide WfNode, NodeOff, ItemOff, NextPropIndex, KidOff, Steady;
    SteadyHere(n, n', f);
    forall m
      ensures KidOff(n', f, m) == KidOff(n, f, m)
    {
      KidOffSame(n, n', f, m);
    }
  }

  // ---- the properties of a fixup node ----

  lemma {:induction false} FixPropsSplit(t: Tree, a: seq<(Bytes, Bytes)>, b: seq<(Bytes, Bytes)>, delta: u32)
    requires FixProps(t, a, delta).0 == 0
    ensures FixProps(t, a + b, delta) == FixProps(FixProps(t, a, delta).1, b, delta)
    decreases |a|
  {
    hide FixProp;
    if a == [] {
      assert a + b == b;
    } else {
      assert (a + b)[1..] == a[1..] + b;
      FixPropsSplit(FixProp(t, a[0].0, a[0].1, delta).1, a[1..], b, delta);
    }
  }

  lemma FixPropsOne(t: Tree, name: Bytes, v: Bytes, rest: seq<(Bytes, Bytes)>, delta: u32)
    ensures FixProps(t, [(name, v)] + rest, delta) ==
            var (err, t') := FixProp(t, name, v, delta);
            if err != 0 then (err, t') else FixProps(t', rest, delta)
  {
    hide FixProp;
    assert ([(name, v)] + rest)[1..] == rest;
  }

  /** The properties among the first `j` items of the fixup node have been applied. */
  ghost predicate PropsFixed(t: Tree, u: Tree, c: Node, strs: Bytes, j: nat, delta: u32) {
    j <= |c.items| && FixProps(t, ViewProps(c.items[..j], strs), delta) == (0, u)
  }

  lemma PropsFixedStart(t: Tree, c: Node, strs: Bytes, delta: u32)
    ensures PropsFixed(t, t, c, strs, 0, delta)
  {
    assert c.items[..0] == [];
    ViewNone(strs);
  }

  lemma PropsFixedStep(t: Tree, u: Tree, c: Node, strs: Bytes, j: nat, delta: u32)
    requires Proper(c, strs) && PropsFixed(t, u, c, strs, j, delta) && NextPropIndex(c.items, j) < |c.items|
    ensures var i := NextPropIndex(c.items, j);
            c.items[i].Prop? && GetString(strs, c.items[i].nameoff).Some? &&
            var (err, u') := FixProp(u, GetString(strs, c.items[i].nameoff).value, c.items[i].value, delta);
            if err == 0 then PropsFixed(t, u', c, strs, i + 1, delta)
            else FixProps(t, ViewProps(c.items, strs), delta) == (err, u')
  {
    hide FixProp, FixProps, ViewProps, GetString, NextPropIndex, Proper, ProperItems, PropsFirst;
    ItemsOf(c, strs);
    var i := NextPropIndex(c.items, j);
    NextIsProp(c.items, j);
    PropsUpTo(c.items, j, strs);
    var name, v := GetString(strs, c.items[i].nameoff).value, c.items[i].value;
    var done, rest := ViewProps(c.items[..j], strs), ViewProps(c.items[i + 1..], strs);
    FixPropsSplit(t, done, [(name, v)], delta);
    FixPropsOne(u, name, v, [], delta);
    assert [(name, v)] + [] == [(name, v)];
    FixPropsNone(FixProp(u, name, v, delta).1, delta);
    assert c.items == c.items[..i + 1] + c.items[i + 1..];
    ViewConcat(c.items[..i + 1], c.items[i + 1..], strs);
    assert done + [(name, v)] + rest == done + ([(name, v)] + rest);
    FixPropsSplit(t, done, [(name, v)] + rest, delta);
    FixPropsOne(u, name, v, rest, delta);
  }

  lemma FixPropsNone(t: Tree, delta: u32)
    ensures FixProps(t, [], delta) == (0, t)
  {
  }

  lemma PropsFixedEnd(t: Tree, u: Tree, c: Node, strs: Bytes, j: nat, delta: u32)
    requires Proper(c, strs) && PropsFixed(t, u, c, strs, j, delta) && NextPropIndex(c.items, j) == |c.items|
    ensures FixProps(t, ViewProps(c.items, strs), delta) == (0, u)
  {
    hide FixProps, ViewProps, NextPropIndex, Proper, ProperItems, PropsFirst;
    ItemsOf(c, strs);
    PropsUpTo(c.items, j, strs);
  }

  /** The fixup node and its items are where they were. */
  ghost predicate FixupSame(n: Node, n': Node, f: Path) {
    ValidPath(n, f) && ValidPath(n', f) && At(n', f) == At(n, f) && WfNode(n) && WfNode(n') &&
      NodeOff(n', f) == NodeOff(n, f) &&
    (forall j, property :: PropCursor(n, f, j, property) ==> PropCursor(n', f, j, property)) &&
    forall m :: KidOff(n', f, m) == KidOff(n, f, m)
  }

  lemma FixupScan(n: Node, n': Node, f: Path, j: nat, property: int)
    requires FixupSame(n, n', f) && PropCursor(n, f, j, property)
    ensures ValidPath(n, f) && ValidPath(n', f) && At(n', f) == At(n, f) && PropCursor(n', f, j, property)
  {
    hide PropCursor, KidOff, WfNode, NodeOff, At, ValidPath;
  }

  /** The property of the fixup node at `property`, which is its item `i`. */
  method FixOneProperty(b: Blob, tree: nat, property: nat, delta: u32, ghost p: Path, ghost f: Path, ghost i: nat)
    returns (err: int)
    requires b.Valid() && ValidPath(b.root, p) && tree == NodeOff(b.root, p)
    requires ValidPath(b.root, f) && Fixes(p, f)
    requires i < |At(b.root, f).items| && At(b.root, f).items[i].Prop? && property == ItemOff(b.root, f, i)
    modifies b`root, b.buf
    ensures b.Valid() && b.Strings() == old(b.Strings()) && b.Reserve() == old(b.Reserve())
    ensures OwnEdit(old(b.root), b.root, p) && ValidPath(b.root, p)
    ensures FixupSame(old(b.root), b.root, f)
    ensures var it := old(At(b.root, f)).items[i];
            GetString(b.Strings(), it.nameoff).Some? &&
            (err, Meaning(b, p)) ==
            FixProp(old(Meaning(b, p)), GetString(b.Strings(), it.nameoff).value, it.value, delta)
  {
    hide *;
    BlobFacts(b);
    ghost var n := b.root;
    PropReadOnTree(n, f, i, b.Strings());
    var os := b.buf[b.offStruct..b.offStruct + b.sizeStruct];
    var name := PropName(os, b.buf[b.offStrings..b.offStrings + b.sizeStrings], property).value;
    var value := PropValue(os, property).value;
    err := FixProperty(b, tree, name, value, delta, p);
    OwnKeeps(n, b.root, p, f);
    OwnSteady(n, b.root, p);
    FixupStill(n, b.root, f);
  }

  /** The first loop: every property of the fixup node. */
  method FixProperties(b: Blob, tree: nat, fixup: nat, delta: u32, ghost p: Path, ghost f: Path) returns (err: int)
    requires b.Valid() && ValidPath(b.root, p) && tree == NodeOff(b.root, p)
    requires ValidPath(b.root, f) && fixup == NodeOff(b.root, f) && Fixes(p, f)
    modifies b`root, b.buf
    ensures b.Valid() && b.Strings() == old(b.Strings()) && b.Reserve() == old(b.Reserve())
    ensures OwnEdit(old(b.root), b.root, p) && ValidPath(b.root, p)
    ensures (err, Meaning(b, p)) ==
            FixProps(old(Meaning(b, p)), ViewProps(old(At(b.root, f)).items, b.Strings()), delta)
  {
    hide *;
    BlobFacts(b);
    ghost var n, t, c, strs := b.root, Meaning(b, p), At(b.root, f), b.Strings();
    OwnSelf(n, p);
    ProperAt(n, f, strs);
    PropsFixedStart(t, c, strs, delta);
    CursorStart(n, f);
    var property := FirstProp(b.buf[b.offStruct..b.offStruct + b.sizeStruct], fixup);
    ghost var j := 0;
    while property >= 0
      invariant b.Valid() && b.Strings() == old(b.Strings()) && b.Reserve() == old(b.Reserve())
      invariant OwnEdit(n, b.root, p) && ValidPath(b.root, p)
      invariant ValidPath(b.root, f) && At(b.root, f) == c && PropCursor(b.root, f, j, property)
      invariant PropsFixed(t, Meaning(b, p), c, strs, j, delta)
      decreases |c.items| - j
    {
      ghost var n1, u := b.root, Meaning(b, p);
      OwnFacts(n, n1, p);
      BlobFacts(b);
      CursorStep(n1, f, j, property);
      ghost var i := NextPropIndex(c.items, j);
      PropsFixedStep(t, u, c, strs, j, delta);
      err := FixOneProperty(b, tree, property, delta, p, f, i);
      OwnTrans(n, n1, b.root, p);
      if err != 0 {
        return;
      }
      FixupScan(n1, b.root, f, j, property);
      BlobFacts(b);
      CursorStep(b.root, f, j, property);
      property := NextProp(b.buf[b.offStruct..b.offStruct + b.sizeStruct], property);
      j := i + 1;
    }
    CursorEnd(b.root, f, j, property);
    PropsFixedEnd(t, Meaning(b, p), c, strs, j, delta);
    err := 0;
  }

  lemma OwnSteady(n: Node, n': Node, p: Path)
    requires OwnEdit(n, n', p)
    ensures Steady(n, n')
  {
    hide Steady, Within;
  }

  // ---- the subnodes of a fixup node ----

  lemma {:induction false} FixKidsSplit(t: Tree, a: seq<Tree>, b: seq<Tree>, delta: u32)
    requires FixKids(t, a, delta).0 == 0
    ensures FixKids(t, a + b, delta) == FixKids(FixKids(t, a, delta).1, b, delta)
    decreases a
  {
    hide FixKid;
    if a == [] {
      assert a + b == b;
    } else {
      assert (a + b)[1..] == a[1..] + b;
      FixKidsSplit(FixKid(t, a[0], delta).1, a[1..], b, delta);
    }
  }

  lemma FixKidsOne(t: Tree, k: Tree, rest: seq<Tree>, delta: u32)
    ensures FixKids(t, [k] + rest, delta) ==
            var (err, t') := FixKid(t, k, delta);
            if err != 0 then (err, t') else FixKids(t', rest, delta)
  {
    hide FixKid;
    assert ([k] + rest)[1..] == rest;
  }

  lemma FixKidsNone(t: Tree, delta: u32)
    ensures FixKids(t, [], delta) == (0, t)
  {
  }

  /** The first `m` fixup subnodes have been applied. */
  ghost predicate KidsFixed(t: Tree, u: Tree, kids: seq<Tree>, m: nat, delta: u32) {
    m <= |kids| && FixKids(t, kids[..m], delta) == (0, u)
  }

  lemma KidsFixedStart(t: Tree, kids: seq<Tree>, delta: u32)
    ensures KidsFixed(t, t, kids, 0, delta)
  {
    assert kids[..0] == [];
  }

  lemma KidsFixedStep(t: Tree, u: Tree, kids: seq<Tree>, m: nat, delta: u32)
    requires KidsFixed(t, u, kids, m, delta) && m < |kids|
    ensures var (err, u') := FixKid(u, kids[m], delta);
            if err == 0 then KidsFixed(t, u', kids, m + 1, delta) else FixKids(t, kids, delta) == (err, u')
  {
    hide FixKid, FixKids;
    var a, c, rest := kids[..m], kids[m], kids[m + 1..];
    assert kids[..m + 1] == a + [c] && kids == a + ([c] + rest) && [c] + [] == [c];
    FixKidsSplit(t, a, [c], delta);
    FixKidsSplit(t, a, [c] + rest, delta);
    FixKidsOne(u, c, [], delta);
    FixKidsOne(u, c, rest, delta);
    FixKidsNone(FixKid(u, c, delta).1, delta);
  }

  lemma KidsFixedEnd(t: Tree, u: Tree, kids: seq<Tree>, m: nat, delta: u32)
    requires KidsFixed(t, u, kids, m, delta) && m >= |kids|
    ensures FixKids(t, kids, delta) == (0, u)
  {
    hide FixKids;
    assert kids[..m] == kids;
  }

  lemma MatchIs(items: seq<Item>, name: Bytes)
    ensures var i := MatchIndex(items, name); i < |items| ==> items[i].Child? && NodeNameEq(items[i].node.name, name)
  {
    hide NodeNameEq;
  }

  /** What an edit in place of the matching subnode does to the node's meaning. */
  lemma MatchDone(n: Node, n': Node, strs: Bytes, p: Path, name: Bytes)
    requires WfNode(n) && ValidPath(n, p)
    requires var i := MatchIndex(At(n, p).items, name);
             i < |At(n, p).items| && At(n, p).items[i].Child? && InPlace(n, n', p + [i])
    ensures var i := MatchIndex(At(n, p).items, name);
            var c := MatchTree(View(At(n, p), strs).kids, name);
            InPlace(n, n', p) && ValidPath(n', p) && ValidPath(n, p + [i]) && ValidPath(n', p + [i]) &&
            c < |View(At(n, p), strs).kids| && View(At(n, p), strs).kids[c] == View(At(n, p + [i]), strs) &&
            View(At(n', p), strs) ==
            View(At(n, p), strs).(kids := View(At(n, p), strs).kids[c := View(At(n', p + [i]), strs)])
  {
    hide WfNode, View, Steady, ViewKids, Splice, Within, MatchIndex, MatchTree;
    var i := MatchIndex(At(n, p).items, name);
    InPlaceChild(n, n', p, i);
    ChildPath(n, p, i);
    MatchIndexIsMatchTree(At(n, p).items, strs, name);
    ViewIs(At(n, p), strs);
    KidAt(At(n, p).items, i, strs);
    ViewPutStep(At(n, p), i, At(n', p + [i]), strs);
  }

  lemma FixCases(t: Tree, f: Tree, delta: u32)
    ensures Fix(t, f, delta) ==
            var (err, t1) := FixProps(t, f.props, delta);
            if err != 0 then (err, t1) else FixKids(t1, f.kids, delta)
  {
    hide FixProps, FixKids;
  }

  lemma {:induction false} ViewIndexSame(items: seq<Item>, items': seq<Item>, strs: Bytes, k: nat)
    requires SameKinds(items, items') && k <= |items|
    ensures |ViewKids(items'[..k], strs)| == |ViewKids(items[..k], strs)|
    decreases k
  {
    hide ViewKids, View;
    if k > 0 {
      ViewIndexSame(items, items', strs, k - 1);
      assert items[..k] == items[..k - 1] + [items[k - 1]] && items'[..k] == items'[..k - 1] + [items'[k - 1]];
      ViewConcat(items[..k - 1], [items[k - 1]], strs);
      ViewConcat(items'[..k - 1], [items'[k - 1]], strs);
      ViewOne(items[k - 1], strs);
      ViewOne(items'[k - 1], strs);
    } else {
      assert items[..0] == [] && items'[..0] == [];
    }
  }

  // ---- the recursion ----

  /** Which subnode of the tree node the fixup node is. */
  ghost function KidNo(n: Node, p: Path, f: Path, strs: Bytes): nat
    requires ValidPath(n, f) && Own(p, f)
  {
    OwnAt(n, p, f);
    |ViewKids(At(n, p).items[..f[|p|]], strs)|
  }

  lemma OwnKidIs(n: Node, p: Path, f: Path, strs: Bytes)
    requires ValidPath(n, f) && Own(p, f)
    ensures ValidPath(n, p)
    ensures var kids := View(At(n, p), strs).kids;
            KidNo(n, p, f, strs) < |kids| && kids[KidNo(n, p, f, strs)] == View(At(n, f), strs)
  {
    hide View, ViewKids, At, ValidPath;
    OwnAt(n, p, f);
    ViewIs(At(n, p), strs);
    KidAt(At(n, p).items, f[|p|], strs);
  }

  lemma KidNoSteady(n: Node, n': Node, p: Path, f: Path, strs: Bytes)
    requires Steady(n, n') && ValidPath(n, f) && ValidPath(n', f) && Own(p, f)
    ensures KidNo(n', p, f, strs) == KidNo(n, p, f, strs)
  {
    hide ViewKids, NodeOff, ItemOff, WfNode, Steady, At, ValidPath;
    OwnAt(n, p, f);
    OwnAt(n', p, f);
    SteadyHere(n, n', p);
    ViewIndexSame(At(n, p).items, At(n', p).items, strs, f[|p|]);
  }

  lemma KidNosDiffer(items: seq<Item>, i: nat, k: nat, strs: Bytes)
    requires i < |items| && k < |items| && i != k && items[i].Child? && items[k].Child?
    ensures |ViewKids(items[..i], strs)| != |ViewKids(items[..k], strs)|
  {
    hide ViewKids, View;
    if i < k {
      KidAt(items[..k], i, strs);
      assert items[..k][..i] == items[..i];
    } else {
      KidAt(items[..i], k, strs);
      assert items[..i][..k] == items[..k];
    }
  }

  /** What updating the references of the tree node at `p` by the fixup node at `f` has done. */
  ghost predicate Updated(n: Node, n': Node, strs: Bytes, p: Path, f: Path, g: Tree, err: int, delta: u32) {
    InPlace(n, n', p) && ValidPath(n, p) && ValidPath(n', p) && ValidPath(n, f) &&
    var t, u := View(At(n, p), strs), View(At(n', p), strs);
    if Own(p, f) then (err, u) == FixOwn(t, KidNo(n, p, f, strs), g, delta)
    else Keeps(n, n', f) && (err, u) == Fix(t, View(At(n, f), strs), delta)
  }

  /** The same for the subnodes of the fixup node alone. */
  ghost predicate Looped(n: Node, n': Node, strs: Bytes, p: Path, f: Path, g: Tree, err: int, delta: u32) {
    InPlace(n, n', p) && ValidPath(n, p) && ValidPath(n', p) && ValidPath(n, f) &&
    var t, u := View(At(n, p), strs), View(At(n', p), strs);
    if Own(p, f) then (err, u) == FixOwnKids(t, KidNo(n, p, f, strs), 0, g.kids, delta)
    else Keeps(n, n', f) && (err, u) == FixKids(t, View(At(n, f), strs).kids, delta)
  }

  /** For one of them. */
  ghost predicate ChildFixed(n: Node, n': Node, strs: Bytes, p: Path, f: Path, m: nat, h: Tree, err: int, delta: u32) {
    InPlace(n, n', p) && ValidPath(n, p) && ValidPath(n', p) && ValidPath(n, f) && m < |View(At(n, f), strs).kids| &&
    var t, u := View(At(n, p), strs), View(At(n', p), strs);
    if Own(p, f) then (err, u) == FixOwnKid(t, KidNo(n, p, f, strs), m, h, delta)
    else Keeps(n, n', f) && (err, u) == FixKid(t, View(At(n, f), strs).kids[m], delta)
  }

  /** For the first `m`. */
  ghost predicate Looping(n: Node, n': Node, strs: Bytes, p: Path, f: Path, g: Tree, m: nat, delta: u32) {
    InPlace(n, n', p) && ValidPath(n, p) && ValidPath(n', p) && ValidPath(n, f) && ValidPath(n', f) &&
    SameNames(g, View(At(n', f), strs)) && m <= |g.kids| &&
    var t, u := View(At(n, p), strs), View(At(n', p), strs);
    if Own(p, f) then
      var j := KidNo(n, p, f, strs);
      j < |u.kids| && u.kids[j] == View(At(n', f), strs) && KidNo(n', p, f, strs) == j &&
      FixOwnKids(t, j, 0, g.kids, delta) == FixOwnKids(u, j, m, g.kids[m..], delta)
    else Keeps(n, n', f) && KidsFixed(t, u, View(At(n, f), strs).kids, m, delta)
  }

  lemma LoopStart(n: Node, strs: Bytes, p: Path, f: Path, g: Tree, delta: u32)
    requires WfNode(n) && ValidPath(n, p) && ValidPath(n, f) && SameNames(g, View(At(n, f), strs))
    ensures Looping(n, n, strs, p, f, g, 0, delta)
  {
    hide WfNode, View, At, ValidPath, InPlace, SameNames, FixOwnKids, KidsFixed, KidNo;
    InPlaceSelf(n, p);
    if Own(p, f) {
      OwnKidIs(n, p, f, strs);
      assert g.kids[0..] == g.kids;
    } else {
      KidsFixedStart(View(At(n, p), strs), View(At(n, f), strs).kids, delta);
    }
  }

  lemma LoopStep(n: Node, n1: Node, n2: Node, strs: Bytes, p: Path, f: Path, g: Tree, m: nat, err: int, delta: u32)
    requires Looping(n, n1, strs, p, f, g, m, delta) && m < |g.kids| && Fixes(p, f)
    requires ChildFixed(n1, n2, strs, p, f, m, g.kids[m], err, delta)
    ensures err == 0 ==> Looping(n, n2, strs, p, f, g, m + 1, delta)
    ensures err != 0 ==> Looped(n, n2, strs, p, f, g, err, delta)
  {
    hide *;
    LoopPlaces(n, n1, n2, strs, p, f, g, m, err, delta);
    if Own(p, f) {
      OwnStep(n, n1, n2, strs, p, f, g, m, err, delta);
    } else {
      ApartStep(n, n1, n2, strs, p, f, g, m, err, delta);
    }
  }

  lemma LoopPlaces(n: Node, n1: Node, n2: Node, strs: Bytes, p: Path, f: Path, g: Tree, m: nat, err: int, delta: u32)
    requires Looping(n, n1, strs, p, f, g, m, delta) && m < |g.kids|
    requires ChildFixed(n1, n2, strs, p, f, m, g.kids[m], err, delta)
    ensures InPlace(n, n2, p) && InPlace(n1, n2, p) && InPlace(n, n1, p)
  {
    hide WfNode, View, At, ValidPath, InPlace, SameNames, FixOwnKids, FixOwnKid, KidsFixed, FixKid, KidNo, Keeps;
    InPlaceTrans(n, n1, n2, p);
  }

  lemma OwnStep(n: Node, n1: Node, n2: Node, strs: Bytes, p: Path, f: Path, g: Tree, m: nat, err: int, delta: u32)
    requires Looping(n, n1, strs, p, f, g, m, delta) && m < |g.kids| && Own(p, f) && InPlace(n, n2, p)
    requires ChildFixed(n1, n2, strs, p, f, m, g.kids[m], err, delta)
    ensures err == 0 ==> Looping(n, n2, strs, p, f, g, m + 1, delta)
    ensures err != 0 ==> Looped(n, n2, strs, p, f, g, err, delta)
  {
    hide WfNode, View, At, ValidPath, InPlace, SameNames, FixOwnKids, FixOwnKid, KidsFixed, FixKid, KidNo, Keeps;
    var j, u, u' := KidNo(n, p, f, strs), View(At(n1, p), strs), View(At(n2, p), strs);
    OwnStays(n1, n2, p, f, strs);
    assert g.kids[m..][0] == g.kids[m] && g.kids[m..][1..] == g.kids[m + 1..];
    FixOwnKidsStep(u, j, m, g.kids[m..], delta);
    FixOwnKidNames(u, j, m, g.kids[m], delta);
    OwnKidIs(n2, p, f, strs);
    NamesAre(u, u');
    NamesTrans(g, u.kids[j], u'.kids[j]);
  }

  lemma OwnStays(n: Node, n': Node, p: Path, f: Path, strs: Bytes)
    requires InPlace(n, n', p) && ValidPath(n, f) && Own(p, f)
    ensures ValidPath(n', f) && KidNo(n', p, f, strs) == KidNo(n, p, f, strs)
  {
    hide Within, Steady, At, ValidPath, KidNo, NodeOff, WfNode, ItemOff;
    SteadyHere(n, n', f);
    KidNoSteady(n, n', p, f, strs);
  }

  lemma FixOwnKidsStep(t: Tree, j: nat, l: nat, rest: seq<Tree>, delta: u32)
    requires rest != []
    ensures FixOwnKids(t, j, l, rest, delta) ==
            var (err, t1) := FixOwnKid(t, j, l, rest[0], delta);
            if err != 0 then (err, t1) else FixOwnKids(t1, j, l + 1, rest[1..], delta)
  {
    hide FixOwnKid;
  }

  lemma FixOwnKidsNone(t: Tree, j: nat, l: nat, delta: u32)
    ensures FixOwnKids(t, j, l, [], delta) == (0, t)
  {
  }

  lemma ApartStep(n: Node, n1: Node, n2: Node, strs: Bytes, p: Path, f: Path, g: Tree, m: nat, err: int, delta: u32)
    requires Looping(n, n1, strs, p, f, g, m, delta) && m < |g.kids| && !Own(p, f) && InPlace(n, n2, p)
    requires ChildFixed(n1, n2, strs, p, f, m, g.kids[m], err, delta)
    ensures err == 0 ==> Looping(n, n2, strs, p, f, g, m + 1, delta)
    ensures err != 0 ==> Looped(n, n2, strs, p, f, g, err, delta)
  {
    hide WfNode, View, At, ValidPath, InPlace, SameNames, FixOwnKids, FixOwnKid, KidsFixed, FixKid, FixKids, KidNo;
    var t, u, kids := View(At(n, p), strs), View(At(n1, p), strs), View(At(n, f), strs).kids;
    KidsFixedStep(t, u, kids, m, delta);
  }

  lemma LoopEnd(n: Node, n': Node, strs: Bytes, p: Path, f: Path, g: Tree, m: nat, delta: u32)
    requires Looping(n, n', strs, p, f, g, m, delta) && |View(At(n', f), strs).kids| <= m
    ensures Looped(n, n', strs, p, f, g, 0, delta)
  {
    hide WfNode, View, At, ValidPath, InPlace, SameNames, FixOwnKids, KidsFixed, FixKids, KidNo;
    NamesAre(g, View(At(n', f), strs));
    if Own(p, f) {
      assert g.kids[m..] == [];
      FixOwnKidsNone(View(At(n', p), strs), KidNo(n, p, f, strs), m, delta);
    } else {
      KidsFixedEnd(View(At(n, p), strs), View(At(n', p), strs), View(At(n, f), strs).kids, m, delta);
    }
  }

  lemma LoopingIs(n: Node, n': Node, strs: Bytes, p: Path, f: Path, g: Tree, m: nat, delta: u32)
    requires Looping(n, n', strs, p, f, g, m, delta)
    ensures InPlace(n, n', p) && ValidPath(n', p) && ValidPath(n', f) && SameNames(g, View(At(n', f), strs)) &&
            m <= |g.kids|
    ensures |View(At(n', f), strs).kids| == |g.kids|
    ensures m < |g.kids| ==> SameNames(g.kids[m], View(At(n', f), strs).kids[m]) && g.kids[m] < g
  {
    hide WfNode, View, At, ValidPath, InPlace, SameNames, FixOwnKids, KidsFixed, KidNo, Keeps;
    NamesAre(g, View(At(n', f), strs));
  }

  /** Properties first, then subnodes. */
  lemma UpdatedParts(n: Node, n1: Node, n2: Node, strs: Bytes, p: Path, f: Path, g: Tree, e: int, err: int, delta: u32)
    requires OwnEdit(n, n1, p) && Fixes(p, f) && ValidPath(n, p) && ValidPath(n1, p) && ValidPath(n, f)
    requires (e, View(At(n1, p), strs)) == FixProps(View(At(n, p), strs), ViewProps(At(n, f).items, strs), delta)
    requires if e != 0 then n2 == n1 && err == e else Looped(n1, n2, strs, p, f, g, err, delta)
    ensures Updated(n, n2, strs, p, f, g, err, delta)
  {
    hide *;
    OwnFacts(n, n1, p);
    ViewParts(At(n, f), strs);
    OwnKeeps(n, n1, p, f);
    KeepsAt(n, n1, f);
    if e == 0 {
      LoopedIs(n1, n2, strs, p, f, g, err, delta);
      InPlaceTrans(n, n1, n2, p);
    }
    var t, t1 := View(At(n, p), strs), View(At(n1, p), strs);
    if Own(p, f) {
      OwnKidIs(n, p, f, strs);
      OwnStays(n, n1, p, f, strs);
      FixOwnCases(t, KidNo(n, p, f, strs), g, delta);
      UpdatedOwn(n, n1, n2, strs, p, f, g, e, err, delta);
    } else {
      FixCases(t, View(At(n, f), strs), delta);
      UpdatedApart(n, n1, n2, strs, p, f, g, e, err, delta);
    }
  }

  lemma KeepsAt(n: Node, n': Node, f: Path)
    requires Keeps(n, n', f)
    ensures ValidPath(n, f) && ValidPath(n', f) && At(n', f) == At(n, f)
  {
    hide At, ValidPath;
  }

  lemma LoopedIs(n: Node, n': Node, strs: Bytes, p: Path, f: Path, g: Tree, err: int, delta: u32)
    requires Looped(n, n', strs, p, f, g, err, delta)
    ensures InPlace(n, n', p) && ValidPath(n', p)
  {
    hide InPlace, ValidPath, At, View, FixOwnKids, FixKids, KidNo, Keeps;
  }

  lemma FixOwnCases(t: Tree, j: nat, g: Tree, delta: u32)
    ensures j < |t.kids| ==>
              FixOwn(t, j, g, delta) ==
              var (err, t1) := FixProps(t, t.kids[j].props, delta);
              if err != 0 then (err, t1) else FixOwnKids(t1, j, 0, g.kids, delta)
  {
    hide FixProps, FixOwnKids;
  }

  lemma UpdatedOwn(n: Node, n1: Node, n2: Node, strs: Bytes, p: Path, f: Path, g: Tree, e: int, err: int, delta: u32)
    requires InPlace(n, n2, p) && ValidPath(n, p) && ValidPath(n1, p) && ValidPath(n2, p) && ValidPath(n, f) &&
             Own(p, f)
    requires ValidPath(n1, f) && KidNo(n1, p, f, strs) == KidNo(n, p, f, strs)
    requires if e != 0 then n2 == n1 && err == e else Looped(n1, n2, strs, p, f, g, err, delta)
    requires FixOwn(View(At(n, p), strs), KidNo(n, p, f, strs), g, delta) ==
             if e != 0 then (e, View(At(n1, p), strs))
             else FixOwnKids(View(At(n1, p), strs), KidNo(n, p, f, strs), 0, g.kids, delta)
    ensures Updated(n, n2, strs, p, f, g, err, delta)
  {
    hide InPlace, ValidPath, At, View, FixOwnKids, FixOwn, FixKids, KidNo, Keeps;
  }

  lemma UpdatedApart(n: Node, n1: Node, n2: Node, strs: Bytes, p: Path, f: Path, g: Tree, e: int, err: int, delta: u32)
    requires InPlace(n, n2, p) && ValidPath(n, p) && ValidPath(n1, p) && ValidPath(n2, p) && !Own(p, f)
    requires Keeps(n, n1, f) && ValidPath(n, f) && ValidPath(n1, f) && At(n1, f) == At(n, f)
    requires if e != 0 then n2 == n1 && err == e else Looped(n1, n2, strs, p, f, g, err, delta)
    requires Fix(View(At(n, p), strs), View(At(n, f), strs), delta) ==
             if e != 0 then (e, View(At(n1, p), strs))
             else FixKids(View(At(n1, p), strs), View(At(n, f), strs).kids, delta)
    ensures Updated(n, n2, strs, p, f, g, err, delta)
  {
    hide InPlace, ValidPath, At, View, FixOwnKids, Fix, FixKids, KidNo;
  }

  // ---- one subnode of the fixup node ----

  lemma FixOwnKidCases(t: Tree, j: nat, l: nat, h: Tree, delta: u32)
    requires j < |t.kids| && l < |t.kids[j].kids|
    ensures FixOwnKid(t, j, l, h, delta) ==
            var i := MatchTree(t.kids, h.name);
            if i >= |t.kids| then (-FDT_ERR_BADOVERLAY, t)
            else if i == j then
              var (err, u) := FixOwn(t.kids[j], l, h, delta);
              (err, t.(kids := t.kids[j := u]))
            else
              var (err, u) := Fix(t.kids[i], t.kids[j].kids[l], delta);
              (err, t.(kids := t.kids[i := u]))
  {
    hide Fix, FixOwn, MatchTree;
  }

  lemma FixKidCases(t: Tree, k: Tree, delta: u32)
    ensures FixKid(t, k, delta) ==
            var i := MatchTree(t.kids, k.name);
            if i >= |t.kids| then (-FDT_ERR_BADOVERLAY, t)
            else
              var (err, u) := Fix(t.kids[i], k, delta);
              (err, t.(kids := t.kids[i := u]))
  {
    hide Fix, MatchTree;
  }

  /** No subnode of the tree node has the name. */
  lemma ChildMissing(n: Node, strs: Bytes, p: Path, f: Path, m: nat, h: Tree, delta: u32)
    requires WfNode(n) && ValidPath(n, p) && ValidPath(n, f) && Fixes(p, f) && m < |View(At(n, f), strs).kids|
    requires View(At(n, f), strs).kids[m].name == h.name && MatchIndex(At(n, p).items, h.name) >= |At(n, p).items|
    ensures ChildFixed(n, n, strs, p, f, m, h, -FDT_ERR_BADOVERLAY, delta)
  {
    hide WfNode, View, At, ValidPath, InPlace, KidNo, MatchTree, MatchIndex, ViewKids, FixOwnKid, FixKid, Diverge;
    InPlaceSelf(n, p);
    var t := View(At(n, p), strs);
    MatchIndexIsMatchTree(At(n, p).items, strs, h.name);
    ViewIs(At(n, p), strs);
    if Own(p, f) {
      OwnKidIs(n, p, f, strs);
      FixOwnKidCases(t, KidNo(n, p, f, strs), m, h, delta);
    } else {
      FixKidCases(t, View(At(n, f), strs).kids[m], delta);
    }
  }

  /** The first one that has it, at item `i`, has been updated by the subnode of the fixup node at item `j`. */
  lemma ChildUpdated(n: Node, n': Node, strs: Bytes, p: Path, f: Path, i: nat, j: nat, m: nat, h: Tree, err: int,
                     delta: u32)
    requires WfNode(n) && ValidPath(n, p) && ValidPath(n, f) && Fixes(p, f) && m < |View(At(n, f), strs).kids|
    requires View(At(n, f), strs).kids[m].name == h.name
    requires i == MatchIndex(At(n, p).items, h.name) < |At(n, p).items| && At(n, p).items[i].Child?
    requires j == KidItem(At(n, f).items, m) && j < |At(n, f).items| && At(n, f).items[j].Child?
    requires Updated(n, n', strs, p + [i], f + [j], h, err, delta)
    ensures ChildFixed(n, n', strs, p, f, m, h, err, delta)
  {
    hide *;
    UpdatedIs(n, n', strs, p + [i], f + [j], h, err, delta);
    MatchDone(n, n', strs, p, h.name);
    OwnLength(p, f);
    FixesBelow(p, f, i, j);
    FixupKid(n, strs, f, j, m);
    var t, c := View(At(n, p), strs), MatchTree(View(At(n, p), strs).kids, h.name);
    if Own(p, f) {
      OwnKidIs(n, p, f, strs);
      FixOwnKidCases(t, KidNo(n, p, f, strs), m, h, delta);
      MatchIsOwn(n, strs, p, f, i, h.name);
      if i == f[|p|] {
        BelowItself(n, n', strs, p, f, i, j, m, h, err, delta);
      } else {
        BelowApart(n, n', strs, p, f, i, j, h, err, delta);
      }
      ChildFixedOwn(n, n', strs, p, f, m, h, err, delta);
    } else {
      BelowApart(n, n', strs, p, f, i, j, h, err, delta);
      FixKidCases(t, View(At(n, f), strs).kids[m], delta);
      InPlaceWithin(n, n', p);
      FixesApart(p, f);
      WithinDiverges(n, n', p, f);
      ChildFixedApart(n, n', strs, p, f, m, h, err, delta);
    }
  }

  lemma FixesApart(p: Path, f: Path)
    requires Fixes(p, f) && !Own(p, f)
    ensures Diverge(p, f)
  {
    hide Diverge;
  }

  lemma InPlaceWithin(n: Node, n': Node, p: Path)
    requires InPlace(n, n', p)
    ensures Within(n, n', p)
  {
    hide Within, Steady;
  }

  lemma UpdatedIs(n: Node, n': Node, strs: Bytes, p: Path, f: Path, g: Tree, err: int, delta: u32)
    requires Updated(n, n', strs, p, f, g, err, delta)
    ensures InPlace(n, n', p) && ValidPath(n, p) && ValidPath(n', p) && ValidPath(n, f)
  {
    hide InPlace, ValidPath, At, View, FixOwn, Fix, KidNo, Keeps;
  }

  lemma FixupKid(n: Node, strs: Bytes, f: Path, j: nat, m: nat)
    requires ValidPath(n, f) && ValidPath(n, f + [j]) && j == KidItem(At(n, f).items, m) &&
             m < |View(At(n, f), strs).kids|
    ensures View(At(n, f + [j]), strs) == View(At(n, f), strs).kids[m]
    ensures Own(f, f + [j]) && KidNo(n, f, f + [j], strs) == m
  {
    hide View, ViewKids, At, ValidPath, KidItem, Kids, FlatItems;
    KidItemFacts(At(n, f).items, 0, m, strs);
    ViewIs(At(n, f), strs);
    OwnSelfPath(f, j);
    OwnAt(n, f, f + [j]);
  }

  lemma OwnSelfPath(f: Path, j: nat)
    ensures Own(f, f + [j]) && (f + [j])[|f|] == j
  {
  }

  lemma MatchIsOwn(n: Node, strs: Bytes, p: Path, f: Path, i: nat, name: Bytes)
    requires ValidPath(n, p) && ValidPath(n, f) && Own(p, f) && i == MatchIndex(At(n, p).items, name) < |At(n, p).items|
    ensures MatchTree(View(At(n, p), strs).kids, name) == KidNo(n, p, f, strs) <==> i == f[|p|]
  {
    hide View, ViewKids, At, ValidPath, MatchIndex, MatchTree;
    MatchIndexIsMatchTree(At(n, p).items, strs, name);
    MatchIs(At(n, p).items, name);
    ViewIs(At(n, p), strs);
    OwnAt(n, p, f);
    if i != f[|p|] {
      KidNosDiffer(At(n, p).items, i, f[|p|], strs);
    }
  }

  lemma BelowItself(n: Node, n': Node, strs: Bytes, p: Path, f: Path, i: nat, j: nat, m: nat, h: Tree, err: int,
                    delta: u32)
    requires Updated(n, n', strs, p + [i], f + [j], h, err, delta) && p + [i] == f && Own(p + [i], f + [j])
    requires ValidPath(n, f) && ValidPath(n, f + [j]) && Own(f, f + [j]) && KidNo(n, f, f + [j], strs) == m
    ensures ValidPath(n', p + [i]) && ValidPath(n, p + [i])
    ensures (err, View(At(n', p + [i]), strs)) == FixOwn(View(At(n, f), strs), m, h, delta)
  {
    hide InPlace, ValidPath, At, View, FixOwn, Fix, KidNo, Keeps;
  }

  lemma BelowApart(n: Node, n': Node, strs: Bytes, p: Path, f: Path, i: nat, j: nat, h: Tree, err: int, delta: u32)
    requires Updated(n, n', strs, p + [i], f + [j], h, err, delta) && !Own(p + [i], f + [j])
    ensures ValidPath(n', p + [i]) && ValidPath(n, p + [i]) && ValidPath(n, f + [j])
    ensures (err, View(At(n', p + [i]), strs)) == Fix(View(At(n, p + [i]), strs), View(At(n, f + [j]), strs), delta)
  {
    hide InPlace, ValidPath, At, View, FixOwn, Fix, KidNo, Keeps;
  }

  lemma ChildFixedOwn(n: Node, n': Node, strs: Bytes, p: Path, f: Path, m: nat, h: Tree, err: int, delta: u32)
    requires InPlace(n, n', p) && ValidPath(n, p) && ValidPath(n', p) && ValidPath(n, f) &&
             m < |View(At(n, f), strs).kids|
    requires Own(p, f)
    requires (err, View(At(n', p), strs)) == FixOwnKid(View(At(n, p), strs), KidNo(n, p, f, strs), m, h, delta)
    ensures ChildFixed(n, n', strs, p, f, m, h, err, delta)
  {
    hide InPlace, ValidPath, At, View, FixOwnKid, FixKid, KidNo, Keeps;
  }

  lemma ChildFixedApart(n: Node, n': Node, strs: Bytes, p: Path, f: Path, m: nat, h: Tree, err: int, delta: u32)
    requires InPlace(n, n', p) && ValidPath(n, p) && ValidPath(n', p) && ValidPath(n, f) &&
             m < |View(At(n, f), strs).kids|
    requires !Own(p, f) && Keeps(n, n', f)
    requires (err, View(At(n', p), strs)) == FixKid(View(At(n, p), strs), View(At(n, f), strs).kids[m], delta)
    ensures ChildFixed(n, n', strs, p, f, m, h, err, delta)
  {
    hide InPlace, ValidPath, At, View, FixOwnKid, FixKid, KidNo, Keeps;
  }

  lemma ViewParts(n: Node, strs: Bytes)
    ensures View(n, strs).props == ViewProps(n.items, strs) && View(n, strs).kids == ViewKids(n.items, strs)
  {
    hide ViewProps, ViewKids;
  }

  lemma FixupParts(n: Node, n': Node, f: Path)
    requires FixupSame(n, n', f)
    ensures Keeps(n, n', f) && WfNode(n) && WfNode(n') && NodeOff(n', f) == NodeOff(n, f)
  {
    hide PropCursor, KidOff, WfNode, NodeOff, At, ValidPath;
  }

  // ---- the methods ----

  /**
   overlay_update_local_node_references. The fixup node lies apart from the tree node, and then it stays; or it is a
   subnode of the tree node, as at the root, and then its own subnodes may be tree nodes too. `g` has its names.
   */
  method UpdateReferences(b: Blob, tree: nat, fixup: nat, delta: u32, ghost p: Path, ghost f: Path, ghost g: Tree)
    returns (err: int)
    requires b.Valid() && ValidPath(b.root, p) && tree == NodeOff(b.root, p)
    requires ValidPath(b.root, f) && fixup == NodeOff(b.root, f) && Fixes(p, f) && SameNames(g, Meaning(b, f))
    modifies b`root, b.buf
    ensures b.Valid() && b.Strings() == old(b.Strings()) && b.Reserve() == old(b.Reserve())
    ensures Updated(old(b.root), b.root, b.Strings(), p, f, g, err, delta)
    decreases g, 2
  {
    hide *;
    BlobFacts(b);
    ghost var n, strs := b.root, b.Strings();
    MeaningIs(b, p);
    MeaningIs(b, f);
    err := FixProperties(b, tree, fixup, delta, p, f);
    ghost var n1, e := b.root, err;
    MeaningIs(b, p);
    OwnFacts(n, n1, p);
    OwnSteady(n, n1, p);
    OwnKeeps(n, n1, p, f);
    FixupStill(n, n1, f);
    FixupParts(n, n1, f);
    KeepsAt(n, n1, f);
    MeaningIs(b, f);
    if err == 0 {
      err := UpdateChildren(b, tree, fixup, delta, p, f, g);
    }
    UpdatedParts(n, n1, b.root, strs, p, f, g, e, err, delta);
  }

  /** The second loop: every subnode of the fixup node. */
  method UpdateChildren(b: Blob, tree: nat, fixup: nat, delta: u32, ghost p: Path, ghost f: Path, ghost g: Tree)
    returns (err: int)
    requires b.Valid() && ValidPath(b.root, p) && tree == NodeOff(b.root, p)
    requires ValidPath(b.root, f) && fixup == NodeOff(b.root, f) && Fixes(p, f) && SameNames(g, Meaning(b, f))
    modifies b`root, b.buf
    ensures b.Valid() && b.Strings() == old(b.Strings()) && b.Reserve() == old(b.Reserve())
    ensures Looped(old(b.root), b.root, b.Strings(), p, f, g, err, delta)
    decreases g, 0
  {
    hide *;
    BlobFacts(b);
    ghost var n, strs := b.root, b.Strings();
    MeaningIs(b, f);
    LoopStart(n, strs, p, f, g, delta);
    InPlaceSelf(n, p);
    SubnodesInOrder(n, f, 0);
    var child := ReadFirstSubnode(b.buf[b.offStruct..b.offStruct + b.sizeStruct], fixup);
    ghost var m := 0;
    while child >= 0
      invariant b.Valid() && b.Strings() == old(b.Strings()) && b.Reserve() == old(b.Reserve())
      invariant Looping(n, b.root, strs, p, f, g, m, delta) && InPlace(n, b.root, p)
      invariant ValidPath(b.root, f) && WfNode(b.root) && child == KidOff(b.root, f, m)
      decreases |g.kids| - m
    {
      ghost var n1 := b.root;
      InPlaceFacts(n, n1, p);
      LoopingIs(n, n1, strs, p, f, g, m, delta);
      KidHere(b, f, m);
      MeaningIs(b, f);
      err := UpdateChild(b, tree, child, delta, p, f, m, g.kids[m]);
      LoopStep(n, n1, b.root, strs, p, f, g, m, err, delta);
      if err != 0 {
        return;
      }
      LoopingIs(n, b.root, strs, p, f, g, m + 1, delta);
      ChildSteady(n1, b.root, strs, p, f, m, g.kids[m], err, delta);
      BlobFacts(b);
      KidOffSame(n1, b.root, f, m);
      SubnodesInOrder(b.root, f, m);
      child := ReadNextSubnode(b.buf[b.offStruct..b.offStruct + b.sizeStruct], child);
      m := m + 1;
    }
    BlobFacts(b);
    MeaningIs(b, f);
    KidEnd(b.root, f, strs, m);
    ViewIs(At(b.root, f), strs);
    LoopEnd(n, b.root, strs, p, f, g, m, delta);
    err := 0;
  }

  lemma ChildSteady(n: Node, n': Node, strs: Bytes, p: Path, f: Path, m: nat, h: Tree, err: int, delta: u32)
    requires ChildFixed(n, n', strs, p, f, m, h, err, delta)
    ensures Steady(n, n') && ValidPath(n, f)
  {
    hide Within, Steady, ValidPath, At, View, FixOwnKid, FixKid, KidNo, Keeps;
  }

  /** The body of that loop: the subnode of the tree node with the name of fixup subnode number `m`. */
  method UpdateChild(b: Blob, tree: nat, child: nat, delta: u32, ghost p: Path, ghost f: Path, ghost m: nat,
                     ghost h: Tree)
    returns (err: int)
    requires b.Valid() && ValidPath(b.root, p) && tree == NodeOff(b.root, p) && WfNode(b.root)
    requires ValidPath(b.root, f) && Fixes(p, f) && child == KidOff(b.root, f, m)
    requires m < |Meaning(b, f).kids| && SameNames(h, Meaning(b, f).kids[m])
    modifies b`root, b.buf
    ensures b.Valid() && b.Strings() == old(b.Strings()) && b.Reserve() == old(b.Reserve())
    ensures ChildFixed(old(b.root), b.root, b.Strings(), p, f, m, h, err, delta)
    decreases h, 3
  {
    hide *;
    BlobFacts(b);
    PhandleCodes();
    ghost var n, strs := b.root, b.Strings();
    KidHere(b, f, m);
    ghost var j := KidItem(At(n, f).items, m);
    NameOnTree(n, f + [j]);
    MeaningIs(b, f);
    MeaningIs(b, f + [j]);
    ViewName(At(n, f + [j]), strs);
    NamesAre(h, Meaning(b, f + [j]));
    var s := b.buf[b.offStruct..b.offStruct + b.sizeStruct];
    var name := NameAt(s, child);
    SubnodeOnTree(n, p, name);
    var treeChild := ReadSubnodeOffset(s, tree, name);
    ghost var i := MatchIndex(At(n, p).items, name);
    if treeChild < 0 {
      ChildMissing(n, strs, p, f, m, h, delta);
      return -FDT_ERR_BADOVERLAY;
    }
    MatchIs(At(n, p).items, name);
    ChildOff(n, p, i);
    FixesBelow(p, f, i, j);
    err := UpdateReferences(b, treeChild, child, delta, p + [i], f + [j], h);
    ChildUpdated(n, b.root, strs, p, f, i, j, m, h, err, delta);
  }

  /**
   The first steps of fdt_overlay_apply: the overlay renumbered by the largest phandle of the base, phandles first and
   then the references that its fixup node lists. The lookup of a path of one name is that of a subnode of the root.
   */
  method Renumber(fdt: Blob, fdto: Blob) returns (err: int, delta: u32)
    requires fdt != fdto && fdt.buf != fdto.buf && fdt.Valid() && fdto.Valid()
    modifies fdto`root, fdto.buf
    ensures fdto.Valid() && fdto.Strings() == old(fdto.Strings()) && fdto.Reserve() == old(fdto.Reserve())
    ensures AboveAll(View(fdt.root, fdt.Strings()), delta) && Attained(fdt.root, fdt.Strings(), delta)
    ensures (err, View(fdto.root, fdto.Strings())) == RenumberTree(old(View(fdto.root, fdto.Strings())), delta)
  {
    hide *;
    BlobFacts(fdto);
    RootMeaning(fdto);
    RootOff(fdto.root);
    delta := FindMaxPhandle(fdt);
    MaxAboveAll(fdt, delta);
    RenumberCases(View(fdto.root, fdto.Strings()), delta);
    err := AdjustNodePhandles(fdto, 0, delta, []);
    RootMeaning(fdto);
    if err != 0 {
      return;
    }
    err := UpdateLocalReferences(fdto, delta);
  }

  /** overlay_update_local_references */
  method UpdateLocalReferences(fdto: Blob, delta: u32) returns (err: int)
    requires fdto.Valid()
    modifies fdto`root, fdto.buf
    ensures fdto.Valid() && fdto.Strings() == old(fdto.Strings()) && fdto.Reserve() == old(fdto.Reserve())
    ensures (err, View(fdto.root, fdto.Strings())) == UpdateTree(old(View(fdto.root, fdto.Strings())), delta)
  {
    hide *;
    BlobFacts(fdto);
    RootOff(fdto.root);
    RootMeaning(fdto);
    ghost var n, strs := fdto.root, fdto.Strings();
    FixupOnTree(n, strs);
    UpdateCases(View(n, strs), delta);
    SubnodeOnTree(n, [], LOCAL_FIXUPS);
    var fixups := ReadSubnodeOffset(fdto.buf[fdto.offStruct..fdto.offStruct + fdto.sizeStruct], 0, LOCAL_FIXUPS);
    PhandleCodes();
    if fixups < 0 {
      return 0;
    }
    ghost var k := MatchIndex(n.items, LOCAL_FIXUPS);
    MeaningIs(fdto, [k]);
    NamesSelf(Meaning(fdto, [k]));
    OwnRoot(k);
    err := UpdateReferences(fdto, 0, fixups, delta, [], [k], Meaning(fdto, [k]));
    RootMeaning(fdto);
    UpdatedRoot(n, fdto.root, strs, k, err, delta);
  }

  lemma OwnRoot(k: nat)
    ensures Own([], [k]) && Fixes([], [k])
  {
  }

  lemma UpdatedRoot(n: Node, n': Node, strs: Bytes, k: nat, err: int, delta: u32)
    requires ValidPath(n, [k]) && Own([], [k]) && FixupIndex(View(n, strs)) == KidNo(n, [], [k], strs)
    requires Updated(n, n', strs, [], [k], View(At(n, [k]), strs), err, delta)
    ensures (err, View(n', strs)) == FixOwn(View(n, strs), FixupIndex(View(n, strs)), View(At(n, [k]), strs), delta)
  {
    hide InPlace, View, FixOwn, Fix, KidNo, Keeps, FixupIndex;
  }

  /** The fixup node of the tree is the one that the lookup among the items finds. */
  lemma FixupOnTree(n: Node, strs: Bytes)
    requires WfNode(n)
    ensures At(n, []) == n
    ensures var k, j := MatchIndex(n.items, LOCAL_FIXUPS), FixupIndex(View(n, strs));
            if k < |n.items|
            then
              ValidPath(n, [k]) && NodeOff(n, [k]) == ItemOff(n, [], k) >= 0 && Own([], [k]) &&
              j == KidNo(n, [], [k], strs) && j < |View(n, strs).kids| &&
                View(n, strs).kids[j] == View(At(n, [k]), strs)
            else j == |View(n, strs).kids|
  {
    hide WfNode, View, NodeOff, ItemOff, MatchIndex, MatchTree, ViewKids;
    var k := MatchIndex(n.items, LOCAL_FIXUPS);
    MatchIndexIsMatchTree(n.items, strs, LOCAL_FIXUPS);
    ViewIs(n, strs);
    if k < |n.items| {
      MatchIs(n.items, LOCAL_FIXUPS);
      KidAt(n.items, k, strs);
      ChildOff(n, [], k);
      assert [] + [k] == [k] && [k][1..] == [];
    }
  }

  lemma RootMeaning(b: Blob)
    requires b.Valid()
    ensures ValidPath(b.root, []) && Meaning(b, []) == View(b.root, b.Strings())
  {
    hide View;
  }
}
