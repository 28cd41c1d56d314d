/**
 The phandle operations of the overlay code on a blob: the largest phandle, and renumbering the phandles and
 the references of an overlay in place.
 */
module FdtPhandle {
  import opened Common
  import opened FdtBytes
  import opened FdtTokens
  import opened FdtTree
  import opened FdtScan
  import opened FdtVisit
  import opened FdtNodes
  import opened FdtProps
  import opened FdtEdit
  import opened FdtView
  import opened FdtDecode
  import opened FdtSplice
  import opened FdtOps
  import opened FdtBlob
  import opened FdtMeaning
  import opened FdtMerge
  import opened FdtIter
  import opened FdtOverlay
  import opened FdtTour
  import opened FdtInPlace
  import opened FdtRenumber
  import opened FdtFixup

  /** What the node at `p` means. */
  ghost function Meaning(b: Blob, p: Path): Tree
    requires b.Valid() && ValidPath(b.root, p)
    reads b, b.buf
  {
    View(At(b.root, p), b.Strings())
  }

  lemma MeaningIs(b: Blob, p: Path)
    requires b.Valid() && ValidPath(b.root, p)
    ensures Meaning(b, p) == View(At(b.root, p), b.Strings())
  {
    hide View;
  }

  /** The property item the scan finds holds the value of that property in the meaning. */
  lemma FoundIsPropOf(n: Node, strs: Bytes, name: Bytes)
    requires Proper(n, strs)
    ensures var i := PropIndex(n.items, strs, name);
            PropOf(View(n, strs), name) == if i < |n.items| then Some(n.items[i].value) else None
  {
    hide GetString, PropIndex, ProperItems, ViewProps, ViewKids, PropsFirst;
    var items, i := n.items, PropIndex(n.items, strs, name);
    PropIndexIsFirstNamed(items, strs, name);
    ViewOfItems(n, items, strs);
    assert n.(items := items) == n;
    if i < |items| {
      FoundItem(items, strs, name);
      assert items == items[..i] + [items[i]] + items[i + 1..];
      ViewConcat(items[..i] + [items[i]], items[i + 1..], strs);
      ViewConcat(items[..i], [items[i]], strs);
      ViewOne(items[i], strs);
      ViewHasOne(items[i], strs, name);
    }
  }

  /** fdt_getprop: the property's offset in the structure block and the length of its value. */
  method GetProp(b: Blob, node: nat, name: Bytes, ghost p: Path) returns (prop: int, len: nat)
    requires b.Valid() && ValidPath(b.root, p) && node == NodeOff(b.root, p)
    ensures prop < 0 ==> prop == NOTFOUND && PropOf(Meaning(b, p), name) == None
    ensures prop >= 0 ==> At(b.root, p).items != [] && PropAtIs(b, p, name, prop, len)
  {
    hide *;
    BlobFacts(b);
    TargetArg(b, node, p);
    ErrorCodes();
    ProperAt(b.root, p, b.Strings());
    FoundIsPropOf(At(b.root, p), b.Strings(), name);
    FoundIs(b, name, p);
    len := 0;
    prop := b.GetPropertyOffset(node, name, p);
    PropAtNone(b, p, name, prop);
    if prop >= 0 {
      ghost var i := PropIndex(At(b.root, p).items, b.Strings(), name);
      IndexIsProp(At(b.root, p).items, b.Strings(), name);
      PropReadOnTree(b.root, p, i, b.Strings());
      ValueLen(b.Struct(), prop, At(b.root, p).items[i].value);
      len := ReadWord(b.buf[b.offStruct..b.offStruct + b.sizeStruct], prop + 4);
      PropAtIsIntro(b, p, name, prop, len);
    }
  }

  lemma FoundIs(b: Blob, name: Bytes, p: Path)
    requires b.Valid() && ValidPath(b.root, p)
    ensures b.Found(name, p) == PropIndex(At(b.root, p).items, b.Strings(), name)
  {
    hide PropIndex;
  }

  lemma IndexIsProp(items: seq<Item>, strs: Bytes, name: Bytes)
    requires PropIndex(items, strs, name) < |items|
    ensures items[PropIndex(items, strs, name)].Prop?
  {
    FoundItem(items, strs, name);
  }

  lemma ValueLen(s: Bytes, o: nat, value: Bytes)
    requires PropValue(s, o) == Some(value)
    ensures o + 12 <= |s| && ReadWord(s, o + 4) == |value| && o + 12 + |value| <= |s| &&
            s[o + 12..o + 12 + |value|] == value
  {
    hide ReadWord;
  }

  /** `prop` is where the scan finds the property, `len` the length of its value there. */
  ghost predicate PropAtIs(b: Blob, p: Path, name: Bytes, prop: int, len: nat)
    reads b, b.buf
  {
    b.Valid() && ValidPath(b.root, p) &&
    var items := At(b.root, p).items;
    var i := PropIndex(items, b.Strings(), name);
    i < |items| && items[i].Prop? && prop == ItemOff(b.root, p, i) && len == |items[i].value| &&
    PropOf(View(At(b.root, p), b.Strings()), name) == Some(items[i].value)
  }

  lemma PropAtNone(b: Blob, p: Path, name: Bytes, prop: int)
    requires b.Valid() && ValidPath(b.root, p)
    requires PropOf(View(At(b.root, p), b.Strings()), name) ==
             var i := PropIndex(At(b.root, p).items, b.Strings(), name);
             if i < |At(b.root, p).items| then Some(At(b.root, p).items[i].value) else None
    requires prop == if PropIndex(At(b.root, p).items, b.Strings(), name) < |At(b.root, p).items|
                     then ItemOff(b.root, p, PropIndex(At(b.root, p).items, b.Strings(), name)) else NOTFOUND
    ensures prop < 0 ==> PropOf(Meaning(b, p), name) == None
    ensures prop >= 0 <==> PropIndex(At(b.root, p).items, b.Strings(), name) < |At(b.root, p).items|
  {
    hide View, PropIndex, ItemOff, PropOf, At, ValidPath;
  }

  lemma PropAtIsIntro(b: Blob, p: Path, name: Bytes, prop: int, len: nat)
    requires b.Valid() && ValidPath(b.root, p)
    requires var items := At(b.root, p).items;
             var i := PropIndex(items, b.Strings(), name);
             i < |items| && items[i].Prop? && prop == ItemOff(b.root, p, i) && len == |items[i].value| &&
             PropOf(View(At(b.root, p), b.Strings()), name) == Some(items[i].value)
    ensures PropAtIs(b, p, name, prop, len) && At(b.root, p).items != []
  {
    hide View, PropIndex, ItemOff, PropOf, At, ValidPath;
  }

  /** The bytes of a value as they lie in the structure block. */
  lemma ValueHere(b: Blob, p: Path, name: Bytes, prop: int, len: nat)
    requires PropAtIs(b, p, name, prop, len)
    ensures prop >= 0 && prop + 12 + len <= b.sizeStruct && PropOf(Meaning(b, p), name).Some?
    ensures b.Struct()[prop + 12..prop + 12 + len] == PropOf(Meaning(b, p), name).value &&
            |PropOf(Meaning(b, p), name).value| == len
  {
    hide View, PropIndex, ItemOff, PropOf, At, ValidPath, WfNode, Encode, Proper, PropValue, PropName, GetString;
    BlobFacts(b);
    var i := PropIndex(At(b.root, p).items, b.Strings(), name);
    PropReadOnTree(b.root, p, i, b.Strings());
    ValueLen(b.Struct(), prop, At(b.root, p).items[i].value);
  }

  lemma WordInside(s: Bytes, a: nat, z: nat, k: nat)
    requires a + k + 4 <= z <= |s|
    ensures ReadWord(s, a + k) == ReadWord(s[a..z], k)
  {
  }

  /** The word that a property of four bytes holds. */
  method GetWord(b: Blob, node: nat, name: Bytes, ghost p: Path) returns (w: Option<u32>)
    requires b.Valid() && ValidPath(b.root, p) && node == NodeOff(b.root, p)
    ensures w == WordOf(Meaning(b, p), name)
  {
    hide *;
    WordOfIs(Meaning(b, p), name);
    var prop, len := GetProp(b, node, name, p);
    if prop < 0 {
      return None;
    }
    ValueHere(b, p, name, prop, len);
    if len != 4 {
      return None;
    }
    BlobFacts(b);
    WordInside(b.Struct(), prop + 12, prop + 16, 0);
    w := Some(ReadWord(b.buf[b.offStruct..b.offStruct + b.sizeStruct], prop + 12));
  }

  lemma WordOfIs(t: Tree, name: Bytes)
    ensures WordOf(t, name) ==
            if PropOf(t, name).Some? && |PropOf(t, name).value| == 4 then Some(ReadWord(PropOf(t, name).value, 0))
              else None
  {
    hide PropOf, ReadWord;
  }

  /** fdt_get_phandle */
  method GetPhandleAt(b: Blob, node: nat, ghost p: Path) returns (h: u32)
    requires b.Valid() && ValidPath(b.root, p) && node == NodeOff(b.root, p)
    ensures h == GetPhandle(Meaning(b, p))
  {
    hide *;
    GetPhandleIs(Meaning(b, p));
    var w := GetWord(b, node, PHANDLE, p);
    if w == None {
      w := GetWord(b, node, LINUX_PHANDLE, p);
    }
    h := if w.Some? then w.value else 0;
  }

  lemma GetPhandleIs(t: Tree)
    ensures GetPhandle(t) == if WordOf(t, PHANDLE).Some? then WordOf(t, PHANDLE).value
                             else if WordOf(t, LINUX_PHANDLE).Some? then WordOf(t, LINUX_PHANDLE).value else 0
  {
    hide WordOf;
  }

  // ---- the largest phandle ----

  lemma {:induction false} ScanShift(ts: seq<Token>, k: nat, d: int)
    requires d >= 0
    ensures Scan(ts, k, d).1 < 0 ==> 0 <= Scan(ts, k, d).0
    ensures var (r, d') := Scan(ts, k, d);
            Scan(ts, k, d + 1) == if d' >= 0 then (r, d' + 1) else Scan(ts, r, 0)
    decreases |ts| - k
  {
    if k < |ts| && !ts[k].TFinish? && !ts[k].TBegin? && !(ts[k].TEnd? && d - 1 < 0) {
      ScanShift(ts, k + 1, if ts[k].TEnd? then d - 1 else d);
    }
  }

  /**
   fdt_next_node without a depth, kept here as one more than the depth of the node: the next node in preorder, or none.
   */
  lemma NextNodeFree(n: Node, p: Path)
    requires WfNode(n) && ValidPath(n, p)
    ensures Scannable(Encode(n), NodeOff(n, p))
    ensures NextPath(n, p).Some? ==> ValidPath(n, NextPath(n, p).value)
    ensures NextNode(Encode(n), NodeOff(n, p), |p| + 1) ==
            match NextPath(n, p)
            case Some(q) => (NodeOff(n, q), |q| + 1)
            case None => (NOTFOUND, 0)
  {
    hide WfNode, Stream, Scan, Flat, Pos, Climb, At, ValidPath, Enc, Off, Encode, Scannable, NextNode, Has, FlatItems;
    var ts := Stream(n);
    StreamFacts(n);
    StreamLen(n);
    PosBound(n, p);
    NodeInside(ts, At(n, p), Pos(n, p));
    NextNodeAt(ts, Visit(Pos(n, p), |p| + 1, At(n, p)));
    ItemPosZero(n, p);
    ClimbIsScan(n, p, 0);
    ScanShift(ts, Pos(n, p) + 1, |p|);
    FinishAt(n);
    if NextPath(n, p).Some? {
      NodeToken(n, NextPath(n, p).value);
    }
  }

  lemma FinishAt(n: Node)
    ensures |Flat(n)| < |Stream(n)| && Scan(Stream(n), |Flat(n)|, 0) == (-1, 0) && NOTFOUND == -FDT_ERR_NOTFOUND
  {
    hide Flat;
  }

  /** From before the first node the scan finds the root. */
  lemma FirstNode(n: Node)
    requires WfNode(n)
    ensures Scannable(Encode(n), 0) && NextNode(Encode(n), -1, 0) == (0, 1)
  {
    hide WfNode, Stream, Encode, Scannable, Flat, NextTag;
    RootOff(n);
    HeaderAt(n, []);
  }

  /** `max` is zero or the phandle of a node. */
  ghost predicate Attained(n: Node, strs: Bytes, max: u32) {
    max == 0 || exists q: Path :: ValidPath(n, q) && GetPhandle(View(At(n, q), strs)) == max
  }

  /** `max` is the largest phandle among the nodes up to `p`, or zero. */
  ghost predicate MaxUpTo(n: Node, strs: Bytes, p: Option<Path>, max: u32) {
    Attained(n, strs, max) &&
    forall q :: ValidPath(n, q) && (p.Some? ==> ValidPath(n, p.value) && Pos(n, q) < Pos(n, p.value)) ==>
      GetPhandle(View(At(n, q), strs)) <= max
  }

  lemma MaxStart(n: Node, strs: Bytes)
    ensures MaxUpTo(n, strs, Some([]), 0)
  {
    hide View, GetPhandle, At, FlatItems;
  }

  lemma MaxStep(n: Node, strs: Bytes, p: Path, max: u32)
    requires WfNode(n) && ValidPath(n, p) && MaxUpTo(n, strs, Some(p), max)
    ensures var h := GetPhandle(View(At(n, p), strs));
            MaxUpTo(n, strs, NextPath(n, p), if h > max then h else max)
  {
    hide View, GetPhandle, At, Pos, WfNode, ValidPath, NextPath;
    var h := GetPhandle(View(At(n, p), strs));
    var max' := if h > max then h else max;
    var next := NextPath(n, p);
    forall q | ValidPath(n, q) && (next.Some? ==> ValidPath(n, next.value) && Pos(n, q) < Pos(n, next.value))
      ensures GetPhandle(View(At(n, q), strs)) <= max'
    {
      if Pos(n, q) == Pos(n, p) {
        PosInjective(n, p, q);
      } else if Pos(n, q) > Pos(n, p) {
        NextIsNext(n, p, q);
      }
    }
  }

  /** fdt_find_max_phandle: a phandle of the blob, or zero, that no phandle of the blob exceeds. */
  method FindMaxPhandle(b: Blob) returns (max: u32)
    requires b.Valid()
    ensures forall q :: ValidPath(b.root, q) ==> GetPhandle(View(At(b.root, q), b.Strings())) <= max
    ensures Attained(b.root, b.Strings(), max)
  {
    hide *;
    max := 0;
    BlobFacts(b);
    var s := b.buf[b.offStruct..b.offStruct + b.sizeStruct];
    FirstNode(b.root);
    RootOff(b.root);
    MaxStart(b.root, b.Strings());
    var offset, depth := ReadNextNode(s, -1, 0);
    ghost var p: Option<Path> := Some([]);
    while offset >= 0
      invariant p.Some? ==> ValidPath(b.root, p.value) && offset == NodeOff(b.root, p.value) && depth == |p.value| + 1
      invariant p == None <==> offset < 0
      invariant MaxUpTo(b.root, b.Strings(), p, max)
      decreases if p.Some? then |Encode(b.root)| + 1 - offset else 0
    {
      var value := GetPhandleAt(b, offset, p.value);
      MeaningIs(b, p.value);
      MaxStep(b.root, b.Strings(), p.value, max);
      NextNodeFree(b.root, p.value);
      NextFurther(b.root, p.value);
      if value > max {
        max := value;
      }
      offset, depth := ReadNextNode(s, offset, depth);
      p := NextPath(b.root, p.value);
    }
    MaxAll(b.root, b.Strings(), max);
  }

  lemma NextFurther(n: Node, p: Path)
    requires WfNode(n) && ValidPath(n, p)
    ensures NOTFOUND < 0 && NodeOff(n, p) < |Encode(n)|
    ensures NextPath(n, p).Some? ==>
              ValidPath(n, NextPath(n, p).value) && NodeOff(n, p) < NodeOff(n, NextPath(n, p).value) < |Encode(n)|
  {
    hide WfNode, NodeOff, Encode, ItemOff, NextPath, ValidPath;
    NodeInBlock(n, p);
    if NextPath(n, p).Some? {
      NextIsLater(n, p);
      OffOrder(n, p, NextPath(n, p).value);
      NodeInBlock(n, NextPath(n, p).value);
    }
  }

  lemma NodeInBlock(n: Node, p: Path)
    requires WfNode(n) && ValidPath(n, p)
    ensures NodeOff(n, p) < |Encode(n)|
  {
    hide WfNode, NodeOff, Encode;
    NameOnTree(n, p);
  }

  lemma MaxAll(n: Node, strs: Bytes, max: u32)
    requires MaxUpTo(n, strs, None, max)
    ensures forall q :: ValidPath(n, q) ==> GetPhandle(View(At(n, q), strs)) <= max
    ensures Attained(n, strs, max)
  {
    hide View, GetPhandle, Pos;
  }

  /** Every node of the meaning lies in the blob. */
  lemma {:induction false} NodeOfTree(n: Node, strs: Bytes, q: seq<nat>) returns (p: Path)
    requires InTree(View(n, strs), q)
    ensures ValidPath(n, p) && View(At(n, p), strs) == TreeAt(View(n, strs), q)
    decreases |q|
  {
    hide View, ViewKids;
    if q == [] {
      p := [];
    } else {
      ViewIs(n, strs);
      KidItemFacts(n.items, 0, q[0], strs);
      var i := KidItem(n.items, q[0]);
      var r := NodeOfTree(n.items[i].node, strs, q[1..]);
      p := [i] + r;
      assert p[1..] == r;
    }
  }

  /** The largest phandle found is above all phandles of the tree the blob means. */
  lemma MaxAboveAll(b: Blob, max: u32)
    requires b.Valid() && forall q :: ValidPath(b.root, q) ==> GetPhandle(View(At(b.root, q), b.Strings())) <= max
    ensures AboveAll(View(b.root, b.Strings()), max)
  {
    hide View, GetPhandle, At, ValidPath, InTree, TreeAt, WfNode, Encode, Proper;
    forall q | InTree(View(b.root, b.Strings()), q)
      ensures GetPhandle(TreeAt(View(b.root, b.Strings()), q)) <= max
    {
      var p := NodeOfTree(b.root, b.Strings(), q);
    }
  }

  // ---- storing a word in place ----

  /** The subnodes of the node at `p` are the same. */
  ghost predicate KidsKept(n: Node, n': Node, p: Path) {
    ValidPath(n, p) && ValidPath(n', p) &&
    var items, items' := At(n, p).items, At(n', p).items;
    |items'| == |items| && forall j :: 0 <= j < |items| && items[j].Child? ==> items'[j] == items[j]
  }

  /** A value with the word at `off` replaced. */
  function WithWord(v: Bytes, off: nat, w: u32): (r: Bytes)
    requires off + 4 <= |v|
    ensures |r| == |v|
  {
    v[..off] + Word(w) + v[off + 4..]
  }

  /** Only the node's own properties have changed, and nothing has moved. */
  ghost predicate OwnEdit(n: Node, n': Node, p: Path) {
    InPlace(n, n', p) && KidsKept(n, n', p)
  }

  lemma OwnSelf(n: Node, p: Path)
    requires WfNode(n) && ValidPath(n, p)
    ensures OwnEdit(n, n, p)
  {
    hide WfNode, InPlace;
    InPlaceSelf(n, p);
  }

  lemma OwnTrans(n: Node, n1: Node, n2: Node, p: Path)
    requires OwnEdit(n, n1, p) && OwnEdit(n1, n2, p)
    ensures OwnEdit(n, n2, p)
  {
    hide InPlace;
    InPlaceTrans(n, n1, n2, p);
  }

  lemma WordIntoValue(s: Bytes, o: nat, v: Bytes, off: nat, w: u32)
    requires o + |v| <= |s| && s[o..o + |v|] == v && off + 4 <= |v|
    ensures o + off + 4 <= |s| && Splice(s, o, |v|, WithWord(v, off, w)) == Splice(s, o + off, 4, Word(w))
  {
    hide Word;
    assert s == s[..o] + v + s[o + |v|..];
    SpliceInner(s[..o], v, s[o + |v|..], off, 4, Word(w));
    SpliceMiddle(s[..o], v, s[o + |v|..], WithWord(v, off, w));
  }

  /** The edit of the tree that storing the word is. */
  lemma WordEdit(n: Node, p: Path, strs: Bytes, name: Bytes, off: nat, w: u32)
    requires WfNode(n) && Proper(n, strs) && ValidPath(n, p)
    requires var i := PropIndex(At(n, p).items, strs, name);
             i < |At(n, p).items| && At(n, p).items[i].Prop? && off + 4 <= |At(n, p).items[i].value|
    ensures var i := PropIndex(At(n, p).items, strs, name);
            var it := At(n, p).items[i];
            var v' := WithWord(it.value, off, w);
            var n' := PutItems(n, p, i, i + 1, [it.(value := v')]);
            WfNode(n') && Proper(n', strs) && OwnEdit(n, n', p) &&
            ItemOff(n, p, i) + 12 + off + 4 <= |Encode(n)| &&
            Encode(n') == Splice(Encode(n), ItemOff(n, p, i) + 12 + off, 4, Word(w)) &&
            View(At(n', p), strs) == SetProp(View(At(n, p), strs), name, v')
  {
    hide WfNode, Proper, Encode, Splice, ItemOff, View, SetProp, Word, Steady, PropIndex, PropValue, PropName,
         GetString, WithWord, Put;
    var i := PropIndex(At(n, p).items, strs, name);
    var it := At(n, p).items[i];
    var v' := WithWord(it.value, off, w);
    var n' := PutItems(n, p, i, i + 1, [it.(value := v')]);
    ValueEdit(n, p, i, strs, v');
    PropReadOnTree(n, p, i, strs);
    ValueLen(Encode(n), ItemOff(n, p, i), it.value);
    WordIntoValue(Encode(n), ItemOff(n, p, i) + 12, it.value, off, w);
    ValueSteady(n, p, i, v');
    WithinPut(n, p, At(n, p).(items := Splice(At(n, p).items, i, 1, [it.(value := v')])));
    FoundItem(At(n, p).items, strs, name);
    ProperAt(n, p, strs);
    SetAtNode(At(n, p), strs, name, it.(value := v'));
    SpliceOne(At(n, p).items, i, it.(value := v'));
  }

  /**
   fdt_setprop_inplace_namelen_partial for one word. The end of the place is a 32-bit sum; when it wraps, the store
   goes four gigabytes past the value, to no byte of the blob.
   */
  method SetWord(b: Blob, node: nat, name: Bytes, off: u32, w: u32, ghost p: Path) returns (err: int)
    requires b.Valid() && ValidPath(b.root, p) && node == NodeOff(b.root, p)
    modifies b`root, b.buf
    ensures b.Valid() && b.Strings() == old(b.Strings()) && b.Reserve() == old(b.Reserve())
    ensures OwnEdit(old(b.root), b.root, p) && ValidPath(b.root, p)
    ensures var v := old(PropOf(Meaning(b, p), name));
            err == (if v == None then NOTFOUND else if PlaceRefused(v.value, off) then -FDT_ERR_NOSPACE else 0) &&
            Meaning(b, p) == (if err == 0 && off + 4 <= |v.value|
                              then SetProp(old(Meaning(b, p)), name, WithWord(v.value, off, w))
                              else old(Meaning(b, p)))
  {
    hide *;
    BlobFacts(b);
    PhandleCodes();
    OwnSelf(b.root, p);
    MeaningIs(b, p);
    ghost var n, strs := b.root, b.Strings();
    var prop, len := GetProp(b, node, name, p);
    if prop < 0 {
      return -FDT_ERR_NOTFOUND;
    }
    ValueHere(b, p, name, prop, len);
    RefusedIs(PropOf(Meaning(b, p), name).value, off);
    if len < Wrap32(off + 4) {
      return -FDT_ERR_NOSPACE;
    }
    if off + 4 > len {
      return 0;
    }
    PropAtIsOut(b, p, name, prop, len);
    ghost var i := PropIndex(At(n, p).items, strs, name);
    WordEdit(n, p, strs, name, off, w);
    b.WriteStruct(prop + 12 + off, Word(w));
    b.root := PutItems(n, p, i, i + 1, [At(n, p).items[i].(value := WithWord(At(n, p).items[i].value, off, w))]);
    ValidAgain(b);
    OwnFacts(n, b.root, p);
    MeaningIs(b, p);
    return 0;
  }

  lemma RefusedIs(v: Bytes, off: u32)
    ensures PlaceRefused(v, off) <==> |v| < Wrap32(off + 4)
  {
    hide Wrap32;
  }

  lemma RefusedZero(v: Bytes)
    ensures PlaceRefused(v, 0) <==> |v| < 4
  {
  }

  lemma OwnFacts(n: Node, n': Node, p: Path)
    requires OwnEdit(n, n', p)
    ensures InPlace(n, n', p) && ValidPath(n, p) && ValidPath(n', p) && WfNode(n) && WfNode(n') &&
            NodeOff(n', p) == NodeOff(n, p)
  {
    hide InPlace, WfNode, NodeOff;
    InPlaceFacts(n, n', p);
  }

  lemma PropAtIsOut(b: Blob, p: Path, name: Bytes, prop: int, len: nat)
    requires PropAtIs(b, p, name, prop, len)
    ensures b.Valid() && ValidPath(b.root, p) && NOTFOUND == -FDT_ERR_NOTFOUND
    ensures var items := At(b.root, p).items;
            var i := PropIndex(items, b.Strings(), name);
            i < |items| && items[i].Prop? && prop == ItemOff(b.root, p, i) && len == |items[i].value| &&
            PropOf(Meaning(b, p), name) == Some(items[i].value)
  {
    hide View, PropIndex, ItemOff, PropOf, At, ValidPath;
  }

  // ---- renumbering ----

  /** overlay_phandle_add_offset; a missing property is NOTFOUND here. */
  method PhandleAddOffset(b: Blob, node: nat, name: Bytes, delta: u32, ghost p: Path) returns (err: int)
    requires b.Valid() && ValidPath(b.root, p) && node == NodeOff(b.root, p)
    modifies b`root, b.buf
    ensures b.Valid() && b.Strings() == old(b.Strings()) && b.Reserve() == old(b.Reserve())
    ensures OwnEdit(old(b.root), b.root, p) && ValidPath(b.root, p)
    ensures AddOffset(old(Meaning(b, p)), name, delta) == (if err == NOTFOUND then 0 else err, Meaning(b, p))
    ensures err != 0 && err != NOTFOUND ==> err == -FDT_ERR_BADPHANDLE || err == -FDT_ERR_NOPHANDLES
  {
    hide *;
    BlobFacts(b);
    PhandleCodes();
    OwnSelf(b.root, p);
    ghost var t := Meaning(b, p);
    AddOffsetCases(t, name, delta);
    var prop, len := GetProp(b, node, name, p);
    if prop < 0 {
      return prop;
    }
    ValueHere(b, p, name, prop, len);
    if len != 4 {
      return -FDT_ERR_BADPHANDLE;
    }
    WordInside(b.Struct(), prop + 12, prop + 16, 0);
    var value := ReadWord(b.buf[b.offStruct..b.offStruct + b.sizeStruct], prop + 12);
    WrapFacts(value + delta);
    if Wrap32(value + delta) < value {
      return -FDT_ERR_NOPHANDLES;
    }
    var adjusted := Wrap32(value + delta);
    if adjusted == 0xffff_ffff {
      return -FDT_ERR_NOPHANDLES;
    }
    WholeWord(PropOf(t, name).value, adjusted);
    RefusedZero(PropOf(t, name).value);
    err := SetWord(b, node, name, 0, adjusted, p);
  }

  lemma PhandleCodes()
    ensures NOTFOUND == -FDT_ERR_NOTFOUND == -1 && FDT_ERR_NOSPACE == 3 && FDT_ERR_BADPHANDLE == 6 &&
            FDT_ERR_NOPHANDLES == 17
    ensures FDT_ERR_BADOVERLAY == 16 && MAX_U32 == 0xffff_ffff
  {
  }

  lemma AddOffsetCases(t: Tree, name: Bytes, delta: u32)
    ensures AddOffset(t, name, delta) ==
            var v := PropOf(t, name);
            if v == None then (0, t)
            else if |v.value| != 4 then (-FDT_ERR_BADPHANDLE, t)
            else if ReadWord(v.value, 0) + delta >= MAX_U32 then (-FDT_ERR_NOPHANDLES, t)
            else (0, SetProp(t, name, Word(ReadWord(v.value, 0) + delta)))
  {
    hide PropOf, SetProp, ReadWord, Word;
  }

  lemma WholeWord(v: Bytes, w: u32)
    requires |v| == 4
    ensures WithWord(v, 0, w) == Word(w)
  {
    hide Word;
  }

  /** The subnodes up to number `m` have been renumbered, the others not. */
  ghost predicate Adjusting(t: Tree, u: Tree, m: nat, delta: u32) {
    m <= |t.kids| && AdjustKids(t.kids[..m], delta).0 == 0 &&
    u == t.(kids := AdjustKids(t.kids[..m], delta).1 + t.kids[m..])
  }

  lemma AdjustingStart(t: Tree, delta: u32)
    ensures Adjusting(t, t, 0, delta)
  {
    assert t.kids[..0] == [] && t.kids[0..] == t.kids;
  }

  lemma AdjustKidsCons(k: Tree, rest: seq<Tree>, delta: u32)
    ensures AdjustKids([k] + rest, delta) ==
            var (err, k') := Adjust(k, delta);
            if err != 0 then (err, [k'] + rest) else (AdjustKids(rest, delta).0, [k'] + AdjustKids(rest, delta).1)
  {
    hide Adjust;
    assert ([k] + rest)[1..] == rest;
  }

  lemma AdjustKidsStep(kids: seq<Tree>, delta: u32)
    requires kids != []
    ensures AdjustKids(kids, delta) ==
            var (err, k') := Adjust(kids[0], delta);
            if err != 0 then (err, [k'] + kids[1..])
            else (AdjustKids(kids[1..], delta).0, [k'] + AdjustKids(kids[1..], delta).1)
  {
    hide Adjust;
  }

  lemma {:induction false} AdjustKidsSplit(a: seq<Tree>, b: seq<Tree>, delta: u32)
    requires AdjustKids(a, delta).0 == 0
    ensures AdjustKids(a + b, delta) == (AdjustKids(b, delta).0, AdjustKids(a, delta).1 + AdjustKids(b, delta).1)
    decreases a
  {
    hide *;
    ConcatFirst(a, b);
    if a == [] {
      AdjustNoKids(delta);
      ConcatFirst(a, AdjustKids(b, delta).1);
    } else {
      AdjustKidsStep(a, delta);
      AdjustKidsStep(a + b, delta);
      AdjustKidsSplit(a[1..], b, delta);
      ConcatAssoc([Adjust(a[0], delta).1], AdjustKids(a[1..], delta).1, AdjustKids(b, delta).1);
    }
  }

  lemma AdjustingStep(t: Tree, u: Tree, m: nat, delta: u32)
    requires Adjusting(t, u, m, delta) && m < |t.kids|
    ensures m < |u.kids| && u.kids[m] == t.kids[m]
    ensures var (err, k) := Adjust(t.kids[m], delta);
            var u' := u.(kids := u.kids[m := k]);
            if err == 0 then Adjusting(t, u', m + 1, delta)
            else AdjustKids(t.kids, delta) == (err, u'.kids) && u' == t.(kids := u'.kids)
  {
    hide Adjust, AdjustKids;
    var (err, k) := Adjust(t.kids[m], delta);
    var a, c, rest := t.kids[..m], t.kids[m], t.kids[m + 1..];
    var a' := AdjustKids(a, delta).1;
    assert t.kids[..m + 1] == a + [c] && t.kids[m..] == [c] + rest && t.kids == a + ([c] + rest);
    assert [c] + [] == [c] && [k] + [] == [k];
    AdjustKidsSplit(a, [c], delta);
    AdjustKidsSplit(a, [c] + rest, delta);
    AdjustKidsCons(c, [], delta);
    AdjustKidsCons(c, rest, delta);
    AdjustNoKids(delta);
    MiddleSet(a', c, rest, k);
  }

  lemma AdjustNoKids(delta: u32)
    ensures AdjustKids([], delta) == (0, [])
  {
  }

  lemma MiddleSet<T>(a: seq<T>, x: T, b: seq<T>, y: T)
    ensures (a + ([x] + b))[|a|] == x && (a + ([x] + b))[|a| := y] == a + ([y] + b) == (a + [y]) + b
  {
  }

  lemma AdjustingEnd(t: Tree, u: Tree, m: nat, delta: u32)
    requires Adjusting(t, u, m, delta) && m >= |t.kids|
    ensures AdjustKids(t.kids, delta) == (0, u.kids) && u == t.(kids := u.kids)
  {
    hide AdjustKids;
    assert t.kids[..m] == t.kids && t.kids[m..] == [];
    assert AdjustKids(t.kids, delta).1 + [] == AdjustKids(t.kids, delta).1;
  }

  lemma AdjustIs(t: Tree, delta: u32)
    ensures Adjust(t, delta) ==
            var (e1, t1) := AddOffset(t, PHANDLE, delta);
            if e1 != 0 then (e1, t1)
            else
              var (e2, t2) := AddOffset(t1, LINUX_PHANDLE, delta);
              if e2 != 0 then (e2, t2)
              else
                var (e3, kids) := AdjustKids(t2.kids, delta);
                (e3, t2.(kids := kids))
  {
    hide AddOffset, AdjustKids;
    AddOffsetIs(t, PHANDLE, delta, []);
    AddOffsetIs(AddOffset(t, PHANDLE, delta).1, LINUX_PHANDLE, delta, []);
  }

  /** overlay_adjust_node_phandles */
  method AdjustNodePhandles(b: Blob, node: nat, delta: u32, ghost p: Path) returns (err: int)
    requires b.Valid() && ValidPath(b.root, p) && node == NodeOff(b.root, p)
    modifies b`root, b.buf
    ensures b.Valid() && b.Strings() == old(b.Strings()) && b.Reserve() == old(b.Reserve())
    ensures InPlace(old(b.root), b.root, p) && ValidPath(b.root, p)
    ensures (err, Meaning(b, p)) == Adjust(old(Meaning(b, p)), delta)
    decreases Meaning(b, p), 1
  {
    hide *;
    PhandleCodes();
    ghost var n := b.root;
    ghost var t := Meaning(b, p);
    AdjustIs(t, delta);
    AddOffsetIs(t, PHANDLE, delta, []);
    err := PhandleAddOffset(b, node, PHANDLE, delta, p);
    ghost var n1 := b.root;
    OwnFacts(n, n1, p);
    if err != 0 && err != -FDT_ERR_NOTFOUND {
      return;
    }
    AddOffsetIs(Meaning(b, p), LINUX_PHANDLE, delta, []);
    err := PhandleAddOffset(b, node, LINUX_PHANDLE, delta, p);
    ghost var n2 := b.root;
    OwnFacts(n1, n2, p);
    InPlaceTrans(n, n1, n2, p);
    if err != 0 && err != -FDT_ERR_NOTFOUND {
      return;
    }
    err := AdjustSubnodes(b, node, delta, p);
    InPlaceTrans(n, n2, b.root, p);
  }

  /** The loop over the subnodes. */
  method AdjustSubnodes(b: Blob, node: nat, delta: u32, ghost p: Path) returns (err: int)
    requires b.Valid() && ValidPath(b.root, p) && node == NodeOff(b.root, p)
    modifies b`root, b.buf
    ensures b.Valid() && b.Strings() == old(b.Strings()) && b.Reserve() == old(b.Reserve())
    ensures InPlace(old(b.root), b.root, p) && ValidPath(b.root, p)
    ensures var (e, kids) := AdjustKids(old(Meaning(b, p)).kids, delta);
            err == e && Meaning(b, p) == old(Meaning(b, p)).(kids := kids)
    decreases Meaning(b, p).kids, 0
  {
    hide *;
    ghost var n := b.root;
    ghost var t := Meaning(b, p);
    BlobFacts(b);
    InPlaceSelf(n, p);
    AdjustingStart(t, delta);
    SubnodesInOrder(n, p, 0);
    var child := ReadFirstSubnode(b.buf[b.offStruct..b.offStruct + b.sizeStruct], node);
    ghost var m := 0;
    while child >= 0
      invariant b.Valid() && b.Strings() == old(b.Strings()) && b.Reserve() == old(b.Reserve())
      invariant InPlace(n, b.root, p) && ValidPath(b.root, p)
      invariant Adjusting(t, Meaning(b, p), m, delta)
      invariant WfNode(b.root) && child == KidOff(b.root, p, m)
      decreases |t.kids| - m
    {
      ghost var n1 := b.root;
      ghost var u := Meaning(b, p);
      KidHere(b, p, m);
      MeaningIs(b, p);
      ghost var k := KidItem(At(n1, p).items, m);
      AdjustingBound(t, u, m, delta);
      AdjustingStep(t, u, m, delta);
      err := AdjustNodePhandles(b, child, delta, p + [k]);
      ChildDone(n1, b.root, b.Strings(), p, m, k);
      InPlaceTrans(n, n1, b.root, p);
      MeaningIs(b, p);
      MeaningIs(b, p + [k]);
      if err != 0 {
        return;
      }
      BlobFacts(b);
      SubnodesInOrder(b.root, p, m);
      child := ReadNextSubnode(b.buf[b.offStruct..b.offStruct + b.sizeStruct], child);
      m := m + 1;
    }
    AllAdjusted(b, p, t, m, delta);
    err := 0;
  }

  /** The loop has passed the last subnode. */
  lemma AllAdjusted(b: Blob, p: Path, t: Tree, m: nat, delta: u32)
    requires b.Valid() && ValidPath(b.root, p) && WfNode(b.root) && KidOff(b.root, p, m) < 0
    requires Adjusting(t, Meaning(b, p), m, delta)
    ensures AdjustKids(t.kids, delta) == (0, Meaning(b, p).kids) && Meaning(b, p) == t.(kids := Meaning(b, p).kids)
  {
    hide *;
    BlobFacts(b);
    MeaningIs(b, p);
    KidEnd(b.root, p, b.Strings(), m);
    ViewIs(At(b.root, p), b.Strings());
    AdjustingBound(t, Meaning(b, p), m, delta);
    AdjustingEnd(t, Meaning(b, p), m, delta);
  }

  lemma AdjustingBound(t: Tree, u: Tree, m: nat, delta: u32)
    requires Adjusting(t, u, m, delta)
    ensures |u.kids| == |t.kids| && m <= |t.kids|
  {
    hide AdjustKids;
  }

  /** The subnode the loop stands at. */
  lemma KidHere(b: Blob, p: Path, m: nat)
    requires b.Valid() && ValidPath(b.root, p) && WfNode(b.root) && KidOff(b.root, p, m) >= 0
    ensures var k := KidItem(At(b.root, p).items, m);
            k < |At(b.root, p).items| && At(b.root, p).items[k].Child? &&
            ValidPath(b.root, p + [k]) && KidOff(b.root, p, m) == NodeOff(b.root, p + [k]) &&
            m < |Meaning(b, p).kids| && Meaning(b, p + [k]) == Meaning(b, p).kids[m]
  {
    hide WfNode, KidOff, KidItem, NodeOff, View, Encode, Proper, Scannable;
    BlobFacts(b);
    KidStep(b.root, p, b.Strings(), m);
    ViewIs(At(b.root, p), b.Strings());
    KidOffItem(b.root, p, m);
  }

  lemma KidOffItem(n: Node, p: Path, m: nat)
    requires WfNode(n) && ValidPath(n, p) && KidOff(n, p, m) >= 0
    ensures KidItem(At(n, p).items, m) < |At(n, p).items| && At(n, p).items[KidItem(At(n, p).items, m)].Child?
  {
    hide WfNode, KidItem, ItemOff;
  }

  /** What an edit in place of one subnode does to the node's meaning and to the loop over its subnodes. */
  lemma ChildDone(n: Node, n': Node, strs: Bytes, p: Path, m: nat, k: nat)
    requires WfNode(n) && ValidPath(n, p) && k < |At(n, p).items| && At(n, p).items[k].Child?
    requires k == KidItem(At(n, p).items, m) && InPlace(n, n', p + [k])
    ensures InPlace(n, n', p) && ValidPath(n', p) && ValidPath(n', p + [k]) && WfNode(n') &&
            KidOff(n', p, m) == KidOff(n, p, m)
    ensures m < |View(At(n, p), strs).kids|
    ensures View(At(n', p), strs) ==
            View(At(n, p), strs).(kids := View(At(n, p), strs).kids[m := View(At(n', p + [k]), strs)])
  {
    hide WfNode, KidOff, KidItem, View, Steady, ViewKids, Splice, Within;
    InPlaceChild(n, n', p, k);
    KidOffSame(n, n', p, m);
    KidItemFacts(At(n, p).items, 0, m, strs);
    ViewPutStep(At(n, p), k, At(n', p + [k]), strs);
  }
}
