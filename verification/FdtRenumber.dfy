/** Renumbering the phandles of an overlay tree, as functions on trees. */
module FdtRenumber {
  import opened Common
  import opened FdtBytes
  import opened FdtProps
  import opened FdtNodes
  import opened FdtView
  import opened FdtMeaning
  import opened FdtMerge

  const PHANDLE: Bytes := [112, 104, 97, 110, 100, 108, 101]
  const LINUX_PHANDLE: Bytes := [108, 105, 110, 117, 120, 44, 112, 104, 97, 110, 100, 108, 101]
  const MAX_U32 := 0xffff_ffff

  // ---- phandles ----

  /** The four bytes of a property of that size. */
  function WordOf(t: Tree, name: Bytes): Option<u32> {
    match PropOf(t, name)
    case Some(v) => if |v| == 4 then Some(ReadWord(v, 0)) else None
    case None => None
  }

  /** fdt_get_phandle */
  function GetPhandle(t: Tree): u32 {
    if WordOf(t, PHANDLE).Some? then WordOf(t, PHANDLE).value
    else if WordOf(t, LINUX_PHANDLE).Some? then WordOf(t, LINUX_PHANDLE).value
    else 0
  }

  /** Four bytes, most significant first. */
  function BigEndian(v: Bytes): nat
    requires |v| == 4
  {
    ((v[0] as int * 0x100 + v[1] as int) * 0x100 + v[2] as int) * 0x100 + v[3] as int
  }

  /** `phandle` counts before `linux,phandle`, and either only with four bytes. */
  lemma PhandleIs(t: Tree)
    ensures var new', old' := PropOf(t, PHANDLE), PropOf(t, LINUX_PHANDLE);
            GetPhandle(t) ==
            if new'.Some? && |new'.value| == 4 then BigEndian(new'.value)
            else if old'.Some? && |old'.value| == 4 then BigEndian(old'.value)
            else 0
  {
    hide PropOf;
  }

  predicate HasPhandle(t: Tree) {
    WordOf(t, PHANDLE).Some? || WordOf(t, LINUX_PHANDLE).Some?
  }

  /** The first node in preorder with that phandle, as fdt_node_offset_by_phandle looks for it. */
  function NodeByPhandle(t: Tree, h: u32): Option<seq<nat>>
    decreases t, 1
  {
    if GetPhandle(t) == h then Some([]) else NodeAmong(t.kids, h)
  }

  function NodeAmong(kids: seq<Tree>, h: u32): Option<seq<nat>>
    decreases kids, 0
  {
    if kids == [] then None
    else
      match NodeByPhandle(kids[0], h)
      case Some(q) => Some([0] + q)
      case None =>
        match NodeAmong(kids[1..], h)
        case Some(q) => if q == [] then None else Some([q[0] + 1] + q[1..])
        case None => None
  }

  // ---- renumbering ----

  /** overlay_phandle_add_offset: an error, or zero, and the node. A missing property is no error here. */
  function AddOffset(t: Tree, name: Bytes, delta: u32): (int, Tree) {
    match PropOf(t, name)
    case None => (0, t)
    case Some(v) =>
      if |v| != 4 then (-FDT_ERR_BADPHANDLE, t)
      else if ReadWord(v, 0) + delta >= MAX_U32 then (-FDT_ERR_NOPHANDLES, t)
      else (0, SetProp(t, name, Word(ReadWord(v, 0) + delta)))
  }

  /** The two properties of one node. */
  function AdjustProps(t: Tree, delta: u32): (int, Tree) {
    var (err, t1) := AddOffset(t, PHANDLE, delta);
    if err != 0 then (err, t1) else AddOffset(t1, LINUX_PHANDLE, delta)
  }

  /** overlay_adjust_node_phandles: the node, then its subnodes in order, up to the first error. */
  function Adjust(t: Tree, delta: u32): (int, Tree)
    decreases t, 1
  {
    var (err, t1) := AdjustProps(t, delta);
    if err != 0 then (err, t1)
    else
      var (err', kids) := AdjustKids(t.kids, delta);
      (err', t1.(kids := kids))
  }

  function AdjustKids(kids: seq<Tree>, delta: u32): (r: (int, seq<Tree>))
    ensures |r.1| == |kids|
    decreases kids, 0
  {
    if kids == [] then (0, [])
    else
      var (err, k) := Adjust(kids[0], delta);
      if err != 0 then (err, [k] + kids[1..])
      else
        var (err', rest) := AdjustKids(kids[1..], delta);
        (err', [k] + rest)
  }

  /** The property can be renumbered: it is absent, or a word that stays below the largest one. */
  predicate Fits(t: Tree, name: Bytes, delta: u32) {
    PropOf(t, name).Some? ==> WordOf(t, name).Some? && WordOf(t, name).value + delta < MAX_U32
  }

  /** What renumbering makes of a value. */
  function Raised(v: Option<Bytes>, delta: u32): Option<Bytes> {
    match v
    case Some(b) => if |b| == 4 && ReadWord(b, 0) + delta < MAX_U32 then Some(Word(ReadWord(b, 0) + delta)) else v
    case None => None
  }

  predicate IsPhandleName(name: Bytes) {
    name == PHANDLE || name == LINUX_PHANDLE
  }

  lemma NamesDiffer()
    ensures PHANDLE != LINUX_PHANDLE
  {
    assert |PHANDLE| != |LINUX_PHANDLE|;
  }

  lemma AddOffsetIs(t: Tree, name: Bytes, delta: u32, x: Bytes)
    ensures var (err, t') := AddOffset(t, name, delta);
            (err == 0 <==> Fits(t, name, delta)) && t'.name == t.name && t'.kids == t.kids &&
            PropOf(t', x) == if x == name then Raised(PropOf(t, x), delta) else PropOf(t, x)
  {
    hide PropOf, SetProp, ReadWord, Word;
    if Fits(t, name, delta) && PropOf(t, name).Some? {
      SetPropLookup(t, name, Word(ReadWord(PropOf(t, name).value, 0) + delta), x);
    }
  }

  lemma AdjustPropsIs(t: Tree, delta: u32, x: Bytes)
    ensures var (err, t') := AdjustProps(t, delta);
            (err == 0 <==> Fits(t, PHANDLE, delta) && Fits(t, LINUX_PHANDLE, delta)) && t'.name == t.name &&
              t'.kids == t.kids &&
            (err == 0 ==> PropOf(t', x) == if IsPhandleName(x) then Raised(PropOf(t, x), delta) else PropOf(t, x))
  {
    hide PropOf, AddOffset, Raised, ReadWord;
    NamesDiffer();
    AddOffsetIs(t, PHANDLE, delta, x);
    AddOffsetIs(t, PHANDLE, delta, LINUX_PHANDLE);
    AddOffsetIs(AddOffset(t, PHANDLE, delta).1, LINUX_PHANDLE, delta, x);
  }

  /** Every phandle of the tree can be renumbered. */
  ghost predicate Adjustable(t: Tree, delta: u32) {
    forall q :: InTree(t, q) ==> Fits(TreeAt(t, q), PHANDLE, delta) && Fits(TreeAt(t, q), LINUX_PHANDLE, delta)
  }

  ghost predicate KidsAdjustable(kids: seq<Tree>, delta: u32) {
    forall i :: 0 <= i < |kids| ==> Adjustable(kids[i], delta)
  }

  lemma AdjustableParts(t: Tree, delta: u32)
    ensures Adjustable(t, delta) <==>
            Fits(t, PHANDLE, delta) && Fits(t, LINUX_PHANDLE, delta) && KidsAdjustable(t.kids, delta)
  {
    hide Fits;
    if Adjustable(t, delta) {
      assert InTree(t, []) && TreeAt(t, []) == t;
      forall i, q | 0 <= i < |t.kids| && InTree(t.kids[i], q)
        ensures Fits(TreeAt(t.kids[i], q), PHANDLE, delta) && Fits(TreeAt(t.kids[i], q), LINUX_PHANDLE, delta)
      {
        assert ([i] + q)[1..] == q;
        assert InTree(t, [i] + q) && TreeAt(t, [i] + q) == TreeAt(t.kids[i], q);
      }
    } else if Fits(t, PHANDLE, delta) && Fits(t, LINUX_PHANDLE, delta) && KidsAdjustable(t.kids, delta) {
      forall q | InTree(t, q)
        ensures Fits(TreeAt(t, q), PHANDLE, delta) && Fits(TreeAt(t, q), LINUX_PHANDLE, delta)
      {
        if q != [] {
          assert Adjustable(t.kids[q[0]], delta) && InTree(t.kids[q[0]], q[1..]);
        }
      }
    }
  }

  /** Renumbering succeeds exactly when every phandle of the tree has room. */
  lemma {:induction false} AdjustSucceeds(t: Tree, delta: u32)
    ensures Adjust(t, delta).0 == 0 <==> Adjustable(t, delta)
    decreases t, 1
  {
    hide AdjustProps, Adjustable, Fits, KidsAdjustable;
    AdjustPropsIs(t, delta, []);
    AdjustableParts(t, delta);
    AdjustKidsSucceed(t.kids, delta);
  }

  lemma {:induction false} AdjustKidsSucceed(kids: seq<Tree>, delta: u32)
    ensures AdjustKids(kids, delta).0 == 0 <==> KidsAdjustable(kids, delta)
    decreases kids, 0
  {
    hide Adjust, Adjustable;
    if kids != [] {
      AdjustSucceeds(kids[0], delta);
      AdjustKidsSucceed(kids[1..], delta);
      if KidsAdjustable(kids[1..], delta) && Adjustable(kids[0], delta) {
        forall i | 0 <= i < |kids|
          ensures Adjustable(kids[i], delta)
        {
          assert i > 0 ==> kids[i] == kids[1..][i - 1];
        }
      }
    }
  }

  lemma {:induction false} AdjustedKid(kids: seq<Tree>, delta: u32, i: nat)
    requires AdjustKids(kids, delta).0 == 0 && i < |kids|
    ensures AdjustKids(kids, delta).1[i] == Adjust(kids[i], delta).1 && Adjust(kids[i], delta).0 == 0
    decreases kids
  {
    hide Adjust;
    if i > 0 {
      AdjustedKid(kids[1..], delta, i - 1);
    }
  }

  lemma AdjustParts(t: Tree, delta: u32)
    requires Adjust(t, delta).0 == 0
    ensures AdjustProps(t, delta).0 == 0 && AdjustKids(t.kids, delta).0 == 0
    ensures Adjust(t, delta).1 == AdjustProps(t, delta).1.(kids := AdjustKids(t.kids, delta).1)
  {
    hide AdjustProps;
  }

  /**
   After renumbering each node has the properties it had, with the two phandle properties raised and no other change.
   */
  lemma {:induction false} AdjustedAt(t: Tree, delta: u32, q: seq<nat>, x: Bytes)
    requires Adjust(t, delta).0 == 0
    ensures var t' := Adjust(t, delta).1;
            (InTree(t', q) <==> InTree(t, q)) &&
            (InTree(t, q) ==>
               TreeAt(t', q).name == TreeAt(t, q).name &&
               PropOf(TreeAt(t', q), x) ==
               if IsPhandleName(x) then Raised(PropOf(TreeAt(t, q), x), delta) else PropOf(TreeAt(t, q), x))
    decreases |q|
  {
    hide AdjustProps, PropOf, Raised, Adjust, AdjustKids, IsPhandleName;
    AdjustParts(t, delta);
    var t' := Adjust(t, delta).1;
    AdjustPropsIs(t, delta, x);
    if q == [] {
      SameProps(AdjustProps(t, delta).1, t'.kids, x);
    } else if q[0] < |t.kids| {
      AdjustedKid(t.kids, delta, q[0]);
      AdjustedAt(t.kids[q[0]], delta, q[1..], x);
    }
  }

  lemma SameProps(t: Tree, kids: seq<Tree>, x: Bytes)
    ensures PropOf(t.(kids := kids), x) == PropOf(t, x)
  {
  }

  lemma ReadBack(w: u32)
    ensures |Word(w)| == 4 && ReadWord(Word(w), 0) == w
  {
    hide Word, ReadWord;
    assert Has(Word(w), 0, Word(w));
    WordRoundTrip(Word(w), 0, w);
  }

  /** The phandle of every node that has one is raised, and no node gets or loses one. */
  lemma RaisedPhandle(t: Tree, delta: u32, q: seq<nat>)
    requires Adjust(t, delta).0 == 0 && InTree(t, q)
    ensures var t' := Adjust(t, delta).1;
            InTree(t', q) && HasPhandle(TreeAt(t', q)) == HasPhandle(TreeAt(t, q)) &&
            GetPhandle(TreeAt(t', q)) == GetPhandle(TreeAt(t, q)) +
              (if HasPhandle(TreeAt(t, q)) then delta else 0) < MAX_U32
  {
    hide Adjust, PropOf, ReadWord, Adjustable, Word;
    AdjustedAt(t, delta, q, PHANDLE);
    AdjustedAt(t, delta, q, LINUX_PHANDLE);
    AdjustSucceeds(t, delta);
    AdjustableAt(t, delta, q);
    var u := TreeAt(t, q);
    RaisedWord(PropOf(u, PHANDLE), delta);
    RaisedWord(PropOf(u, LINUX_PHANDLE), delta);
  }

  lemma AdjustableAt(t: Tree, delta: u32, q: seq<nat>)
    requires Adjustable(t, delta) && InTree(t, q)
    ensures Fits(TreeAt(t, q), PHANDLE, delta) && Fits(TreeAt(t, q), LINUX_PHANDLE, delta)
  {
    hide Fits;
  }

  lemma RaisedWord(v: Option<Bytes>, delta: u32)
    ensures v.Some? && |v.value| == 4 && ReadWord(v.value, 0) + delta < MAX_U32 ==>
              Raised(v, delta).Some? && |Raised(v, delta).value| == 4 &&
              ReadWord(Raised(v, delta).value, 0) == ReadWord(v.value, 0) + delta
  {
    hide ReadWord, Word;
    if v.Some? && |v.value| == 4 && ReadWord(v.value, 0) + delta < MAX_U32 {
      ReadBack(ReadWord(v.value, 0) + delta);
    }
  }

  /** `max` is at least every phandle of the tree. */
  ghost predicate AboveAll(t: Tree, max: u32) {
    forall q :: InTree(t, q) ==> GetPhandle(TreeAt(t, q)) <= max
  }

  /**
   Renumbered by the largest phandle of the base, an overlay phandle that was not zero lies above every phandle of
   the base; one that was zero does not: it becomes the largest one itself.
   */
  lemma AboveTheBase(base: Tree, t: Tree, max: u32, q: seq<nat>, bq: seq<nat>)
    requires Adjust(t, max).0 == 0 && AboveAll(base, max) && InTree(t, q) && InTree(base, bq)
    ensures InTree(Adjust(t, max).1, q)
    ensures GetPhandle(TreeAt(t, q)) != 0 ==> GetPhandle(TreeAt(Adjust(t, max).1, q)) > GetPhandle(TreeAt(base, bq))
    ensures GetPhandle(TreeAt(base, bq)) == max ==>
              (GetPhandle(TreeAt(Adjust(t, max).1, q)) > max <==> GetPhandle(TreeAt(t, q)) != 0)
  {
    hide Adjust, WordOf;
    RaisedPhandle(t, max, q);
  }

  /** A node found by its phandle is found by the raised one. */
  lemma {:induction false} FoundAgain(t: Tree, delta: u32, h: u32)
    requires Adjust(t, delta).0 == 0 && 0 < h && h + delta <= MAX_U32
    ensures NodeByPhandle(Adjust(t, delta).1, h + delta) == NodeByPhandle(t, h)
    decreases t, 1
  {
    hide Adjust, AdjustProps, AdjustKids, GetPhandle, NodeAmong, HasPhandle;
    AdjustParts(t, delta);
    RaisedPhandle(t, delta, []);
    NoPhandle(t);
    FoundAmongAgain(t.kids, delta, h);
  }

  lemma NoPhandle(t: Tree)
    ensures !HasPhandle(t) ==> GetPhandle(t) == 0
  {
    hide WordOf;
  }

  lemma {:induction false} FoundAmongAgain(kids: seq<Tree>, delta: u32, h: u32)
    requires AdjustKids(kids, delta).0 == 0 && 0 < h && h + delta <= MAX_U32
    ensures NodeAmong(AdjustKids(kids, delta).1, h + delta) == NodeAmong(kids, h)
    decreases kids, 0
  {
    hide Adjust, NodeByPhandle;
    if kids != [] {
      FoundAgain(kids[0], delta, h);
      FoundAmongAgain(kids[1..], delta, h);
      assert AdjustKids(kids, delta).1[1..] == AdjustKids(kids[1..], delta).1;
    }
  }

  /** What a lookup finds is a node with that phandle. */
  lemma {:induction false} FoundHas(t: Tree, h: u32)
    requires NodeByPhandle(t, h).Some?
    ensures var q := NodeByPhandle(t, h).value; InTree(t, q) && GetPhandle(TreeAt(t, q)) == h
    decreases t, 1
  {
    hide GetPhandle, NodeAmong;
    if GetPhandle(t) != h {
      FoundAmongHas(t.kids, h);
    }
  }

  lemma {:induction false} FoundAmongHas(kids: seq<Tree>, h: u32)
    requires NodeAmong(kids, h).Some?
    ensures var q := NodeAmong(kids, h).value;
            q != [] && q[0] < |kids| && InTree(kids[q[0]], q[1..]) && GetPhandle(TreeAt(kids[q[0]], q[1..])) == h
    decreases kids, 0
  {
    hide GetPhandle, NodeByPhandle, InTree, TreeAt;
    if NodeByPhandle(kids[0], h).Some? {
      FoundHas(kids[0], h);
      assert ([0] + NodeByPhandle(kids[0], h).value)[1..] == NodeByPhandle(kids[0], h).value;
    } else {
      FoundAmongHas(kids[1..], h);
      var q := NodeAmong(kids[1..], h).value;
      assert ([q[0] + 1] + q[1..])[1..] == q[1..];
    }
  }

  // ---- lookups by phandle ----

  lemma {:induction false} SameLookup(t: Tree, u: Tree, h: u32)
    requires forall q :: InTree(u, q) <==> InTree(t, q)
    requires forall q :: InTree(t, q) && InTree(u, q) ==> GetPhandle(TreeAt(u, q)) == GetPhandle(TreeAt(t, q))
    ensures NodeByPhandle(u, h) == NodeByPhandle(t, h)
    decreases t, 1
  {
    hide GetPhandle, NodeAmong;
    assert InTree(t, []) && InTree(u, []) && TreeAt(t, []) == t && TreeAt(u, []) == u;
    SameKids(t, u);
    SameAmong(t.kids, u.kids, h);
  }

  lemma KidPath(t: Tree, k: nat)
    ensures InTree(t, [k]) <==> k < |t.kids|
  {
  }

  lemma SameKids(t: Tree, u: Tree)
    requires forall q :: InTree(u, q) <==> InTree(t, q)
    requires forall q :: InTree(t, q) && InTree(u, q) ==> GetPhandle(TreeAt(u, q)) == GetPhandle(TreeAt(t, q))
    ensures |u.kids| == |t.kids|
    ensures forall i :: 0 <= i < |t.kids| ==> Alike(t.kids[i], u.kids[i])
  {
    hide GetPhandle;
    KidPath(t, |u.kids|);
    KidPath(u, |u.kids|);
    KidPath(t, |t.kids|);
    KidPath(u, |t.kids|);
    forall i, q | 0 <= i < |t.kids|
      ensures InTree(u.kids[i], q) <==> InTree(t.kids[i], q)
      ensures InTree(t.kids[i], q) && InTree(u.kids[i], q) ==>
              GetPhandle(TreeAt(u.kids[i], q)) == GetPhandle(TreeAt(t.kids[i], q))
    {
      var r := [i] + q;
      assert r[1..] == q && (InTree(u, r) <==> InTree(u.kids[i], q)) && (InTree(t, r) <==> InTree(t.kids[i], q));
    }
  }

  /** The same nodes with the same phandles. */
  ghost predicate Alike(t: Tree, u: Tree) {
    (forall q :: InTree(u, q) <==> InTree(t, q)) &&
    forall q :: InTree(t, q) && InTree(u, q) ==> GetPhandle(TreeAt(u, q)) == GetPhandle(TreeAt(t, q))
  }

  lemma {:induction false} SameAmong(a: seq<Tree>, b: seq<Tree>, h: u32)
    requires |a| == |b| && forall i :: 0 <= i < |a| ==> Alike(a[i], b[i])
    ensures NodeAmong(b, h) == NodeAmong(a, h)
    decreases a, 0
  {
    hide GetPhandle, NodeByPhandle;
    if a != [] {
      assert Alike(a[0], b[0]);
      SameLookup(a[0], b[0], h);
      forall i | 0 <= i < |a[1..]|
        ensures Alike(a[1..][i], b[1..][i])
      {
        assert a[1..][i] == a[i + 1] && b[1..][i] == b[i + 1];
      }
      hide Alike;
      SameAmong(a[1..], b[1..], h);
    }
  }

  lemma HasIt(t: Tree)
    ensures GetPhandle(t) != 0 ==> HasPhandle(t)
    ensures MAX_U32 == 0xffff_ffff
  {
    hide WordOf;
  }
}
