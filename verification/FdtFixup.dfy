/**
 The references that the fixup nodes of an overlay list, as functions on trees: which places each node is
 given, what they make of its values, and what renumbering keeps of every reference.
 */
module FdtFixup {
  import opened Common
  import opened FdtBytes
  import opened FdtNodes
  import opened FdtProps
  import opened FdtView
  import opened FdtMeaning
  import opened FdtMerge
  import opened FdtRenumber

  // ---- words ----

  /** The words of a fixup property: the places in the value where references lie. */
  function Places(v: Bytes): (r: seq<u32>)
    ensures |r| == |v| / 4
    decreases |v|
  {
    if |v| < 4 then [] else [ReadWord(v, 0)] + Places(v[4..])
  }

  /** From here on the end of a word wraps around. */
  const WRAPS := 0xffff_fffc

  /** The test of fdt_setprop_inplace_namelen_partial for a word: the end of the place, as a 32-bit sum. */
  predicate PlaceRefused(v: Bytes, off: u32) {
    Wrap32(off + 4) > |v|
  }

  /** The word at `off` raised, wrapping around; a store that does not lie in the value leaves the value. */
  function FixWord(v: Bytes, off: u32, delta: u32): (r: Bytes)
    ensures |r| == |v|
  {
    if off + 4 <= |v| then v[..off] + Word(Wrap32(ReadWord(v, off) + delta)) + v[off + 4..] else v
  }

  /** The words at the places raised in turn, up to the first place that is refused. */
  function FixWords(v: Bytes, places: seq<u32>, delta: u32): (r: (int, Bytes))
    ensures |r.1| == |v|
    decreases |places|
  {
    if places == [] then (0, v)
    else if PlaceRefused(v, places[0]) then (-FDT_ERR_BADOVERLAY, v)
    else FixWords(FixWord(v, places[0], delta), places[1..], delta)
  }

  /** One property of a fixup node applied to the tree node. */
  function FixProp(t: Tree, name: Bytes, fixup: Bytes, delta: u32): (int, Tree) {
    if |fixup| % 4 != 0 then (-FDT_ERR_BADOVERLAY, t)
    else
      match PropOf(t, name)
      case None => (-FDT_ERR_BADOVERLAY, t)
      case Some(v) =>
        var (err, v') := FixWords(v, Places(fixup), delta);
        (err, SetProp(t, name, v'))
  }

  function FixProps(t: Tree, props: seq<(Bytes, Bytes)>, delta: u32): (int, Tree)
    decreases |props|
  {
    if props == [] then (0, t)
    else
      var (err, t1) := FixProp(t, props[0].0, props[0].1, delta);
      if err != 0 then (err, t1) else FixProps(t1, props[1..], delta)
  }

  /** overlay_update_local_node_references: the properties of the fixup node, then its subnodes by name. */
  function Fix(t: Tree, f: Tree, delta: u32): (int, Tree)
    decreases f, 2
  {
    var (err, t1) := FixProps(t, f.props, delta);
    if err != 0 then (err, t1) else FixKids(t1, f.kids, delta)
  }

  function FixKids(t: Tree, kids: seq<Tree>, delta: u32): (int, Tree)
    decreases kids, 0
  {
    if kids == [] then (0, t)
    else
      var (err, t1) := FixKid(t, kids[0], delta);
      if err != 0 then (err, t1) else FixKids(t1, kids[1..], delta)
  }

  function FixKid(t: Tree, k: Tree, delta: u32): (int, Tree)
    decreases k, 3
  {
    var i := MatchTree(t.kids, k.name);
    if i >= |t.kids| then (-FDT_ERR_BADOVERLAY, t)
    else
      var (err, u) := Fix(t.kids[i], k, delta);
      (err, t.(kids := t.kids[i := u]))
  }

  // ---- one value ----

  /** Two words of four bytes do not overlap. */
  predicate Clear(a: nat, b: nat) {
    a + 4 <= b || b + 4 <= a
  }

  lemma FixWordThere(v: Bytes, off: u32, delta: u32)
    requires off + 4 <= |v|
    ensures ReadWord(FixWord(v, off, delta), off) == Wrap32(ReadWord(v, off) + delta)
  {
    hide ReadWord, Word, Wrap32;
    var w := Wrap32(ReadWord(v, off) + delta);
    HasMiddle(v[..off], Word(w), v[off + 4..]);
    WordRoundTrip(FixWord(v, off, delta), off, w);
  }

  /** A word is read from its four bytes. */
  lemma SameWord(a: Bytes, b: Bytes, x: nat)
    requires x + 4 <= |a| && x + 4 <= |b| && forall k :: x <= k < x + 4 ==> a[k] == b[k]
    ensures ReadWord(a, x) == ReadWord(b, x)
  {
  }

  lemma FixWordElsewhere(v: Bytes, off: u32, delta: u32, x: u32)
    requires x + 4 <= |v| && Clear(x, off)
    ensures ReadWord(FixWord(v, off, delta), x) == ReadWord(v, x)
  {
    hide ReadWord, Word, Wrap32;
    var r := FixWord(v, off, delta);
    forall k | x <= k < x + 4
      ensures r[k] == v[k]
    {
    }
    SameWord(r, v, x);
  }

  /** How often a place is listed. */
  function Count(places: seq<u32>, x: u32): nat {
    if places == [] then 0 else (if places[0] == x then 1 else 0) + Count(places[1..], x)
  }

  /** No listed place overlaps the word at `x` without being that word. */
  ghost predicate Whole(places: seq<u32>, x: u32) {
    forall i :: 0 <= i < |places| ==> places[i] == x || Clear(x, places[i])
  }

  /** A word that is listed `k` times is raised `k` times. */
  lemma {:induction false} FixWordsAt(v: Bytes, places: seq<u32>, delta: u32, x: u32)
    requires FixWords(v, places, delta).0 == 0 && x + 4 <= |v| && Whole(places, x)
    ensures ReadWord(FixWords(v, places, delta).1, x) == Wrap32(ReadWord(v, x) + Count(places, x) * delta)
    decreases |places|
  {
    hide ReadWord, FixWord, Wrap32, PlaceRefused, Clear;
    if places == [] {
      ItsOwnWord(ReadWord(v, x));
    } else {
      var rest, v1 := places[1..], FixWord(v, places[0], delta);
      if x == places[0] {
        FixWordThere(v, x, delta);
      } else {
        FixWordElsewhere(v, places[0], delta, x);
      }
      FixWordsAt(v1, rest, delta, x);
      OneMore(ReadWord(v, x), Count(rest, x), delta);
    }
  }

  lemma ItsOwnWord(w: u32)
    ensures Wrap32(w) == w
  {
  }

  lemma OneMore(w: u32, k: nat, delta: u32)
    ensures Wrap32(Wrap32(w + delta) + k * delta) == Wrap32(w + (1 + k) * delta)
  {
    assert (1 + k) * delta == delta + k * delta;
    WrapTwice(w + delta, k * delta);
  }

  lemma WrapTwice(a: int, b: int)
    ensures Wrap32(Wrap32(a) + b) == Wrap32(a + b)
  {
  }

  lemma {:induction false} FixWordsSplit(v: Bytes, a: seq<u32>, b: seq<u32>, delta: u32)
    requires FixWords(v, a, delta).0 == 0
    ensures FixWords(v, a + b, delta) == FixWords(FixWords(v, a, delta).1, b, delta)
    decreases |a|
  {
    hide FixWord, PlaceRefused;
    if a == [] {
      assert a + b == b;
    } else {
      assert (a + b)[1..] == a[1..] + b;
      FixWordsSplit(FixWord(v, a[0], delta), a[1..], b, delta);
    }
  }

  lemma WrapEnd(off: u32)
    ensures Wrap32(off + 4) == if off < WRAPS then off + 4 else off - WRAPS
  {
  }

  lemma {:induction false} InBounds(v: Bytes, places: seq<u32>, delta: u32, x: u32)
    requires FixWords(v, places, delta).0 == 0 && x in places && x < WRAPS
    ensures x + 4 <= |v|
    decreases |places|
  {
    hide FixWord, Wrap32;
    WrapEnd(places[0]);
    if x != places[0] {
      InBounds(FixWord(v, places[0], delta), places[1..], delta, x);
    }
  }

  /**
   A place that does not lie in the value is answered with an error, except when the 32-bit sum of its end wraps
   and is no larger than the value: then the call succeeds and no word of the value is raised.
   */
  lemma PlaceOutside(v: Bytes, off: u32, delta: u32)
    requires off + 4 > |v|
    ensures FixWords(v, [off], delta) ==
            (if off >= WRAPS && off - WRAPS <= |v| then 0 else -FDT_ERR_BADOVERLAY, v)
  {
    hide ReadWord, Word, Wrap32;
    WrapEnd(off);
    var rest := [off][1..];
    assert rest == [];
  }

  // ---- one node ----

  /** None of the places is refused; a missing property is given none. */
  predicate Takes(v: Option<Bytes>, places: seq<u32>, delta: u32) {
    match v
    case Some(b) => FixWords(b, places, delta).0 == 0
    case None => places == []
  }

  /** A value with the words at the places raised. */
  function Given(v: Option<Bytes>, places: seq<u32>, delta: u32): Option<Bytes> {
    match v
    case Some(b) => Some(FixWords(b, places, delta).1)
    case None => None
  }

  lemma GivenNone(v: Option<Bytes>, delta: u32)
    ensures Takes(v, [], delta) && Given(v, [], delta) == v
  {
  }

  lemma GivenTwice(v: Option<Bytes>, a: seq<u32>, b: seq<u32>, delta: u32)
    requires Takes(v, a, delta) && Takes(Given(v, a, delta), b, delta)
    ensures Takes(v, a + b, delta) && Given(v, a + b, delta) == Given(Given(v, a, delta), b, delta)
  {
    hide FixWords;
    if v.Some? {
      FixWordsSplit(v.value, a, b, delta);
    }
  }

  /** The places that fixup properties of that name list, in order. */
  function PropPlaces(props: seq<(Bytes, Bytes)>, x: Bytes): seq<u32> {
    if props == [] then []
    else (if props[0].0 == x then Places(props[0].1) else []) + PropPlaces(props[1..], x)
  }

  lemma FixPropIs(t: Tree, name: Bytes, fixup: Bytes, delta: u32, x: Bytes)
    ensures var (err, t') := FixProp(t, name, fixup, delta);
            t'.name == t.name && t'.kids == t.kids &&
            (err == 0 ==>
               var places := if x == name then Places(fixup) else [];
               Takes(PropOf(t, x), places, delta) && PropOf(t', x) == Given(PropOf(t, x), places, delta))
  {
    hide PropOf, SetProp, FixWords, Places;
    GivenNone(PropOf(t, x), delta);
    if PropOf(t, name).Some? {
      var v' := FixWords(PropOf(t, name).value, Places(fixup), delta).1;
      SetPropLookup(t, name, v', x);
    }
  }

  lemma {:induction false} FixPropsIs(t: Tree, props: seq<(Bytes, Bytes)>, delta: u32, x: Bytes)
    ensures var (err, t') := FixProps(t, props, delta);
            t'.name == t.name && t'.kids == t.kids &&
            (err == 0 ==>
               Takes(PropOf(t, x), PropPlaces(props, x), delta) &&
               PropOf(t', x) == Given(PropOf(t, x), PropPlaces(props, x), delta))
    decreases |props|
  {
    hide PropOf, FixProp, Places, Takes, Given;
    if props == [] {
      GivenNone(PropOf(t, x), delta);
    } else {
      var (err, t1) := FixProp(t, props[0].0, props[0].1, delta);
      FixPropIs(t, props[0].0, props[0].1, delta, x);
      FixPropsIs(t1, props[1..], delta, x);
      if err == 0 && FixProps(t1, props[1..], delta).0 == 0 {
        GivenTwice(PropOf(t, x), if x == props[0].0 then Places(props[0].1) else [], PropPlaces(props[1..], x), delta);
      }
    }
  }

  // ---- all nodes ----

  /** The places that the fixup nodes below `f` list for property `x` of the node at `q`, in the order they are used. */
  function AllPlaces(t: Tree, f: Tree, q: seq<nat>, x: Bytes): seq<u32>
    decreases f, 1
  {
    if q == [] then PropPlaces(f.props, x)
    else if q[0] >= |t.kids| then []
    else KidPlaces(t, f.kids, q, x)
  }

  function KidPlaces(t: Tree, kids: seq<Tree>, q: seq<nat>, x: Bytes): seq<u32>
    requires q != [] && q[0] < |t.kids|
    decreases kids, 0
  {
    if kids == [] then []
    else
      (if MatchTree(t.kids, kids[0].name) == q[0] then AllPlaces(t.kids[q[0]], kids[0], q[1..], x) else []) +
      KidPlaces(t, kids[1..], q, x)
  }

  /** The same tree but for the properties. */
  ghost predicate SameNames(t: Tree, u: Tree)
    decreases t
  {
    u.name == t.name && |u.kids| == |t.kids| && forall i :: 0 <= i < |t.kids| ==> SameNames(t.kids[i], u.kids[i])
  }

  lemma {:induction false} NamesSelf(t: Tree)
    ensures SameNames(t, t)
    decreases t
  {
    forall i | 0 <= i < |t.kids|
      ensures SameNames(t.kids[i], t.kids[i])
    {
      NamesSelf(t.kids[i]);
    }
  }

  lemma {:induction false} NamesTrans(a: Tree, b: Tree, c: Tree)
    requires SameNames(a, b) && SameNames(b, c)
    ensures SameNames(a, c)
    decreases a
  {
    forall i | 0 <= i < |a.kids|
      ensures SameNames(a.kids[i], c.kids[i])
    {
      NamesTrans(a.kids[i], b.kids[i], c.kids[i]);
    }
  }

  lemma NamesPut(t: Tree, i: nat, u: Tree)
    requires i < |t.kids| && SameNames(t.kids[i], u)
    ensures SameNames(t, t.(kids := t.kids[i := u]))
  {
    hide SameNames;
    forall j | 0 <= j < |t.kids|
      ensures SameNames(t.kids[j], t.kids[i := u][j])
    {
      NamesSelf(t.kids[j]);
    }
    NamesAre(t, t.(kids := t.kids[i := u]));
  }

  lemma NamesAre(t: Tree, u: Tree)
    ensures SameNames(t, u) <==>
            u.name == t.name && |u.kids| == |t.kids| &&
            forall i :: 0 <= i < |t.kids| ==> SameNames(t.kids[i], u.kids[i])
  {
  }

  lemma {:induction false} FixNames(t: Tree, f: Tree, delta: u32)
    ensures SameNames(t, Fix(t, f, delta).1)
    decreases f, 2
  {
    hide FixProps, FixKids, SameNames;
    FixPropsIs(t, f.props, delta, []);
    var t1 := FixProps(t, f.props, delta).1;
    NamesSelf(t);
    NamesAre(t, t);
    NamesAre(t, t1);
    FixKidsNames(t1, f.kids, delta);
    NamesTrans(t, t1, FixKids(t1, f.kids, delta).1);
  }

  lemma {:induction false} FixKidsNames(t: Tree, kids: seq<Tree>, delta: u32)
    ensures SameNames(t, FixKids(t, kids, delta).1)
    decreases kids, 0
  {
    hide FixKid, SameNames;
    NamesSelf(t);
    if kids != [] {
      var t1 := FixKid(t, kids[0], delta).1;
      FixKidNames(t, kids[0], delta);
      FixKidsNames(t1, kids[1..], delta);
      NamesTrans(t, t1, FixKids(t1, kids[1..], delta).1);
    }
  }

  lemma {:induction false} FixKidNames(t: Tree, k: Tree, delta: u32)
    ensures SameNames(t, FixKid(t, k, delta).1)
    decreases k, 3
  {
    hide Fix, SameNames, MatchTree;
    NamesSelf(t);
    var i := MatchTree(t.kids, k.name);
    if i < |t.kids| {
      FixNames(t.kids[i], k, delta);
      NamesPut(t, i, Fix(t.kids[i], k, delta).1);
    }
  }

  lemma {:induction false} SameMatch(a: seq<Tree>, b: seq<Tree>, name: Bytes)
    requires |b| == |a| && forall i :: 0 <= i < |a| ==> b[i].name == a[i].name
    ensures MatchTree(b, name) == MatchTree(a, name)
    decreases |a|
  {
    hide NodeNameEq;
    if a != [] {
      SameMatch(a[1..], b[1..], name);
    }
  }

  /** Which places a node is given depends on the names of the tree only. */
  lemma {:induction false} PlacesSame(t: Tree, u: Tree, f: Tree, q: seq<nat>, x: Bytes)
    requires SameNames(t, u)
    ensures AllPlaces(u, f, q, x) == AllPlaces(t, f, q, x)
    decreases f, 1
  {
    hide SameNames, PropPlaces, KidPlaces;
    NamesAre(t, u);
    if q != [] && q[0] < |t.kids| {
      KidPlacesSame(t, u, f.kids, q, x);
    }
  }

  lemma {:induction false} KidPlacesSame(t: Tree, u: Tree, kids: seq<Tree>, q: seq<nat>, x: Bytes)
    requires SameNames(t, u) && q != [] && q[0] < |t.kids|
    ensures |u.kids| == |t.kids| && KidPlaces(u, kids, q, x) == KidPlaces(t, kids, q, x)
    decreases kids, 0
  {
    hide SameNames, AllPlaces, MatchTree;
    NamesAre(t, u);
    if kids != [] {
      forall i | 0 <= i < |t.kids|
        ensures u.kids[i].name == t.kids[i].name
      {
        NamesAre(t.kids[i], u.kids[i]);
      }
      SameMatch(t.kids, u.kids, kids[0].name);
      PlacesSame(t.kids[q[0]], u.kids[q[0]], kids[0], q[1..], x);
      KidPlacesSame(t, u, kids[1..], q, x);
    }
  }

  /** At `q` the places have been used on property `x`, and nothing else has happened to it. */
  ghost predicate GivenAt(t: Tree, t': Tree, q: seq<nat>, x: Bytes, places: seq<u32>, delta: u32) {
    (InTree(t', q) <==> InTree(t, q)) &&
    (InTree(t, q) ==>
       Takes(PropOf(TreeAt(t, q), x), places, delta) &&
       PropOf(TreeAt(t', q), x) == Given(PropOf(TreeAt(t, q), x), places, delta))
  }

  lemma GivenAtNone(t: Tree, q: seq<nat>, x: Bytes, delta: u32)
    ensures GivenAt(t, t, q, x, [], delta)
  {
    hide InTree, TreeAt, PropOf, Takes, Given;
    if InTree(t, q) {
      GivenNone(PropOf(TreeAt(t, q), x), delta);
    }
  }

  lemma GivenAtTwice(t: Tree, t1: Tree, t2: Tree, q: seq<nat>, x: Bytes, a: seq<u32>, b: seq<u32>, delta: u32)
    requires GivenAt(t, t1, q, x, a, delta) && GivenAt(t1, t2, q, x, b, delta)
    ensures GivenAt(t, t2, q, x, a + b, delta)
  {
    hide InTree, TreeAt, PropOf, Takes, Given;
    if InTree(t, q) {
      GivenTwice(PropOf(TreeAt(t, q), x), a, b, delta);
    }
  }

  /** In one subnode. */
  lemma GivenAtKid(t: Tree, i: nat, u: Tree, q: seq<nat>, x: Bytes, places: seq<u32>, delta: u32)
    requires q != [] && i < |t.kids| && (i == q[0] ==> GivenAt(t.kids[i], u, q[1..], x, places, delta))
    ensures GivenAt(t, t.(kids := t.kids[i := u]), q, x, if i == q[0] then places else [], delta)
  {
    hide PropOf, Takes, Given;
    if i == q[0] {
    } else {
      GivenAtNone(t, q, x, delta);
    }
  }

  lemma SamePropAt(t: Tree, u: Tree, x: Bytes)
    requires u.props == t.props
    ensures PropOf(u, x) == PropOf(t, x)
  {
  }

  /** After the fixups each node has the properties it had, with the words at its places raised and no other change. */
  lemma {:induction false} FixedAt(t: Tree, f: Tree, delta: u32, q: seq<nat>, x: Bytes)
    requires Fix(t, f, delta).0 == 0
    ensures GivenAt(t, Fix(t, f, delta).1, q, x, AllPlaces(t, f, q, x), delta)
    decreases f, 2
  {
    hide *;
    FixIs(t, f, delta);
    var t1 := FixProps(t, f.props, delta).1;
    FixPropsIs(t, f.props, delta, x);
    AllPlacesIs(t, f, q, x);
    if q == [] {
      FixKidsProps(t1, f.kids, delta);
      GivenAtRoot(t, t1, Fix(t, f, delta).1, f, x, delta);
    } else if q[0] < |t.kids| {
      FixedKidsAt(t1, f.kids, delta, q, x);
      KidsOnly(t, t1, Fix(t, f, delta).1, f, q, x, delta);
    } else {
      FixKidsProps(t1, f.kids, delta);
      OutOfTree(t, Fix(t, f, delta).1, q, x, delta);
    }
  }

  lemma FixIs(t: Tree, f: Tree, delta: u32)
    requires Fix(t, f, delta).0 == 0
    ensures FixProps(t, f.props, delta).0 == 0
    ensures Fix(t, f, delta) == FixKids(FixProps(t, f.props, delta).1, f.kids, delta)
  {
    hide FixProps, FixKids;
  }

  lemma AllPlacesIs(t: Tree, f: Tree, q: seq<nat>, x: Bytes)
    ensures q == [] ==> AllPlaces(t, f, q, x) == PropPlaces(f.props, x)
    ensures q != [] && q[0] < |t.kids| ==> AllPlaces(t, f, q, x) == KidPlaces(t, f.kids, q, x)
    ensures q != [] && q[0] >= |t.kids| ==> AllPlaces(t, f, q, x) == []
  {
    hide PropPlaces, KidPlaces;
  }

  lemma {:induction false} FixKidsProps(t: Tree, kids: seq<Tree>, delta: u32)
    ensures FixKids(t, kids, delta).1.props == t.props && |FixKids(t, kids, delta).1.kids| == |t.kids|
    decreases kids
  {
    hide Fix, MatchTree;
    if kids != [] {
      FixKidsProps(FixKid(t, kids[0], delta).1, kids[1..], delta);
    }
  }

  lemma GivenAtRoot(t: Tree, t1: Tree, t': Tree, f: Tree, x: Bytes, delta: u32)
    requires Takes(PropOf(t, x), PropPlaces(f.props, x), delta)
    requires PropOf(t1, x) == Given(PropOf(t, x), PropPlaces(f.props, x), delta) && t'.props == t1.props
    ensures GivenAt(t, t', [], x, PropPlaces(f.props, x), delta)
  {
    hide PropOf, Takes, Given, PropPlaces;
    SamePropAt(t1, t', x);
  }

  lemma KidsOnly(t: Tree, t1: Tree, t': Tree, f: Tree, q: seq<nat>, x: Bytes, delta: u32)
    requires q != [] && t1.kids == t.kids && q[0] < |t.kids|
    requires GivenAt(t1, t', q, x, KidPlaces(t1, f.kids, q, x), delta) && t1.name == t.name
    ensures GivenAt(t, t', q, x, KidPlaces(t, f.kids, q, x), delta)
  {
    hide KidPlaces, PropOf, Takes, Given, SameNames;
    NamesSelf(t);
    NamesAre(t, t);
    NamesAre(t, t1);
    KidPlacesSame(t, t1, f.kids, q, x);
  }

  lemma OutOfTree(t: Tree, t': Tree, q: seq<nat>, x: Bytes, delta: u32)
    requires q != [] && |t'.kids| == |t.kids| <= q[0]
    ensures GivenAt(t, t', q, x, [], delta)
  {
  }

  lemma {:induction false} FixedKidsAt(t: Tree, kids: seq<Tree>, delta: u32, q: seq<nat>, x: Bytes)
    requires FixKids(t, kids, delta).0 == 0 && q != [] && q[0] < |t.kids|
    ensures GivenAt(t, FixKids(t, kids, delta).1, q, x, KidPlaces(t, kids, q, x), delta)
    decreases kids, 0
  {
    hide Fix, FixKid, MatchTree, AllPlaces, GivenAt, SameNames;
    if kids == [] {
      GivenAtNone(t, q, x, delta);
    } else {
      var k, rest, t1 := kids[0], kids[1..], FixKid(t, kids[0], delta).1;
      FixKidIs(t, k, delta);
      var i := MatchTree(t.kids, k.name);
      if i == q[0] {
        FixedAt(t.kids[i], k, delta, q[1..], x);
      }
      GivenAtKid(t, i, Fix(t.kids[i], k, delta).1, q, x, AllPlaces(t.kids[q[0]], k, q[1..], x), delta);
      FixKidNames(t, k, delta);
      KidPlacesSame(t, t1, rest, q, x);
      FixedKidsAt(t1, rest, delta, q, x);
      GivenAtTwice(t, t1, FixKids(t1, rest, delta).1, q, x,
                   if i == q[0] then AllPlaces(t.kids[q[0]], k, q[1..], x) else [], KidPlaces(t1, rest, q, x), delta);
    }
  }

  lemma FixKidIs(t: Tree, k: Tree, delta: u32)
    requires FixKid(t, k, delta).0 == 0
    ensures var i := MatchTree(t.kids, k.name);
            i < |t.kids| && Fix(t.kids[i], k, delta).0 == 0 &&
            FixKid(t, k, delta).1 == t.(kids := t.kids[i := Fix(t.kids[i], k, delta).1])
  {
    hide Fix, MatchTree;
  }

  // ---- the fixup node among the nodes it fixes ----

  /**
   overlay_update_local_node_references where the fixup node is subnode `j` of the tree node itself, as it is at the
   root: a subnode of the fixup node may name the fixup node, whose subnodes then change while they are still to be
   used. `g` is the fixup node as it was; only its names matter.
   */
  function FixOwn(t: Tree, j: nat, g: Tree, delta: u32): (int, Tree)
    decreases g, 2
  {
    if j >= |t.kids| then (0, t)
    else
      var (err, t1) := FixProps(t, t.kids[j].props, delta);
      if err != 0 then (err, t1) else FixOwnKids(t1, j, 0, g.kids, delta)
  }

  function FixOwnKids(t: Tree, j: nat, l: nat, rest: seq<Tree>, delta: u32): (int, Tree)
    decreases rest, 0
  {
    if rest == [] then (0, t)
    else
      var (err, t1) := FixOwnKid(t, j, l, rest[0], delta);
      if err != 0 then (err, t1) else FixOwnKids(t1, j, l + 1, rest[1..], delta)
  }

  function FixOwnKid(t: Tree, j: nat, l: nat, h: Tree, delta: u32): (int, Tree)
    decreases h, 3
  {
    if j >= |t.kids| || l >= |t.kids[j].kids| then (0, t)
    else
      var i := MatchTree(t.kids, h.name);
      if i >= |t.kids| then (-FDT_ERR_BADOVERLAY, t)
      else if i == j then
        var (err, u) := FixOwn(t.kids[j], l, h, delta);
        (err, t.(kids := t.kids[j := u]))
      else
        var (err, u) := Fix(t.kids[i], t.kids[j].kids[l], delta);
        (err, t.(kids := t.kids[i := u]))
  }

  lemma {:induction false} FixOwnNames(t: Tree, j: nat, g: Tree, delta: u32)
    ensures SameNames(t, FixOwn(t, j, g, delta).1)
    decreases g, 2
  {
    hide FixProps, FixOwnKids, SameNames;
    NamesSelf(t);
    if j < |t.kids| {
      FixPropsIs(t, t.kids[j].props, delta, []);
      var t1 := FixProps(t, t.kids[j].props, delta).1;
      NamesAre(t, t);
      NamesAre(t, t1);
      FixOwnKidsNames(t1, j, 0, g.kids, delta);
      NamesTrans(t, t1, FixOwnKids(t1, j, 0, g.kids, delta).1);
    }
  }

  lemma {:induction false} FixOwnKidsNames(t: Tree, j: nat, l: nat, rest: seq<Tree>, delta: u32)
    ensures SameNames(t, FixOwnKids(t, j, l, rest, delta).1)
    decreases rest, 0
  {
    hide FixOwnKid, SameNames;
    NamesSelf(t);
    if rest != [] {
      var t1 := FixOwnKid(t, j, l, rest[0], delta).1;
      FixOwnKidNames(t, j, l, rest[0], delta);
      FixOwnKidsNames(t1, j, l + 1, rest[1..], delta);
      NamesTrans(t, t1, FixOwnKids(t1, j, l + 1, rest[1..], delta).1);
    }
  }

  lemma {:induction false} FixOwnKidNames(t: Tree, j: nat, l: nat, h: Tree, delta: u32)
    ensures SameNames(t, FixOwnKid(t, j, l, h, delta).1)
    decreases h, 3
  {
    hide Fix, FixOwn, SameNames, MatchTree;
    NamesSelf(t);
    var i := MatchTree(t.kids, h.name);
    if j < |t.kids| && l < |t.kids[j].kids| && i < |t.kids| {
      if i == j {
        FixOwnNames(t.kids[j], l, h, delta);
        NamesPut(t, j, FixOwn(t.kids[j], l, h, delta).1);
      } else {
        FixNames(t.kids[i], t.kids[j].kids[l], delta);
        NamesPut(t, i, Fix(t.kids[i], t.kids[j].kids[l], delta).1);
      }
    }
  }

  /** No subnode of subnode `j` names subnode `j`. */
  ghost predicate NotItself(t: Tree, j: nat)
    requires j < |t.kids|
  {
    forall l :: 0 <= l < |t.kids[j].kids| ==> MatchTree(t.kids, t.kids[j].kids[l].name) != j
  }

  /** Where the fixup node is not named by its own subnodes it does not change while it is used. */
  lemma OwnIsFix(t: Tree, j: nat, delta: u32)
    requires j < |t.kids| && NotItself(t, j)
    ensures FixOwn(t, j, t.kids[j], delta) == Fix(t, t.kids[j], delta)
  {
    hide FixOwnKids, FixKids, FixProps, MatchTree;
    var f := t.kids[j];
    FixPropsIs(t, f.props, delta, []);
    assert f.kids[0..] == f.kids;
    OwnKidsAreFix(FixProps(t, f.props, delta).1, j, 0, f.kids, delta);
  }

  lemma {:induction false} OwnKidsAreFix(t: Tree, j: nat, l: nat, rest: seq<Tree>, delta: u32)
    requires j < |t.kids| && l <= |t.kids[j].kids| && rest == t.kids[j].kids[l..]
    requires forall i :: 0 <= i < |rest| ==> MatchTree(t.kids, rest[i].name) != j
    ensures FixOwnKids(t, j, l, rest, delta) == FixKids(t, rest, delta)
    decreases |rest|
  {
    hide Fix, FixOwn, MatchTree, SameNames;
    if rest != [] {
      assert rest[0] == t.kids[j].kids[l] && rest[1..] == t.kids[j].kids[l + 1..];
      var t1 := FixKid(t, rest[0], delta).1;
      assert FixOwnKid(t, j, l, rest[0], delta) == FixKid(t, rest[0], delta);
      FixKidNames(t, rest[0], delta);
      NamesAre(t, t1);
      forall i | 0 <= i < |t.kids|
        ensures t1.kids[i].name == t.kids[i].name
      {
        NamesAre(t.kids[i], t1.kids[i]);
      }
      forall i | 0 <= i < |rest[1..]|
        ensures MatchTree(t1.kids, rest[1..][i].name) != j
      {
        SameMatch(t.kids, t1.kids, rest[i + 1].name);
      }
      OwnKidsAreFix(t1, j, l + 1, rest[1..], delta);
    }
  }

  // ---- the whole pass ----

  const LOCAL_FIXUPS: Bytes :=
    [95, 95, 108, 111, 99, 97, 108, 95, 102, 105, 120, 117, 112, 115, 95, 95]

  /** Which subnode is `/__local_fixups__`, or how many there are. */
  function FixupIndex(t: Tree): nat {
    MatchTree(t.kids, LOCAL_FIXUPS)
  }

  /** The second and third steps of fdt_overlay_apply: every phandle raised, then the references that are listed. */
  function RenumberTree(o: Tree, delta: u32): (int, Tree) {
    var (err, o1) := Adjust(o, delta);
    if err != 0 then (err, o1) else UpdateTree(o1, delta)
  }

  /** overlay_update_local_references */
  function UpdateTree(t: Tree, delta: u32): (int, Tree) {
    var j := FixupIndex(t);
    if j >= |t.kids| then (0, t) else FixOwn(t, j, t.kids[j], delta)
  }

  /** The places that the overlay's fixup node lists for property `x` of the node at `q`. */
  function PlacesIn(t: Tree, q: seq<nat>, x: Bytes): seq<u32> {
    var j := FixupIndex(t);
    if j >= |t.kids| then [] else AllPlaces(t, t.kids[j], q, x)
  }

  /** No subnode of the fixup node is named like the fixup node. */
  ghost predicate FixupsApart(t: Tree) {
    FixupIndex(t) < |t.kids| ==> NotItself(t, FixupIndex(t))
  }

  predicate OneOf(props: seq<(Bytes, Bytes)>, x: Bytes) {
    forall i, j :: 0 <= i < j < |props| ==> !(props[i].0 == x && props[j].0 == x)
  }

  /** No node of the tree has two properties of the same phandle name. */
  ghost predicate PhandlesOnce(t: Tree)
    decreases t
  {
    OneOf(t.props, PHANDLE) && OneOf(t.props, LINUX_PHANDLE) &&
    forall i :: 0 <= i < |t.kids| ==> PhandlesOnce(t.kids[i])
  }

  // ---- fixup nodes are renumbered too ----

  /** The same places, each `d` further on. */
  ghost predicate Shifted(a: seq<u32>, b: seq<u32>, d: nat) {
    |b| == |a| && forall i :: 0 <= i < |a| ==> b[i] == a[i] + d
  }

  lemma ShiftedConcat(a: seq<u32>, b: seq<u32>, a2: seq<u32>, b2: seq<u32>, d: nat)
    requires Shifted(a, b, d) && Shifted(a2, b2, d)
    ensures Shifted(a + a2, b + b2, d)
  {
    forall i | 0 <= i < |a + a2|
      ensures (b + b2)[i] == (a + a2)[i] + d
    {
      if i >= |a| {
        assert (a + a2)[i] == a2[i - |a|] && (b + b2)[i] == b2[i - |a|];
      }
    }
  }

  lemma {:induction false} OtherPlaces(props: seq<(Bytes, Bytes)>, i: nat, v: Bytes, x: Bytes)
    requires i < |props| && props[i].0 != x
    ensures PropPlaces(props[i := (props[i].0, v)], x) == PropPlaces(props, x)
    decreases |props|
  {
    hide Places;
    var new' := props[i := (props[i].0, v)];
    if i == 0 {
      assert new'[1..] == props[1..];
    } else {
      assert new'[1..] == props[1..][i - 1 := (props[i].0, v)];
      OtherPlaces(props[1..], i - 1, v, x);
    }
  }

  lemma {:induction false} NoPlaces(props: seq<(Bytes, Bytes)>, x: Bytes)
    requires forall i :: 0 <= i < |props| ==> props[i].0 != x
    ensures PropPlaces(props, x) == []
    decreases |props|
  {
    hide Places;
    if props != [] {
      NoPlaces(props[1..], x);
    }
  }

  /** Where a name occurs once, its places are those of the value that a lookup finds. */
  lemma {:induction false} PlacesOfOne(props: seq<(Bytes, Bytes)>, x: Bytes)
    requires OneOf(props, x)
    ensures var f := FirstNamed(props, x);
            PropPlaces(props, x) == if f < |props| then Places(props[f].1) else []
    decreases |props|
  {
    hide Places;
    if props != [] {
      if props[0].0 == x {
        forall i | 0 <= i < |props[1..]|
          ensures props[1..][i].0 != x
        {
          assert props[1..][i] == props[i + 1];
        }
        NoPlaces(props[1..], x);
      } else {
        forall i, j | 0 <= i < j < |props[1..]|
          ensures !(props[1..][i].0 == x && props[1..][j].0 == x)
        {
          assert props[1..][i] == props[i + 1] && props[1..][j] == props[j + 1];
        }
        PlacesOfOne(props[1..], x);
      }
    }
  }

  lemma OnePlace(v: Bytes)
    requires |v| == 4
    ensures Places(v) == [ReadWord(v, 0)]
  {
    hide ReadWord;
    assert Places(v[4..]) == [];
  }

  /** Raising one phandle property moves the places that the node lists under that name, and no others. */
  lemma AddOffsetPlaces(t: Tree, name: Bytes, delta: u32, x: Bytes)
    requires AddOffset(t, name, delta).0 == 0 && (x == name ==> OneOf(t.props, x))
    ensures Shifted(PropPlaces(t.props, x), PropPlaces(AddOffset(t, name, delta).1.props, x),
                    if x == name then delta else 0)
    ensures forall y :: OneOf(t.props, y) ==> OneOf(AddOffset(t, name, delta).1.props, y)
  {
    hide Places, PropPlaces, ReadWord, Word, FirstNamed;
    var t', i := AddOffset(t, name, delta).1, FirstNamed(t.props, name);
    if i < |t.props| {
      var w := ReadWord(t.props[i].1, 0);
      assert t'.props == t.props[i := (name, Word(w + delta))];
      SameNamesOnce(t.props, t'.props);
      if x == name {
        UpdateFirst(t.props, i, name, Word(w + delta));
        PlacesOfOne(t.props, x);
        PlacesOfOne(t'.props, x);
        OnePlace(t.props[i].1);
        OnePlace(Word(w + delta));
        ReadBack(w + delta);
      } else {
        OtherPlaces(t.props, i, Word(w + delta), x);
      }
    } else if x == name {
      PlacesOfOne(t.props, x);
    }
  }

  lemma SameNamesOnce(a: seq<(Bytes, Bytes)>, b: seq<(Bytes, Bytes)>)
    requires |b| == |a| && forall i :: 0 <= i < |a| ==> b[i].0 == a[i].0
    ensures forall y :: OneOf(a, y) ==> OneOf(b, y)
  {
  }

  lemma UpdateFirst(props: seq<(Bytes, Bytes)>, i: nat, name: Bytes, v: Bytes)
    requires i == FirstNamed(props, name) < |props|
    ensures FirstNamed(props[i := (name, v)], name) == i
  {
    hide FirstNamed;
    var props' := props[i := (name, v)];
    assert props'[i].0 == name && forall k :: 0 <= k < i ==> props'[k] == props[k];
  }

  lemma AdjustPropsPlaces(t: Tree, delta: u32, x: Bytes)
    requires AdjustProps(t, delta).0 == 0 && OneOf(t.props, PHANDLE) && OneOf(t.props, LINUX_PHANDLE)
    ensures Shifted(PropPlaces(t.props, x), PropPlaces(AdjustProps(t, delta).1.props, x),
                    if IsPhandleName(x) then delta else 0)
  {
    hide PropPlaces, AddOffset, OneOf;
    NamesDiffer();
    AddOffsetPlaces(t, PHANDLE, delta, x);
    AddOffsetPlaces(AddOffset(t, PHANDLE, delta).1, LINUX_PHANDLE, delta, x);
  }

  lemma PhandlesOnceParts(t: Tree)
    requires PhandlesOnce(t)
    ensures OneOf(t.props, PHANDLE) && OneOf(t.props, LINUX_PHANDLE)
    ensures forall i :: 0 <= i < |t.kids| ==> PhandlesOnce(t.kids[i])
  {
    hide OneOf;
  }

  /** A renumbered fixup node lists what it listed, with the places under phandle names moved. */
  lemma {:induction false} AdjustedPlaces(t: Tree, f: Tree, delta: u32, q: seq<nat>, x: Bytes)
    requires Adjust(f, delta).0 == 0 && PhandlesOnce(f)
    ensures Shifted(AllPlaces(t, f, q, x), AllPlaces(t, Adjust(f, delta).1, q, x),
                    if IsPhandleName(x) then delta else 0)
    decreases f, 1
  {
    hide *;
    var f' := Adjust(f, delta).1;
    AdjustParts(f, delta);
    PhandlesOnceParts(f);
    AllPlacesIs(t, f, q, x);
    AllPlacesIs(t, f', q, x);
    if q == [] {
      AdjustPropsPlaces(f, delta, x);
    } else if q[0] < |t.kids| {
      AdjustedKidPlaces(t, f.kids, delta, q, x);
    } else {
      ShiftedNone(if IsPhandleName(x) then delta else 0);
    }
  }

  lemma ShiftedNone(d: nat)
    ensures Shifted([], [], d)
  {
  }

  lemma {:induction false} AdjustedKidPlaces(t: Tree, kids: seq<Tree>, delta: u32, q: seq<nat>, x: Bytes)
    requires AdjustKids(kids, delta).0 == 0 && q != [] && q[0] < |t.kids|
    requires forall i :: 0 <= i < |kids| ==> PhandlesOnce(kids[i])
    ensures Shifted(KidPlaces(t, kids, q, x), KidPlaces(t, AdjustKids(kids, delta).1, q, x),
                    if IsPhandleName(x) then delta else 0)
    decreases kids, 0
  {
    hide Adjust, AllPlaces, MatchTree, PhandlesOnce, Shifted;
    if kids == [] {
      ShiftedNone(if IsPhandleName(x) then delta else 0);
    } else {
      var kids', d := AdjustKids(kids, delta).1, if IsPhandleName(x) then delta else 0;
      AdjustedName(kids[0], delta);
      assert kids'[1..] == AdjustKids(kids[1..], delta).1;
      AdjustedKidPlaces(t, kids[1..], delta, q, x);
      if MatchTree(t.kids, kids[0].name) == q[0] {
        AdjustedPlaces(t.kids[q[0]], kids[0], delta, q[1..], x);
        ShiftedConcat(AllPlaces(t.kids[q[0]], kids[0], q[1..], x), AllPlaces(t.kids[q[0]], kids'[0], q[1..], x),
                      KidPlaces(t, kids[1..], q, x), KidPlaces(t, kids'[1..], q, x), d);
      } else {
        ShiftedNone(d);
        ShiftedConcat([], [], KidPlaces(t, kids[1..], q, x), KidPlaces(t, kids'[1..], q, x), d);
      }
    }
  }

  lemma AdjustedName(t: Tree, delta: u32)
    requires Adjust(t, delta).0 == 0
    ensures Adjust(t, delta).1.name == t.name
  {
    hide Adjust, AdjustProps, AdjustKids;
    AdjustParts(t, delta);
    AdjustPropsIs(t, delta, []);
  }

  lemma {:induction false} AdjustedNames(t: Tree, delta: u32)
    requires Adjust(t, delta).0 == 0
    ensures SameNames(t, Adjust(t, delta).1)
    decreases t
  {
    hide Adjust, AdjustProps, AdjustKids, SameNames;
    AdjustParts(t, delta);
    AdjustPropsIs(t, delta, []);
    var t' := Adjust(t, delta).1;
    forall i | 0 <= i < |t.kids|
      ensures SameNames(t.kids[i], t'.kids[i])
    {
      AdjustedKid(t.kids, delta, i);
      AdjustedNames(t.kids[i], delta);
    }
    NamesAre(t, t');
  }

  lemma SameIndex(t: Tree, u: Tree, name: Bytes)
    requires SameNames(t, u)
    ensures |u.kids| == |t.kids| && MatchTree(u.kids, name) == MatchTree(t.kids, name)
  {
    hide SameNames, MatchTree;
    NamesAre(t, u);
    forall i | 0 <= i < |t.kids|
      ensures u.kids[i].name == t.kids[i].name
    {
      NamesAre(t.kids[i], u.kids[i]);
    }
    SameMatch(t.kids, u.kids, name);
  }

  /** The fixup node lies where it lay, and names what it named. */
  lemma AdjustedFixups(o: Tree, delta: u32)
    requires Adjust(o, delta).0 == 0
    ensures var o1, j := Adjust(o, delta).1, FixupIndex(o);
            |o1.kids| == |o.kids| && FixupIndex(o1) == j &&
            (j < |o.kids| ==> Adjust(o.kids[j], delta) == (0, o1.kids[j])) && (FixupsApart(o) ==> FixupsApart(o1))
  {
    hide Adjust, AdjustProps, AdjustKids, SameNames, MatchTree;
    var o1, j := Adjust(o, delta).1, FixupIndex(o);
    AdjustParts(o, delta);
    AdjustPropsIs(o, delta, []);
    AdjustedNames(o, delta);
    SameIndex(o, o1, LOCAL_FIXUPS);
    if j < |o.kids| {
      AdjustedKid(o.kids, delta, j);
      AdjustedNames(o.kids[j], delta);
      NamesAre(o.kids[j], o1.kids[j]);
      forall l | 0 <= l < |o.kids[j].kids|
        ensures MatchTree(o1.kids, o1.kids[j].kids[l].name) == MatchTree(o.kids, o.kids[j].kids[l].name)
      {
        NamesAre(o.kids[j].kids[l], o1.kids[j].kids[l]);
        SameIndex(o, o1, o.kids[j].kids[l].name);
      }
    }
  }

  // ---- what renumbering keeps ----

  lemma RenumberCases(o: Tree, delta: u32)
    ensures RenumberTree(o, delta) ==
            if Adjust(o, delta).0 != 0 then Adjust(o, delta) else UpdateTree(Adjust(o, delta).1, delta)
  {
    hide Adjust, UpdateTree;
  }

  lemma UpdateCases(t: Tree, delta: u32)
    ensures var j := FixupIndex(t);
            UpdateTree(t, delta) == if j >= |t.kids| then (0, t) else FixOwn(t, j, t.kids[j], delta)
  {
    hide FixupIndex, FixOwn;
  }

  /** After the references have been raised each node has the properties it had, given its places. */
  lemma UpdatedAt(t: Tree, delta: u32, q: seq<nat>, x: Bytes)
    requires UpdateTree(t, delta).0 == 0 && FixupsApart(t)
    ensures GivenAt(t, UpdateTree(t, delta).1, q, x, PlacesIn(t, q, x), delta)
  {
    hide FixupIndex, FixOwn, Fix, GivenAt, AllPlaces, NotItself;
    UpdateCases(t, delta);
    var j := FixupIndex(t);
    if j < |t.kids| {
      OwnIsFix(t, j, delta);
      FixedAt(t, t.kids[j], delta, q, x);
    } else {
      GivenAtNone(t, q, x, delta);
    }
  }

  /** What the fixup node lists before phandles are raised, and after. */
  lemma PlacesMoved(o: Tree, delta: u32, q: seq<nat>, x: Bytes)
    requires Adjust(o, delta).0 == 0 && PhandlesOnce(o)
    ensures Shifted(PlacesIn(o, q, x), PlacesIn(Adjust(o, delta).1, q, x), if IsPhandleName(x) then delta else 0)
  {
    hide Adjust, FixupIndex, AllPlaces, SameNames, Shifted, PhandlesOnce, IsPhandleName;
    var o1, j := Adjust(o, delta).1, FixupIndex(o);
    AdjustedFixups(o, delta);
    if j < |o.kids| {
      PhandlesOnceParts(o);
      AdjustedNames(o, delta);
      PlacesSame(o, o1, o1.kids[j], q, x);
      AdjustedPlaces(o, o.kids[j], delta, q, x);
    } else {
      ShiftedNone(if IsPhandleName(x) then delta else 0);
    }
  }

  lemma ShiftedZero(a: seq<u32>, b: seq<u32>)
    requires Shifted(a, b, 0)
    ensures b == a
  {
  }

  /** Listed places of a word that is the whole value are the value's start, or wrap around. */
  lemma {:induction false} OneWordPlaces(v: Bytes, places: seq<u32>, delta: u32)
    requires |v| == 4 && FixWords(v, places, delta).0 == 0
    ensures forall i :: 0 <= i < |places| ==> places[i] == 0 || places[i] >= WRAPS
    decreases |places|
  {
    hide FixWord, Wrap32;
    if places != [] {
      WrapEnd(places[0]);
      OneWordPlaces(FixWord(v, places[0], delta), places[1..], delta);
    }
  }

  lemma {:induction false} CountNone(places: seq<u32>, x: u32)
    requires forall i :: 0 <= i < |places| ==> places[i] != x
    ensures Count(places, x) == 0
    decreases |places|
  {
    if places != [] {
      CountNone(places[1..], x);
    }
  }

  lemma {:induction false} CountSome(places: seq<u32>, x: u32)
    requires x in places
    ensures Count(places, x) >= 1
    decreases |places|
  {
    if places[0] != x {
      CountSome(places[1..], x);
    }
  }

  /** A phandle word that has been raised once is raised once more for each time the fixups list it. */
  lemma PhandleTimes(t: Tree, delta: u32, q: seq<nat>, x: Bytes)
    requires UpdateTree(t, delta).0 == 0 && FixupsApart(t) && InTree(t, q) && WordOf(TreeAt(t, q), x).Some?
    ensures var t' := UpdateTree(t, delta).1;
            InTree(t', q) && WordOf(TreeAt(t', q), x) ==
            Some(Wrap32(WordOf(TreeAt(t, q), x).value + Count(PlacesIn(t, q, x), 0) * delta))
    ensures forall i :: 0 <= i < |PlacesIn(t, q, x)| ==> PlacesIn(t, q, x)[i] == 0 || PlacesIn(t, q, x)[i] >= WRAPS
  {
    hide UpdateTree, FixupsApart, InTree, TreeAt, PropOf, FixWords, PlacesIn, ReadWord, Wrap32, Count;
    UpdatedAt(t, delta, q, x);
    var v, places := PropOf(TreeAt(t, q), x).value, PlacesIn(t, q, x);
    OneWordPlaces(v, places, delta);
    FixWordsAt(v, places, delta, 0);
  }

  lemma NotAWord(t: Tree, delta: u32, q: seq<nat>, x: Bytes)
    requires UpdateTree(t, delta).0 == 0 && FixupsApart(t) && InTree(t, q) && WordOf(TreeAt(t, q), x) == None
    ensures InTree(UpdateTree(t, delta).1, q) && WordOf(TreeAt(UpdateTree(t, delta).1, q), x) == None
  {
    hide UpdateTree, FixupsApart, InTree, TreeAt, PropOf, FixWords, PlacesIn, ReadWord;
    UpdatedAt(t, delta, q, x);
  }

  /** The places listed under a phandle name have been raised by then, so that none is the start of a phandle. */
  lemma NotListed(o: Tree, delta: u32, q: seq<nat>, x: Bytes)
    requires Adjust(o, delta).0 == 0 && PhandlesOnce(o) && IsPhandleName(x)
    ensures Count(PlacesIn(Adjust(o, delta).1, q, x), 0) * delta == 0
  {
    hide Adjust, PlacesIn, Count, PhandlesOnce, IsPhandleName;
    PlacesMoved(o, delta, q, x);
    if delta > 0 {
      CountNone(PlacesIn(Adjust(o, delta).1, q, x), 0);
    }
  }

  /** Fixing references leaves the phandles of a renumbered overlay alone, those that the fixups list included. */
  lemma PhandleStays(o: Tree, delta: u32, q: seq<nat>, x: Bytes)
    requires Adjust(o, delta).0 == 0 && PhandlesOnce(o) && IsPhandleName(x) && InTree(Adjust(o, delta).1, q)
    requires var o1 := Adjust(o, delta).1; UpdateTree(o1, delta).0 == 0 && FixupsApart(o1)
    ensures var o1 := Adjust(o, delta).1;
            InTree(UpdateTree(o1, delta).1, q) &&
            WordOf(TreeAt(UpdateTree(o1, delta).1, q), x) == WordOf(TreeAt(o1, q), x)
  {
    hide *;
    var o1 := Adjust(o, delta).1;
    NotListed(o, delta, q, x);
    if WordOf(TreeAt(o1, q), x).Some? {
      PhandleTimes(o1, delta, q, x);
      ItsOwnWord(WordOf(TreeAt(o1, q), x).value);
    } else {
      NotAWord(o1, delta, q, x);
    }
  }

  /**
   The renumbering succeeds, of an overlay whose fixups do not fix fixups and whose nodes have one phandle of a name.
   */
  ghost predicate Renumbers(o: Tree, delta: u32) {
    RenumberTree(o, delta).0 == 0 && FixupsApart(o) && PhandlesOnce(o)
  }

  lemma RenumbersIs(o: Tree, delta: u32)
    requires Renumbers(o, delta)
    ensures Adjust(o, delta).0 == 0 && PhandlesOnce(o)
    ensures var o1 := Adjust(o, delta).1;
            UpdateTree(o1, delta).0 == 0 && FixupsApart(o1) && RenumberTree(o, delta) == UpdateTree(o1, delta)
  {
    hide Adjust, UpdateTree, FixupsApart, PhandlesOnce;
    RenumberCases(o, delta);
    AdjustedFixups(o, delta);
  }

  /** Every phandle is raised once. */
  lemma RenumberedPhandle(o: Tree, delta: u32, q: seq<nat>)
    requires Renumbers(o, delta) && InTree(o, q)
    ensures var o2 := RenumberTree(o, delta).1;
            InTree(o2, q) && HasPhandle(TreeAt(o2, q)) == HasPhandle(TreeAt(o, q)) &&
            GetPhandle(TreeAt(o2, q)) == GetPhandle(TreeAt(o, q)) +
              (if HasPhandle(TreeAt(o, q)) then delta else 0) < MAX_U32
  {
    hide *;
    RenumbersIs(o, delta);
    var o1 := Adjust(o, delta).1;
    RaisedPhandle(o, delta, q);
    PhandleNames();
    PhandleStays(o, delta, q, PHANDLE);
    PhandleStays(o, delta, q, LINUX_PHANDLE);
    SamePhandle(TreeAt(o1, q), TreeAt(UpdateTree(o1, delta).1, q));
  }

  lemma PhandleNames()
    ensures IsPhandleName(PHANDLE) && IsPhandleName(LINUX_PHANDLE)
  {
  }

  lemma SamePhandle(t: Tree, u: Tree)
    requires WordOf(u, PHANDLE) == WordOf(t, PHANDLE) && WordOf(u, LINUX_PHANDLE) == WordOf(t, LINUX_PHANDLE)
    ensures GetPhandle(u) == GetPhandle(t) && HasPhandle(u) == HasPhandle(t)
  {
    hide WordOf;
  }

  /**
   A place that the fixups list for a phandle makes the renumbering fail, unless it wraps around; the phandle stays.
   */
  lemma PhandleListed(o: Tree, delta: u32, q: seq<nat>, x: Bytes, off: u32)
    requires Renumbers(o, delta) && InTree(o, q) && IsPhandleName(x) && off in PlacesIn(o, q, x)
    ensures InTree(RenumberTree(o, delta).1, q)
    ensures (off == 0 && delta == 0) || off + delta >= WRAPS
    ensures WordOf(TreeAt(o, q), x).Some? &&
            WordOf(TreeAt(RenumberTree(o, delta).1, q), x) == Some(Wrap32(WordOf(TreeAt(o, q), x).value + delta))
  {
    hide *;
    RenumbersIs(o, delta);
    var o1 := Adjust(o, delta).1;
    PlacesMoved(o, delta, q, x);
    var place := ShiftedIn(PlacesIn(o, q, x), PlacesIn(o1, q, x), delta, off, x);
    AdjustedAt(o, delta, q, x);
    AdjustSucceeds(o, delta);
    AdjustableAt(o, delta, q);
    ListedHas(o1, delta, q, x);
    PhandleWord(TreeAt(o, q), TreeAt(o1, q), delta, x);
    PhandleTimes(o1, delta, q, x);
    PhandleStays(o, delta, q, x);
  }

  lemma ShiftedIn(a: seq<u32>, b: seq<u32>, delta: u32, off: u32, x: Bytes) returns (i: nat)
    requires Shifted(a, b, if IsPhandleName(x) then delta else 0) && IsPhandleName(x) && off in a
    ensures i < |b| && b[i] == off + delta && b != []
  {
    hide IsPhandleName;
    i :| 0 <= i < |a| && a[i] == off;
  }

  /** A property that is given places is there. */
  lemma ListedHas(t: Tree, delta: u32, q: seq<nat>, x: Bytes)
    requires UpdateTree(t, delta).0 == 0 && FixupsApart(t) && InTree(t, q) && PlacesIn(t, q, x) != []
    ensures PropOf(TreeAt(t, q), x).Some?
  {
    hide UpdateTree, FixupsApart, InTree, TreeAt, PropOf, FixWords, PlacesIn;
    UpdatedAt(t, delta, q, x);
  }

  lemma PhandleWord(t: Tree, t1: Tree, delta: u32, x: Bytes)
    requires Fits(t, PHANDLE, delta) && Fits(t, LINUX_PHANDLE, delta) && IsPhandleName(x)
    requires PropOf(t1, x) == (if IsPhandleName(x) then Raised(PropOf(t, x), delta) else PropOf(t, x)) &&
             PropOf(t1, x).Some?
    ensures WordOf(t, x).Some? && WordOf(t1, x) == Some(WordOf(t, x).value + delta)
    ensures Wrap32(WordOf(t, x).value + delta) == WordOf(t, x).value + delta
  {
    hide PropOf, ReadWord, Word, Raised;
    RaisedWord(PropOf(t, x), delta);
    RaisedSome(PropOf(t, x), delta);
  }

  lemma RaisedSome(v: Option<Bytes>, delta: u32)
    ensures Raised(v, delta).Some? <==> v.Some?
  {
    hide ReadWord, Word;
  }

  // ---- references ----

  /** The word at `off` of property `x` of the node at `q`. */
  ghost function RefAt(t: Tree, q: seq<nat>, x: Bytes, off: u32): Option<u32> {
    if InTree(t, q) && PropOf(TreeAt(t, q), x).Some? && off + 4 <= |PropOf(TreeAt(t, q), x).value|
    then Some(ReadWord(PropOf(TreeAt(t, q), x).value, off))
    else None
  }

  /** A place that is listed lies in the value, unless its end wraps around. */
  lemma ListedInside(o: Tree, delta: u32, q: seq<nat>, x: Bytes, off: u32)
    requires Renumbers(o, delta) && InTree(o, q) && !IsPhandleName(x) && off in PlacesIn(o, q, x) && off < WRAPS
    ensures RefAt(o, q, x, off).Some?
  {
    hide FixupsApart, PhandlesOnce, RenumberTree, Adjust, UpdateTree, InTree, TreeAt, PropOf, FixWords, PlacesIn,
         ReadWord,
         IsPhandleName;
    RenumbersIs(o, delta);
    var o1 := Adjust(o, delta).1;
    PlacesMoved(o, delta, q, x);
    ShiftedZero(PlacesIn(o, q, x), PlacesIn(o1, q, x));
    AdjustedAt(o, delta, q, x);
    UpdatedAt(o1, delta, q, x);
    InBounds(PropOf(TreeAt(o, q), x).value, PlacesIn(o, q, x), delta, off);
  }

  /** A word that is listed `k` times is raised `k` times, and one that is not listed stays. */
  lemma WordTimes(o: Tree, delta: u32, q: seq<nat>, x: Bytes, off: u32)
    requires Renumbers(o, delta) && !IsPhandleName(x) && RefAt(o, q, x, off).Some? && Whole(PlacesIn(o, q, x), off)
    ensures RefAt(RenumberTree(o, delta).1, q, x, off) ==
            Some(Wrap32(RefAt(o, q, x, off).value + Count(PlacesIn(o, q, x), off) * delta))
  {
    hide FixupsApart, PhandlesOnce, RenumberTree, Adjust, UpdateTree, InTree, TreeAt, PropOf, FixWords, PlacesIn,
         ReadWord,
         IsPhandleName, Count, Whole, Wrap32;
    RenumbersIs(o, delta);
    var o1 := Adjust(o, delta).1;
    PlacesMoved(o, delta, q, x);
    ShiftedZero(PlacesIn(o, q, x), PlacesIn(o1, q, x));
    AdjustedAt(o, delta, q, x);
    UpdatedAt(o1, delta, q, x);
    FixWordsAt(PropOf(TreeAt(o, q), x).value, PlacesIn(o, q, x), delta, off);
  }

  lemma LookupAgain(o: Tree, delta: u32, h: u32)
    requires Renumbers(o, delta) && 0 < h && h + delta <= MAX_U32
    ensures NodeByPhandle(RenumberTree(o, delta).1, h + delta) == NodeByPhandle(o, h)
  {
    hide *;
    RenumbersIs(o, delta);
    var o1, o2 := Adjust(o, delta).1, RenumberTree(o, delta).1;
    HasIt(o);
    FoundAgain(o, delta, h);
    forall q
      ensures InTree(o2, q) <==> InTree(o1, q)
      ensures InTree(o1, q) && InTree(o2, q) ==> GetPhandle(TreeAt(o2, q)) == GetPhandle(TreeAt(o1, q))
    {
      SameNodes(o1, delta, q);
      AdjustedAt(o, delta, q, []);
      if InTree(o1, q) {
        RaisedPhandle(o, delta, q);
        RenumberedPhandle(o, delta, q);
      }
    }
    SameLookup(o1, o2, h + delta);
  }

  lemma SameNodes(t: Tree, delta: u32, q: seq<nat>)
    requires UpdateTree(t, delta).0 == 0 && FixupsApart(t)
    ensures InTree(UpdateTree(t, delta).1, q) <==> InTree(t, q)
  {
    hide UpdateTree, FixupsApart, InTree, TreeAt, PropOf, PlacesIn;
    UpdatedAt(t, delta, q, []);
  }

  /**
   A word that names a node by its phandle and that the fixups list `k` times names the same node after a renumbering
   by `delta` if and only if `(k - 1) * delta` is zero in 32 bits: always when it is listed once.
   */
  lemma ReferencesKept(o: Tree, delta: u32, q: seq<nat>, x: Bytes, off: u32)
    requires Renumbers(o, delta) && !IsPhandleName(x) && RefAt(o, q, x, off).Some? && Whole(PlacesIn(o, q, x), off)
    requires RefAt(o, q, x, off).value != 0 && NodeByPhandle(o, RefAt(o, q, x, off).value).Some?
    ensures var o2, k := RenumberTree(o, delta).1, Count(PlacesIn(o, q, x), off);
            RefAt(o2, q, x, off).Some? &&
            (NodeByPhandle(o2, RefAt(o2, q, x, off).value) == NodeByPhandle(o, RefAt(o, q, x, off).value) <==>
             Wrap32((k - 1) * delta) == 0)
  {
    hide *;
    var o2, k, h := RenumberTree(o, delta).1, Count(PlacesIn(o, q, x), off), RefAt(o, q, x, off).value;
    var p := NodeByPhandle(o, h).value;
    WordTimes(o, delta, q, x, off);
    FoundHas(o, h);
    HasIt(TreeAt(o, p));
    RenumberedPhandle(o, delta, p);
    LookupAgain(o, delta, h);
    RightTimes(h, k, delta);
    var h' := RefAt(o2, q, x, off).value;
    if NodeByPhandle(o2, h') == Some(p) {
      FoundHas(o2, h');
    }
  }

  lemma RightTimes(h: u32, k: nat, delta: u32)
    requires h + delta < MAX_U32
    ensures Wrap32(h + k * delta) == h + delta <==> Wrap32((k - 1) * delta) == 0
  {
    assert h + k * delta == (h + delta) + (k - 1) * delta by {
      assert (k - 1) * delta == k * delta - delta;
    }
    WrapSum(h + delta, (k - 1) * delta);
  }

  lemma WrapSum(w: u32, b: int)
    ensures Wrap32(w + b) == w <==> Wrap32(b) == 0
  {
  }

  /**
   A renumbering that succeeds raises every phandle of the overlay once, puts every nonzero one above every phandle of
   the base, and keeps every reference that the fixups list once.
   */
  lemma RenumberKeeps(base: Tree, o: Tree, delta: u32)
    requires Renumbers(o, delta) && AboveAll(base, delta)
    ensures var o2 := RenumberTree(o, delta).1;
            forall q :: InTree(o, q) ==>
              InTree(o2, q) &&
              GetPhandle(TreeAt(o2, q)) == GetPhandle(TreeAt(o, q)) + (if HasPhandle(TreeAt(o, q)) then delta else 0)
    ensures var o2 := RenumberTree(o, delta).1;
            forall q, bq :: InTree(o, q) && InTree(base, bq) && GetPhandle(TreeAt(o, q)) != 0 ==>
              InTree(o2, q) && GetPhandle(TreeAt(o2, q)) > GetPhandle(TreeAt(base, bq))
    ensures var o2 := RenumberTree(o, delta).1;
            forall q, x, off ::
              RefersOnce(o, q, x, off) ==>
                RefAt(o, q, x, off).Some? && RefAt(o2, q, x, off).Some? &&
                var h, h' := RefAt(o, q, x, off).value, RefAt(o2, q, x, off).value;
                h != 0 && NodeByPhandle(o, h).Some? ==> h' == h + delta && NodeByPhandle(o2, h') == NodeByPhandle(o, h)
  {
    hide *;
    var o2 := RenumberTree(o, delta).1;
    forall q | InTree(o, q)
      ensures InTree(o2, q)
      ensures GetPhandle(TreeAt(o2, q)) == GetPhandle(TreeAt(o, q)) + (if HasPhandle(TreeAt(o, q)) then delta else 0)
    {
      RenumberedPhandle(o, delta, q);
    }
    forall q, bq | InTree(o, q) && InTree(base, bq) && GetPhandle(TreeAt(o, q)) != 0
      ensures InTree(o2, q) && GetPhandle(TreeAt(o2, q)) > GetPhandle(TreeAt(base, bq))
    {
      RenumberedPhandle(o, delta, q);
      HasIt(TreeAt(o, q));
      AboveAt(base, delta, bq);
    }
    forall q, x, off | RefersOnce(o, q, x, off)
      ensures RefAt(o, q, x, off).Some? && RefAt(o2, q, x, off).Some? &&
              var h, h' := RefAt(o, q, x, off).value, RefAt(o2, q, x, off).value;
              h != 0 && NodeByPhandle(o, h).Some? ==> h' == h + delta && NodeByPhandle(o2, h') == NodeByPhandle(o, h)
    {
      OnceKept(o, delta, q, x, off);
    }
  }

  /** The fixups list the word once, and no word that overlaps it. */
  ghost predicate RefersOnce(o: Tree, q: seq<nat>, x: Bytes, off: u32) {
    InTree(o, q) && !IsPhandleName(x) && off < WRAPS && Count(PlacesIn(o, q, x), off) == 1 &&
    Whole(PlacesIn(o, q, x), off)
  }

  lemma OnceIs(o: Tree, q: seq<nat>, x: Bytes, off: u32)
    requires RefersOnce(o, q, x, off)
    ensures InTree(o, q) && !IsPhandleName(x) && off < WRAPS && off in PlacesIn(o, q, x) &&
            Whole(PlacesIn(o, q, x), off)
    ensures Count(PlacesIn(o, q, x), off) == 1
  {
    hide InTree, IsPhandleName, PlacesIn, Whole, Count;
    if off !in PlacesIn(o, q, x) {
      CountNone(PlacesIn(o, q, x), off);
    }
  }

  lemma OnceKept(o: Tree, delta: u32, q: seq<nat>, x: Bytes, off: u32)
    requires Renumbers(o, delta) && RefersOnce(o, q, x, off)
    ensures var o2 := RenumberTree(o, delta).1;
            RefAt(o, q, x, off).Some? && RefAt(o2, q, x, off).Some? &&
            var h, h' := RefAt(o, q, x, off).value, RefAt(o2, q, x, off).value;
            h != 0 && NodeByPhandle(o, h).Some? ==> h' == h + delta && NodeByPhandle(o2, h') == NodeByPhandle(o, h)
  {
    hide *;
    OnceIs(o, q, x, off);
    ListedInside(o, delta, q, x, off);
    WordTimes(o, delta, q, x, off);
    var h := RefAt(o, q, x, off).value;
    if h != 0 && NodeByPhandle(o, h).Some? {
      var p := NodeByPhandle(o, h).value;
      FoundHas(o, h);
      HasIt(TreeAt(o, p));
      RenumberedPhandle(o, delta, p);
      LookupAgain(o, delta, h);
      WrapFacts(h + delta);
    }
  }

  lemma AboveAt(base: Tree, max: u32, bq: seq<nat>)
    requires AboveAll(base, max) && InTree(base, bq)
    ensures GetPhandle(TreeAt(base, bq)) <= max
  {
    hide GetPhandle;
  }
}
