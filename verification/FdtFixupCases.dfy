/** Overlays on which renumbering succeeds and a reference is lost. */
module FdtFixupCases {
  import opened Common
  import opened FdtBytes
  import opened FdtNodes
  import opened FdtProps
  import opened FdtView
  import opened FdtMeaning
  import opened FdtMerge
  import opened FdtRenumber
  import opened FdtFixup

  const REF: Bytes := [114]
  const USER: Bytes := [117]
  const TARGET: Bytes := [116]

  /** A node without subnodes and with one property. */
  function Leaf(name: Bytes, prop: Bytes, value: Bytes): Tree {
    Tree(name, [(prop, value)], [])
  }

  lemma Names()
    ensures REF != PHANDLE && REF != LINUX_PHANDLE && PHANDLE != LINUX_PHANDLE
    ensures NodeNameEq(LOCAL_FIXUPS, LOCAL_FIXUPS) && !NodeNameEq(LOCAL_FIXUPS, USER) && NodeNameEq(USER, USER)
  {
    NamesDiffer();
    assert |LOCAL_FIXUPS| == 16 && LOCAL_FIXUPS[0] == 95;
  }

  lemma OneProp(t: Tree, prop: Bytes, value: Bytes, x: Bytes)
    requires t.props == [(prop, value)]
    ensures PropOf(t, x) == if x == prop then Some(value) else None
    ensures PropPlaces(t.props, x) == if x == prop then Places(value) else []
    ensures SetProp(t, prop, value) == t && forall v :: SetProp(t, prop, v) == t.(props := [(prop, v)])
  {
    hide Places;
    assert t.props[1..] == [];
    assert Places(value) + [] == Places(value);
  }

  lemma NoProps(t: Tree, x: Bytes)
    requires t.props == []
    ensures PropOf(t, x) == None && PropPlaces(t.props, x) == []
  {
  }

  lemma OneWord(w: u32)
    ensures Places(Word(w)) == [w]
  {
    hide Places;
    ReadBack(w);
    OnePlace(Word(w));
  }

  /** Renumbering a node whose properties are not phandles. */
  lemma AdjustPlain(t: Tree, delta: u32)
    requires PropOf(t, PHANDLE) == None && PropOf(t, LINUX_PHANDLE) == None
    ensures Adjust(t, delta) == (AdjustKids(t.kids, delta).0, t.(kids := AdjustKids(t.kids, delta).1))
  {
    hide PropOf, AdjustKids;
  }

  lemma AdjustLeaf(t: Tree, delta: u32)
    requires PropOf(t, PHANDLE) == None && PropOf(t, LINUX_PHANDLE) == None && t.kids == []
    ensures Adjust(t, delta) == (0, t)
  {
    hide PropOf;
    AdjustPlain(t, delta);
  }

  lemma AdjustTarget(name: Bytes, w: u32, delta: u32)
    requires w + delta < MAX_U32
    ensures Adjust(Leaf(name, PHANDLE, Word(w)), delta) == (0, Leaf(name, PHANDLE, Word(w + delta)))
  {
    hide PropOf, SetProp, Word, ReadWord, PropPlaces;
    var t := Leaf(name, PHANDLE, Word(w));
    var t' := Leaf(name, PHANDLE, Word(w + delta));
    NamesDiffer();
    ReadBack(w);
    OneProp(t, PHANDLE, Word(w), PHANDLE);
    OneProp(t', PHANDLE, Word(w + delta), LINUX_PHANDLE);
    assert AddOffset(t, PHANDLE, delta) == (0, t');
    assert AddOffset(t', LINUX_PHANDLE, delta) == (0, t');
  }

  lemma AdjustTwo(a: Tree, b: Tree, delta: u32)
    requires Adjust(a, delta).0 == 0 && Adjust(b, delta).0 == 0
    ensures AdjustKids([a, b], delta) == (0, [Adjust(a, delta).1, Adjust(b, delta).1])
  {
    hide Adjust;
    assert [a, b][1..] == [b] && [b][1..] == [];
    var x, y := Adjust(a, delta).1, Adjust(b, delta).1;
    assert AdjustKids([], delta) == (0, []) && [y] + [] == [y] && [x] + [y] == [x, y];
    assert AdjustKids([b], delta) == (0, [y]);
  }

  // ---- a reference listed twice ----

  /** The root refers to node `t` by its phandle 1, and its fixups list the word twice. */
  function TwiceListed(): Tree {
    Tree([], [(REF, Word(1))], [Leaf(LOCAL_FIXUPS, REF, Word(0) + Word(0)), Leaf(TARGET, PHANDLE, Word(1))])
  }

  lemma TwoPlaces()
    ensures Places(Word(0) + Word(0)) == [0, 0]
  {
    hide ReadWord, Word;
    var v := Word(0) + Word(0);
    HasMiddle([], Word(0), Word(0));
    assert [] + Word(0) + Word(0) == v && Word(0) + Word(0) + [] == v;
    HasMiddle(Word(0), Word(0), []);
    WordRoundTrip(v, 0, 0);
    assert v[4..] == Word(0);
    ReadBack(0);
    OnePlace(Word(0));
  }

  lemma TwiceAdjusted(delta: u32)
    requires 1 + delta < MAX_U32
    ensures Adjust(TwiceListed(), delta) ==
            (0, TwiceListed().(kids := [TwiceListed().kids[0], Leaf(TARGET, PHANDLE, Word(1 + delta))]))
  {
    hide PropOf, Word, PropPlaces, Adjust, AdjustKids, SetProp;
    var o := TwiceListed();
    Names();
    OneProp(o, REF, Word(1), PHANDLE);
    OneProp(o, REF, Word(1), LINUX_PHANDLE);
    OneProp(o.kids[0], REF, Word(0) + Word(0), PHANDLE);
    OneProp(o.kids[0], REF, Word(0) + Word(0), LINUX_PHANDLE);
    AdjustPlain(o, delta);
    AdjustLeaf(o.kids[0], delta);
    AdjustTarget(TARGET, 1, delta);
    AdjustTwo(o.kids[0], o.kids[1], delta);
    assert o.kids == [o.kids[0], o.kids[1]];
  }

  lemma TwiceFixed(o1: Tree, delta: u32)
    requires o1.props == [(REF, Word(1))] && |o1.kids| == 2 && o1.kids[0] == TwiceListed().kids[0]
    ensures FixupIndex(o1) == 0 && UpdateTree(o1, delta).0 == 0
  {
    hide PropOf, Word, PropPlaces, SetProp, Places, FixWords;
    Names();
    OneProp(o1, REF, Word(1), REF);
    TwoPlaces();
    TwoAtStart(Word(1), delta);
    var f := o1.kids[0];
    assert f.props[1..] == [] && f.kids == [];
    assert FixProps(o1, f.props, delta).0 == 0;
    var t1 := FixProps(o1, f.props, delta).1;
    assert FixOwnKids(t1, 0, 0, [], delta) == (0, t1);
    assert FixOwn(o1, 0, f, delta) == (0, t1);
    UpdateCases(o1, delta);
  }

  lemma TwoAtStart(v: Bytes, delta: u32)
    requires |v| == 4
    ensures FixWords(v, [0, 0], delta).0 == 0
  {
    hide FixWord, Wrap32;
    WrapEnd(0);
    assert [0, 0][1..] == [0] && [0][1..] == [];
    assert FixWords(FixWord(v, 0, delta), [0], delta).0 == 0;
  }

  lemma TwiceLookup()
    ensures NodeByPhandle(TwiceListed(), 1) == Some([1])
  {
    hide PropOf, Word, ReadWord, PropPlaces, SetProp;
    var o := TwiceListed();
    Names();
    OneProp(o, REF, Word(1), PHANDLE);
    OneProp(o, REF, Word(1), LINUX_PHANDLE);
    OneProp(o.kids[0], REF, Word(0) + Word(0), PHANDLE);
    OneProp(o.kids[0], REF, Word(0) + Word(0), LINUX_PHANDLE);
    OneProp(o.kids[1], PHANDLE, Word(1), PHANDLE);
    ReadBack(1);
    assert GetPhandle(o) == 0 && GetPhandle(o.kids[0]) == 0 && GetPhandle(o.kids[1]) == 1;
    hide GetPhandle;
    assert o.kids[1..] == [o.kids[1]];
    assert NodeByPhandle(o.kids[1], 1) == Some([]);
    assert [0] + [] == [0];
    assert NodeAmong([o.kids[1]], 1) == Some([0]);
    assert o.kids[0].kids == [] && NodeByPhandle(o.kids[0], 1) == None;
    assert [0][1..] == [] && [0 + 1] + [] == [1];
  }

  lemma TwicePlaces()
    ensures PlacesIn(TwiceListed(), [], REF) == [0, 0] && FixupIndex(TwiceListed()) == 0
    ensures FixupsApart(TwiceListed()) && PhandlesOnce(TwiceListed())
  {
    hide Word, PropPlaces, Places;
    var o := TwiceListed();
    Names();
    OneProp(o.kids[0], REF, Word(0) + Word(0), REF);
    TwoPlaces();
  }

  /** The word is raised twice, and no longer names the node. */
  lemma TwiceListedLost(delta: u32)
    requires 0 < delta && 1 + delta < MAX_U32
    ensures Renumbers(TwiceListed(), delta)
    ensures RefAt(TwiceListed(), [], REF, 0) == Some(1) && NodeByPhandle(TwiceListed(), 1) == Some([1])
    ensures var o2 := RenumberTree(TwiceListed(), delta).1;
            RefAt(o2, [], REF, 0).Some? && NodeByPhandle(o2, RefAt(o2, [], REF, 0).value) != Some([1])
  {
    hide *;
    var o := TwiceListed();
    TwiceAdjusted(delta);
    TwiceShape(delta);
    TwiceFixed(Adjust(o, delta).1, delta);
    RenumberCases(o, delta);
    TwicePlaces();
    TwiceLookup();
    TwiceRef();
    RenumbersSo(o, delta);
    TwiceWhole();
    OneTooMany(delta);
    RefNotPhandle();
    ReferencesKept(o, delta, [], REF, 0);
  }

  lemma TwiceShape(delta: u32)
    ensures TwiceListed().props == [(REF, Word(1))] && |TwiceListed().kids| == 2 && MAX_U32 == 0xffff_ffff
  {
    hide Word;
  }

  lemma TwiceRef()
    ensures RefAt(TwiceListed(), [], REF, 0) == Some(1)
  {
    hide Word, ReadWord, PropOf, SetProp, PropPlaces;
    OneProp(TwiceListed(), REF, Word(1), REF);
    ReadBack(1);
  }

  lemma RenumbersSo(o: Tree, delta: u32)
    requires RenumberTree(o, delta).0 == 0 && FixupsApart(o) && PhandlesOnce(o)
    ensures Renumbers(o, delta)
  {
    hide RenumberTree, FixupsApart, PhandlesOnce;
  }

  lemma TwiceWhole()
    ensures Whole([0, 0], 0) && Count([0, 0], 0) == 2
  {
    assert [0, 0][1..] == [0] && [0][1..] == [];
    assert Count([0], 0) == 1;
  }

  lemma OneTooMany(delta: u32)
    ensures Wrap32((2 - 1) * delta) == delta
  {
  }

  lemma RefNotPhandle()
    ensures !IsPhandleName(REF)
  {
    Names();
  }

  // ---- fixups that are fixed before they are used ----

  /**
   The user's first word refers to the target and its fixup lists that word; but the fixup node has a subnode named
   like itself, which lists the first word of that fixup.
   */
  function FixedFixups(): Tree {
    Tree([], [],
         [Tree(LOCAL_FIXUPS, [], [SelfFixup(), Leaf(USER, REF, Word(0))]), User(1, 0), Leaf(TARGET, PHANDLE, Word(1))])
  }

  function SelfFixup(): Tree {
    Tree(LOCAL_FIXUPS, [], [Leaf(USER, REF, Word(0))])
  }

  function User(a: u32, b: u32): Tree {
    Leaf(USER, REF, Word(a) + Word(b))
  }

  /** After the phandles: nothing but the target has changed. */
  lemma FixedAdjusted()
    ensures Adjust(FixedFixups(), 4) ==
            (0, FixedFixups().(kids := [FixedFixups().kids[0], User(1, 0), Leaf(TARGET, PHANDLE, Word(5))]))
  {
    hide PropOf, Word, PropPlaces, Adjust, AdjustKids, SetProp;
    var o, f, h := FixedFixups(), FixedFixups().kids[0], Leaf(USER, REF, Word(0));
    Names();
    NoPhandles(o);
    NoPhandles(f);
    NoPhandles(SelfFixup());
    RefOnly(h, Word(0));
    RefOnly(User(1, 0), Word(1) + Word(0));
    AdjustPlain(o, 4);
    AdjustPlain(f, 4);
    AdjustPlain(SelfFixup(), 4);
    AdjustLeaf(h, 4);
    AdjustLeaf(User(1, 0), 4);
    AdjustTarget(TARGET, 1, 4);
    AdjustOne(h, 4);
    AdjustTwo(SelfFixup(), h, 4);
    AdjustThree(f, User(1, 0), Leaf(TARGET, PHANDLE, Word(1)), 4);
    assert f.kids == [SelfFixup(), h] && SelfFixup().kids == [h];
  }

  lemma NoPhandles(t: Tree)
    requires t.props == []
    ensures PropOf(t, PHANDLE) == None && PropOf(t, LINUX_PHANDLE) == None
  {
    NoProps(t, PHANDLE);
    NoProps(t, LINUX_PHANDLE);
  }

  lemma RefOnly(t: Tree, value: Bytes)
    requires t.props == [(REF, value)]
    ensures PropOf(t, PHANDLE) == None && PropOf(t, LINUX_PHANDLE) == None && PropOf(t, REF) == Some(value)
    ensures PropPlaces(t.props, REF) == Places(value) && forall v :: SetProp(t, REF, v) == t.(props := [(REF, v)])
  {
    hide PropOf, SetProp, PropPlaces, Places;
    Names();
    OneProp(t, REF, value, PHANDLE);
    OneProp(t, REF, value, LINUX_PHANDLE);
    OneProp(t, REF, value, REF);
  }

  lemma AdjustOne(a: Tree, delta: u32)
    requires Adjust(a, delta).0 == 0
    ensures AdjustKids([a], delta) == (0, [Adjust(a, delta).1])
  {
    hide Adjust;
    var x := Adjust(a, delta).1;
    assert [a][1..] == [] && AdjustKids([], delta) == (0, []) && [x] + [] == [x];
  }

  lemma AdjustThree(a: Tree, b: Tree, c: Tree, delta: u32)
    requires Adjust(a, delta).0 == 0 && Adjust(b, delta).0 == 0 && Adjust(c, delta).0 == 0
    ensures AdjustKids([a, b, c], delta) == (0, [Adjust(a, delta).1, Adjust(b, delta).1, Adjust(c, delta).1])
  {
    hide Adjust;
    AdjustTwo(b, c, delta);
    var x, y, z := Adjust(a, delta).1, Adjust(b, delta).1, Adjust(c, delta).1;
    assert [a, b, c][1..] == [b, c] && [x] + [y, z] == [x, y, z];
  }

  /** One word of a node's only property raised by a fixup that lists it. */
  lemma FixOneProp(t: Tree, value: Bytes, place: u32, delta: u32)
    requires t.props == [(REF, value)] && place + 4 <= |value| && place < WRAPS
    ensures FixProps(t, [(REF, Word(place))], delta) == (0, t.(props := [(REF, FixWord(value, place, delta))]))
  {
    hide PropOf, SetProp, PropPlaces, Places, FixWord, Word, Wrap32;
    RefOnly(t, value);
    OneWord(place);
    WrapEnd(place);
    var v := FixWord(value, place, delta);
    assert [place][1..] == [] && FixWords(v, [], delta) == (0, v);
    assert FixWords(value, [place], delta) == (0, v);
    var props, t' := [(REF, Word(place))], t.(props := [(REF, v)]);
    assert FixProp(t, REF, Word(place), delta) == (0, t');
    assert props[1..] == [] && FixProps(t', [], delta) == (0, t');
  }

  lemma FixLeaf(name: Bytes, value: Bytes, place: u32, delta: u32)
    requires place + 4 <= |value| && place < WRAPS
    ensures Fix(Leaf(name, REF, value), Leaf(USER, REF, Word(place)), delta) ==
            (0, Leaf(name, REF, FixWord(value, place, delta)))
  {
    hide FixProps, FixWord, Word;
    FixOneProp(Leaf(name, REF, value), value, place, delta);
    var t' := Leaf(name, REF, FixWord(value, place, delta));
    assert FixKids(t', [], delta) == (0, t');
  }

  lemma FixOnly(w: u32, delta: u32)
    requires w + delta <= MAX_U32
    ensures FixWord(Word(w), 0, delta) == Word(w + delta)
  {
    hide Word;
    ReadBack(w);
    ItsOwnWord(w + delta);
    assert Word(w)[..0] == [] && Word(w)[4..] == [];
    assert [] + Word(w + delta) + [] == Word(w + delta);
  }

  /** The fixup node applied to itself: its second subnode now lists the place four. */
  lemma SelfFixed()
    ensures var f := FixedFixups().kids[0];
            FixOwn(f, 0, SelfFixup(), 4) == (0, f.(kids := [SelfFixup(), Leaf(USER, REF, Word(4))]))
  {
    hide Word, Fix, MatchTree, FixProps;
    var f, h := FixedFixups().kids[0], Leaf(USER, REF, Word(0));
    var u := f.(kids := [SelfFixup(), Leaf(USER, REF, Word(4))]);
    UserIsSecond(f);
    FixLeaf(USER, Word(0), 0, 4);
    FixOnly(0, 4);
    NoFixProps(f, 4);
    assert f.kids[1 := Leaf(USER, REF, Word(4))] == u.kids;
    assert FixOwnKid(f, 0, 0, h, 4) == (0, u);
    assert SelfFixup().kids == [h] && [h][1..] == [] && FixOwnKids(u, 0, 1, [], 4) == (0, u);
    assert FixOwnKids(f, 0, 0, [h], 4) == (0, u);
  }

  lemma NoFixProps(t: Tree, delta: u32)
    ensures FixProps(t, [], delta) == (0, t)
  {
  }

  lemma UserIsSecond(t: Tree)
    requires |t.kids| >= 2 && t.kids[0].name == LOCAL_FIXUPS && t.kids[1].name == USER
    ensures MatchTree(t.kids, USER) == 1 && MatchTree(t.kids, LOCAL_FIXUPS) == 0
  {
    hide NodeNameEq;
    Names();
  }

  lemma FixedUpdated()
    ensures var o1 := Adjust(FixedFixups(), 4).1;
            UpdateTree(o1, 4).0 == 0 && |UpdateTree(o1, 4).1.kids| == 3 && UpdateTree(o1, 4).1.props == [] &&
            UpdateTree(o1, 4).1.kids[1] == User(1, 4) && UpdateTree(o1, 4).1.kids[2] == Leaf(TARGET, PHANDLE, Word(5))
  {
    hide Word, Fix, FixOwn, FixOwnKid, MatchTree, FixProps, Adjust;
    FixedAdjusted();
    SelfFixed();
    var o1, f, g, h := Adjust(FixedFixups(), 4).1, FixedFixups().kids[0], SelfFixup(), Leaf(USER, REF, Word(0));
    UserIsSecond(o1);
    var f' := f.(kids := [g, Leaf(USER, REF, Word(4))]);
    var o2 := o1.(kids := o1.kids[0 := f']);
    UserIsSecond(o2);
    SecondWord();
    FixLeaf(USER, Word(1) + Word(0), 4, 4);
    var o3 := o2.(kids := o2.kids[1 := User(1, 4)]);
    NoFixProps(o1, 4);
    OwnKidSelf(o1, 0, 0, g, 4);
    OwnKidOther(o2, 0, 1, h, 4);
    assert f.kids == [g, h] && [g, h][1..] == [h] && [h][1..] == [];
    assert FixOwnKids(o3, 0, 2, [], 4) == (0, o3);
    assert FixOwnKids(o2, 0, 1, [h], 4) == (0, o3);
    assert FixOwnKids(o1, 0, 0, [g, h], 4) == (0, o3);
    OwnWithoutProps(o1, f, 4);
    UpdateCases(o1, 4);
  }

  lemma OwnKidSelf(t: Tree, j: nat, l: nat, h: Tree, delta: u32)
    requires j < |t.kids| && l < |t.kids[j].kids| && MatchTree(t.kids, h.name) == j
    ensures FixOwnKid(t, j, l, h, delta) ==
            var (err, u) := FixOwn(t.kids[j], l, h, delta);
            (err, t.(kids := t.kids[j := u]))
  {
    hide FixOwn, Fix, MatchTree;
  }

  lemma OwnKidOther(t: Tree, j: nat, l: nat, h: Tree, delta: u32)
    requires j < |t.kids| && l < |t.kids[j].kids| && j != MatchTree(t.kids, h.name) < |t.kids|
    ensures FixOwnKid(t, j, l, h, delta) ==
            var i := MatchTree(t.kids, h.name);
            var (err, u) := Fix(t.kids[i], t.kids[j].kids[l], delta);
            (err, t.(kids := t.kids[i := u]))
  {
    hide FixOwn, Fix, MatchTree;
  }

  lemma OwnWithoutProps(t: Tree, f: Tree, delta: u32)
    requires t.kids != [] && t.kids[0] == f && f.props == []
    ensures FixOwn(t, 0, f, delta) == FixOwnKids(t, 0, 0, f.kids, delta)
  {
    hide FixProps, FixOwnKids;
    NoFixProps(t, delta);
  }

  lemma SecondWord()
    ensures FixWord(Word(1) + Word(0), 4, 4) == Word(1) + Word(4)
  {
    hide Word, ReadWord;
    var v := Word(1) + Word(0);
    HasMiddle(Word(1), Word(0), []);
    assert Word(1) + Word(0) + [] == v;
    WordRoundTrip(v, 4, 0);
    ItsOwnWord(4);
    assert v[..4] == Word(1) && v[8..] == [];
    assert Word(1) + Word(4) + [] == Word(1) + Word(4);
  }

  /** A phandle lookup among three leaves below a root without one. */
  lemma ThirdIsFound(t: Tree, h: u32)
    requires |t.kids| == 3 && h > 0 && GetPhandle(t) == 0
    requires NodeByPhandle(t.kids[0], h) == None && NodeByPhandle(t.kids[1], h) == None
    requires NodeByPhandle(t.kids[2], h) == Some([])
    ensures NodeByPhandle(t, h) == Some([2])
  {
    hide GetPhandle, NodeByPhandle;
    LookupRoot(t, h);
    var k := t.kids;
    assert k[1..][0] == k[1] && k[1..][1..] == k[2..] && k[2..][0] == k[2] && k[2..][1..] == [];
    assert NodeAmong([], h) == None;
    assert [0] + [] == [0] && [0][1..] == [] && [1] + [] == [1] && [1][1..] == [] && [2] + [] == [2];
    assert NodeAmong(k[2..], h) == Some([0]);
    assert NodeAmong(k[1..], h) == Some([1]);
  }

  lemma LookupRoot(t: Tree, h: u32)
    requires GetPhandle(t) != h
    ensures NodeByPhandle(t, h) == NodeAmong(t.kids, h)
  {
    hide GetPhandle, NodeAmong;
  }

  lemma LookupLeaf(t: Tree, h: u32)
    requires t.kids == []
    ensures NodeByPhandle(t, h) == if GetPhandle(t) == h then Some([]) else None
  {
    hide GetPhandle;
  }

  /** The fixup node and everything below it have no phandle of their own. */
  lemma FixupsNotFound()
    ensures NodeByPhandle(FixedFixups().kids[0], 1) == None
  {
    hide GetPhandle, Word;
    var f, g, h := FixedFixups().kids[0], SelfFixup(), Leaf(USER, REF, Word(0));
    PlainPhandle(f);
    PlainPhandle(g);
    RefPhandle(h, Word(0));
    LookupLeaf(h, 1);
    assert g.kids == [h] && f.kids == [g, h] && [g, h][1..] == [h] && [h][1..] == [];
    assert NodeAmong([], 1) == None && NodeAmong([h], 1) == None;
    assert NodeByPhandle(g, 1) == None && NodeAmong([g, h], 1) == None;
  }

  lemma PlainPhandle(t: Tree)
    requires t.props == []
    ensures GetPhandle(t) == 0
  {
    hide PropOf;
    NoPhandles(t);
  }

  lemma RefPhandle(t: Tree, value: Bytes)
    requires t.props == [(REF, value)]
    ensures GetPhandle(t) == 0
  {
    hide PropOf, SetProp, PropPlaces, Places;
    RefOnly(t, value);
  }

  lemma TargetPhandle(name: Bytes, w: u32)
    ensures GetPhandle(Leaf(name, PHANDLE, Word(w))) == w
  {
    hide PropOf, Word, ReadWord, SetProp, PropPlaces;
    OneProp(Leaf(name, PHANDLE, Word(w)), PHANDLE, Word(w), PHANDLE);
    ReadBack(w);
  }

  /** Listed once, the word is not raised: its fixup lists another place by the time it is used. */
  lemma FixedFixupsLost()
    ensures RenumberTree(FixedFixups(), 4).0 == 0 && !FixupsApart(FixedFixups())
    ensures PlacesIn(FixedFixups(), [1], REF) == [0]
    ensures NodeByPhandle(FixedFixups(), 1) == Some([2])
    ensures var o2 := RenumberTree(FixedFixups(), 4).1;
            RefAt(FixedFixups(), [1], REF, 0) == Some(1) && RefAt(o2, [1], REF, 0) == Some(1) &&
            InTree(o2, [2]) && GetPhandle(TreeAt(o2, [2])) == 5
  {
    hide *;
    FixedUpdated();
    FixedAdjusted();
    RenumberCases(FixedFixups(), 4);
    ListedForUser();
    LookupTarget();
    UserWord(FixedFixups(), 0);
    UserWord(RenumberTree(FixedFixups(), 4).1, 4);
    TargetThere(RenumberTree(FixedFixups(), 4).1);
  }

  lemma ListedForUser()
    ensures PlacesIn(FixedFixups(), [1], REF) == [0] && !FixupsApart(FixedFixups()) && |FixedFixups().kids| == 3
    ensures FixedFixups().kids[1] == User(1, 0)
  {
    hide Word, PropPlaces, Places, MatchTree;
    var o, f, g, h := FixedFixups(), FixedFixups().kids[0], SelfFixup(), Leaf(USER, REF, Word(0));
    UserIsSecond(o);
    RefOnly(h, Word(0));
    OneWord(0);
    assert f.kids == [g, h] && [g, h][1..] == [h] && [h][1..] == [] && [1][1..] == [] && o.kids[0] == f;
    assert AllPlaces(o.kids[1], h, [], REF) == [0];
    assert KidPlaces(o, [], [1], REF) == [] && [0] + [] == [0] && [] + [0] == [0];
    assert KidPlaces(o, [h], [1], REF) == [0];
    assert KidPlaces(o, [g, h], [1], REF) == [0];
    assert f.kids[0].name == LOCAL_FIXUPS;
  }

  lemma LookupTarget()
    ensures NodeByPhandle(FixedFixups(), 1) == Some([2])
  {
    hide GetPhandle, Word, NodeByPhandle;
    var o := FixedFixups();
    PlainPhandle(o);
    FixupsNotFound();
    RefPhandle(o.kids[1], Word(1) + Word(0));
    LookupLeaf(o.kids[1], 1);
    TargetPhandle(TARGET, 1);
    LookupLeaf(o.kids[2], 1);
    ThirdIsFound(o, 1);
  }

  lemma UserWord(t: Tree, b: u32)
    requires |t.kids| == 3 && t.kids[1] == User(1, b)
    ensures RefAt(t, [1], REF, 0) == Some(1)
  {
    hide Word, ReadWord, PropOf, SetProp, PropPlaces, Places;
    RefOnly(t.kids[1], Word(1) + Word(b));
    HasMiddle([], Word(1), Word(b));
    assert [] + Word(1) + Word(b) == Word(1) + Word(b);
    WordRoundTrip(Word(1) + Word(b), 0, 1);
    assert [1][1..] == [];
  }

  lemma TargetThere(t: Tree)
    requires |t.kids| == 3 && t.kids[2] == Leaf(TARGET, PHANDLE, Word(5))
    ensures InTree(t, [2]) && GetPhandle(TreeAt(t, [2])) == 5
  {
    hide Word, GetPhandle;
    TargetPhandle(TARGET, 5);
    assert [2][1..] == [];
  }

  // ---- a phandle given twice ----

  /**
   The fixup node lists the target's phandle under two properties of one name. The first is renumbered, as a phandle of
   its own, to a place whose end wraps around; the second is left as it is, and lists the word.
   */
  function GivenTwice(): Tree {
    Tree([], [], [Tree(LOCAL_FIXUPS, [], [TwoPhandles(0xffff_fffb)]), Leaf(TARGET, PHANDLE, Word(1))])
  }

  function TwoPhandles(w: u32): Tree {
    Tree(TARGET, [(PHANDLE, Word(w)), (PHANDLE, Word(0))], [])
  }

  lemma TwoPhandlesProps(w: u32)
    ensures var t := TwoPhandles(w);
            PropOf(t, PHANDLE) == Some(Word(w)) && PropOf(t, LINUX_PHANDLE) == None &&
            forall v :: SetProp(t, PHANDLE, Word(v)) == TwoPhandles(v)
  {
    hide Word;
    NamesDiffer();
    var t := TwoPhandles(w);
    assert t.props[1..] == [(PHANDLE, Word(0))] && t.props[1..][1..] == [];
    forall v
      ensures SetProp(t, PHANDLE, Word(v)) == TwoPhandles(v)
    {
      assert t.props[0 := (PHANDLE, Word(v))] == TwoPhandles(v).props;
    }
  }

  lemma AdjustTwoPhandles()
    ensures Adjust(TwoPhandles(0xffff_fffb), 2) == (0, TwoPhandles(0xffff_fffd))
  {
    hide PropOf, SetProp, Word, ReadWord;
    TwoPhandlesProps(0xffff_fffb);
    TwoPhandlesProps(0xffff_fffd);
    ReadBack(0xffff_fffb);
    assert AddOffset(TwoPhandles(0xffff_fffb), PHANDLE, 2) == (0, TwoPhandles(0xffff_fffd));
    assert AddOffset(TwoPhandles(0xffff_fffd), LINUX_PHANDLE, 2) == (0, TwoPhandles(0xffff_fffd));
  }

  lemma GivenTwiceAdjusted()
    ensures Adjust(GivenTwice(), 2) ==
            (0, Tree([], [], [Tree(LOCAL_FIXUPS, [], [TwoPhandles(0xffff_fffd)]), Leaf(TARGET, PHANDLE, Word(3))]))
  {
    hide PropOf, Word, Adjust, AdjustKids, SetProp, TwoPhandles;
    var o, f := GivenTwice(), GivenTwice().kids[0];
    NoPhandles(o);
    NoPhandles(f);
    AdjustPlain(o, 2);
    AdjustPlain(f, 2);
    AdjustTwoPhandles();
    AdjustOne(TwoPhandles(0xffff_fffb), 2);
    AdjustTarget(TARGET, 1, 2);
    AdjustTwo(f, Leaf(TARGET, PHANDLE, Word(1)), 2);
  }

  lemma FixPhandle(w: u32, place: u32, w': u32)
    requires FixWords(Word(w), [place], 2) == (0, Word(w'))
    ensures FixProp(Leaf(TARGET, PHANDLE, Word(w)), PHANDLE, Word(place), 2) == (0, Leaf(TARGET, PHANDLE, Word(w')))
  {
    hide PropOf, SetProp, PropPlaces, Places, FixWords, Word;
    OneProp(Leaf(TARGET, PHANDLE, Word(w)), PHANDLE, Word(w), PHANDLE);
    OneWord(place);
  }

  lemma FixedByBoth()
    ensures Fix(Leaf(TARGET, PHANDLE, Word(3)), TwoPhandles(0xffff_fffd), 2) == (0, Leaf(TARGET, PHANDLE, Word(5)))
  {
    hide FixProp, Word, FixWord, Wrap32;
    var t, t' := Leaf(TARGET, PHANDLE, Word(3)), Leaf(TARGET, PHANDLE, Word(5));
    PlaceOutside(Word(3), 0xffff_fffd, 2);
    FixPhandle(3, 0xffff_fffd, 3);
    FixOnly(3, 2);
    WrapEnd(0);
    assert [0][1..] == [] && FixWords(Word(5), [], 2) == (0, Word(5));
    assert FixWords(Word(3), [0], 2) == (0, Word(5));
    FixPhandle(3, 0, 5);
    var props: seq<(Bytes, Bytes)> := TwoPhandles(0xffff_fffd).props;
    assert props[1..] == [(PHANDLE, Word(0))] && props[1..][1..] == [];
    NoFixProps(t', 2);
    assert FixProps(t, props[1..], 2) == (0, t');
    assert FixKids(t', [], 2) == (0, t');
  }

  lemma TargetIsSecond(t: Tree)
    requires |t.kids| == 2 && t.kids[0].name == LOCAL_FIXUPS && t.kids[1].name == TARGET
    ensures MatchTree(t.kids, TARGET) == 1 && MatchTree(t.kids, LOCAL_FIXUPS) == 0
  {
    assert LOCAL_FIXUPS[0] == 95 && !NodeNameEq(LOCAL_FIXUPS, TARGET) && NodeNameEq(TARGET, TARGET) &&
           NodeNameEq(LOCAL_FIXUPS, LOCAL_FIXUPS);
    assert t.kids[1..][0] == t.kids[1];
    hide NodeNameEq;
    assert MatchTree(t.kids[1..], TARGET) == 0;
  }

  lemma GivenTwiceUpdated()
    ensures var o1 := Adjust(GivenTwice(), 2).1;
            UpdateTree(o1, 2).0 == 0 && |UpdateTree(o1, 2).1.kids| == 2 &&
            UpdateTree(o1, 2).1.kids[1] == Leaf(TARGET, PHANDLE, Word(5))
  {
    hide Word, Fix, FixOwn, FixOwnKid, MatchTree, FixProps, Adjust;
    GivenTwiceAdjusted();
    FixedByBoth();
    var o1, h := Adjust(GivenTwice(), 2).1, TwoPhandles(0xffff_fffd);
    TargetIsSecond(o1);
    var f, o2 := o1.kids[0], o1.(kids := o1.kids[1 := Leaf(TARGET, PHANDLE, Word(5))]);
    OwnKidOther(o1, 0, 0, h, 2);
    assert f.kids == [h] && [h][1..] == [] && FixOwnKids(o2, 0, 1, [], 2) == (0, o2);
    assert FixOwnKids(o1, 0, 0, [h], 2) == (0, o2);
    OwnWithoutProps(o1, f, 2);
    UpdateCases(o1, 2);
  }

  lemma GivenTwiceShape()
    ensures FixupsApart(GivenTwice()) && !PhandlesOnce(GivenTwice())
    ensures InTree(GivenTwice(), [1]) && TreeAt(GivenTwice(), [1]) == Leaf(TARGET, PHANDLE, Word(1))
  {
    hide Word, MatchTree;
    var o, h := GivenTwice(), TwoPhandles(0xffff_fffb);
    TargetIsSecond(o);
    assert TARGET[0] == 116 && LOCAL_FIXUPS[0] == 95 && !NodeNameEq(TARGET, LOCAL_FIXUPS);
    assert o.kids[0].kids == [h] && o.kids[0].kids[0] == h && [1][1..] == [];
    assert h.props[0].0 == PHANDLE && h.props[1].0 == PHANDLE;
  }

  lemma SecondThere(t: Tree)
    requires |t.kids| == 2 && t.kids[1] == Leaf(TARGET, PHANDLE, Word(5))
    ensures InTree(t, [1]) && GetPhandle(TreeAt(t, [1])) == 5
  {
    hide Word, GetPhandle;
    TargetPhandle(TARGET, 5);
    assert [1][1..] == [];
  }

  /** Both renumberings raise the phandle, so that it ends at 5 where 3 is meant. */
  lemma GivenTwiceLost()
    ensures RenumberTree(GivenTwice(), 2).0 == 0 && FixupsApart(GivenTwice()) && !PhandlesOnce(GivenTwice())
    ensures InTree(GivenTwice(), [1]) && GetPhandle(TreeAt(GivenTwice(), [1])) == 1
    ensures var o2 := RenumberTree(GivenTwice(), 2).1;
            InTree(o2, [1]) && GetPhandle(TreeAt(o2, [1])) == 5
  {
    hide *;
    GivenTwiceAdjusted();
    GivenTwiceUpdated();
    RenumberCases(GivenTwice(), 2);
    GivenTwiceShape();
    TargetPhandle(TARGET, 1);
    SecondThere(RenumberTree(GivenTwice(), 2).1);
  }
}
