/** Writing a whole tree: the calls of the sequential writer in the order that its documentation asks for. */
module FdtBuild {
  import opened Common
  import opened FdtBytes
  import opened FdtView
  import opened FdtProps
  import opened FdtDecode
  import opened FdtBlob
  import opened FdtWriter
  import opened FdtSw

  /** A tree that the writer can be called for: strings without a zero byte, sizes that are sizes of blobs. */
  predicate Writable(t: Tree)
    decreases t, 1
  {
    NulFree(t.name) && |t.name| + 8 <= FDT_MAX_SIZE && WritableProps(t.props) && WritableKids(t.kids)
  }

  predicate WritableProps(props: seq<(Bytes, Bytes)>) {
    forall i :: 0 <= i < |props| ==> NulFree(props[i].0) && |props[i].1| + 16 <= FDT_MAX_SIZE
  }

  predicate WritableKids(kids: seq<Tree>)
    decreases kids, 0
  {
    kids == [] || (Writable(kids[0]) && WritableKids(kids[1..]))
  }

  // ---- how large a blob calls make ----

  /** Bytes a call adds to the structure block. */
  function CallSize(c: Call): (r: nat)
    ensures r > 0
  {
    match c
    case CBegin(name) => 4 + AlignUp(|name| + 1)
    case CProp(_, value) => 12 + AlignUp(|value|)
    case CEnd => 4
  }

  function CallsSize(cs: seq<Call>): nat {
    if cs == [] then 0 else CallSize(cs[0]) + CallsSize(cs[1..])
  }

  /** The strings after a call. */
  ghost function StringsThen(c: Call, flags: nat, strs: Bytes): (r: Bytes)
    ensures |r| >= |strs|
  {
    match c
    case CProp(name, _) => StringsWith(strs, flags, name)
    case _ => strs
  }

  ghost function StringsAfter(cs: seq<Call>, flags: nat, strs: Bytes): (r: Bytes)
    ensures |r| >= |strs|
    decreases |cs|
  {
    if cs == [] then strs else StringsAfter(cs[1..], flags, StringsThen(cs[0], flags, strs))
  }

  /** The size of the blob without its end tag after the calls, from a structure block that ends at `top`. */
  ghost function SizeAfter(cs: seq<Call>, flags: nat, strs: Bytes, top: nat): nat {
    top + CallsSize(cs) + |StringsAfter(cs, flags, strs)|
  }

  /**
   No call that is reached asks for room for a name with which the strings would be longer than the whole blob. (The
   test for room wraps beyond that, as `RoomTest` has it.)
   */
  ghost predicate NamesFit(cs: seq<Call>, flags: nat, strs: Bytes, top: nat, total: nat)
    decreases |cs|
  {
    cs == [] ||
    (|StringsThen(cs[0], flags, strs)| <= total &&
     (top + CallSize(cs[0]) + |StringsThen(cs[0], flags, strs)| <= total ==>
        NamesFit(cs[1..], flags, StringsThen(cs[0], flags, strs), top + CallSize(cs[0]), total)))
  }

  lemma NamesFitFirst(cs: seq<Call>, flags: nat, strs: Bytes, top: nat, total: nat)
    requires NamesFit(cs, flags, strs, top, total) && cs != []
    ensures |StringsThen(cs[0], flags, strs)| <= total
    ensures top + CallSize(cs[0]) + |StringsThen(cs[0], flags, strs)| <= total ==>
              NamesFit(cs[1..], flags, StringsThen(cs[0], flags, strs), top + CallSize(cs[0]), total)
  {
    hide StringsThen, CallSize;
  }

  lemma {:induction false} CallsConcat(a: seq<Call>, b: seq<Call>, flags: nat, strs: Bytes)
    ensures CallsSize(a + b) == CallsSize(a) + CallsSize(b)
    ensures StringsAfter(a + b, flags, strs) == StringsAfter(b, flags, StringsAfter(a, flags, strs))
    decreases |a|
  {
    hide CallSize, StringsThen;
    if a == [] {
      assert a + b == b;
    } else {
      assert (a + b)[0] == a[0] && (a + b)[1..] == a[1..] + b;
      CallsConcat(a[1..], b, flags, StringsThen(a[0], flags, strs));
    }
  }

  lemma {:induction false} NamesFitConcat(a: seq<Call>, b: seq<Call>, flags: nat, strs: Bytes, top: nat, total: nat)
    requires NamesFit(a + b, flags, strs, top, total)
    ensures NamesFit(a, flags, strs, top, total)
    ensures SizeAfter(a, flags, strs, top) <= total ==>
              NamesFit(b, flags, StringsAfter(a, flags, strs), top + CallsSize(a), total)
    decreases |a|
  {
    hide CallSize, StringsThen;
    if a == [] {
      assert a + b == b;
    } else {
      assert (a + b)[0] == a[0] && (a + b)[1..] == a[1..] + b;
      var strs1, top1 := StringsThen(a[0], flags, strs), top + CallSize(a[0]);
      NamesFitFirst(a + b, flags, strs, top, total);
      if top1 + |strs1| <= total {
        NamesFitConcat(a[1..], b, flags, strs1, top1, total);
      }
    }
  }

  /** A blob large enough for all of the calls is large enough for each name. */
  lemma {:induction false} RoomForNames(cs: seq<Call>, flags: nat, strs: Bytes, top: nat, total: nat)
    requires SizeAfter(cs, flags, strs, top) <= total
    ensures NamesFit(cs, flags, strs, top, total)
    decreases |cs|
  {
    hide CallSize, StringsThen;
    if cs != [] {
      RoomForNames(cs[1..], flags, StringsThen(cs[0], flags, strs), top + CallSize(cs[0]), total);
    }
  }

  /** So is any blob when the names are shorter than the header; the Devicetree Specification allows them 31 bytes. */
  lemma {:induction false} ShortNamesFit(cs: seq<Call>, flags: nat, strs: Bytes, top: nat, total: nat)
    requires forall i :: 0 <= i < |cs| && cs[i].CProp? ==> |cs[i].pname| < RESERVE_START
    requires RESERVE_START <= top && top + |strs| <= total
    ensures NamesFit(cs, flags, strs, top, total)
    decreases |cs|
  {
    hide CallSize;
    if cs != [] {
      ShortName(cs[0], flags, strs);
      var strs1, top1 := StringsThen(cs[0], flags, strs), top + CallSize(cs[0]);
      if top1 + |strs1| <= total {
        ShortNamesFit(cs[1..], flags, strs1, top1, total);
      }
    }
  }

  lemma ShortName(c: Call, flags: nat, strs: Bytes)
    requires c.CProp? ==> |c.pname| < RESERVE_START
    ensures |StringsThen(c, flags, strs)| <= |strs| + RESERVE_START
  {
    hide StringsWith, Lies;
  }

  // ---- writing a tree ----

  /** The blob has room, but perhaps not for all of the calls, and none of them asks for too long a name. */
  ghost predicate Ready(b: SwBlob, cs: seq<Call>)
    reads b, b.mem
  {
    b.Valid() && b.Open() && NamesFit(cs, b.flags, b.Strings(), b.offStruct + b.sizeStruct, b.totalSize)
  }

  /** How large the blob would be after the calls. */
  ghost function SizeWith(b: SwBlob, cs: seq<Call>): nat
    requires b.Layout()
    reads b, b.mem
  {
    SizeAfter(cs, b.flags, b.Strings(), b.offStruct + b.sizeStruct)
  }

  method WriteProps(b: SwBlob, props: seq<(Bytes, Bytes)>) returns (err: int)
    requires Ready(b, PropCalls(props)) && WritableProps(props)
    modifies b`sizeStruct, b`sizeStrings, b`toks, b.mem
    ensures b.Valid() && b.Reserve() == old(b.Reserve())
    ensures err == if old(SizeWith(b, PropCalls(props))) <= b.totalSize then 0 else -FDT_ERR_NOSPACE
    ensures err == 0 ==> b.Written() == old(b.Written()) + PropCalls(props)
    ensures err == 0 ==> b.sizeStruct == old(b.sizeStruct) + CallsSize(PropCalls(props))
    ensures err == 0 ==> b.Strings() == StringsAfter(PropCalls(props), b.flags, old(b.Strings()))
    decreases |props|
  {
    hide *;
    SwCodes();
    ReadyFacts(b, PropCalls(props));
    PropCallsCases(props);
    ghost var w, top, strs := b.Written(), b.offStruct + b.sizeStruct, b.Strings();
    if props == [] {
      NothingMore(w);
      NoCalls(b.flags, strs, top);
      return 0;
    }
    FirstProp(props);
    ghost var c, rest := CProp(props[0].0, props[0].1), PropCalls(props[1..]);
    FirstCall(c, rest, b.flags, strs, top, b.totalSize);
    PropCall(c, b.flags, strs);
    b.RoomIs(props[0].0, |props[0].1|);
    err := b.Property(props[0].0, props[0].1);
    if err != 0 {
      return;
    }
    NowReady(b, rest);
    err := WriteProps(b, props[1..]);
    ConcatAssoc(w, [c], rest);
  }

  method WriteTree(b: SwBlob, t: Tree) returns (err: int)
    requires Ready(b, TreeCalls(t)) && Writable(t)
    modifies b`sizeStruct, b`sizeStrings, b`toks, b.mem
    ensures b.Valid() && b.Reserve() == old(b.Reserve())
    ensures err == if old(SizeWith(b, TreeCalls(t))) <= b.totalSize then 0 else -FDT_ERR_NOSPACE
    ensures err == 0 ==> b.Written() == old(b.Written()) + TreeCalls(t)
    ensures err == 0 ==> b.sizeStruct == old(b.sizeStruct) + CallsSize(TreeCalls(t))
    ensures err == 0 ==> b.Strings() == StringsAfter(TreeCalls(t), b.flags, old(b.Strings()))
    decreases t, 1
  {
    hide *;
    SwCodes();
    WritableParts(t);
    ReadyFacts(b, TreeCalls(t));
    ghost var w, top, strs := b.Written(), b.offStruct + b.sizeStruct, b.Strings();
    ghost var c, ps, ks, e := CBegin(t.name), PropCalls(t.props), KidCalls(t.kids), [CEnd];
    TreeCallsAre(t, w);
    FirstCall(c, ps + (ks + e), b.flags, strs, top, b.totalSize);
    PlainCalls(c, b.flags, strs);
    err := b.BeginNode(t.name);
    if err != 0 {
      return;
    }
    ghost var top1 := b.offStruct + b.sizeStruct;
    MoreCalls(ps, ks + e, b.flags, strs, top1, b.totalSize);
    NowReady(b, ps);
    err := WriteProps(b, t.props);
    if err != 0 {
      return;
    }
    ghost var top2, strs2 := b.offStruct + b.sizeStruct, b.Strings();
    MoreCalls(ks, e, b.flags, strs2, top2, b.totalSize);
    NowReady(b, ks);
    err := WriteKids(b, t.kids);
    if err != 0 {
      return;
    }
    LastCall(b.flags, b.Strings(), b.offStruct + b.sizeStruct);
    err := b.EndNode();
  }

  method WriteKids(b: SwBlob, kids: seq<Tree>) returns (err: int)
    requires Ready(b, KidCalls(kids)) && WritableKids(kids)
    modifies b`sizeStruct, b`sizeStrings, b`toks, b.mem
    ensures b.Valid() && b.Reserve() == old(b.Reserve())
    ensures err == if old(SizeWith(b, KidCalls(kids))) <= b.totalSize then 0 else -FDT_ERR_NOSPACE
    ensures err == 0 ==> b.Written() == old(b.Written()) + KidCalls(kids)
    ensures err == 0 ==> b.sizeStruct == old(b.sizeStruct) + CallsSize(KidCalls(kids))
    ensures err == 0 ==> b.Strings() == StringsAfter(KidCalls(kids), b.flags, old(b.Strings()))
    decreases kids, 0
  {
    hide *;
    SwCodes();
    ReadyFacts(b, KidCalls(kids));
    KidCallsCases(kids);
    ghost var w, top, strs := b.Written(), b.offStruct + b.sizeStruct, b.Strings();
    if kids == [] {
      NothingMore(w);
      NoCalls(b.flags, strs, top);
      return 0;
    }
    FirstKid(kids);
    ghost var c, rest := TreeCalls(kids[0]), KidCalls(kids[1..]);
    MoreCalls(c, rest, b.flags, strs, top, b.totalSize);
    NowReady(b, c);
    err := WriteTree(b, kids[0]);
    if err != 0 {
      return;
    }
    NowReady(b, rest);
    err := WriteKids(b, kids[1..]);
    ConcatAssoc(w, c, rest);
  }

  /** The size of a blob with an empty reserve map and the tree: header, reserve map, calls, end tag and strings. */
  ghost function BuiltSize(t: Tree, flags: nat): nat {
    SizeAfter(TreeCalls(t), flags, [], RESERVE_START + 16) + FDT_TAGSIZE
  }

  /**
   A blob built from nothing: the calls succeed exactly in a buffer that the whole blob fits in; it then decodes to the
   tree, its reserve map is empty, and it has that size.
   */
  method Build(m: array<byte>, at: nat, bufsize: nat, flags: nat, t: Tree) returns (b: SwBlob, err: int)
    requires at + bufsize <= m.Length && bufsize < FDT_MAX_SIZE && Writable(t)
    requires RESERVE_START + 16 <= bufsize && flags <= NO_NAME_DEDUP ==>
               NamesFit(TreeCalls(t), flags, [], RESERVE_START + 16, bufsize)
    modifies m
    ensures b.mem == m
    ensures err == if RESERVE_START <= bufsize && flags > NO_NAME_DEDUP then -FDT_ERR_BADFLAGS
                   else if BuiltSize(t, flags) <= bufsize then 0
                   else -FDT_ERR_NOSPACE
    ensures err == 0 ==> b.Valid() && b.finished && b.base == at && b.totalSize == BuiltSize(t, flags)
    ensures err == 0 ==> Decode(b.Struct(), b.Strings()) == Some(t) && b.Reserve() == Word64(0) + Word64(0)
  {
    hide *;
    SwCodes();
    BuiltSizeIs(t, flags);
    b := new SwBlob(m);
    err := b.Create(at, bufsize, flags);
    if err != 0 {
      return;
    }
    err := b.FinishReservemap();
    if err != 0 {
      return;
    }
    NowReady(b, TreeCalls(t));
    err := WriteTree(b, t);
    if err != 0 {
      return;
    }
    b.ValidFacts();
    err := b.Finish();
    b.StringsLong();
    NothingBefore(TreeCalls(t));
    OnlyTheEnd();
  }

  lemma BuiltSizeIs(t: Tree, flags: nat)
    ensures var cs := TreeCalls(t);
            BuiltSize(t, flags) == 64 + CallsSize(cs) + 4 + |StringsAfter(cs, flags, [])| &&
            BuiltSize(t, flags) == SizeAfter(cs, flags, [], 64) + 4
  {
    hide TreeCalls, CallsSize, StringsAfter;
  }

  lemma ReadyFacts(b: SwBlob, cs: seq<Call>)
    requires Ready(b, cs)
    ensures b.Valid() && b.Open() && b.Layout() && |b.Strings()| == b.sizeStrings
    ensures b.offStruct + b.sizeStruct + b.sizeStrings <= b.totalSize
    ensures NamesFit(cs, b.flags, b.Strings(), b.offStruct + b.sizeStruct, b.totalSize)
    ensures SizeWith(b, cs) == SizeAfter(cs, b.flags, b.Strings(), b.offStruct + b.sizeStruct)
  {
    hide NamesFit, SizeAfter, Holds;
  }

  lemma NowReady(b: SwBlob, cs: seq<Call>)
    requires b.Valid() && b.Open()
    requires NamesFit(cs, b.flags, b.Strings(), b.offStruct + b.sizeStruct, b.totalSize)
    ensures Ready(b, cs) && |b.Strings()| == b.sizeStrings
    ensures SizeWith(b, cs) == SizeAfter(cs, b.flags, b.Strings(), b.offStruct + b.sizeStruct)
  {
    hide NamesFit, SizeAfter, Holds;
  }

  lemma NoCalls(flags: nat, strs: Bytes, top: nat)
    ensures CallsSize([]) == 0 && StringsAfter([], flags, strs) == strs &&
            SizeAfter([], flags, strs, top) == top + |strs|
  {
  }

  /** The first of several calls, and the others when there was room for it. */
  lemma FirstCall(c: Call, rest: seq<Call>, flags: nat, strs: Bytes, top: nat, total: nat)
    requires NamesFit([c] + rest, flags, strs, top, total)
    ensures var strs1, top1 := StringsThen(c, flags, strs), top + CallSize(c);
            |strs1| <= total && top1 + |strs1| <= SizeAfter([c] + rest, flags, strs, top) &&
            (top1 + |strs1| <= total ==> NamesFit(rest, flags, strs1, top1, total)) &&
            CallsSize([c] + rest) == CallSize(c) + CallsSize(rest) &&
            StringsAfter([c] + rest, flags, strs) == StringsAfter(rest, flags, strs1) &&
            SizeAfter([c] + rest, flags, strs, top) == SizeAfter(rest, flags, strs1, top1)
  {
    hide CallSize, StringsThen;
    assert ([c] + rest)[1..] == rest;
  }

  lemma MoreCalls(a: seq<Call>, b: seq<Call>, flags: nat, strs: Bytes, top: nat, total: nat)
    requires NamesFit(a + b, flags, strs, top, total)
    ensures var strs1, top1 := StringsAfter(a, flags, strs), top + CallsSize(a);
            NamesFit(a, flags, strs, top, total) && SizeAfter(a, flags, strs, top) == top1 + |strs1| &&
            SizeAfter(a, flags, strs, top) <= SizeAfter(a + b, flags, strs, top) &&
            (top1 + |strs1| <= total ==> NamesFit(b, flags, strs1, top1, total)) &&
            CallsSize(a + b) == CallsSize(a) + CallsSize(b) &&
            StringsAfter(a + b, flags, strs) == StringsAfter(b, flags, strs1) &&
            SizeAfter(a + b, flags, strs, top) == SizeAfter(b, flags, strs1, top1)
  {
    hide NamesFit, CallsSize, StringsAfter;
    CallsConcat(a, b, flags, strs);
    NamesFitConcat(a, b, flags, strs, top, total);
  }

  lemma PropCall(c: Call, flags: nat, strs: Bytes)
    requires c.CProp?
    ensures CallSize(c) == 12 + AlignUp(|c.value|) && StringsThen(c, flags, strs) == StringsWith(strs, flags, c.pname)
    ensures |StringsThen(c, flags, strs)| == |strs| + NewString(strs, flags, c.pname)
  {
    hide AlignUp, NewString;
  }

  lemma PlainCalls(c: Call, flags: nat, strs: Bytes)
    requires c.CBegin?
    ensures CallSize(c) == 4 + AlignUp(|c.name| + 1) && StringsThen(c, flags, strs) == strs
  {
    hide AlignUp;
  }

  lemma LastCall(flags: nat, strs: Bytes, top: nat)
    ensures CallsSize([CEnd]) == 4 && StringsAfter([CEnd], flags, strs) == strs
    ensures SizeAfter([CEnd], flags, strs, top) == top + 4 + |strs|
  {
    assert [CEnd][1..] == [];
  }

  lemma NothingBefore(c: seq<Call>)
    ensures [] + c == c
  {
  }

  lemma OnlyTheEnd()
    ensures [] + (Word64(0) + Word64(0)) == Word64(0) + Word64(0)
  {
    hide Word64;
  }

  lemma PropCallsCases(props: seq<(Bytes, Bytes)>)
    ensures PropCalls(props) == if props == [] then [] else [CProp(props[0].0, props[0].1)] + PropCalls(props[1..])
  {
  }

  lemma KidCallsCases(kids: seq<Tree>)
    ensures KidCalls(kids) == if kids == [] then [] else TreeCalls(kids[0]) + KidCalls(kids[1..])
  {
    hide TreeCalls;
  }

  lemma FirstProp(props: seq<(Bytes, Bytes)>)
    requires WritableProps(props) && props != []
    ensures NulFree(props[0].0) && |props[0].1| + 16 <= FDT_MAX_SIZE
    ensures WritableProps(props[1..])
  {
    hide NulFree;
  }

  lemma FirstKid(kids: seq<Tree>)
    requires WritableKids(kids) && kids != []
    ensures Writable(kids[0]) && WritableKids(kids[1..])
  {
    hide Writable;
  }

  lemma WritableParts(t: Tree)
    requires Writable(t)
    ensures NulFree(t.name) && |t.name| + 8 <= FDT_MAX_SIZE && WritableProps(t.props) && WritableKids(t.kids)
  {
    hide NulFree, WritableProps, WritableKids;
  }

  lemma TreeCallsAre(t: Tree, w: seq<Call>)
    ensures var ps, ks := PropCalls(t.props), KidCalls(t.kids);
            TreeCalls(t) == [CBegin(t.name)] + (ps + (ks + [CEnd])) &&
            w + [CBegin(t.name)] + ps + ks + [CEnd] == w + TreeCalls(t)
  {
    hide PropCalls, KidCalls;
  }
}
