/**
 The sequential writer: the structure block grows up, the strings table grows down from the
 end of the buffer, property names are negative offsets from that end. Finishing moves the
 strings up against the structure block and rewrites every name offset.
 */
module FdtWriter {
  import opened Common
  import opened FdtBytes
  import opened FdtTokens
  import opened FdtTree
  import opened FdtScan
  import opened FdtVisit
  import opened FdtNodes
  import opened FdtProps
  import opened FdtEdit
  import opened FdtView
  import opened FdtDecode
  import opened FdtSplice
  import opened FdtBlob

  // ---- what has been written ----

  datatype Call = CBegin(name: Bytes) | CProp(pname: Bytes, value: Bytes) | CEnd

  /** The string a name offset of an unfinished blob selects; the offset counts back from the end. */
  function NameOf(strs: Bytes, nameoff: u32): Option<Bytes> {
    GetString(strs, Wrap32(nameoff + |strs|))
  }

  function CallOf(t: Token, strs: Bytes): Call {
    match t
    case TBegin(name, _) => CBegin(name)
    case TProp(nameoff, value, _) =>
      (match NameOf(strs, nameoff)
       case Some(name) => CProp(name, value)
       case None => CProp([], value))
    case _ => CEnd
  }

  /** The calls that wrote the tokens. */
  function Calls(ts: seq<Token>, strs: Bytes): (r: seq<Call>)
    ensures |r| == |ts|
  {
    seq(|ts|, i requires 0 <= i < |ts| => CallOf(ts[i], strs))
  }

  predicate OkToken(t: Token, strs: Bytes) {
    match t
    case TProp(nameoff, _, _) =>
      nameoff >= 0x1_0000_0000 - |strs| && NameOf(strs, nameoff).Some?
    case TNop => false
    case TFinish => false
    case _ => true
  }

  predicate OkTokens(ts: seq<Token>, strs: Bytes) {
    forall i :: 0 <= i < |ts| ==> OkToken(ts[i], strs)
  }

  lemma GetStringShift(x: Bytes, strs: Bytes, i: nat)
    requires i < |strs| && |x| + |strs| < FDT_MAX_SIZE && GetString(strs, i).Some?
    ensures GetString(x + strs, |x| + i) == GetString(strs, i)
  {
    var e := FindNul(strs, i);
    var name := strs[i..e];
    assert NulFree(name) by {
      forall k | 0 <= k < |name|
        ensures name[k] != 0
      {
        assert name[k] == strs[i + k];
      }
    }
    assert (x + strs)[|x| + i..|x| + e + 1] == name + [0];
    StringAt(x + strs, |x| + i, name);
  }

  /** Offsets from the end keep selecting the same string when the table grows downwards. */
  lemma NameOfGrows(x: Bytes, strs: Bytes, nameoff: u32)
    requires nameoff >= 0x1_0000_0000 - |strs| && NameOf(strs, nameoff).Some? && |x| + |strs| < FDT_MAX_SIZE
    ensures NameOf(x + strs, nameoff) == NameOf(strs, nameoff)
  {
    WrapFacts(nameoff + |strs|);
    WrapFacts(nameoff + |x + strs|);
    GetStringShift(x, strs, Wrap32(nameoff + |strs|));
  }

  lemma OkTokenGrows(x: Bytes, strs: Bytes, t: Token)
    requires OkToken(t, strs) && |x| + |strs| < FDT_MAX_SIZE
    ensures OkToken(t, x + strs) && CallOf(t, x + strs) == CallOf(t, strs)
  {
    hide NameOf;
    if t.TProp? {
      NameOfGrows(x, strs, t.nameoff);
    }
  }

  lemma CallsGrow(x: Bytes, strs: Bytes, ts: seq<Token>)
    requires OkTokens(ts, strs) && |x| + |strs| < FDT_MAX_SIZE
    ensures OkTokens(ts, x + strs) && Calls(ts, x + strs) == Calls(ts, strs)
  {
    hide OkToken, CallOf;
    forall i | 0 <= i < |ts|
      ensures OkToken(ts[i], x + strs) && CallOf(ts[i], x + strs) == CallOf(ts[i], strs)
    {
      OkTokenGrows(x, strs, ts[i]);
    }
  }

  lemma CallsOne(ts: seq<Token>, t: Token, strs: Bytes)
    requires OkTokens(ts, strs) && OkToken(t, strs)
    ensures OkTokens(ts + [t], strs) && Calls(ts + [t], strs) == Calls(ts, strs) + [CallOf(t, strs)]
  {
    hide OkToken, CallOf;
  }

  lemma EncAppend(ts: seq<Token>, t: Token)
    requires WfTokens(ts) && WfToken(t)
    ensures WfTokens(ts + [t]) && Enc(ts + [t]) == Enc(ts) + EncTok(t)
  {
    hide EncTok, WfToken;
    EncConcat(ts, [t]);
    assert Enc([t]) == EncTok(t) + Enc([]);
  }

  // ---- relocation ----

  /** The token with its name offset counted from the start of a table of `size` bytes. */
  function Moved1(t: Token, size: nat): Token {
    match t
    case TProp(nameoff, value, pad) => TProp(Wrap32(nameoff + size), value, pad)
    case _ => t
  }

  function Relocated(ts: seq<Token>, size: nat): (r: seq<Token>)
    ensures |r| == |ts|
    ensures forall i :: 0 <= i < |ts| ==> r[i] == Moved1(ts[i], size)
  {
    seq(|ts|, i requires 0 <= i < |ts| => Moved1(ts[i], size))
  }

  lemma RelocatedWf(ts: seq<Token>, size: nat)
    requires WfTokens(ts)
    ensures WfTokens(Relocated(ts, size))
  {
    hide Wrap32, PadLen;
  }

  /** Storing a name offset changes that of the property and nothing else. */
  lemma StoreNameOff(ts: seq<Token>, j: nat, nameoff: u32)
    requires WfTokens(ts) && j < |ts| && ts[j].TProp?
    ensures var t' := TProp(nameoff, ts[j].value, ts[j].pad);
            WfTokens(ts[j := t']) && Off(ts, j) + 12 <= |Enc(ts)| &&
            Enc(ts[j := t']) == Splice(Enc(ts), Off(ts, j) + 8, 4, Word(nameoff)) &&
            Off(ts[j := t'], j) == Off(ts, j) && Off(ts[j := t'], j + 1) == Off(ts, j + 1)
  {
    hide Enc, EncTok, Splice, Has, Word, WfTokens;
    var t, t' := ts[j], TProp(nameoff, ts[j].value, ts[j].pad);
    WfTokenAt(ts, j);
    EncToken(t');
    OneTokenSplice(ts, j, t');
    EncSplice(ts, j, 1, [t']);
    EncAt(ts, j);
    NameOffWord(t, nameoff);
    assert Off(ts, j + 1) - Off(ts, j) == |EncTok(t)|;
    SpliceOver(Enc(ts), Off(ts, j), EncTok(t), 8, Word(nameoff));
    SamePrefixOff(ts, ts[j := t'], j);
    EncAt(ts[j := t'], j);
  }

  lemma OneTokenSplice(ts: seq<Token>, j: nat, t: Token)
    requires j < |ts|
    ensures Splice(ts, j, 1, [t]) == ts[j := t]
  {
  }

  lemma SamePrefixOff(ts: seq<Token>, ts': seq<Token>, j: nat)
    requires WfTokens(ts) && WfTokens(ts') && j <= |ts| && j <= |ts'| && ts[..j] == ts'[..j]
    ensures Off(ts, j) == Off(ts', j)
  {
  }

  lemma NameOffWord(t: Token, nameoff: u32)
    requires WfToken(t) && t.TProp?
    ensures var t' := TProp(nameoff, t.value, t.pad);
            |EncTok(t)| >= 12 && WfToken(t') && EncTok(t') == Splice(EncTok(t), 8, 4, Word(nameoff)) &&
              |EncTok(t')| == |EncTok(t)|
  {
    hide Word, PadLen;
    var h := Word(FDT_PROP) + Word(|t.value|);
    assert EncTok(t) == h + Word(t.nameoff) + (t.value + t.pad);
    assert EncTok(TProp(nameoff, t.value, t.pad)) == h + Word(nameoff) + (t.value + t.pad);
    hide EncTok;
    SpliceMiddle(h, Word(t.nameoff), t.value + t.pad, Word(nameoff));
  }

  // ---- the tree that was written ----

  function TreeCalls(t: Tree): (r: seq<Call>)
    ensures |r| >= 2
    decreases t, 1
  {
    [CBegin(t.name)] + PropCalls(t.props) + KidCalls(t.kids) + [CEnd]
  }

  function PropCalls(props: seq<(Bytes, Bytes)>): (r: seq<Call>)
    ensures |r| == |props|
  {
    if props == [] then [] else [CProp(props[0].0, props[0].1)] + PropCalls(props[1..])
  }

  function KidCalls(kids: seq<Tree>): seq<Call>
    decreases kids, 0
  {
    if kids == [] then [] else TreeCalls(kids[0]) + KidCalls(kids[1..])
  }

  /** A finished token stands for a call. */
  ghost predicate Stands(t: Token, strs: Bytes, c: Call) {
    WfToken(t) &&
    match c
    case CBegin(name) => t.TBegin? && t.name == name
    case CProp(name, value) => t.TProp? && GetString(strs, t.nameoff) == Some(name) && t.value == value
    case CEnd => t == TEnd
  }

  ghost predicate StandFor(ts: seq<Token>, k: nat, strs: Bytes, calls: seq<Call>) {
    k + |calls| <= |ts| && forall i :: 0 <= i < |calls| ==> Stands(ts[k + i], strs, calls[i])
  }

  lemma StandForSplit(ts: seq<Token>, k: nat, strs: Bytes, a: seq<Call>, b: seq<Call>)
    requires StandFor(ts, k, strs, a + b)
    ensures StandFor(ts, k, strs, a) && StandFor(ts, k + |a|, strs, b)
  {
    hide Stands;
    forall i | 0 <= i < |a|
      ensures Stands(ts[k + i], strs, a[i])
    {
      assert (a + b)[i] == a[i];
    }
    forall i | 0 <= i < |b|
      ensures Stands(ts[k + |a| + i], strs, b[i])
    {
      assert (a + b)[|a| + i] == b[i];
    }
  }

  /** The stored items of a tree, and what they mean. */
  ghost predicate ItemsFor(ts: seq<Token>, k: nat, strs: Bytes, items: seq<Item>, props: seq<(Bytes, Bytes)>,
                           kids: seq<Tree>, len: nat) {
    |FlatItems(items)| == len && Has(ts, k, FlatItems(items)) && WfItems(items) && ProperItems(items, strs) &&
    ViewProps(items, strs) == props && ViewKids(items, strs) == kids &&
    (kids == [] ==> forall i :: 0 <= i < |items| ==> !items[i].Child?) &&
    (props == [] ==> forall i :: 0 <= i < |items| ==> !items[i].Prop?)
  }

  lemma {:induction false} BuildProps(ts: seq<Token>, k: nat, strs: Bytes, props: seq<(Bytes, Bytes)>)
    returns (items: seq<Item>)
    requires StandFor(ts, k, strs, PropCalls(props))
    ensures ItemsFor(ts, k, strs, items, props, [], |PropCalls(props)|)
    decreases |props|
  {
    hide StandFor, ItemsFor, PropCalls, Stands;
    if props == [] {
      items := [];
      NoItemsFor(ts, k, strs) by { StandForBound(ts, k, strs, PropCalls(props)); NoPropCalls(); }
    } else {
      var c := CProp(props[0].0, props[0].1);
      PropCallsStep(props);
      StandForSplit(ts, k, strs, [c], PropCalls(props[1..]));
      var rest := BuildProps(ts, k + 1, strs, props[1..]);
      StandForBound(ts, k, strs, [c]);
      items := [PropItem(ts[k])] + rest;
      PropItemFor(ts, k, strs, props, rest);
    }
  }

  lemma StandForBound(ts: seq<Token>, k: nat, strs: Bytes, calls: seq<Call>)
    requires StandFor(ts, k, strs, calls)
    ensures k + |calls| <= |ts|
  {
  }

  lemma NoPropCalls()
    ensures PropCalls([]) == []
  {
  }

  lemma PropCallsStep(props: seq<(Bytes, Bytes)>)
    requires props != []
    ensures PropCalls(props) == [CProp(props[0].0, props[0].1)] + PropCalls(props[1..])
  {
  }

  lemma NoItemsFor(ts: seq<Token>, k: nat, strs: Bytes)
    requires k <= |ts|
    ensures ItemsFor(ts, k, strs, [], [], [], 0)
  {
  }

  ghost function PropItem(t: Token): Item {
    match t
    case TProp(nameoff, value, pad) => Prop(nameoff, value, pad)
    case _ => Nop
  }

  lemma {:induction false} PropItemFor(ts: seq<Token>, k: nat, strs: Bytes, props: seq<(Bytes, Bytes)>, rest: seq<Item>)
    requires props != [] && StandFor(ts, k, strs, [CProp(props[0].0, props[0].1)])
    requires ItemsFor(ts, k + 1, strs, rest, props[1..], [], |PropCalls(props[1..])|)
    ensures k < |ts| && ItemsFor(ts, k, strs, [PropItem(ts[k])] + rest, props, [], |PropCalls(props)|)
  {
    hide FlatItems, WfItems, ProperItems, ViewProps, ViewKids, GetString, Has, WfToken, PropCalls;
    var c, it := CProp(props[0].0, props[0].1), PropItem(ts[k]);
    assert Stands(ts[k + 0], strs, [c][0]);
    PropCallsStep(props);
    FlatItemsConcat([it], rest);
    FlatItemsOne(it);
    HasToken(ts, k);
    HasSplit(ts, k, [ts[k]], FlatItems(rest));
    WfItemsConcat([it], rest);
    ProperItemsConcat([it], rest, strs);
    OneItem(it, strs);
    ViewConcat([it], rest, strs);
    ViewOne(it, strs);
    assert [props[0]] + props[1..] == props;
  }

  lemma {:induction false} BuildKids(ts: seq<Token>, k: nat, strs: Bytes, kids: seq<Tree>) returns (items: seq<Item>)
    requires StandFor(ts, k, strs, KidCalls(kids))
    ensures ItemsFor(ts, k, strs, items, [], kids, |KidCalls(kids)|)
    decreases kids, 0
  {
    hide StandFor, ItemsFor, KidCalls, Stands, TreeCalls;
    if kids == [] {
      items := [];
      NoItemsFor(ts, k, strs) by { StandForBound(ts, k, strs, KidCalls(kids)); }
      NoKidCalls();
    } else {
      KidCallsStep(kids);
      StandForSplit(ts, k, strs, TreeCalls(kids[0]), KidCalls(kids[1..]));
      var c := BuildTree(ts, k, strs, kids[0]);
      var rest := BuildKids(ts, k + |TreeCalls(kids[0])|, strs, kids[1..]);
      items := [Child(c)] + rest;
      KidItemFor(ts, k, strs, kids, c, rest);
    }
  }

  lemma NoKidCalls()
    ensures KidCalls([]) == []
  {
  }

  lemma KidCallsStep(kids: seq<Tree>)
    requires kids != []
    ensures KidCalls(kids) == TreeCalls(kids[0]) + KidCalls(kids[1..])
  {
  }

  /** The stored node of a tree. */
  ghost predicate NodeFor(ts: seq<Token>, k: nat, strs: Bytes, n: Node, t: Tree) {
    |Flat(n)| == |TreeCalls(t)| && Has(ts, k, Flat(n)) && WfNode(n) && Proper(n, strs) && View(n, strs) == t
  }

  lemma KidItemFor(ts: seq<Token>, k: nat, strs: Bytes, kids: seq<Tree>, c: Node, rest: seq<Item>)
    requires kids != [] && NodeFor(ts, k, strs, c, kids[0])
    requires ItemsFor(ts, k + |TreeCalls(kids[0])|, strs, rest, [], kids[1..], |KidCalls(kids[1..])|)
    ensures ItemsFor(ts, k, strs, [Child(c)] + rest, [], kids, |KidCalls(kids)|)
  {
    hide FlatItems, WfItems, ProperItems, ViewProps, ViewKids, Has, Flat, KidCalls, TreeCalls, WfNode, Proper, View;
    var it := Child(c);
    KidCallsStep(kids);
    FlatItemsConcat([it], rest);
    FlatItemsOne(it);
    FlatChild(it);
    HasSplit(ts, k, Flat(c), FlatItems(rest));
    WfItemsConcat([it], rest);
    ProperItemsConcat([it], rest, strs);
    OneItem(it, strs);
    ViewConcat([it], rest, strs);
    ViewOne(it, strs);
    assert [kids[0]] + kids[1..] == kids;
  }

  lemma {:induction false} BuildTree(ts: seq<Token>, k: nat, strs: Bytes, t: Tree) returns (n: Node)
    requires StandFor(ts, k, strs, TreeCalls(t))
    ensures NodeFor(ts, k, strs, n, t)
    decreases t, 1
  {
    hide StandFor, ItemsFor, KidCalls, PropCalls, Stands, NodeFor;
    var a, b, c := [CBegin(t.name)], PropCalls(t.props), KidCalls(t.kids);
    StandForSplit(ts, k, strs, a + b + c, [CEnd]);
    StandForSplit(ts, k, strs, a + b, c);
    StandForSplit(ts, k, strs, a, b);
    var props := BuildProps(ts, k + 1, strs, t.props);
    var kids := BuildKids(ts, k + 1 + |b|, strs, t.kids);
    StandForBound(ts, k, strs, a);
    BeginStands(ts, k, strs, t.name);
    n := Node(t.name, ts[k].pad, props + kids);
    NodeIsFor(ts, k, strs, t, props, kids);
  }

  lemma BeginStands(ts: seq<Token>, k: nat, strs: Bytes, name: Bytes)
    requires StandFor(ts, k, strs, [CBegin(name)])
    ensures k < |ts| && ts[k].TBegin? && ts[k].name == name && WfToken(ts[k])
  {
    hide WfToken;
    assert Stands(ts[k + 0], strs, [CBegin(name)][0]);
  }

  lemma EndStands(ts: seq<Token>, k: nat, strs: Bytes)
    requires StandFor(ts, k, strs, [CEnd])
    ensures Has(ts, k, [TEnd])
  {
    hide WfToken;
    assert Stands(ts[k + 0], strs, [CEnd][0]);
  }

  lemma NodeIsFor(ts: seq<Token>, k: nat, strs: Bytes, t: Tree, props: seq<Item>, kids: seq<Item>)
    requires StandFor(ts, k, strs, [CBegin(t.name)])
    requires ItemsFor(ts, k + 1, strs, props, t.props, [], |PropCalls(t.props)|)
    requires ItemsFor(ts, k + 1 + |PropCalls(t.props)|, strs, kids, [], t.kids, |KidCalls(t.kids)|)
    requires StandFor(ts, k + 1 + |PropCalls(t.props)| + |KidCalls(t.kids)|, strs, [CEnd])
    ensures k < |ts| && ts[k].TBegin? && NodeFor(ts, k, strs, Node(t.name, ts[k].pad, props + kids), t)
  {
    hide FlatItems, WfItems, ProperItems, ViewProps, ViewKids, Has, KidCalls, PropCalls, StandFor;
    BeginStands(ts, k, strs, t.name);
    EndStands(ts, k + 1 + |PropCalls(t.props)| + |KidCalls(t.kids)|, strs);
    var n := Node(t.name, ts[k].pad, props + kids);
    FlatItemsConcat(props, kids);
    HasSplit(ts, k + 1, FlatItems(props), FlatItems(kids));
    HasToken(ts, k);
    NodeParts(ts, k, n);
    WfItemsConcat(props, kids);
    ProperItemsConcat(props, kids, strs);
    ViewConcat(props, kids, strs);
    assert t.props + [] == t.props && [] + t.kids == t.kids;
    assert n == Node(ts[k].name, ts[k].pad, props + kids);
  }

  /** Tokens that stand for the calls of a tree, closed, decode to the tree. */
  lemma WrittenDecodes(ts: seq<Token>, strs: Bytes, t: Tree)
    requires WfTokens(ts) && |ts| == |TreeCalls(t)| && StandFor(ts, 0, strs, TreeCalls(t))
    ensures WfTokens(ts + [TFinish]) && Decode(Enc(ts + [TFinish]), strs) == Some(t)
  {
    hide StandFor, TreeCalls, Flat, WfNode, Proper, View, Decode, Enc;
    var n := BuildTree(ts, 0, strs, t);
    HasWhole(ts, Flat(n));
    assert ts[|ts|..] == [] && ts == Flat(n);
    StreamFacts(n);
    DecodeEncode(n, strs);
  }

  /** The relocated tokens of a finished blob stand for the calls that wrote them. */
  lemma RelocatedStand(ts: seq<Token>, strs: Bytes, calls: seq<Call>)
    requires WfTokens(ts) && OkTokens(ts, strs) && Calls(ts, strs) == calls
    ensures StandFor(Relocated(ts, |strs|), 0, strs, calls)
  {
    hide Wrap32, GetString, PadLen;
    forall i | 0 <= i < |calls|
      ensures Stands(Relocated(ts, |strs|)[0 + i], strs, calls[i])
    {
      assert OkToken(ts[i], strs) && WfToken(ts[i]);
      assert calls[i] == CallOf(ts[i], strs);
    }
  }

  /** Finishing a blob written by the calls of a tree gives a blob that decodes to the tree. */
  lemma FinishDecodes(ts: seq<Token>, strs: Bytes, t: Tree)
    requires WfTokens(ts) && OkTokens(ts, strs) && Calls(ts, strs) == TreeCalls(t)
    ensures WfTokens(Relocated(ts, |strs|) + [TFinish])
    ensures Decode(Enc(Relocated(ts, |strs|) + [TFinish]), strs) == Some(t)
  {
    hide TreeCalls, Decode, Enc, Relocated, StandFor;
    RelocatedWf(ts, |strs|);
    RelocatedStand(ts, strs, TreeCalls(t));
    WrittenDecodes(Relocated(ts, |strs|), strs, t);
  }
}
