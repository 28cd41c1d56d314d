/**
 Reading a whole structure block back: the tags one after another, the nesting from
 begin and end tags, the names from the strings block. Decoding inverts encoding, and
 whatever decodes was an encoding.
 */
module FdtDecode {
  import opened Common
  import opened FdtBytes
  import opened FdtTokens
  import opened FdtTree
  import opened FdtScan
  import opened FdtVisit
  import opened FdtNodes
  import opened FdtProps
  import opened FdtView

  /** The token at `off` and the offset of the next one. */
  function TokenAt(s: Bytes, off: nat): Option<(Token, nat)> {
    var (tag, next) := NextTag(s, off);
    if next <= off || next > |s| then None
    else if tag == FDT_BEGIN_NODE then
      var nul := FindNul(s, off + 4);
      if nul < next then Some((TBegin(s[off + 4..nul], s[nul + 1..next]), next)) else None
    else if tag == FDT_PROP then
      var end := off + 12 + ReadWord(s, off + 4);
      if end <= next
      then Some((TProp(ReadWord(s, off + 8), s[off + 12..end], s[end..next]), next))
      else None
    else if tag == FDT_END_NODE then Some((TEnd, next))
    else if tag == FDT_NOP then Some((TNop, next))
    else Some((TFinish, next))
  }

  /** All tokens from `off` to the FDT_END that closes the block. */
  function Tokens(s: Bytes, off: nat): Option<seq<Token>>
    decreases |s| - off
  {
    match TokenAt(s, off)
    case None => None
    case Some((t, next)) =>
      if t.TFinish? then (if next == |s| then Some([t]) else None)
      else
        match Tokens(s, next)
        case None => None
        case Some(ts) => Some([t] + ts)
  }

  /** The items from token `k` to the end tag of their node, and the index after it. */
  function ParseItems(ts: seq<Token>, k: nat): (r: Option<(seq<Item>, nat)>)
    ensures r.Some? ==> k < r.value.1 <= |ts|
    decreases |ts| - k, 0
  {
    if k >= |ts| then None else
    match ts[k]
    case TEnd => Some(([], k + 1))
    case TFinish => None
    case TNop => ParseMore(Nop, ts, k + 1)
    case TProp(nameoff, value, pad) => ParseMore(Prop(nameoff, value, pad), ts, k + 1)
    case TBegin(name, pad) =>
      (match ParseItems(ts, k + 1)
       case None => None
       case Some((items, m)) => ParseMore(Child(Node(name, pad, items)), ts, m))
  }

  function ParseMore(it: Item, ts: seq<Token>, k: nat): (r: Option<(seq<Item>, nat)>)
    requires k <= |ts|
    ensures r.Some? ==> k < r.value.1 <= |ts|
    decreases |ts| - k, 1
  {
    match ParseItems(ts, k)
    case None => None
    case Some((items, m)) => Some(([it] + items, m))
  }

  function ParseRoot(ts: seq<Token>): Option<Node> {
    if ts == [] || !ts[0].TBegin? then None else
    match ParseItems(ts, 1)
    case None => None
    case Some((items, m)) =>
      if m + 1 == |ts| && ts[m].TFinish? then Some(Node(ts[0].name, ts[0].pad, items)) else None
  }

  /** The stored tree of a structure block. */
  function DecodeNode(s: Bytes): Option<Node> {
    match Tokens(s, 0)
    case None => None
    case Some(ts) => ParseRoot(ts)
  }

  /** The meaning of a structure block with its strings block. */
  function Decode(s: Bytes, strs: Bytes): Option<Tree> {
    match DecodeNode(s)
    case None => None
    case Some(n) => if Proper(n, strs) then Some(View(n, strs)) else None
  }

  /** The structure block that holds the tree `n`. */
  function Encode(n: Node): Bytes
    requires WfNode(n)
  {
    FlatWf(n);
    Enc(Flat(n) + [TFinish])
  }

  // ---- encoding, then decoding ----

  lemma TokenAtOn(s: Bytes, o: nat, t: Token)
    requires WfToken(t) && Has(s, o, EncTok(t)) && NextTag(s, o) == (Tag(t), o + |EncTok(t)|)
    ensures TokenAt(s, o) == Some((t, o + |EncTok(t)|))
  {
    hide NextTag, EncTok, FindNul, ReadWord, Word, PadLen, AlignUp, WfToken;
    match t
    case TBegin(name, pad) =>
      BeginFields(s, o, name, pad);
      BeginPad(s, o, name, pad);
    case TProp(nameoff, value, pad) =>
      PropFields(s, o, nameoff, value, pad);
      PropPad(s, o, nameoff, value, pad);
    case _ =>
  }

  lemma TokenAtEncoded(ts: seq<Token>, i: nat)
    requires WfTokens(ts) && i < |ts|
    ensures TokenAt(Enc(ts), Off(ts, i)) == Some((ts[i], Off(ts, i + 1)))
  {
    hide *;
    NextTagAt(ts, i);
    EncAt(ts, i);
    WfTokenAt(ts, i);
    TokenAtOn(Enc(ts), Off(ts, i), ts[i]);
  }

  lemma BeginPad(s: Bytes, o: nat, name: Bytes, pad: Bytes)
    requires WfToken(TBegin(name, pad)) && Has(s, o, EncTok(TBegin(name, pad)))
    ensures |EncTok(TBegin(name, pad))| == 5 + |name| + |pad|
    ensures Has(s, o + 5 + |name|, pad)
  {
    hide Word, Has, PadLen;
    HasSplit(s, o, Word(FDT_BEGIN_NODE) + (name + [0]), pad);
  }

  lemma PropPad(s: Bytes, o: nat, nameoff: u32, value: Bytes, pad: Bytes)
    requires WfToken(TProp(nameoff, value, pad)) && Has(s, o, EncTok(TProp(nameoff, value, pad)))
    ensures |EncTok(TProp(nameoff, value, pad))| == 12 + |value| + |pad|
    ensures Has(s, o + 12 + |value|, pad)
  {
    hide Word, Has, PadLen;
    HasSplit(s, o, Word(FDT_PROP) + Word(|value|) + Word(nameoff) + value, pad);
  }

  /** Only the last token ends the block. */
  predicate Closed(ts: seq<Token>) {
    |ts| > 0 && ts[|ts| - 1].TFinish? && forall i :: 0 <= i < |ts| - 1 ==> !ts[i].TFinish?
  }

  lemma {:induction false} TokensOfEncoded(ts: seq<Token>, i: nat)
    requires WfTokens(ts) && Closed(ts) && i < |ts|
    ensures Tokens(Enc(ts), Off(ts, i)) == Some(ts[i..])
    decreases |ts| - i
  {
    hide Enc, Off, TokenAt, WfTokens;
    TokenAtEncoded(ts, i);
    OffMonotone(ts, i, i + 1);
    if i + 1 < |ts| {
      TokensOfEncoded(ts, i + 1);
      assert [ts[i]] + ts[i + 1..] == ts[i..];
    } else {
      OffEnd(ts);
      assert [ts[i]] == ts[i..];
    }
  }

  lemma OffEnd(ts: seq<Token>)
    requires WfTokens(ts)
    ensures Off(ts, |ts|) == |Enc(ts)|
  {
    assert ts[..|ts|] == ts;
  }

  lemma {:induction false} ParseFlat(ts: seq<Token>, items: seq<Item>, k: nat)
    requires Has(ts, k, FlatItems(items)) && Has(ts, k + |FlatItems(items)|, [TEnd])
    ensures ParseItems(ts, k) == Some((items, k + |FlatItems(items)| + 1))
    decreases items
  {
    hide Has, Flat, FlatItems, FlatItem;
    FirstItemToken(ts, items, k);
    if items != [] {
      HasSplit(ts, k, FlatItem(items[0]), FlatItems(items[1..])) by {
        FlatItemsHead(items);
      }
      FlatItemsHead(items);
      ParseFlat(ts, items[1..], k + |FlatItem(items[0])|);
      assert [items[0]] + items[1..] == items;
      if items[0].Child? {
        var c := items[0].node;
        FlatChild(items[0]);
        NodeParts(ts, k, c);
        ChildSmaller(items);
        ParseFlat(ts, c.items, k + 1);
      } else {
        LeadOne(items[0]);
      }
    }
  }

  lemma FlatChild(it: Item)
    requires it.Child?
    ensures FlatItem(it) == Flat(it.node)
  {
  }

  lemma ChildSmaller(items: seq<Item>)
    requires items != [] && items[0].Child?
    ensures items decreases to items[0].node.items
  {
    var it := items[0];
    assert items decreases to it;
    assert it decreases to it.node;
  }

  lemma FlatItemsHead(items: seq<Item>)
    requires items != []
    ensures FlatItems(items) == FlatItem(items[0]) + FlatItems(items[1..])
  {
  }

  lemma FirstItemToken(ts: seq<Token>, items: seq<Item>, k: nat)
    requires Has(ts, k, FlatItems(items)) && Has(ts, k + |FlatItems(items)|, [TEnd])
    ensures k < |ts|
    ensures items == [] ==> ts[k].TEnd? && |FlatItems(items)| == 0
    ensures items != [] && items[0].Nop? ==> ts[k].TNop?
    ensures items != [] && items[0].Prop? ==> ts[k] == TProp(items[0].nameoff, items[0].value, items[0].vpad)
    ensures items != [] && items[0].Child? ==> ts[k] == TBegin(items[0].node.name, items[0].node.pad)
  {
    hide Flat;
    if items == [] {
      HasAt(ts, k, [TEnd]);
      assert ts[k] == TEnd;
    } else {
      FlatItemsHead(items);
      hide FlatItems;
      HasSplit(ts, k, FlatItem(items[0]), FlatItems(items[1..]));
      HasAt(ts, k, FlatItem(items[0]));
      assert ts[k] == FlatItem(items[0])[0];
    }
  }

  lemma {:induction false} FlatNoFinish(n: Node)
    ensures forall i :: 0 <= i < |Flat(n)| ==> !Flat(n)[i].TFinish?
    decreases n, 1
  {
    hide FlatItems;
    FlatItemsNoFinish(n.items);
  }

  lemma {:induction false} FlatItemNoFinish(it: Item)
    ensures forall i :: 0 <= i < |FlatItem(it)| ==> !FlatItem(it)[i].TFinish?
    decreases it, 1
  {
    hide Flat;
    match it
    case Child(c) => FlatNoFinish(c);
    case _ =>
  }

  lemma {:induction false} FlatItemsNoFinish(items: seq<Item>)
    ensures forall i :: 0 <= i < |FlatItems(items)| ==> !FlatItems(items)[i].TFinish?
    decreases items, 0
  {
    hide FlatItem;
    if items != [] {
      FlatItemNoFinish(items[0]);
      FlatItemsNoFinish(items[1..]);
    }
  }

  /** The stream of a whole block. */
  function Stream(n: Node): (ts: seq<Token>)
    ensures |ts| >= 3
  {
    Flat(n) + [TFinish]
  }

  lemma StreamFacts(n: Node)
    requires WfNode(n)
    ensures WfTokens(Stream(n)) && Closed(Stream(n)) && Block(Stream(n))
    ensures Has(Stream(n), 0, Flat(n)) && Off(Stream(n), 0) == 0
    ensures Encode(n) == Enc(Stream(n))
  {
    hide Flat, WfNode;
    FlatWf(n);
    FlatNoFinish(n);
    assert Stream(n)[..0] == [];
  }

  lemma DecodeStream(n: Node)
    requires WfNode(n)
    ensures DecodeNode(Encode(n)) == Some(n)
  {
    hide Flat, FlatItems, WfNode, Tokens, Enc, Off, Has, WfTokens, ParseItems, Encode, Stream;
    var ts := Stream(n);
    StreamFacts(n);
    TokensOfEncoded(ts, 0);
    assert ts[0..] == ts;
    NodeParts(ts, 0, n);
    ParseFlat(ts, n.items, 1);
    RootToken(n);
    assert Tokens(Encode(n), 0) == Some(ts);
  }

  lemma RootToken(n: Node)
    ensures Stream(n)[0] == TBegin(n.name, n.pad) && |Stream(n)| == |FlatItems(n.items)| + 3
    ensures Stream(n)[|FlatItems(n.items)| + 2] == TFinish
  {
    hide FlatItems;
  }

  /** Decoding what the tree `n` was encoded to gives its meaning back. */
  lemma DecodeEncode(n: Node, strs: Bytes)
    requires WfNode(n) && Proper(n, strs)
    ensures Decode(Encode(n), strs) == Some(View(n, strs))
  {
    hide Encode, DecodeNode, View, Proper, WfNode;
    DecodeStream(n);
  }

  // ---- whatever decodes was encoded ----

  lemma TokenAtSound(s: Bytes, off: nat)
    requires TokenAt(s, off).Some? && off % 4 == 0 && |s| < FDT_MAX_SIZE
    ensures var (t, next) := TokenAt(s, off).value;
            WfToken(t) && s[off..next] == EncTok(t) && next % 4 == 0
  {
    hide ReadWord, Word, PadLen, AlignUp, Wrap32, WfToken, EncTok, FindNul;
    var (t, next) := TokenAt(s, off).value;
    ReadWordIsWord(s, off);
    match t
    case TBegin(name, pad) => BeginSound(s, off, FindNul(s, off + 4), next);
    case TProp(_, value, _) => PropSound(s, off, ReadWord(s, off + 4), next);
    case _ => PlainSound(s, off, t);
  }

  lemma PlainSound(s: Bytes, off: nat, t: Token)
    requires off + 4 <= |s| && off % 4 == 0 && (t.TEnd? || t.TNop? || t.TFinish?)
    requires ReadWord(s, off) == Tag(t)
    ensures WfToken(t) && s[off..off + 4] == EncTok(t) && AlignUp(off + 4) == off + 4
  {
    hide ReadWord, Word;
    ReadWordIsWord(s, off);
  }

  lemma BeginSound(s: Bytes, off: nat, nul: nat, next: nat)
    requires off + 4 <= nul < next <= |s| && off % 4 == 0 && nul == FindNul(s, off + 4)
    requires ReadWord(s, off) == FDT_BEGIN_NODE && next == AlignUp(nul + 1)
    ensures var t := TBegin(s[off + 4..nul], s[nul + 1..next]);
            WfToken(t) && s[off..next] == EncTok(t) && next % 4 == 0
  {
    hide ReadWord, Word, AlignUp, FindNul;
    var name, pad := s[off + 4..nul], s[nul + 1..next];
    forall i | 0 <= i < |name|
      ensures name[i] != 0
    {
      assert name[i] == s[off + 4 + i];
    }
    AlignFacts(off + 4, |name| + 1);
    ReadWordIsWord(s, off);
    Cut(s, off, off + 4, nul, nul + 1, next);
    assert s[nul..nul + 1] == [0];
  }

  lemma Cut(s: Bytes, a: nat, b: nat, c: nat, d: nat, e: nat)
    requires a <= b <= c <= d <= e <= |s|
    ensures s[a..e] == s[a..b] + (s[b..c] + s[c..d]) + s[d..e]
    ensures s[a..e] == s[a..b] + s[b..c] + s[c..d] + s[d..e]
  {
  }

  lemma PropSound(s: Bytes, off: nat, len: nat, next: nat)
    requires off + 12 + len <= next <= |s| < FDT_MAX_SIZE && off % 4 == 0
    requires ReadWord(s, off) == FDT_PROP && len == ReadWord(s, off + 4)
    requires next == AlignUp(off + Wrap32(12 + len))
    ensures var end := off + 12 + len;
            var t := TProp(ReadWord(s, off + 8), s[off + 12..end], s[end..next]);
            WfToken(t) && s[off..next] == EncTok(t) && next % 4 == 0
  {
    hide ReadWord, Word, AlignUp, Wrap32, EncTok, WfToken;
    WrapFacts(12 + len);
    AlignFacts(off + 12, len);
    AlignFacts(off + 12, 0);
    var end := off + 12 + len;
    ReadWordIsWord(s, off);
    ReadWordIsWord(s, off + 4);
    ReadWordIsWord(s, off + 8);
    Cut(s, off, off + 4, off + 8, off + 12, off + 12);
    Cut(s, off, off + 12, end, end, next);
    PropBytes(s, off, end, next, ReadWord(s, off + 8));
  }

  lemma PropBytes(s: Bytes, off: nat, end: nat, next: nat, nameoff: u32)
    requires off + 12 <= end <= next <= |s| < FDT_MAX_SIZE && next - end == PadLen(end - off - 12)
    requires s[off..off + 12] == Word(FDT_PROP) + Word(end - off - 12) + Word(nameoff)
    ensures var t := TProp(nameoff, s[off + 12..end], s[end..next]);
            WfToken(t) && s[off..next] == EncTok(t)
  {
    var t := TProp(nameoff, s[off + 12..end], s[end..next]);
    assert WfToken(t) by { hide PadLen; }
    PropTokenBytes(t);
    hide *;
    Cut(s, off, off + 12, end, end, next);
  }

  lemma PropTokenBytes(t: Token)
    requires t.TProp? && WfToken(t)
    ensures EncTok(t) == Word(FDT_PROP) + Word(|t.value|) + Word(t.nameoff) + t.value + t.pad
  {
    hide Word, PadLen;
  }

  lemma {:induction false} TokensSound(s: Bytes, off: nat)
    requires Tokens(s, off).Some? && off % 4 == 0 && off <= |s| < FDT_MAX_SIZE
    ensures var ts := Tokens(s, off).value;
            WfTokens(ts) && Closed(ts) && s[off..] == Enc(ts)
    decreases |s| - off
  {
    hide TokenAt, EncTok, WfToken;
    var (t, next) := TokenAt(s, off).value;
    TokenAtSound(s, off);
    TokenAtBound(s, off);
    if t.TFinish? {
      assert Enc([t]) == EncTok(t) + Enc([]);
      assert s[off..] == s[off..next];
    } else {
      TokensSound(s, next);
      var ts := Tokens(s, next).value;
      assert ([t] + ts)[0] == t && ([t] + ts)[1..] == ts;
      assert s[off..] == s[off..next] + s[next..];
    }
  }

  lemma TokenAtBound(s: Bytes, off: nat)
    requires TokenAt(s, off).Some?
    ensures off < TokenAt(s, off).value.1 <= |s|
  {
    hide NextTag, ReadWord, FindNul;
  }

  lemma {:induction false} ParseSound(ts: seq<Token>, k: nat)
    requires ParseItems(ts, k).Some? && WfTokens(ts)
    ensures var (items, m) := ParseItems(ts, k).value;
            WfItems(items) && m == k + |FlatItems(items)| + 1 &&
            Has(ts, k, FlatItems(items)) && Has(ts, m - 1, [TEnd])
    decreases |ts| - k, 0
  {
    hide Has, FlatItems, WfItems, WfToken;
    match ts[k]
    case TEnd => ParseEndSound(ts, k);
    case TNop => ParseMoreSound(Nop, ts, k, k + 1);
    case TProp(nameoff, value, pad) => ParseMoreSound(Prop(nameoff, value, pad), ts, k, k + 1);
    case TBegin(name, pad) =>
      ParseSound(ts, k + 1);
      var (items, m) := ParseItems(ts, k + 1).value;
      HasToken(ts, k);
      NodeParts(ts, k, Node(name, pad, items));
      ParseMoreSound(Child(Node(name, pad, items)), ts, k, m);
  }

  lemma HasToken(ts: seq<Token>, k: nat)
    requires k < |ts|
    ensures Has(ts, k, [ts[k]])
  {
  }

  lemma ParseEndSound(ts: seq<Token>, k: nat)
    requires k < |ts| && ts[k] == TEnd
    ensures WfItems([]) && Has(ts, k, FlatItems([])) && Has(ts, k, [TEnd]) && FlatItems([]) == []
  {
  }

  lemma {:induction false} ParseMoreSound(it: Item, ts: seq<Token>, k: nat, m: nat)
    requires k < m <= |ts| && ParseMore(it, ts, m).Some? && WfTokens(ts)
    requires it.Child? ==> WfNode(it.node) && Has(ts, k, Flat(it.node)) && m == k + |Flat(it.node)|
    requires !it.Child? ==> m == k + 1 && FlatItem(it) == [ts[k]]
    ensures var (items, e) := ParseMore(it, ts, m).value;
            WfItems(items) && e == k + |FlatItems(items)| + 1 &&
            Has(ts, k, FlatItems(items)) && Has(ts, e - 1, [TEnd])
    decreases |ts| - m, 1
  {
    hide Has, Flat, WfToken;
    ParseSound(ts, m);
    var items := ParseItems(ts, m).value.0;
    if !it.Child? {
      HasToken(ts, k);
      WfTokenAt(ts, k);
    }
    assert ([it] + items)[1..] == items;
    HasSplit(ts, k, FlatItem(it), FlatItems(items));
  }

  /** A structure block that decodes is the encoding of what it decodes to, byte for byte. */
  lemma DecodeNodeSound(s: Bytes)
    requires DecodeNode(s).Some? && |s| < FDT_MAX_SIZE
    ensures WfNode(DecodeNode(s).value) && s == Encode(DecodeNode(s).value)
  {
    hide Has, FlatItems, Tokens, Enc, ParseItems;
    TokensSound(s, 0);
    var ts := Tokens(s, 0).value;
    assert s[0..] == s;
    ParseSound(ts, 1);
    var n := DecodeNode(s).value;
    var m := ParseItems(ts, 1).value.1;
    WfTokenAt(ts, 0);
    HasToken(ts, 0);
    NodeParts(ts, 0, n);
    HasWhole(ts, Flat(n));
    assert ts == Flat(n) + [TFinish];
  }

  lemma HasWhole<T>(s: seq<T>, part: seq<T>)
    requires Has(s, 0, part)
    ensures s == part + s[|part|..]
  {
  }
}
