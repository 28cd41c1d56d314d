/**
 The structure block as a stream of tokens, and `fdt_next_tag`, the one reader
 every traversal of the block goes through.
 */
module FdtTokens {
  import opened Common
  import opened FdtBytes

  /** One item of the structure block, with the padding bytes that align it. */
  datatype Token =
    | TBegin(name: Bytes, pad: Bytes)
    | TEnd
    | TProp(nameoff: u32, value: Bytes, pad: Bytes)
    | TNop
    | TFinish

  predicate WfToken(t: Token) {
    match t
    case TBegin(name, pad) => NulFree(name) && |pad| == PadLen(|name| + 1)
    case TProp(_, value, pad) => |value| < FDT_MAX_SIZE && |pad| == PadLen(|value|)
    case _ => true
  }

  predicate WfTokens(ts: seq<Token>) {
    forall i :: 0 <= i < |ts| ==> WfToken(ts[i])
  }

  lemma WfTokenAt(ts: seq<Token>, i: nat)
    requires WfTokens(ts) && i < |ts|
    ensures WfToken(ts[i])
  {
  }

  function Tag(t: Token): u32 {
    match t
    case TBegin(_, _) => FDT_BEGIN_NODE
    case TEnd => FDT_END_NODE
    case TProp(_, _, _) => FDT_PROP
    case TNop => FDT_NOP
    case TFinish => FDT_END
  }

  function EncTok(t: Token): (b: Bytes)
    requires WfToken(t)
    ensures |b| >= 4
  {
    match t
    case TBegin(name, pad) => Word(FDT_BEGIN_NODE) + (name + [0]) + pad
    case TProp(nameoff, value, pad) =>
      Word(FDT_PROP) + Word(|value|) + Word(nameoff) + value + pad
    case _ => Word(Tag(t))
  }

  lemma PropEnc(t: Token)
    requires WfToken(t) && t.TProp?
    ensures |t.value| < 0x7fff_ffff
    ensures EncTok(t) == Word(FDT_PROP) + Word(|t.value|) + Word(t.nameoff) + t.value + t.pad
  {
    hide Word, PadLen;
  }

  function Enc(ts: seq<Token>): (b: Bytes)
    requires WfTokens(ts)
    ensures |b| >= 4 * |ts|
  {
    if ts == [] then [] else EncTok(ts[0]) + Enc(ts[1..])
  }

  lemma WfConcat(a: seq<Token>, b: seq<Token>)
    requires WfTokens(a) && WfTokens(b)
    ensures WfTokens(a + b)
  {
    hide WfToken;
  }

  lemma EncStep(ts: seq<Token>)
    requires WfTokens(ts)
    ensures ts == [] ==> Enc(ts) == []
    ensures ts != [] ==> WfToken(ts[0]) && WfTokens(ts[1..]) && Enc(ts) == EncTok(ts[0]) + Enc(ts[1..])
  {
    hide EncTok, WfToken;
  }

  lemma {:induction false} EncConcat(a: seq<Token>, b: seq<Token>)
    requires WfTokens(a) && WfTokens(b)
    ensures WfTokens(a + b) && Enc(a + b) == Enc(a) + Enc(b)
    decreases |a|
  {
    hide *;
    ConcatFirst(a, b);
    WfConcat(a, b);
    EncStep(a);
    if a == [] {
      ConcatFirst(Enc(a), Enc(b));
    } else {
      EncStep(a + b);
      EncConcat(a[1..], b);
      ConcatAssoc(EncTok(a[0]), Enc(a[1..]), Enc(b));
    }
  }

  /** Byte offset of token `i`. */
  function Off(ts: seq<Token>, i: nat): (o: nat)
    requires WfTokens(ts) && i <= |ts|
  {
    |Enc(ts[..i])|
  }

  lemma EncSplit(ts: seq<Token>, i: nat)
    requires WfTokens(ts) && i <= |ts|
    ensures Enc(ts) == Enc(ts[..i]) + Enc(ts[i..])
  {
    assert ts == ts[..i] + ts[i..];
    EncConcat(ts[..i], ts[i..]);
  }

  lemma EncOne(ts: seq<Token>, i: nat)
    requires WfTokens(ts) && i < |ts|
    ensures Enc(ts[..i + 1]) == Enc(ts[..i]) + EncTok(ts[i])
  {
    hide EncTok;
    var t, a := ts[i], ts[..i + 1];
    EncSplit(a, i);
    assert a[..i] == ts[..i] && a[i..] == [t];
    assert Enc([t]) == EncTok(t) + Enc([]);
  }

  lemma EncAt(ts: seq<Token>, i: nat)
    requires WfTokens(ts) && i < |ts|
    ensures Off(ts, i + 1) == Off(ts, i) + |EncTok(ts[i])| <= |Enc(ts)|
    ensures Has(Enc(ts), Off(ts, i), EncTok(ts[i]))
  {
    hide EncTok, Enc, Has;
    EncSplit(ts, i + 1);
    EncOne(ts, i);
    HasMiddle(Enc(ts[..i]), EncTok(ts[i]), Enc(ts[i + 1..]));
  }

  lemma {:induction false} OffMonotone(ts: seq<Token>, i: nat, j: nat)
    requires WfTokens(ts) && i < j <= |ts|
    ensures Off(ts, i) + 4 * (j - i) <= Off(ts, j) <= |Enc(ts)|
  {
    var a, b, c := ts[..i], ts[i..j], ts[j..];
    assert ts[..j] == a + b && ts == ts[..j] + c;
    EncConcat(a, b);
    EncConcat(ts[..j], c);
  }

  lemma EncTokAligned(t: Token)
    requires WfToken(t)
    ensures |EncTok(t)| % 4 == 0
  {
    hide Word;
    match t
    case TBegin(name, _) => AlignFacts(0, |name| + 1);
    case TProp(_, value, _) => AlignFacts(0, |value|);
    case _ =>
  }

  lemma {:induction false} OffAligned(ts: seq<Token>, i: nat)
    requires WfTokens(ts) && i <= |ts|
    ensures Off(ts, i) % 4 == 0
  {
    hide EncTok;
    if i > 0 {
      OffAligned(ts, i - 1);
      EncAt(ts, i - 1);
      EncTokAligned(ts[i - 1]);
    }
  }

  // ---- fdt_next_tag ----

  /**
   fdt_next_tag on a structure block `s`: the tag at `start` and the offset of the
   next one, or FDT_END and a negative error. The length sum of a property wraps at 32 bits.
   */
  function NextTag(s: Bytes, start: nat): (r: (u32, int)) {
    if start + FDT_TAGSIZE > |s| then (FDT_END, -FDT_ERR_TRUNCATED) else
    var tag := ReadWord(s, start);
    var bad := (FDT_END, -FDT_ERR_BADSTRUCTURE);
    if tag == FDT_BEGIN_NODE then
      var nul := FindNul(s, start + FDT_TAGSIZE);
      if nul == |s| then bad else (tag, AlignUp(nul + 1))
    else if tag == FDT_PROP then
      if start + 8 > |s| then bad else
      var span := Wrap32(12 + ReadWord(s, start + 4));
      if start + span > |s| then bad else (tag, AlignUp(start + span))
    else if tag == FDT_END || tag == FDT_END_NODE || tag == FDT_NOP then
      (tag, AlignUp(start + FDT_TAGSIZE))
    else
      bad
  }

  method ReadNextTag(s: Bytes, startoffset: nat) returns (tag: u32, nextoffset: int)
    ensures (tag, nextoffset) == NextTag(s, startoffset)
  {
    nextoffset := -FDT_ERR_TRUNCATED;
    if startoffset + FDT_TAGSIZE > |s| {
      return FDT_END, nextoffset;
    }
    tag := ReadWord(s, startoffset);
    var offset := startoffset + FDT_TAGSIZE;
    nextoffset := -FDT_ERR_BADSTRUCTURE;
    if tag == FDT_BEGIN_NODE {
      while offset < |s| && s[offset] != 0
        invariant startoffset + FDT_TAGSIZE <= offset <= |s|
        invariant FindNul(s, offset) == FindNul(s, startoffset + FDT_TAGSIZE)
      {
        offset := offset + 1;
      }
      if offset == |s| {
        return FDT_END, nextoffset;
      }
      offset := offset + 1;
    } else if tag == FDT_PROP {
      if offset + 4 > |s| {
        return FDT_END, nextoffset;
      }
      var span := Wrap32(12 + ReadWord(s, offset));
      if startoffset + span > |s| {
        return FDT_END, nextoffset;
      }
      offset := startoffset + span;
    } else if tag == FDT_END || tag == FDT_END_NODE || tag == FDT_NOP {
    } else {
      return FDT_END, nextoffset;
    }
    nextoffset := AlignUp(offset);
  }

  /**
   The scan moves forward on every tag but one: a property whose length field is
   0xfffffff4, for which the wrapped sum is zero and the scan stays where it is.
   */
  lemma NextTagAdvances(s: Bytes, start: nat)
    requires start % 4 == 0 && NextTag(s, start).1 >= 0
    ensures NextTag(s, start).1 % 4 == 0
    ensures NextTag(s, start).1 > start <==>
            !(NextTag(s, start).0 == FDT_PROP && ReadWord(s, start + 4) == 0xffff_fff4)
    ensures NextTag(s, start).1 >= start
  {
    hide ReadWord, FindNul, AlignUp, Wrap32;
    if NextTag(s, start).0 == FDT_PROP {
      var len := ReadWord(s, start + 4);
      WrapFacts(12 + len as int);
      AlignFacts(start, Wrap32(12 + len as int));
    } else if NextTag(s, start).0 == FDT_BEGIN_NODE {
      AlignFacts(start, FindNul(s, start + 4) + 1 - start);
    } else {
      AlignFacts(start, FDT_TAGSIZE);
    }
  }

  /** A block on which the scan never moves again. */
  lemma NextTagCanStall()
    ensures var s := [0, 0, 0, 3, 0xff, 0xff, 0xff, 0xf4];
            NextTag(s, 0) == (FDT_PROP, 0)
  {
    var s: Bytes := [0, 0, 0, 3, 0xff, 0xff, 0xff, 0xf4];
    assert ReadWord(s, 0) == 3 && ReadWord(s, 4) == 0xffff_fff4;
    assert Wrap32(12 + 0xffff_fff4) == 0;
  }

  lemma EncTokLen(t: Token)
    requires WfToken(t)
    ensures |EncTok(t)| == match t
                           case TBegin(name, _) => 4 + AlignUp(|name| + 1)
                           case TProp(_, value, _) => 12 + AlignUp(|value|)
                           case _ => 4
  {
    hide AlignUp, Word;
  }

  lemma NextTagBegin(s: Bytes, o: nat, len: nat)
    requires o + 4 + len + 1 <= |s| && o % 4 == 0
    requires ReadWord(s, o) == FDT_BEGIN_NODE && FindNul(s, o + 4) == o + 4 + len
    ensures NextTag(s, o) == (FDT_BEGIN_NODE, o + 4 + AlignUp(len + 1))
  {
    hide ReadWord, FindNul, AlignUp;
    AlignFacts(o + 4, len + 1);
  }

  lemma NextTagProp(s: Bytes, o: nat, len: nat)
    requires o + 12 + len <= |s| && o % 4 == 0 && len < FDT_MAX_SIZE
    requires ReadWord(s, o) == FDT_PROP && ReadWord(s, o + 4) == len
    ensures NextTag(s, o) == (FDT_PROP, o + 12 + AlignUp(len))
  {
    WrapFacts(12 + len);
    hide ReadWord, FindNul, AlignUp, Wrap32;
    AlignFacts(o + 12, len);
  }

  lemma NextTagOnPlain(s: Bytes, o: nat, t: Token)
    requires (t.TEnd? || t.TNop? || t.TFinish?) && Has(s, o, EncTok(t)) && o % 4 == 0
    ensures NextTag(s, o) == (Tag(t), o + 4)
  {
    WordRoundTrip(s, o, Tag(t));
    hide Has, EncTok, ReadWord, FindNul, Wrap32;
  }

  lemma NextTagOn(s: Bytes, o: nat, t: Token)
    requires WfToken(t) && Has(s, o, EncTok(t)) && o % 4 == 0
    ensures NextTag(s, o) == (Tag(t), o + |EncTok(t)|)
  {
    hide NextTag, Has, AlignUp, EncTok;
    EncTokLen(t);
    if t.TBegin? {
      BeginFields(s, o, t.name, t.pad);
      NextTagBegin(s, o, |t.name|);
    } else if t.TProp? {
      PropFields(s, o, t.nameoff, t.value, t.pad);
      NextTagProp(s, o, |t.value|);
    } else {
      NextTagOnPlain(s, o, t);
    }
  }

  lemma OffZero(ts: seq<Token>)
    requires WfTokens(ts)
    ensures Off(ts, 0) == 0
  {
    assert ts[..0] == [];
  }

  lemma EncToken(t: Token)
    requires WfToken(t)
    ensures WfTokens([t]) && Enc([t]) == EncTok(t)
  {
    hide EncTok;
    assert [t][1..] == [];
    assert Enc([t]) == EncTok(t) + Enc([]);
  }

  /** On an encoded stream the scan visits exactly the tokens, each at its own offset. */
  lemma NextTagAt(ts: seq<Token>, i: nat)
    requires WfTokens(ts) && i < |ts|
    ensures NextTag(Enc(ts), Off(ts, i)) == (Tag(ts[i]), Off(ts, i + 1))
  {
    hide *;
    WfTokenAt(ts, i);
    EncAt(ts, i);
    OffAligned(ts, i);
    NextTagOn(Enc(ts), Off(ts, i), ts[i]);
  }

  lemma BeginFields(s: Bytes, o: nat, name: Bytes, pad: Bytes)
    requires WfToken(TBegin(name, pad)) && Has(s, o, EncTok(TBegin(name, pad)))
    ensures o + 5 + |name| + |pad| <= |s|
    ensures ReadWord(s, o) == FDT_BEGIN_NODE
    ensures FindNul(s, o + 4) == o + 4 + |name|
    ensures Has(s, o + 4, name)
  {
    hide Word, ReadWord, AlignUp, FindNul;
    HasSplit(s, o, Word(FDT_BEGIN_NODE) + (name + [0]), pad);
    HasSplit(s, o, Word(FDT_BEGIN_NODE), name + [0]);
    HasSplit(s, o + 4, name, [0]);
    WordRoundTrip(s, o, FDT_BEGIN_NODE);
    FindNulIs(s, o + 4, name);
  }

  /** Where the fields of an encoded property lie. */
  lemma PropFields(s: Bytes, o: nat, nameoff: u32, value: Bytes, pad: Bytes)
    requires WfToken(TProp(nameoff, value, pad)) && Has(s, o, EncTok(TProp(nameoff, value, pad)))
    ensures o + 12 + |value| + |pad| <= |s|
    ensures ReadWord(s, o) == FDT_PROP && ReadWord(s, o + 4) == |value| && ReadWord(s, o + 8) == nameoff
    ensures Has(s, o + 12, value)
  {
    hide Word, ReadWord, AlignUp;
    var a := Word(FDT_PROP) + Word(|value|) + Word(nameoff);
    HasSplit(s, o, a + value, pad);
    HasSplit(s, o, a, value);
    HasSplit(s, o, Word(FDT_PROP) + Word(|value|), Word(nameoff));
    HasSplit(s, o, Word(FDT_PROP), Word(|value|));
    WordRoundTrip(s, o, FDT_PROP);
    WordRoundTrip(s, o + 4, |value|);
    WordRoundTrip(s, o + 8, nameoff);
  }
}
