/**
 Paths as text: `fdt_get_path` writes the path of a node into a buffer, backing up as the
 scan leaves subtrees; `fdt_path_offset` reads one and looks its components up.
 */
module FdtPath {
  import opened Common
  import opened FdtBytes
  import opened FdtTokens
  import opened FdtTree
  import opened FdtScan
  import opened FdtVisit
  import opened FdtNodes
  import opened FdtProps
  import opened FdtEdit
  import opened FdtDecode
  import opened FdtSplice
  import opened FdtOps
  import opened FdtIter
  import opened FdtTour
  import opened FdtTrail
  import FdtOverlay

  // ---- fdt_get_path ----

  /** The text without its last byte, but never without its first one. */
  ghost function Trim(t: Bytes): Bytes {
    if |t| > 1 then t[..|t| - 1] else t
  }

  /** The path of a node: its names separated by slashes, and "/" for a root without a name. */
  ghost function PathText(n: Node, p: Path): Bytes
    requires ValidPath(n, p)
  {
    Trim(Text(Names(n, p)))
  }

  /** What is written for a node in a buffer of `buflen` bytes. */
  ghost function PathWritten(n: Node, p: Path, buflen: nat): Bytes
    requires ValidPath(n, p)
  {
    Trim(Text(TrailTo(n, p, buflen).segs))
  }

  /** Backing up over one component stops at the slash before it. */
  lemma BackUp(segs: seq<Bytes>, i: nat, text: Bytes)
    requires 0 < i < |segs| && text == Text(segs[..i + 1]) && SLASH !in segs[i]
    ensures var before := |Text(segs[..i])|;
            0 < before < |text| && text[before - 1] == SLASH && text[..before] == Text(segs[..i]) &&
            forall k :: before <= k < |text| - 1 ==> text[k] != SLASH
  {
    hide Text;
    TextStep(segs, i);
    TextStep(segs, i - 1);
    var a, b := Text(segs[..i]), segs[i];
    forall k | |a| <= k < |text| - 1
      ensures text[k] != SLASH
    {
      assert text[k] == b[k - |a|];
    }
  }

  /** Taking off one component is the first step of backing up. */
  lemma BackOne(s: Trail, depth: nat, buflen: nat)
    requires TrailOk(s, buflen) && s.pdepth > depth > 0
    ensures |s.segs| > 1 && SLASH !in s.segs[|s.segs| - 1]
    ensures var t := Trail(s.segs[..|s.segs| - 1], s.pdepth - 1);
            TrailOk(t, buflen) && Back(t, depth) == Back(s, depth)
  {
    hide Text;
    var t := Trail(s.segs[..|s.segs| - 1], s.pdepth - 1);
    TextPrefix(s.segs, |t.segs|, |s.segs|);
    assert s.segs[..|s.segs|] == s.segs;
    assert Drop(t.segs, t.pdepth - depth) == Drop(s.segs, s.pdepth - depth);
  }

  /** The buffer starts with the components of `s`, `p` bytes long. */
  ghost predicate Holds(bytes: Bytes, p: int, s: Trail) {
    0 <= p <= |bytes| && bytes[..p] == Text(s.segs)
  }

  /** The loop that backs up in the buffer. */
  method BackUpTo(buf: array<byte>, p0: int, pdepth0: int, depth: int, ghost s0: Trail, ghost buflen: nat)
    returns (p: int, pdepth: int, ghost s: Trail)
    requires TrailOk(s0, buflen) && pdepth0 == s0.pdepth && Holds(buf[..], p0, s0)
    requires depth >= 0 && (pdepth0 > depth ==> depth > 0)
    ensures s == Back(s0, depth) && pdepth == s.pdepth && Holds(buf[..], p, s)
  {
    hide *;
    p, pdepth, s := p0, pdepth0, s0;
    while pdepth > depth
      invariant TrailOk(s, buflen) && pdepth == s.pdepth && Holds(buf[..], p, s)
      invariant Back(s, depth) == Back(s0, depth)
    {
      BackOne(s, depth, buflen);
      HoldsIs(buf[..], p, s);
      ghost var i, text := |s.segs| - 1, buf[..p];
      BackUp(s.segs, i, text);
      ghost var stop := |Text(s.segs[..i])|;
      p := p - 1;
      while buf[p - 1] != SLASH
        invariant stop <= p < |text|
        decreases p
      {
        p := p - 1;
      }
      pdepth := pdepth - 1;
      s := Trail(s.segs[..i], pdepth);
      HoldsLess(buf[..], |text|, p, s);
    }
    BackNone(s, depth);
  }

  lemma HoldsIs(bytes: Bytes, p: int, s: Trail)
    requires Holds(bytes, p, s)
    ensures 0 <= p <= |bytes| && bytes[..p] == Text(s.segs) && s.segs[..|s.segs|] == s.segs
  {
    hide Text;
  }

  lemma HoldsLess(bytes: Bytes, p: nat, q: nat, s: Trail)
    requires q <= p <= |bytes| && bytes[..p][..q] == Text(s.segs)
    ensures Holds(bytes, q, s)
  {
    hide Text;
    assert bytes[..p][..q] == bytes[..q];
  }

  lemma BackNone(s: Trail, depth: nat)
    requires s.pdepth <= depth
    ensures Back(s, depth) == s
  {
  }

  /** The name of the node, appended when the path so far is whole and there is room. */
  method Append(buf: array<byte>, p0: int, pdepth0: int, depth: nat, buflen: nat, ghost s0: Trail, ghost s: Trail,
                name: Bytes)
    returns (p: int, pdepth: int)
    requires s == Back(s0, depth) && pdepth0 == s.pdepth && Holds(buf[..], p0, s) && buflen <= buf.Length
    modifies buf
    ensures pdepth == Enter(s0, name, depth, buflen).pdepth && Holds(buf[..], p, Enter(s0, name, depth, buflen))
  {
    hide *;
    p, pdepth := p0, pdepth0;
    HoldsIs(buf[..], p, s);
    EnterIs(s0, name, depth, buflen);
    if pdepth >= depth && p + |name| + 1 <= buflen {
      ghost var text := buf[..p];
      forall i | 0 <= i < |name| {
        buf[p + i] := name[i];
      }
      p := p + |name|;
      assert buf[..p] == text + name;
      buf[p] := SLASH;
      p := p + 1;
      assert buf[..p] == text + name + [SLASH];
      pdepth := pdepth + 1;
      HoldsMore(buf[..], p, s, Enter(s0, name, depth, buflen), name);
    }
  }

  lemma EnterIs(s0: Trail, name: Bytes, depth: nat, buflen: nat)
    ensures var s := Back(s0, depth);
            Enter(s0, name, depth, buflen) ==
            if s.pdepth >= depth && |Text(s.segs)| + |name| + 1 <= buflen
            then Trail(s.segs + Split(name), s.pdepth + 1) else s
  {
    hide Text, Back, Split;
  }

  lemma HoldsMore(bytes: Bytes, p: nat, s: Trail, t: Trail, name: Bytes)
    requires t.segs == s.segs + Split(name) && p <= |bytes| && bytes[..p] == Text(s.segs) + name + [SLASH]
    ensures Holds(bytes, p, t)
  {
    hide Text, Split;
    TextConcat(s.segs, Split(name));
    TextSplit(name);
    assert Text(s.segs) + (name + [SLASH]) == Text(s.segs) + name + [SLASH];
  }

  /**
   fdt_get_path: the components in the buffer when the node is met, without the last slash and with a NUL, or NOSPACE
   exactly when a name on the way to the node did not fit.
   */
  method GetPath(s: Bytes, nodeoffset: int, buf: array<byte>, buflen: int, ghost n: Node, ghost node: Option<Path>)
    returns (err: int)
    requires WfNode(n) && s == Encode(n) && NodeIs(n, nodeoffset, node) && nodeoffset < TreeEnd(n)
    requires buflen <= buf.Length
    modifies buf
    ensures buflen < 2 ==> err == -FDT_ERR_NOSPACE
    ensures buflen >= 2 && node == None ==> err == -FDT_ERR_BADOFFSET
    ensures buflen >= 2 && node.Some? ==>
              err == if TrailTo(n, node.value, buflen).pdepth == |node.value| + 1 then 0 else -FDT_ERR_NOSPACE
    ensures err == 0 ==> buflen >= 2 && node.Some? && Has(buf[..], 0, PathWritten(n, node.value, buflen) + [0])
  {
    hide *;
    Codes();
    if buflen < 2 {
      return -FDT_ERR_NOSPACE;
    }
    var offset, depth, pdepth, p := 0, 0, 0, 0;
    ghost var c: Path := [];
    ghost var st := Trail([], 0);
    SeekStart(n, nodeoffset, node);
    TrailStart(n, buf[..], buflen);
    while offset >= 0 && offset <= nodeoffset
      invariant offset >= 0 && pdepth == st.pdepth && TrailOk(st, buflen) && Holds(buf[..], p, st)
      invariant offset <= nodeoffset ==> Seeking(n, c, nodeoffset, node) && offset == NodeOff(n, c) && depth == |c|
      invariant offset <= nodeoffset ==> Enter(st, At(n, c).name, depth, buflen) == TrailTo(n, c, buflen)
      invariant pdepth > 0 ==> depth != 0
      invariant offset > nodeoffset ==> node == None || nodeoffset < 0
      decreases nodeoffset + 1 - offset
    {
      ghost var s1;
      p, pdepth, s1 := BackUpTo(buf, p, pdepth, depth, st, buflen);
      NodeName(n, c);
      var name := NameAt(s, offset);
      p, pdepth := Append(buf, p, pdepth, depth, buflen, st, s1, name);
      st := TrailTo(n, c, buflen);
      TrailToOk(n, c, buflen);
      SeekEnd(n, c, nodeoffset, node);
      if offset == nodeoffset {
        if pdepth < depth + 1 {
          return -FDT_ERR_NOSPACE;
        }
        Terminate(buf, p, st, buflen);
        PathWrittenIs(n, c, buflen);
        return 0;
      }
      SeekStep(n, c, nodeoffset, node);
      offset, depth := ReadNextNode(s, offset, depth);
      if NextPath(n, c).Some? {
        ghost var q := NextPath(n, c).value;
        NextStep(n, c);
        TrailNext(n, c, buflen);
        SeekEnd(n, q, nodeoffset, node);
        c := q;
      }
    }
    NoNegativeNode(n, nodeoffset, node);
    return -FDT_ERR_BADOFFSET;
  }

  lemma Codes()
    ensures FDT_ERR_NOSPACE == 3 && FDT_ERR_BADOFFSET == 4 && FDT_ERR_NOTFOUND == 1
  {
  }

  /** At the root nothing is written yet. */
  lemma TrailStart(n: Node, bytes: Bytes, buflen: nat)
    ensures var st := Trail([], 0);
            TrailOk(st, buflen) && Holds(bytes, 0, st) && ValidPath(n, []) &&
            Enter(st, At(n, []).name, 0, buflen) == TrailTo(n, [], buflen)
  {
    hide Enter;
  }

  lemma PathWrittenIs(n: Node, p: Path, buflen: nat)
    requires ValidPath(n, p)
    ensures PathWritten(n, p, buflen) == Trim(Text(TrailTo(n, p, buflen).segs))
  {
    hide Arrive, Text;
  }

  lemma NodeName(n: Node, p: Path)
    requires WfNode(n) && ValidPath(n, p)
    ensures NodeOff(n, p) + 4 <= |Encode(n)| && NameAt(Encode(n), NodeOff(n, p)) == At(n, p).name
  {
    hide *;
    FdtOverlay.NameOnTree(n, p);
  }

  method Terminate(buf: array<byte>, p0: int, ghost s: Trail, ghost buflen: nat)
    requires Holds(buf[..], p0, s) && TrailOk(s, buflen) && s.pdepth > 0 && 2 <= buf.Length
    modifies buf
    ensures Has(buf[..], 0, Trim(Text(s.segs)) + [0])
  {
    hide Text;
    var p := p0;
    ghost var text := buf[..p];
    if p > 1 {
      p := p - 1;
    }
    assert buf[..p] == text[..p] == Trim(text);
    buf[p] := 0;
    assert buf[..p] == Trim(text) && buf[..p + 1] == buf[..p] + [0];
  }

  /** Where no name up to the node holds a slash its path is written, if it fits with its NUL. */
  lemma PlainPath(n: Node, q: Path, buflen: nat)
    requires ValidPath(n, q) && FreeBefore(n, q) && buflen >= 2
    ensures TrailTo(n, q, buflen).pdepth == |q| + 1 <==> |PathText(n, q)| + 1 <= buflen
    ensures |PathText(n, q)| + 1 <= buflen ==> PathWritten(n, q, buflen) == PathText(n, q)
  {
    hide Text, Names, TrailTo, FreeBefore;
    FreeTrail(n, q, buflen);
  }

  // ---- fdt_path_offset ----

  lemma {:induction false} SubnodeScannable(s: Bytes, offset: int, depth: int, name: Bytes)
    requires offset >= 0 && depth >= 0 ==> Scannable(s, offset)
    requires offset >= 0 && depth == 1 ==> offset + 4 <= |s|
    ensures var r := SubnodeOffsetFrom(s, offset, depth, name);
            r >= 0 ==> Scannable(s, r)
    decreases Left(s, offset, depth)
  {
    hide NodeNameEq, NameAt, Scannable, CheckNodeOffset, NextNodeFrom;
    if offset >= 0 && depth >= 0 && !(depth == 1 && NodeNameEq(NameAt(s, offset), name)) {
      var (o, d) := NextNode(s, offset, depth);
      SubnodeScannable(s, o, d, name);
    }
  }

  /** Index of the first byte at or after `i` that is not a slash, or the length. */
  function SkipSlashes(path: Bytes, i: nat): (r: nat)
    requires i <= |path|
    ensures i <= r <= |path|
    ensures r < |path| ==> path[r] != SLASH
    ensures forall k :: i <= k < r ==> path[k] == SLASH
    decreases |path| - i
  {
    if i == |path| || path[i] != SLASH then i else SkipSlashes(path, i + 1)
  }

  /** The components of a path from byte `i` on: its longest runs of bytes other than the slash. */
  function Parts(path: Bytes, i: nat): (r: seq<Bytes>)
    requires i <= |path|
    ensures forall k :: 0 <= k < |r| ==> r[k] != [] && SLASH !in r[k]
    decreases |path| - i
  {
    var b := SkipSlashes(path, i);
    if b == |path| then [] else
    var e := FirstSlash(path, b);
    [path[b..e]] + Parts(path, e)
  }

  /** The lookups of fdt_path_offset, one for each component. */
  function LookupParts(s: Bytes, offset: int, parts: seq<Bytes>): int
    requires offset >= 0 ==> Scannable(s, offset)
    decreases |parts|
  {
    if offset < 0 || parts == [] then offset
    else
      SubnodeScannable(s, offset, 0, parts[0]);
      LookupParts(s, SubnodeOffset(s, offset, parts[0]), parts[1..])
  }

  /** fdt_path_offset_namelen on an absolute path. */
  method PathOffset(s: Bytes, path: Bytes) returns (offset: int)
    requires path != [] && path[0] == SLASH && Scannable(s, 0)
    ensures offset == LookupParts(s, 0, Parts(path, 0))
  {
    hide *;
    offset := 0;
    var p, end := 0, |path|;
    while p < end
      invariant p <= end && offset >= 0 && Scannable(s, offset)
      invariant LookupParts(s, 0, Parts(path, 0)) == LookupParts(s, offset, Parts(path, p))
    {
      ghost var p0 := p;
      while p < end && path[p] == SLASH
        invariant p0 <= p <= end && SkipSlashes(path, p0) == SkipSlashes(path, p)
      {
        SkipStep(path, p);
        p := p + 1;
      }
      SkipStep(path, p);
      if p == end {
        PartsStep(path, p0);
        LookupStep(s, offset, Parts(path, p0));
        return offset;
      }
      var q := p;
      while q < end && path[q] != SLASH
        invariant p <= q <= end && FirstSlash(path, p) == FirstSlash(path, q)
      {
        SlashStep(path, q);
        q := q + 1;
      }
      SlashStep(path, q);
      PartsStep(path, p0);
      LookupStep(s, offset, Parts(path, p0));
      offset := ReadSubnodeOffset(s, offset, path[p..q]);
      if offset < 0 {
        return offset;
      }
      p := q;
    }
    PartsStep(path, p);
    SkipStep(path, p);
    LookupStep(s, offset, Parts(path, p));
  }

  lemma SkipStep(path: Bytes, p: nat)
    requires p <= |path|
    ensures SkipSlashes(path, p) == if p < |path| && path[p] == SLASH then SkipSlashes(path, p + 1) else p
  {
  }

  lemma SlashStep(path: Bytes, p: nat)
    requires p <= |path|
    ensures FirstSlash(path, p) == if p < |path| && path[p] != SLASH then FirstSlash(path, p + 1) else p
  {
  }

  lemma PartsStep(path: Bytes, p: nat)
    requires p <= |path|
    ensures var b := SkipSlashes(path, p);
            var e := FirstSlash(path, b);
            Parts(path, p) == if b == |path| then [] else [path[b..e]] + Parts(path, e)
  {
    hide SkipSlashes, FirstSlash;
  }

  lemma LookupStep(s: Bytes, offset: int, parts: seq<Bytes>)
    requires offset >= 0 && Scannable(s, offset)
    ensures parts == [] ==> LookupParts(s, offset, parts) == offset
    ensures parts != [] ==>
              var o := SubnodeOffset(s, offset, parts[0]);
              (o >= 0 ==> Scannable(s, o)) &&
              LookupParts(s, offset, parts) == if o < 0 then o else LookupParts(s, o, parts[1..])
  {
    hide Scannable, SubnodeOffsetFrom;
    if parts != [] {
      SubnodeScannable(s, offset, 0, parts[0]);
    }
  }

  /** The node that components lead to, taking the first subnode each one matches. */
  ghost function Resolve(n: Node, parts: seq<Bytes>): (r: Option<Path>)
    ensures r.Some? ==> ValidPath(n, r.value)
    decreases |parts|
  {
    if parts == [] then Some([])
    else
      var i := MatchIndex(n.items, parts[0]);
      if i == |n.items| then None
      else match Resolve(n.items[i].node, parts[1..])
           case None => None
           case Some(r) => Some([i] + r)
  }

  /** The lookups on bytes are the lookups in the tree. */
  lemma {:induction false} LookupOnTree(n: Node, p: Path, parts: seq<Bytes>)
    requires WfNode(n) && ValidPath(n, p)
    ensures Scannable(Encode(n), NodeOff(n, p))
    ensures var r := Resolve(At(n, p), parts);
            if r.Some?
            then ValidPath(n, p + r.value) && LookupParts(Encode(n), NodeOff(n, p), parts) == NodeOff(n, p + r.value)
            else LookupParts(Encode(n), NodeOff(n, p), parts) == NOTFOUND
    decreases |parts|
  {
    hide WfNode, Encode, NodeOff, ItemOff, Scannable, LookupParts, SubnodeOffset, MatchIndex, At, ValidPath;
    HeaderAt(n, p);
    LookupStep(Encode(n), NodeOff(n, p), parts);
    if parts == [] {
      assert p + [] == p;
    } else {
      SubnodeOnTree(n, p, parts[0]);
      var i := MatchIndex(At(n, p).items, parts[0]);
      if i < |At(n, p).items| {
        ChildOff(n, p, i);
        ChildPath(n, p, i);
        LookupOnTree(n, p + [i], parts[1..]);
        var r := Resolve(At(n, p + [i]), parts[1..]);
        if r.Some? {
          assert p + [i] + r.value == p + ([i] + r.value);
        }
      }
    }
  }
}
