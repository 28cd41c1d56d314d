/**
 Reading back the path that was written: when `fdt_path_offset` of what `fdt_get_path` writes for a node finds that
 node again, and when it does not.
 */
module FdtRoundTrip {
  import opened Common
  import opened FdtBytes
  import opened FdtTokens
  import opened FdtTree
  import opened FdtScan
  import opened FdtNodes
  import opened FdtEdit
  import opened FdtDecode
  import opened FdtSplice
  import opened FdtOps
  import opened FdtTour
  import opened FdtTrail
  import opened FdtPath

  // ---- the components of a text ----

  lemma {:induction false} SkipShift(a: Bytes, b: Bytes, i: nat)
    requires i <= |b|
    ensures SkipSlashes(a + b, |a| + i) == |a| + SkipSlashes(b, i)
    decreases |b| - i
  {
    if i < |b| && b[i] == SLASH {
      SkipShift(a, b, i + 1);
    }
  }

  lemma {:induction false} FirstShift(a: Bytes, b: Bytes, i: nat)
    requires i <= |b|
    ensures FirstSlash(a + b, |a| + i) == |a| + FirstSlash(b, i)
    decreases |b| - i
  {
    if i < |b| && b[i] != SLASH {
      FirstShift(a, b, i + 1);
    }
  }

  /** What comes before a slash does not change the components after it. */
  lemma {:induction false} PartsShift(a: Bytes, b: Bytes, i: nat)
    requires i <= |b|
    ensures Parts(a + b, |a| + i) == Parts(b, i)
    decreases |b| - i
  {
    hide *;
    SkipShift(a, b, i);
    var s := SkipSlashes(b, i);
    FirstShift(a, b, s);
    if s < |b| {
      var e := FirstSlash(b, s);
      SliceShift(a, b, s, e);
      SomeSlash(b, i);
      PartsShift(a, b, e);
      PartsFrom(a + b, |a| + i, |a| + s, |a| + e, b[s..e]);
      PartsFrom(b, i, s, e, b[s..e]);
    } else {
      PartsStep(a + b, |a| + i);
      PartsStep(b, i);
    }
  }

  /** The next component of a text, and the others. */
  lemma PartsFrom(path: Bytes, i: nat, b: nat, e: nat, x: Bytes)
    requires i <= |path| && b == SkipSlashes(path, i) < |path| && e == FirstSlash(path, b) && x == path[b..e]
    ensures Parts(path, i) == [x] + Parts(path, e)
  {
    hide *;
    PartsStep(path, i);
  }

  lemma SliceShift(a: Bytes, b: Bytes, i: nat, j: nat)
    requires i <= j <= |b|
    ensures (a + b)[|a| + i..|a| + j] == b[i..j]
  {
  }

  lemma SomeSlash(path: Bytes, i: nat)
    requires i <= |path| && SkipSlashes(path, i) < |path|
    ensures FirstSlash(path, SkipSlashes(path, i)) > i
  {
    SlashStep(path, SkipSlashes(path, i));
  }

  lemma {:induction false} SlashIs(path: Bytes, b: nat, e: nat)
    requires b <= e <= |path| && (e < |path| ==> path[e] == SLASH)
    requires forall k :: b <= k < e ==> path[k] != SLASH
    ensures FirstSlash(path, b) == e
    decreases e - b
  {
    if b < e {
      SlashIs(path, b + 1, e);
    }
  }

  /** A slash before the components changes nothing. */
  lemma PartsLead(rest: Bytes)
    ensures Parts([SLASH] + rest, 0) == Parts(rest, 0)
  {
    hide *;
    var path := [SLASH] + rest;
    SkipStep(path, 0);
    PartsStep(path, 0);
    PartsStep(path, 1);
    PartsShift([SLASH], rest, 0);
    assert path[0] == SLASH && |path| == 1 + |rest|;
  }

  /** A component that is not empty is read whole. */
  lemma PartsOne(x: Bytes, rest: Bytes)
    requires x != [] && SLASH !in x
    ensures Parts(x + [SLASH] + rest, 0) == [x] + Parts(rest, 0)
  {
    hide *;
    var path := x + [SLASH] + rest;
    assert path[0] == x[0] && path[0] != SLASH && path[|x|] == SLASH && path[..|x|] == x;
    SkipStep(path, 0);
    SlashIs(path, 0, |x|) by {
      forall k | 0 <= k < |x|
        ensures path[k] != SLASH
      {
        assert path[k] == x[k];
      }
    }
    PartsStep(path, 0);
    assert path == x + ([SLASH] + rest);
    PartsShift(x, [SLASH] + rest, 0);
    PartsLead(rest);
  }

  /** The components of a text are the ones it was made of, but for the empty ones. */
  lemma {:induction false} PartsOfText(segs: seq<Bytes>)
    requires NoSlashes(segs)
    ensures Parts(Text(segs), 0) == NonEmpty(segs)
    decreases |segs|
  {
    hide Parts;
    if segs == [] {
      PartsNone();
    } else {
      PartsOfText(segs[1..]);
      if segs[0] == [] {
        assert Text(segs) == [SLASH] + Text(segs[1..]);
        PartsLead(Text(segs[1..]));
      } else {
        PartsOne(segs[0], Text(segs[1..]));
      }
    }
  }

  lemma PartsNone()
    ensures Parts([], 0) == []
  {
  }

  lemma {:induction false} SkipTrailing(t: Bytes, i: nat)
    requires i <= |t|
    ensures var r := SkipSlashes(t, i);
            SkipSlashes(t + [SLASH], i) == if r == |t| then |t| + 1 else r
    decreases |t| - i
  {
    if i < |t| && t[i] == SLASH {
      SkipTrailing(t, i + 1);
    } else if i == |t| {
      SkipStep(t + [SLASH], i);
      SkipStep(t + [SLASH], i + 1);
    }
  }

  lemma {:induction false} FirstTrailing(t: Bytes, i: nat)
    requires i <= |t|
    ensures FirstSlash(t + [SLASH], i) == FirstSlash(t, i)
    decreases |t| - i
  {
    if i < |t| && t[i] != SLASH {
      FirstTrailing(t, i + 1);
    }
  }

  /** Nor does a slash after them. */
  lemma {:induction false} PartsTrailing(t: Bytes, i: nat)
    requires i <= |t|
    ensures Parts(t + [SLASH], i) == Parts(t, i)
    decreases |t| - i
  {
    hide *;
    SkipTrailing(t, i);
    PartsStep(t, i);
    PartsStep(t + [SLASH], i);
    var b := SkipSlashes(t, i);
    if b < |t| {
      FirstTrailing(t, b);
      var e := FirstSlash(t, b);
      assert (t + [SLASH])[b..e] == t[b..e];
      SomeSlash(t, i);
      PartsTrailing(t, e);
    }
  }

  lemma PartsOfTrim(t: Bytes)
    requires t != [] && t[|t| - 1] == SLASH
    ensures Parts(Trim(t), 0) == Parts(t, 0)
  {
    hide Parts;
    if |t| > 1 {
      assert t == Trim(t) + [SLASH];
      PartsTrailing(Trim(t), 0);
    }
  }

  // ---- the node they lead to ----

  /** The node at `q` is what its own names lead to: they are not empty, hold no slash, and match no earlier sibling. */
  ghost predicate Findable(n: Node, q: Path)
    requires ValidPath(n, q)
    decreases |q|
  {
    q == [] ||
    var c := n.items[q[0]].node;
    c.name != [] && SLASH !in c.name && MatchIndex(n.items, c.name) == q[0] && Findable(c, q[1..])
  }

  /** The components of the names below the root, but for the empty ones. */
  ghost function Wanted(n: Node, q: Path): seq<Bytes>
    requires ValidPath(n, q)
  {
    NonEmpty(Segments(Names(n, q)[1..]))
  }

  lemma WantedStep(n: Node, q: Path)
    requires ValidPath(n, q)
    ensures q == [] ==> Wanted(n, q) == []
    ensures q != [] ==>
              var c := n.items[q[0]].node;
              Wanted(n, q) == NonEmpty(Split(c.name)) + Wanted(c, q[1..])
  {
    hide Split;
    if q != [] {
      var c := n.items[q[0]].node;
      var names := Names(c, q[1..]);
      assert Names(n, q)[1..] == names && names[0] == c.name;
      NonEmptyConcat(Split(c.name), Segments(names[1..]));
    }
  }

  /** A name that a component matches has components, and only that one only if the two are the same. */
  lemma Matched(name: Bytes, x: Bytes)
    requires x != [] && SLASH !in x && NodeNameEq(name, x)
    ensures var own := NonEmpty(Split(name));
            |own| > 0 && (own == [x] ==> name == x)
  {
    hide NonEmpty;
    var i, own := FirstSlash(name, 0), NonEmpty(Split(name));
    assert name[0] == name[..|x|][0] == x[0];
    assert i > 0 by {
      SlashStep(name, 0);
    }
    FirstSeg(name);
  }

  lemma FirstSeg(name: Bytes)
    requires FirstSlash(name, 0) > 0
    ensures var own := NonEmpty(Split(name));
            own != [] && own[0] == name[..FirstSlash(name, 0)]
  {
    assert name[..|name|] == name;
  }

  /** Components that lead to the node at `q` are as many as it is deep, and if they are its names' it is findable. */
  lemma {:induction false} ResolveNeeds(n: Node, q: Path, parts: seq<Bytes>)
    requires ValidPath(n, q) && Resolve(n, parts) == Some(q)
    requires forall i :: 0 <= i < |parts| ==> parts[i] != [] && SLASH !in parts[i]
    ensures |parts| == |q| <= |Wanted(n, q)| && (parts == Wanted(n, q) ==> Findable(n, q))
    decreases |q|
  {
    hide NodeNameEq, Split, NonEmpty, MatchIndex, Wanted;
    WantedStep(n, q);
    if parts != [] {
      var i := MatchIndex(n.items, parts[0]);
      var c := n.items[i].node;
      var rest := Resolve(c, parts[1..]).value;
      assert q == [i] + rest && q[1..] == rest;
      ResolveNeeds(c, rest, parts[1..]);
      Matched(c.name, parts[0]);
      var own := NonEmpty(Split(c.name));
      if parts == Wanted(n, q) {
        assert |own| == 1 && own[0] == parts[0] && own == [parts[0]];
        assert parts[1..] == Wanted(c, rest);
      }
    }
  }

  /** The names of a findable node lead to it. */
  lemma {:induction false} FindableResolves(n: Node, q: Path)
    requires ValidPath(n, q) && Findable(n, q)
    ensures |Wanted(n, q)| == |q| && Resolve(n, Wanted(n, q)) == Some(q)
    decreases |q|
  {
    hide NodeNameEq, Split, NonEmpty, MatchIndex, Wanted;
    WantedStep(n, q);
    if q != [] {
      var c := n.items[q[0]].node;
      FindableResolves(c, q[1..]);
      OneSeg(c.name);
      assert Wanted(n, q)[1..] == Wanted(c, q[1..]);
      assert q == [q[0]] + q[1..];
    }
  }

  lemma OneSeg(x: Bytes)
    requires x != [] && SLASH !in x
    ensures NonEmpty(Split(x)) == [x]
  {
    hide Split;
    assert [x][1..] == [];
  }

  lemma FullParts(segs: seq<Bytes>)
    requires NoSlashes(segs)
    ensures forall i :: 0 <= i < |NonEmpty(segs)| ==> NonEmpty(segs)[i] != [] && SLASH !in NonEmpty(segs)[i]
  {
    hide Parts;
    PartsOfText(segs);
  }

  /** Components that hold those of the node's names lead to it exactly when it is findable and they are no more. */
  lemma ResolveCovers(n: Node, q: Path, parts: seq<Bytes>)
    requires ValidPath(n, q) && Covers(parts, Wanted(n, q))
    requires forall i :: 0 <= i < |parts| ==> parts[i] != [] && SLASH !in parts[i]
    ensures Resolve(n, parts) == Some(q) <==> Findable(n, q) && |parts| == |q|
  {
    hide Resolve, Wanted, Findable, ValidPath;
    if Resolve(n, parts) == Some(q) {
      ResolveNeeds(n, q, parts);
    }
    if Findable(n, q) {
      FindableResolves(n, q);
    }
  }

  /** The root comes first in the buffer. */
  lemma RootFirst(n: Node, q: Path, buflen: nat)
    requires ValidPath(n, q) && n.name == [] && TrailTo(n, q, buflen).pdepth == |q| + 1
    ensures var segs := TrailTo(n, q, buflen).segs;
            segs != [] && segs[0] == []
  {
    hide PassItems, Text, NonEmpty, Covers, Segments, Names;
    var s1 := Enter(Trail([], 0), [], 0, buflen);
    if s1.pdepth == 0 {
      if q != [] {
        PassItemsStuck(s1, n.items[..q[0]], 1, buflen);
        ArriveStuck(s1, n.items[q[0]].node, 1, buflen, q[1..]);
      }
    } else if q != [] {
      assert s1.segs == [[]] && Rests(s1, [[]], 1);
      PassItemsRest(s1, [[]], n.items[..q[0]], 1, buflen);
      var x := ArriveCovers(PassItems(s1, n.items[..q[0]], 1, buflen), [[]], n.items[q[0]].node, 1, buflen, q[1..]);
    }
  }

  /** What is written is an absolute path whose components are those in the buffer. */
  lemma WrittenParts(n: Node, q: Path, buflen: nat)
    requires ValidPath(n, q) && n.name == [] && TrailTo(n, q, buflen).pdepth == |q| + 1
    ensures var w := PathWritten(n, q, buflen);
            w != [] && w[0] == SLASH && Parts(w, 0) == NonEmpty(TrailTo(n, q, buflen).segs)
  {
    hide Arrive, Parts, NonEmpty;
    var segs := TrailTo(n, q, buflen).segs;
    TrailToOk(n, q, buflen);
    RootFirst(n, q, buflen);
    TextStep(segs, |segs| - 1);
    assert segs[..|segs|] == segs;
    PartsOfText(segs);
    PartsOfTrim(Text(segs));
  }

  lemma WantedNames(n: Node, q: Path)
    requires ValidPath(n, q) && n.name == []
    ensures NonEmpty(Segments(Names(n, q))) == Wanted(n, q)
  {
    hide Split;
    var names := Names(n, q);
    assert Split([]) == [[]];
    assert names[0] == [] && Segments(names) == [[]] + Segments(names[1..]);
    NonEmptyConcat([[]], Segments(names[1..]));
  }

  /**
   fdt_path_offset of the path fdt_get_path writes for a node finds that node again exactly when the path has as many
   components as the node is deep, so none is left over from nodes passed before, and the names below the root are not
   empty, hold no slash, and are matched by no earlier sibling.
   */
  lemma PathRoundTrip(n: Node, q: Path, buflen: nat)
    requires WfNode(n) && ValidPath(n, q) && n.name == [] && TrailTo(n, q, buflen).pdepth == |q| + 1
    ensures Scannable(Encode(n), 0)
    ensures var w := PathWritten(n, q, buflen);
            w != [] && w[0] == SLASH &&
            (LookupParts(Encode(n), 0, Parts(w, 0)) == NodeOff(n, q) <==> Findable(n, q) && |Parts(w, 0)| == |q|)
  {
    hide WfNode, Encode, NodeOff, Resolve, Findable, Parts, LookupParts, Names, Pos, TrailTo, NonEmpty, Covers,
         Segments,
         PathWritten, Wanted;
    RootOff(n);
    WrittenParts(n, q, buflen);
    var parts := Parts(PathWritten(n, q, buflen), 0);
    TrailCovers(n, q, buflen);
    WantedNames(n, q);
    TrailToOk(n, q, buflen);
    FullParts(TrailTo(n, q, buflen).segs);
    ResolveCovers(n, q, parts);
    LookupOnTree(n, [], parts);
    var r := Resolve(n, parts);
    if r.Some? {
      assert [] + r.value == r.value;
      OffOrder(n, r.value, q);
      if Pos(n, r.value) == Pos(n, q) {
        PosInjective(n, r.value, q);
      }
    }
  }
}
