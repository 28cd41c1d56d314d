/**
 What fdt_get_path has in its buffer on the way to a node: the names of the nodes passed, cut at slashes. Leaving a
 node takes one component off, however many the node's name had.
 */
module FdtTrail {
  import opened Common
  import opened FdtBytes
  import opened FdtTree
  import opened FdtEdit
  import opened FdtNodes
  import opened FdtSplice
  import opened FdtOps
  import opened FdtIter
  import opened FdtTour

  const SLASH: byte := 47

  // ---- components ----

  /** Names from the root to the node at `p`. */
  ghost function Names(n: Node, p: Path): (r: seq<Bytes>)
    requires ValidPath(n, p)
    ensures |r| == |p| + 1
    decreases |p|
  {
    if p == [] then [n.name] else [n.name] + Names(n.items[p[0]].node, p[1..])
  }

  /** Every component followed by a slash. */
  ghost function Text(names: seq<Bytes>): (r: Bytes)
    ensures |r| >= |names|
  {
    if names == [] then [] else names[0] + [SLASH] + Text(names[1..])
  }

  lemma TextFirst(names: seq<Bytes>)
    ensures names == [] ==> Text(names) == []
    ensures names != [] ==> Text(names) == (names[0] + [SLASH]) + Text(names[1..])
  {
  }

  lemma {:induction false} TextConcat(a: seq<Bytes>, b: seq<Bytes>)
    ensures Text(a + b) == Text(a) + Text(b)
    decreases |a|
  {
    hide *;
    ConcatFirst(a, b);
    TextFirst(a);
    if a == [] {
      ConcatFirst(Text(a), Text(b));
    } else {
      TextFirst(a + b);
      TextConcat(a[1..], b);
      ConcatAssoc(a[0] + [SLASH], Text(a[1..]), Text(b));
    }
  }

  lemma TextOne(x: Bytes)
    ensures Text([x]) == x + [SLASH]
  {
    assert [x][1..] == [];
  }

  lemma TextStep(names: seq<Bytes>, i: nat)
    requires i < |names|
    ensures Text(names[..i + 1]) == Text(names[..i]) + (names[i] + [SLASH])
  {
    hide Text;
    assert names[..i + 1] == names[..i] + [names[i]];
    TextConcat(names[..i], [names[i]]);
    TextOne(names[i]);
  }

  lemma {:induction false} TextPrefix(names: seq<Bytes>, i: nat, j: nat)
    requires i <= j <= |names|
    ensures |Text(names[..i])| <= |Text(names[..j])|
    decreases j
  {
    if i < j {
      TextStep(names, j - 1);
      TextPrefix(names, i, j - 1);
    }
  }

  predicate NoSlashes(segs: seq<Bytes>) {
    forall i :: 0 <= i < |segs| ==> SLASH !in segs[i]
  }

  /** A name cut at its slashes. */
  function Split(name: Bytes): (r: seq<Bytes>)
    ensures |r| > 0 && NoSlashes(r) && (SLASH !in name ==> r == [name])
    decreases |name|
  {
    var i := FirstSlash(name, 0);
    if i == |name| then [name]
    else
      var rest := Split(name[i + 1..]);
      [name[..i]] + rest
  }

  /** Index of the first slash at or after `i`, or the length. */
  function FirstSlash(name: Bytes, i: nat): (r: nat)
    requires i <= |name|
    ensures i <= r <= |name| && (r < |name| ==> name[r] == SLASH)
    ensures forall k :: i <= k < r ==> name[k] != SLASH
    decreases |name| - i
  {
    if i == |name| || name[i] == SLASH then i else FirstSlash(name, i + 1)
  }

  /** The components with their slashes are the name with one. */
  lemma {:induction false} TextSplit(name: Bytes)
    ensures Text(Split(name)) == name + [SLASH]
    decreases |name|
  {
    hide Text;
    var i := FirstSlash(name, 0);
    if i == |name| {
      TextOne(name);
    } else {
      TextSplit(name[i + 1..]);
      TextConcat([name[..i]], Split(name[i + 1..]));
      TextOne(name[..i]);
      assert name == name[..i] + [SLASH] + name[i + 1..];
    }
  }

  // ---- on the way to a node ----

  /** The components in the buffer and how many names the program takes them for. */
  datatype Trail = Trail(segs: seq<Bytes>, pdepth: nat)

  /** The last `k` components taken off. */
  function Drop(segs: seq<Bytes>, k: nat): seq<Bytes> {
    if k <= |segs| then segs[..|segs| - k] else []
  }

  /** Backed up to a node of depth `depth`. */
  function Back(s: Trail, depth: nat): Trail {
    if s.pdepth > depth then Trail(Drop(s.segs, s.pdepth - depth), depth) else s
  }

  /** At a node: its name is added when its parents' are there and the buffer has room. */
  ghost function Enter(s: Trail, name: Bytes, depth: nat, buflen: nat): Trail {
    var b := Back(s, depth);
    if b.pdepth >= depth && |Text(b.segs)| + |name| + 1 <= buflen then Trail(b.segs + Split(name), b.pdepth + 1) else b
  }

  /** A node of depth `depth` and everything below it. */
  ghost function Pass(s: Trail, n: Node, depth: nat, buflen: nat): Trail
    decreases n, 1
  {
    PassItems(Enter(s, n.name, depth, buflen), n.items, depth + 1, buflen)
  }

  ghost function PassItems(s: Trail, items: seq<Item>, depth: nat, buflen: nat): Trail
    decreases items, 0
  {
    if items == [] then s
    else PassItems(PassItem(s, items[0], depth, buflen), items[1..], depth, buflen)
  }

  ghost function PassItem(s: Trail, it: Item, depth: nat, buflen: nat): Trail
    decreases it, 1
  {
    match it
    case Child(c) => Pass(s, c, depth, buflen)
    case _ => s
  }

  /** Up to the node at `q` below `n`, in preorder. */
  ghost function Arrive(s: Trail, n: Node, depth: nat, buflen: nat, q: Path): Trail
    requires ValidPath(n, q)
    decreases |q|
  {
    var s1 := Enter(s, n.name, depth, buflen);
    if q == [] then s1
    else Arrive(PassItems(s1, n.items[..q[0]], depth + 1, buflen), n.items[q[0]].node, depth + 1, buflen, q[1..])
  }

  /** What is in the buffer at the node at `q`. */
  ghost function TrailTo(n: Node, q: Path, buflen: nat): Trail
    requires ValidPath(n, q)
  {
    Arrive(Trail([], 0), n, 0, buflen, q)
  }

  lemma {:induction false} PassSplit(s: Trail, a: seq<Item>, b: seq<Item>, depth: nat, buflen: nat)
    ensures PassItems(s, a + b, depth, buflen) == PassItems(PassItems(s, a, depth, buflen), b, depth, buflen)
    decreases |a|
  {
    hide PassItem;
    if a == [] {
      assert a + b == b;
    } else {
      assert (a + b)[1..] == a[1..] + b;
      PassSplit(PassItem(s, a[0], depth, buflen), a[1..], b, depth, buflen);
    }
  }

  lemma PassOne(s: Trail, it: Item, depth: nat, buflen: nat)
    ensures PassItems(s, [it], depth, buflen) == if it.Child? then Pass(s, it.node, depth, buflen) else s
  {
    hide Pass;
    assert [it][1..] == [];
  }

  lemma {:induction false} PassPlain(s: Trail, items: seq<Item>, depth: nat, buflen: nat)
    requires forall i :: 0 <= i < |items| ==> !items[i].Child?
    ensures PassItems(s, items, depth, buflen) == s
    decreases |items|
  {
    if items != [] {
      PassPlain(s, items[1..], depth, buflen);
    }
  }

  /** At a subnode: the items before it, then its name. */
  lemma {:induction false} ArriveChild(s: Trail, n: Node, depth: nat, buflen: nat, p: Path, m: nat)
    requires ValidPath(n, p) && m < |At(n, p).items| && At(n, p).items[m].Child? && ValidPath(n, p + [m])
    ensures Arrive(s, n, depth, buflen, p + [m]) ==
            Enter(PassItems(Arrive(s, n, depth, buflen, p), At(n, p).items[..m], depth + |p| + 1, buflen),
                  At(n, p).items[m].node.name, depth + |p| + 1, buflen)
    decreases |p|
  {
    hide Enter, PassItems;
    if p == [] {
      assert (p + [m])[1..] == [];
    } else {
      assert (p + [m])[1..] == p[1..] + [m] && (p + [m])[0] == p[0];
      var s1 := PassItems(Enter(s, n.name, depth, buflen), n.items[..p[0]], depth + 1, buflen);
      ArriveChild(s1, n.items[p[0]].node, depth + 1, buflen, p[1..], m);
    }
  }

  /** After the first `j` items of the node at `p`. */
  ghost function After(n: Node, p: Path, j: nat, buflen: nat): Trail
    requires ValidPath(n, p) && j <= |At(n, p).items|
  {
    PassItems(TrailTo(n, p, buflen), At(n, p).items[..j], |p| + 1, buflen)
  }

  /** After a whole subnode is after one more item of its parent. */
  lemma AfterChild(n: Node, p: Path, m: nat, buflen: nat)
    requires ValidPath(n, p) && m < |At(n, p).items| && At(n, p).items[m].Child?
    ensures ValidPath(n, p + [m]) && At(n, p + [m]) == At(n, p).items[m].node
    ensures After(n, p + [m], |At(n, p + [m]).items|, buflen) == After(n, p, m + 1, buflen)
  {
    hide Arrive, PassItems, Enter, At, ValidPath;
    ChildPath(n, p, m);
    var items, c := At(n, p).items, At(n, p).items[m].node;
    assert c.items[..|c.items|] == c.items;
    ArriveChild(Trail([], 0), n, 0, buflen, p, m);
    assert items[..m + 1] == items[..m] + [items[m]];
    PassSplit(TrailTo(n, p, buflen), items[..m], [items[m]], |p| + 1, buflen);
    PassOne(After(n, p, m, buflen), items[m], |p| + 1, buflen);
  }

  lemma AfterPlain(n: Node, p: Path, j: nat, m: nat, buflen: nat)
    requires ValidPath(n, p) && j <= m <= |At(n, p).items|
    requires forall i :: j <= i < m ==> !At(n, p).items[i].Child?
    ensures After(n, p, m, buflen) == After(n, p, j, buflen)
  {
    hide Arrive, PassItems, At, ValidPath;
    var items := At(n, p).items;
    assert items[..m] == items[..j] + items[j..m];
    PassSplit(TrailTo(n, p, buflen), items[..j], items[j..m], |p| + 1, buflen);
    PassPlain(After(n, p, j, buflen), items[j..m], |p| + 1, buflen);
  }

  /** From a place in the tree the next node is entered with what is in the buffer there. */
  lemma {:induction false} ClimbEnters(n: Node, p: Path, j: nat, buflen: nat)
    requires ValidPath(n, p) && j <= |At(n, p).items| && Climb(n, p, j).Some?
    ensures var q := Climb(n, p, j).value;
            ValidPath(n, q) && TrailTo(n, q, buflen) == Enter(After(n, p, j, buflen), At(n, q).name, |q|, buflen)
    decreases |p|
  {
    hide Arrive, PassItems, Enter, LeadCount, At, ValidPath, After;
    var items := At(n, p).items;
    var m := j + LeadCount(items[j..]);
    LeadDrop(items, j);
    AfterPlain(n, p, j, m, buflen);
    if m < |items| {
      ChildPath(n, p, m);
      ArriveChild(Trail([], 0), n, 0, buflen, p, m);
      AfterIs(n, p, m, buflen);
    } else {
      LastStep(n, p);
      var up, k := p[..|p| - 1], p[|p| - 1];
      assert p == up + [k];
      AfterChild(n, up, k, buflen);
      ClimbEnters(n, up, k + 1, buflen);
    }
  }

  lemma AfterIs(n: Node, p: Path, j: nat, buflen: nat)
    requires ValidPath(n, p) && j <= |At(n, p).items|
    ensures After(n, p, j, buflen) == PassItems(TrailTo(n, p, buflen), At(n, p).items[..j], |p| + 1, buflen)
  {
    hide Arrive, PassItems, At, ValidPath;
  }

  /** Moving on to the next node in preorder. */
  lemma TrailNext(n: Node, c: Path, buflen: nat)
    requires ValidPath(n, c) && NextPath(n, c).Some?
    ensures var q := NextPath(n, c).value;
            ValidPath(n, q) && TrailTo(n, q, buflen) == Enter(TrailTo(n, c, buflen), At(n, q).name, |q|, buflen)
  {
    hide Arrive, PassItems, Enter, At, ValidPath, Climb, After;
    ClimbEnters(n, c, 0, buflen);
    AfterIs(n, c, 0, buflen);
    assert At(n, c).items[..0] == [];
    NothingPassed(TrailTo(n, c, buflen), |c| + 1, buflen);
  }

  lemma NothingPassed(s: Trail, depth: nat, buflen: nat)
    ensures PassItems(s, [], depth, buflen) == s
  {
  }

  // ---- what stays true of it ----

  /** The components are free of slashes, at least as many as the names, and fit in the buffer. */
  ghost predicate TrailOk(s: Trail, buflen: nat) {
    NoSlashes(s.segs) && s.pdepth <= |s.segs| && |Text(s.segs)| <= buflen
  }

  lemma EnterOk(s: Trail, name: Bytes, depth: nat, buflen: nat)
    requires TrailOk(s, buflen)
    ensures TrailOk(Back(s, depth), buflen) && Back(s, depth).pdepth <= |Back(s, depth).segs|
    ensures TrailOk(Enter(s, name, depth, buflen), buflen) && Enter(s, name, depth, buflen).pdepth <= depth + 1
  {
    hide Text, Split;
    var b := Back(s, depth);
    if s.pdepth > depth {
      TextPrefix(s.segs, |b.segs|, |s.segs|);
      assert s.segs[..|s.segs|] == s.segs;
    }
    TextSplit(name);
    TextConcat(b.segs, Split(name));
  }

  lemma {:induction false} PassOk(s: Trail, n: Node, depth: nat, buflen: nat)
    requires TrailOk(s, buflen)
    ensures TrailOk(Pass(s, n, depth, buflen), buflen)
    decreases n, 1
  {
    hide Enter, TrailOk, PassItems;
    EnterOk(s, n.name, depth, buflen);
    PassItemsOk(Enter(s, n.name, depth, buflen), n.items, depth + 1, buflen);
  }

  lemma {:induction false} PassItemOk(s: Trail, it: Item, depth: nat, buflen: nat)
    requires TrailOk(s, buflen)
    ensures TrailOk(PassItem(s, it, depth, buflen), buflen)
    decreases it, 1
  {
    hide Pass, TrailOk;
    match it
    case Child(c) => PassOk(s, c, depth, buflen);
    case _ =>
  }

  lemma {:induction false} PassItemsOk(s: Trail, items: seq<Item>, depth: nat, buflen: nat)
    requires TrailOk(s, buflen)
    ensures TrailOk(PassItems(s, items, depth, buflen), buflen)
    decreases items, 0
  {
    hide PassItem, TrailOk;
    if items != [] {
      PassItemOk(s, items[0], depth, buflen);
      PassItemsOk(PassItem(s, items[0], depth, buflen), items[1..], depth, buflen);
    }
  }

  lemma {:induction false} ArriveOk(s: Trail, n: Node, depth: nat, buflen: nat, q: Path)
    requires ValidPath(n, q) && TrailOk(s, buflen)
    ensures TrailOk(Arrive(s, n, depth, buflen, q), buflen)
    ensures Arrive(s, n, depth, buflen, q).pdepth <= depth + |q| + 1
    decreases |q|
  {
    hide Enter, TrailOk, PassItems;
    EnterOk(s, n.name, depth, buflen);
    if q != [] {
      var s1 := Enter(s, n.name, depth, buflen);
      PassItemsOk(s1, n.items[..q[0]], depth + 1, buflen);
      ArriveOk(PassItems(s1, n.items[..q[0]], depth + 1, buflen), n.items[q[0]].node, depth + 1, buflen, q[1..]);
    }
  }

  lemma TrailToOk(n: Node, q: Path, buflen: nat)
    requires ValidPath(n, q)
    ensures TrailOk(TrailTo(n, q, buflen), buflen) && TrailTo(n, q, buflen).pdepth <= |q| + 1
  {
    hide Arrive;
    ArriveOk(Trail([], 0), n, 0, buflen, q);
  }

  // ---- where no name passed holds a slash ----

  ghost predicate Free(n: Node)
    decreases n, 1
  {
    SLASH !in n.name && FreeItems(n.items)
  }

  ghost predicate FreeItems(items: seq<Item>)
    decreases items, 0
  {
    items == [] || (FreeItem(items[0]) && FreeItems(items[1..]))
  }

  ghost predicate FreeItem(it: Item)
    decreases it, 1
  {
    match it
    case Child(c) => Free(c)
    case _ => true
  }

  /** No name holds a slash of the nodes up to `q` in preorder. */
  ghost predicate FreeBefore(n: Node, q: Path)
    requires ValidPath(n, q)
    decreases |q|
  {
    SLASH !in n.name && (q != [] ==> FreeItems(n.items[..q[0]]) && FreeBefore(n.items[q[0]].node, q[1..]))
  }

  /** As many names of the path as fit, each one component. */
  ghost predicate Fits(s: Trail, names: seq<Bytes>, buflen: nat) {
    var k := if s.pdepth < |names| then s.pdepth else |names|;
    |s.segs| == s.pdepth && s.segs[..k] == names[..k] && (s.pdepth < |names| ==> |Text(names[..s.pdepth + 1])| > buflen)
  }

  lemma EnterFits(s: Trail, names: seq<Bytes>, name: Bytes, buflen: nat)
    requires Fits(s, names, buflen) && SLASH !in name
    ensures Fits(Enter(s, name, |names|, buflen), names + [name], buflen)
  {
    hide Text;
    var d, b := |names|, Back(s, |names|);
    var all := names + [name];
    assert all[..d] == names && names[..d] == names;
    TextConcat(names, [name]);
    TextOne(name);
    assert all[..d + 1] == all;
    if b.pdepth < d {
      assert all[..b.pdepth + 1] == names[..b.pdepth + 1] && all[..b.pdepth] == names[..b.pdepth];
    } else {
      assert b.segs == names;
    }
  }

  lemma FitsLess(s: Trail, names: seq<Bytes>, name: Bytes, buflen: nat)
    requires Fits(s, names + [name], buflen)
    ensures Fits(s, names, buflen)
  {
    hide Text;
    var all := names + [name];
    if s.pdepth < |names| {
      assert all[..s.pdepth + 1] == names[..s.pdepth + 1] && all[..s.pdepth] == names[..s.pdepth];
    } else {
      assert all[..|names|] == names && names[..|names|] == names;
      assert s.segs[..|names|] == (if s.pdepth < |all| then s.segs[..s.pdepth] else s.segs[..|all|])[..|names|];
    }
  }

  lemma {:induction false} PassFits(s: Trail, n: Node, names: seq<Bytes>, buflen: nat)
    requires Fits(s, names, buflen) && Free(n)
    ensures Fits(Pass(s, n, |names|, buflen), names, buflen)
    decreases n, 1
  {
    hide Enter, Fits, PassItems, FreeItems;
    EnterFits(s, names, n.name, buflen);
    PassItemsFit(Enter(s, n.name, |names|, buflen), n.items, names + [n.name], buflen);
    FitsLess(Pass(s, n, |names|, buflen), names, n.name, buflen);
  }

  lemma {:induction false} PassItemFits(s: Trail, it: Item, names: seq<Bytes>, buflen: nat)
    requires Fits(s, names, buflen) && FreeItem(it)
    ensures Fits(PassItem(s, it, |names|, buflen), names, buflen)
    decreases it, 1
  {
    hide Pass, Fits, Free;
    match it
    case Child(c) => PassFits(s, c, names, buflen);
    case _ =>
  }

  lemma {:induction false} PassItemsFit(s: Trail, items: seq<Item>, names: seq<Bytes>, buflen: nat)
    requires Fits(s, names, buflen) && FreeItems(items)
    ensures Fits(PassItems(s, items, |names|, buflen), names, buflen)
    decreases items, 0
  {
    hide PassItem, Fits, FreeItem;
    if items != [] {
      PassItemFits(s, items[0], names, buflen);
      PassItemsFit(PassItem(s, items[0], |names|, buflen), items[1..], names, buflen);
    }
  }

  lemma {:induction false} ArriveFits(s: Trail, n: Node, names: seq<Bytes>, buflen: nat, q: Path)
    requires ValidPath(n, q) && Fits(s, names, buflen) && FreeBefore(n, q)
    ensures Fits(Arrive(s, n, |names|, buflen, q), names + Names(n, q), buflen)
    decreases |q|
  {
    hide Enter, Fits, PassItems, FreeItems;
    EnterFits(s, names, n.name, buflen);
    if q != [] {
      var s1, names1 := Enter(s, n.name, |names|, buflen), names + [n.name];
      PassItemsFit(s1, n.items[..q[0]], names1, buflen);
      ArriveFits(PassItems(s1, n.items[..q[0]], |names1|, buflen), n.items[q[0]].node, names1, buflen, q[1..]);
      assert names1 + Names(n.items[q[0]].node, q[1..]) == names + Names(n, q);
    }
  }

  /** Then the buffer has the names of the path, and has them all exactly when they fit. */
  lemma FreeTrail(n: Node, q: Path, buflen: nat)
    requires ValidPath(n, q) && FreeBefore(n, q)
    ensures var s := TrailTo(n, q, buflen);
            (s.pdepth == |q| + 1 <==> |Text(Names(n, q))| <= buflen) && (s.pdepth == |q| + 1 ==> s.segs == Names(n, q))
  {
    hide Arrive, Names, Text, FreeBefore;
    var s, names := TrailTo(n, q, buflen), Names(n, q);
    TrailToOk(n, q, buflen);
    assert Fits(Trail([], 0), [], buflen);
    ArriveFits(Trail([], 0), n, [], buflen, q);
    assert [] + names == names && names[..|names|] == names && s.segs[..|s.segs|] == s.segs;
    if s.pdepth < |names| {
      TextPrefix(names, s.pdepth + 1, |names|);
    }
  }

  // ---- what is left over ----

  /** A component as a path lookup sees it: an empty one is passed over. */
  function Seen(x: Bytes): seq<Bytes> {
    if x == [] then [] else [x]
  }

  /** The components that a path lookup sees. */
  function NonEmpty(segs: seq<Bytes>): seq<Bytes> {
    if segs == [] then [] else Seen(segs[0]) + NonEmpty(segs[1..])
  }

  lemma NonEmptyStep(segs: seq<Bytes>)
    ensures segs == [] ==> NonEmpty(segs) == []
    ensures segs != [] ==> NonEmpty(segs) == Seen(segs[0]) + NonEmpty(segs[1..])
  {
    hide Seen;
  }

  lemma {:induction false} NonEmptyConcat(a: seq<Bytes>, b: seq<Bytes>)
    ensures NonEmpty(a + b) == NonEmpty(a) + NonEmpty(b)
    decreases |a|
  {
    hide *;
    ConcatFirst(a, b);
    NonEmptyStep(a);
    if a == [] {
      ConcatFirst(NonEmpty(a), NonEmpty(b));
    } else {
      NonEmptyStep(a + b);
      NonEmptyConcat(a[1..], b);
      ConcatAssoc(Seen(a[0]), NonEmpty(a[1..]), NonEmpty(b));
    }
  }

  /** The components of some names. */
  function Segments(names: seq<Bytes>): seq<Bytes> {
    if names == [] then [] else Split(names[0]) + Segments(names[1..])
  }

  /** Taking the components of deeper nodes off leaves those of `base` at the bottom. */
  ghost predicate Rests(s: Trail, base: seq<Bytes>, depth: nat) {
    s.pdepth >= depth && |base| <= |s.segs| - (s.pdepth - depth) && s.segs[..|base|] == base
  }

  /** `x` has the components of `p`, in order, and only them if it has no more. */
  ghost predicate Covers(x: seq<Bytes>, p: seq<Bytes>) {
    |x| >= |p| && (|x| == |p| ==> x == p)
  }

  lemma CoversConcat(x: seq<Bytes>, p: seq<Bytes>, y: seq<Bytes>, r: seq<Bytes>)
    requires Covers(x, p) && Covers(y, r)
    ensures Covers(x + y, p + r)
  {
  }

  lemma EnterRests(s: Trail, base: seq<Bytes>, name: Bytes, depth: nat, buflen: nat) returns (left: seq<Bytes>)
    requires Rests(s, base, depth)
    ensures var s1 := Enter(s, name, depth, buflen);
            if s1.pdepth == depth + 1
            then s1.segs == base + left + Split(name) && Rests(s1, base + left + Split(name), depth + 1)
            else s1.pdepth == depth && Rests(s1, base, depth)
  {
    hide Text, Split;
    var b := Back(s, depth);
    left := b.segs[|base|..];
    assert b.segs == base + left;
  }

  /** Below a node whose name did not fit nothing is added. */
  lemma {:induction false} PassStuck(s: Trail, n: Node, depth: nat, buflen: nat)
    requires s.pdepth < depth
    ensures Pass(s, n, depth, buflen) == s
    decreases n, 1
  {
    hide PassItems;
    PassItemsStuck(s, n.items, depth + 1, buflen);
  }

  lemma {:induction false} PassItemStuck(s: Trail, it: Item, depth: nat, buflen: nat)
    requires s.pdepth < depth
    ensures PassItem(s, it, depth, buflen) == s
    decreases it, 1
  {
    hide Pass;
    match it
    case Child(c) => PassStuck(s, c, depth, buflen);
    case _ =>
  }

  lemma {:induction false} PassItemsStuck(s: Trail, items: seq<Item>, depth: nat, buflen: nat)
    requires s.pdepth < depth
    ensures PassItems(s, items, depth, buflen) == s
    decreases items, 0
  {
    hide PassItem;
    if items != [] {
      PassItemStuck(s, items[0], depth, buflen);
      PassItemsStuck(s, items[1..], depth, buflen);
    }
  }

  lemma {:induction false} ArriveStuck(s: Trail, n: Node, depth: nat, buflen: nat, q: Path)
    requires ValidPath(n, q) && s.pdepth < depth
    ensures Arrive(s, n, depth, buflen, q) == s
    decreases |q|
  {
    hide PassItems;
    if q != [] {
      PassItemsStuck(s, n.items[..q[0]], depth + 1, buflen);
      ArriveStuck(s, n.items[q[0]].node, depth + 1, buflen, q[1..]);
    }
  }

  lemma {:induction false} PassRests(s: Trail, base: seq<Bytes>, n: Node, depth: nat, buflen: nat)
    requires Rests(s, base, depth)
    ensures Rests(Pass(s, n, depth, buflen), base, depth)
    decreases n, 1
  {
    hide Enter, Rests, PassItems, Split;
    var s1 := Enter(s, n.name, depth, buflen);
    var left := EnterRests(s, base, n.name, depth, buflen);
    if s1.pdepth == depth + 1 {
      PassItemsRest(s1, base + left + Split(n.name), n.items, depth + 1, buflen);
      RestsLess(PassItems(s1, n.items, depth + 1, buflen), base, left, Split(n.name), depth);
    } else {
      PassItemsStuck(s1, n.items, depth + 1, buflen);
    }
  }

  lemma RestsLess(s: Trail, base: seq<Bytes>, left: seq<Bytes>, more: seq<Bytes>, depth: nat)
    requires Rests(s, base + left + more, depth + 1) && |more| > 0
    ensures Rests(s, base, depth)
  {
    var all := base + left + more;
    assert s.segs[..|base|] == s.segs[..|all|][..|base|];
  }

  lemma {:induction false} PassItemRests(s: Trail, base: seq<Bytes>, it: Item, depth: nat, buflen: nat)
    requires Rests(s, base, depth)
    ensures Rests(PassItem(s, it, depth, buflen), base, depth)
    decreases it, 1
  {
    hide Pass, Rests;
    match it
    case Child(c) => PassRests(s, base, c, depth, buflen);
    case _ =>
  }

  lemma {:induction false} PassItemsRest(s: Trail, base: seq<Bytes>, items: seq<Item>, depth: nat, buflen: nat)
    requires Rests(s, base, depth)
    ensures Rests(PassItems(s, items, depth, buflen), base, depth)
    decreases items, 0
  {
    hide PassItem, Rests;
    if items != [] {
      PassItemRests(s, base, items[0], depth, buflen);
      PassItemsRest(PassItem(s, items[0], depth, buflen), base, items[1..], depth, buflen);
    }
  }

  /** At a node whose path has been written the components of its names are there, between ones left over. */
  lemma {:induction false} ArriveCovers(s: Trail, base: seq<Bytes>, n: Node, depth: nat, buflen: nat, q: Path)
    returns (x: seq<Bytes>)
    requires ValidPath(n, q) && Rests(s, base, depth) && Arrive(s, n, depth, buflen, q).pdepth == depth + |q| + 1
    ensures base <= Arrive(s, n, depth, buflen, q).segs
    ensures NonEmpty(Arrive(s, n, depth, buflen, q).segs) == NonEmpty(base) + x
    ensures Covers(x, NonEmpty(Segments(Names(n, q))))
    decreases |q|
  {
    hide Enter, Rests, PassItems, Split, NonEmpty, Covers, Segments;
    var s1 := Enter(s, n.name, depth, buflen);
    var left := EnterRests(s, base, n.name, depth, buflen);
    if s1.pdepth != depth + 1 && q != [] {
      PassItemsStuck(s1, n.items[..q[0]], depth + 1, buflen);
      ArriveStuck(s1, n.items[q[0]].node, depth + 1, buflen, q[1..]);
    }
    var own, base1 := NonEmpty(Split(n.name)), base + left + Split(n.name);
    NonEmptyConcat(base, left);
    NonEmptyConcat(base + left, Split(n.name));
    CoversMore(NonEmpty(left), own);
    SegmentsOfNames(n, q);
    if q == [] {
      x := NonEmpty(left) + own;
      assert NonEmpty(base) + NonEmpty(left) + own == NonEmpty(base) + x;
    } else {
      PassItemsRest(s1, base1, n.items[..q[0]], depth + 1, buflen);
      var s2 := PassItems(s1, n.items[..q[0]], depth + 1, buflen);
      var y := ArriveCovers(s2, base1, n.items[q[0]].node, depth + 1, buflen, q[1..]);
      x := NonEmpty(left) + own + y;
      CoversConcat(NonEmpty(left) + own, own, y, NonEmpty(Segments(Names(n.items[q[0]].node, q[1..]))));
      NonEmptyConcat(Split(n.name), Segments(Names(n.items[q[0]].node, q[1..])));
      assert NonEmpty(base) + NonEmpty(left) + own + y == NonEmpty(base) + x;
    }
  }

  lemma CoversMore(left: seq<Bytes>, own: seq<Bytes>)
    ensures Covers(left + own, own)
  {
  }

  lemma SegmentsOfNames(n: Node, q: Path)
    requires ValidPath(n, q)
    ensures q == [] ==> Segments(Names(n, q)) == Split(n.name)
    ensures q != [] ==> Segments(Names(n, q)) == Split(n.name) + Segments(Names(n.items[q[0]].node, q[1..]))
  {
    hide Split;
    if q == [] {
      assert Names(n, q)[1..] == [] && Split(n.name) + [] == Split(n.name);
    } else {
      assert Names(n, q)[1..] == Names(n.items[q[0]].node, q[1..]);
    }
  }

  /** What the path of a node has more than the names of its path: components of nodes left before. */
  lemma TrailCovers(n: Node, q: Path, buflen: nat)
    requires ValidPath(n, q) && TrailTo(n, q, buflen).pdepth == |q| + 1
    ensures Covers(NonEmpty(TrailTo(n, q, buflen).segs), NonEmpty(Segments(Names(n, q))))
  {
    hide Arrive, NonEmpty, Covers, Segments, Names;
    assert Rests(Trail([], 0), [], 0);
    hide Rests;
    var x := ArriveCovers(Trail([], 0), [], n, 0, buflen, q);
    NoneAreEmpty();
    assert [] + x == x;
  }

  lemma NoneAreEmpty()
    ensures NonEmpty([]) == []
  {
  }
}
