/**
 Edits of a tree at a path are splices of its encoding. Every read-write operation of
 libfdt is one such edit.
 */
module FdtEdit {
  import opened FdtBytes
  import opened FdtTokens
  import opened FdtTree
  import opened FdtScan
  import opened FdtVisit

  /** `s` with `n` elements at `at` replaced by `new`. */
  function Splice<T>(s: seq<T>, at: nat, n: nat, new': seq<T>): seq<T>
    requires at + n <= |s|
  {
    s[..at] + new' + s[at + n..]
  }

  lemma SpliceMiddle<T>(a: seq<T>, x: seq<T>, b: seq<T>, y: seq<T>)
    ensures Splice(a + x + b, |a|, |x|, y) == a + y + b
  {
    assert (a + x + b)[|a| + |x|..] == b;
  }

  lemma SpliceInner<T>(a: seq<T>, x: seq<T>, b: seq<T>, at: nat, n: nat, y: seq<T>)
    requires at + n <= |x|
    ensures Splice(a + x + b, |a| + at, n, y) == a + Splice(x, at, n, y) + b
  {
    var s := a + x + b;
    assert s[..|a| + at] == a + x[..at];
    assert s[|a| + at + n..] == x[at + n..] + b;
  }

  /** Replacing part of a stretch is replacing the stretch. */
  lemma SpliceOver(s: Bytes, at: nat, x: Bytes, q: nat, d: Bytes)
    requires Has(s, at, x) && q + |d| <= |x|
    ensures Splice(s, at, |x|, Splice(x, q, |d|, d)) == Splice(s, at + q, |d|, d)
  {
    hide Splice;
    var a, b := s[..at], s[at + |x|..];
    assert s == a + x + b;
    SpliceInner(a, x, b, q, |d|, d);
    SpliceMiddle(a, x, b, Splice(x, q, |d|, d));
  }

  // ---- paths ----

  /** Item indices from the root to a node. */
  type Path = seq<nat>

  ghost predicate ValidPath(n: Node, p: Path)
    decreases |p|
  {
    p == [] || (p[0] < |n.items| && n.items[p[0]].Child? && ValidPath(n.items[p[0]].node, p[1..]))
  }

  ghost function At(n: Node, p: Path): Node
    requires ValidPath(n, p)
    decreases |p|
  {
    if p == [] then n else At(n.items[p[0]].node, p[1..])
  }

  /** Token index, within the tree, of the node at `p`. */
  ghost function Pos(n: Node, p: Path): nat
    requires ValidPath(n, p)
    decreases |p|
  {
    if p == [] then 0 else 1 + |FlatItems(n.items[..p[0]])| + Pos(n.items[p[0]].node, p[1..])
  }

  ghost function Put(n: Node, p: Path, m: Node): Node
    requires ValidPath(n, p)
    decreases |p|
  {
    if p == [] then m
    else n.(items := Splice(n.items, p[0], 1, [Child(Put(n.items[p[0]].node, p[1..], m))]))
  }

  /** The items `i..j` of the node at `p` replaced by `new'`. */
  ghost function PutItems(n: Node, p: Path, i: nat, j: nat, new': seq<Item>): Node
    requires ValidPath(n, p) && i <= j <= |At(n, p).items|
  {
    Put(n, p, At(n, p).(items := Splice(At(n, p).items, i, j - i, new')))
  }

  // ---- token streams of edited trees ----

  lemma FlatItemsOne(it: Item)
    ensures FlatItems([it]) == FlatItem(it)
  {
    hide FlatItem;
    assert [it][1..] == [];
  }

  lemma FlatItemsSplit(items: seq<Item>, i: nat, j: nat)
    requires i <= j <= |items|
    ensures FlatItems(items) == FlatItems(items[..i]) + FlatItems(items[i..j]) + FlatItems(items[j..])
  {
    hide FlatItems;
    assert items == items[..j] + items[j..] && items[..j] == items[..i] + items[i..j];
    FlatItemsConcat(items[..j], items[j..]);
    FlatItemsConcat(items[..i], items[i..j]);
  }

  lemma FlatSplice(items: seq<Item>, i: nat, j: nat, new': seq<Item>)
    requires i <= j <= |items|
    ensures |FlatItems(items[..i])| + |FlatItems(items[i..j])| <= |FlatItems(items)|
    ensures FlatItems(Splice(items, i, j - i, new')) ==
            Splice(FlatItems(items), |FlatItems(items[..i])|, |FlatItems(items[i..j])|, FlatItems(new'))
  {
    hide FlatItems, Splice;
    FlatItemsSplit(items, i, j);
    SpliceMiddle(FlatItems(items[..i]), FlatItems(items[i..j]), FlatItems(items[j..]), FlatItems(new'));
    FlatItemsConcat(items[..i] + new', items[j..]);
    FlatItemsConcat(items[..i], new');
    SpliceIs(items, i, j, new');
  }

  lemma SpliceIs<T>(s: seq<T>, i: nat, j: nat, new': seq<T>)
    requires i <= j <= |s|
    ensures Splice(s, i, j - i, new') == s[..i] + new' + s[j..]
  {
  }

  /** An edit inside a node, seen from the node. */
  lemma FlatBody(n: Node, at: nat, k: nat, items': seq<Item>, y: seq<Token>)
    requires at + k <= |FlatItems(n.items)| && FlatItems(items') == Splice(FlatItems(n.items), at, k, y)
    ensures Flat(n.(items := items')) == Splice(Flat(n), 1 + at, k, y)
  {
    hide FlatItems;
    SpliceInner([TBegin(n.name, n.pad)], FlatItems(n.items), [TEnd], at, k, y);
  }

  lemma {:induction false} AtPos(n: Node, p: Path)
    requires ValidPath(n, p)
    ensures Has(Flat(n), Pos(n, p), Flat(At(n, p)))
    decreases |p|
  {
    hide FlatItems, Has;
    if p == [] {
      HasMiddle([], Flat(n), []);
      assert [] + Flat(n) + [] == Flat(n);
    } else {
      var c := n.items[p[0]].node;
      AtPos(c, p[1..]);
      HasInside(Flat(n), 1 + |FlatItems(n.items[..p[0]])|, Flat(c), Pos(c, p[1..]), Flat(At(c, p[1..]))) by {
        ChildHas(n, p[0]);
      }
    }
  }

  lemma HasInside<T>(s: seq<T>, o: nat, m: seq<T>, q: nat, x: seq<T>)
    requires Has(s, o, m) && Has(m, q, x)
    ensures Has(s, o + q, x)
  {
    HasAt(s, o, m);
    HasAt(m, q, x);
    forall i | 0 <= i < |x|
      ensures s[o + q..o + q + |x|][i] == x[i]
    {
      assert s[o + q + i] == m[q + i];
    }
  }

  lemma ChildHas(n: Node, i: nat)
    requires i < |n.items| && n.items[i].Child?
    ensures Has(Flat(n), 1 + |FlatItems(n.items[..i])|, Flat(n.items[i].node))
  {
    hide FlatItems, Has;
    var a, c, b := FlatItems(n.items[..i]), Flat(n.items[i].node), FlatItems(n.items[i + 1..]);
    FlatItemsSplit(n.items, i, i + 1);
    assert n.items[i..i + 1] == [n.items[i]];
    FlatItemsOne(n.items[i]);
    HasMiddle([TBegin(n.name, n.pad)] + a, c, b + [TEnd]);
    assert Flat(n) == [TBegin(n.name, n.pad)] + a + c + (b + [TEnd]);
  }

  /** An edit at a path is a splice of the token stream. */
  lemma {:induction false} FlatPut(n: Node, p: Path, m: Node, at: nat, k: nat, y: seq<Token>)
    requires ValidPath(n, p) && at + k <= |Flat(At(n, p))|
    requires Flat(m) == Splice(Flat(At(n, p)), at, k, y)
    ensures Pos(n, p) + at + k <= |Flat(n)|
    ensures Flat(Put(n, p, m)) == Splice(Flat(n), Pos(n, p) + at, k, y)
    decreases |p|
  {
    hide FlatItems, Splice, Flat;
    if p != [] {
      FlatPut(n.items[p[0]].node, p[1..], m, at, k, y);
      FlatPutStep(n, p[0], Put(n.items[p[0]].node, p[1..], m), Pos(n.items[p[0]].node, p[1..]) + at, k, y);
    }
  }

  lemma FlatPutStep(n: Node, i: nat, c': Node, at: nat, k: nat, y: seq<Token>)
    requires i < |n.items| && n.items[i].Child?
    requires at + k <= |Flat(n.items[i].node)| && Flat(c') == Splice(Flat(n.items[i].node), at, k, y)
    ensures 1 + |FlatItems(n.items[..i])| + at + k <= |Flat(n)|
    ensures Flat(n.(items := Splice(n.items, i, 1, [Child(c')]))) ==
            Splice(Flat(n), 1 + |FlatItems(n.items[..i])| + at, k, y)
  {
    hide FlatItems, Flat, Splice;
    var a, c, b := FlatItems(n.items[..i]), Flat(n.items[i].node), FlatItems(n.items[i + 1..]);
    assert FlatItems(n.items) == a + c + b by {
      FlatItemsSplit(n.items, i, i + 1);
      assert n.items[i..i + 1] == [n.items[i]];
      FlatItemsOne(n.items[i]);
    }
    SpliceInner(a, c, b, at, k, y);
    FlatItemsOne(Child(c'));
    FlatSplice(n.items, i, i + 1, [Child(c')]);
    SpliceMiddle(a, c, b, Flat(c'));
    assert n.items[i..i + 1] == [n.items[i]];
    FlatItemsOne(n.items[i]);
    FlatBody(n, |a| + at, k, Splice(n.items, i, 1, [Child(c')]), y);
    FlatLen(n);
  }

  lemma FlatLen(n: Node)
    ensures |Flat(n)| == |FlatItems(n.items)| + 2
  {
  }

  /** Replacing items of the node at a path splices exactly their tokens. */
  lemma FlatPutItems(n: Node, p: Path, i: nat, j: nat, new': seq<Item>)
    requires ValidPath(n, p) && i <= j <= |At(n, p).items|
    ensures var items := At(n, p).items;
            var at, k := Pos(n, p) + 1 + |FlatItems(items[..i])|, |FlatItems(items[i..j])|;
            at + k <= |Flat(n)| && Flat(PutItems(n, p, i, j, new')) == Splice(Flat(n), at, k, FlatItems(new'))
  {
    hide FlatItems, Flat, Splice, Put, Pos;
    var a := At(n, p);
    var items' := Splice(a.items, i, j - i, new');
    FlatSplice(a.items, i, j, new');
    FlatBody(a, |FlatItems(a.items[..i])|, |FlatItems(a.items[i..j])|, items', FlatItems(new'));
    FlatLen(a);
    FlatPut(n, p, a.(items := items'), 1 + |FlatItems(a.items[..i])|, |FlatItems(a.items[i..j])|, FlatItems(new'));
  }

  // ---- and of the bytes ----

  lemma EncSplice(ts: seq<Token>, at: nat, k: nat, y: seq<Token>)
    requires WfTokens(ts) && WfTokens(y) && at + k <= |ts|
    ensures WfTokens(Splice(ts, at, k, y))
    ensures Off(ts, at) <= Off(ts, at + k) <= |Enc(ts)|
    ensures Enc(Splice(ts, at, k, y)) == Splice(Enc(ts), Off(ts, at), Off(ts, at + k) - Off(ts, at), Enc(y))
  {
    hide Enc;
    var a, x, b := ts[..at], ts[at..at + k], ts[at + k..];
    assert ts[..at + k] == a + x && ts == ts[..at + k] + b;
    EncConcat(a, x);
    EncConcat(ts[..at + k], b);
    EncConcat(a, y);
    EncConcat(a + y, b);
    SpliceMiddle(Enc(a), Enc(x), Enc(b), Enc(y));
  }
}
