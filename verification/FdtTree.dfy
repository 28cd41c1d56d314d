/**
 Device trees as they lie in the structure block, and the token stream of a tree.
 */
module FdtTree {
  import opened Common
  import opened FdtBytes
  import opened FdtTokens

  /** A node with everything the block stores for it: padding and NOPs included. */
  datatype Node = Node(name: Bytes, pad: Bytes, items: seq<Item>)

  datatype Item =
    | Nop
    | Prop(nameoff: u32, value: Bytes, vpad: Bytes)
    | Child(node: Node)

  predicate WfNode(n: Node)
    decreases n, 1
  {
    WfToken(TBegin(n.name, n.pad)) && WfItems(n.items)
  }

  predicate WfItem(it: Item)
    decreases it, 1
  {
    match it
    case Nop => true
    case Prop(nameoff, value, vpad) => WfToken(TProp(nameoff, value, vpad))
    case Child(c) => WfNode(c)
  }

  predicate WfItems(items: seq<Item>)
    decreases items, 0
  {
    items == [] || (WfItem(items[0]) && WfItems(items[1..]))
  }

  /** The tokens of a node, its subnodes included. */
  function Flat(n: Node): (ts: seq<Token>)
    ensures |ts| >= 2 && ts[0] == TBegin(n.name, n.pad)
    decreases n, 1
  {
    [TBegin(n.name, n.pad)] + FlatItems(n.items) + [TEnd]
  }

  function FlatItem(it: Item): (ts: seq<Token>)
    ensures |ts| >= 1
    decreases it, 1
  {
    match it
    case Nop => [TNop]
    case Prop(nameoff, value, vpad) => [TProp(nameoff, value, vpad)]
    case Child(c) => Flat(c)
  }

  function FlatItems(items: seq<Item>): seq<Token>
    decreases items, 0
  {
    if items == [] then [] else FlatItem(items[0]) + FlatItems(items[1..])
  }

  lemma {:induction false} FlatWf(n: Node)
    requires WfNode(n)
    ensures WfTokens(Flat(n))
    decreases n, 1
  {
    FlatItemsWf(n.items);
  }

  lemma {:induction false} FlatItemWf(it: Item)
    requires WfItem(it)
    ensures WfTokens(FlatItem(it))
    decreases it, 1
  {
    match it
    case Child(c) => FlatWf(c);
    case _ =>
  }

  lemma {:induction false} FlatItemsWf(items: seq<Item>)
    requires WfItems(items)
    ensures WfTokens(FlatItems(items))
    decreases items, 0
  {
    hide FlatItem;
    if items != [] {
      FlatItemWf(items[0]);
      FlatItemsWf(items[1..]);
    }
  }

  lemma FlatItemsStep(items: seq<Item>)
    ensures items == [] ==> FlatItems(items) == []
    ensures items != [] ==> FlatItems(items) == FlatItem(items[0]) + FlatItems(items[1..])
  {
    hide FlatItem;
  }

  lemma {:induction false} FlatItemsConcat(a: seq<Item>, b: seq<Item>)
    ensures FlatItems(a + b) == FlatItems(a) + FlatItems(b)
    decreases |a|
  {
    hide *;
    ConcatFirst(a, b);
    FlatItemsStep(a);
    if a == [] {
      ConcatFirst(FlatItems(a), FlatItems(b));
    } else {
      FlatItemsStep(a + b);
      FlatItemsConcat(a[1..], b);
      ConcatAssoc(FlatItem(a[0]), FlatItems(a[1..]), FlatItems(b));
    }
  }

  lemma {:induction false} WfItemsConcat(a: seq<Item>, b: seq<Item>)
    ensures WfItems(a + b) <==> WfItems(a) && WfItems(b)
  {
    if a == [] {
      assert a + b == b;
    } else {
      WfItemsConcat(a[1..], b);
      assert (a + b)[1..] == a[1..] + b;
    }
  }
}
