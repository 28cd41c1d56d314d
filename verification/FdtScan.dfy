/**
 `fdt_next_node` and what a loop of it visits. Depth is kept by counting tags only;
 the lemmas show the count is the depth in the tree.
 */
module FdtScan {
  import opened FdtBytes
  import opened FdtTokens
  import opened FdtTree

  // ---- the function on bytes ----

  /** The tag scan from `off` always moves forward, so loops over it end. */
  predicate Scannable(s: Bytes, off: nat)
    decreases |s| + 4 - off
  {
    var (tag, next) := NextTag(s, off);
    tag == FDT_END || (next > off && Scannable(s, next))
  }

  /** The offset after the node header at `offset`, or a negative error. */
  function CheckNodeOffset(s: Bytes, offset: int): (r: int)
    ensures r < 0 ==> r == -FDT_ERR_BADOFFSET
  {
    if offset < 0 || offset % FDT_TAGSIZE != 0 || NextTag(s, offset).0 != FDT_BEGIN_NODE
    then -FDT_ERR_BADOFFSET
    else NextTag(s, offset).1
  }

  /** The loop of fdt_next_node from the tag at `off`: the offset found, or an error, and the depth. */
  function NextNodeFrom(s: Bytes, off: nat, depth: int): (r: (int, int))
    requires Scannable(s, off)
    ensures r.0 >= 0 ==> r.0 >= off
    ensures r.0 >= 0 && r.1 >= 0 ==>
              NextTag(s, r.0).0 == FDT_BEGIN_NODE && r.0 + 4 <= |s| && Scannable(s, r.0)
    decreases |s| + 4 - off
  {
    var (tag, next) := NextTag(s, off);
    if tag == FDT_BEGIN_NODE then (off, depth + 1)
    else if tag == FDT_END_NODE then
      if depth - 1 < 0 then (next, depth - 1) else NextNodeFrom(s, next, depth - 1)
    else if tag == FDT_END then
      (if next >= 0 then -FDT_ERR_NOTFOUND else next, depth)
    else NextNodeFrom(s, next, depth)
  }

  function NextNode(s: Bytes, offset: int, depth: int): (r: (int, int))
    requires Scannable(s, if offset >= 0 then offset else 0)
    ensures r.0 >= 0 ==> r.0 > offset
    ensures r.0 >= 0 && r.1 >= 0 ==>
              NextTag(s, r.0).0 == FDT_BEGIN_NODE && r.0 + 4 <= |s| && Scannable(s, r.0)
  {
    if offset < 0 then NextNodeFrom(s, 0, depth) else
    var next := CheckNodeOffset(s, offset);
    if next < 0 then (next, depth) else NextNodeFrom(s, next, depth)
  }

  method ReadNextNode(s: Bytes, offset: int, depth: int) returns (r: int, d: int)
    requires Scannable(s, if offset >= 0 then offset else 0)
    ensures (r, d) == NextNode(s, offset, depth)
  {
    var nextoffset := 0;
    r, d := offset, depth;
    if r >= 0 {
      nextoffset := CheckNodeOffset(s, r);
      if nextoffset < 0 {
        return nextoffset, d;
      }
    }
    var tag := FDT_NOP;
    while tag != FDT_BEGIN_NODE
      invariant tag != FDT_BEGIN_NODE ==>
                  nextoffset >= 0 && Scannable(s, nextoffset) &&
                  NextNode(s, offset, depth) == NextNodeFrom(s, nextoffset, d)
      invariant tag == FDT_BEGIN_NODE ==> (r, d) == NextNode(s, offset, depth)
      decreases tag != FDT_BEGIN_NODE, |s| + 4 - nextoffset
    {
      r := nextoffset;
      tag, nextoffset := ReadNextTag(s, r);
      if tag == FDT_BEGIN_NODE {
        d := d + 1;
      } else if tag == FDT_END_NODE {
        d := d - 1;
        if d < 0 {
          return nextoffset, d;
        }
      } else if tag == FDT_END {
        return if nextoffset >= 0 then -FDT_ERR_NOTFOUND else nextoffset, d;
      }
    }
  }

  // ---- the same scan on tokens ----

  /** First node token at or after `k`, counting depth; stops where the depth turns negative. */
  function Scan(ts: seq<Token>, k: nat, d: int): (int, int)
    decreases |ts| - k
  {
    if k >= |ts| || ts[k].TFinish? then (-1, d)
    else if ts[k].TBegin? then (k, d + 1)
    else if ts[k].TEnd? then
      if d - 1 < 0 then (k + 1, d - 1) else Scan(ts, k + 1, d - 1)
    else Scan(ts, k + 1, d)
  }

  function OffsetOf(ts: seq<Token>, r: (int, int)): (int, int)
    requires WfTokens(ts)
  {
    (if 0 <= r.0 <= |ts| then Off(ts, r.0) else -FDT_ERR_NOTFOUND, r.1)
  }

  /** A block: a stream that ends in FDT_END and nowhere else. */
  predicate Block(ts: seq<Token>) {
    WfTokens(ts) && |ts| > 0 && ts[|ts| - 1].TFinish?
  }

  lemma {:induction false} BlockScannable(ts: seq<Token>, k: nat)
    requires Block(ts) && k < |ts|
    ensures Scannable(Enc(ts), Off(ts, k))
    decreases |ts| - k
  {
    hide Enc, Off, NextTag, WfTokens;
    NextTagAt(ts, k);
    if !ts[k].TFinish? {
      OffMonotone(ts, k, k + 1);
      BlockScannable(ts, k + 1);
    }
  }

  /** fdt_next_node on the bytes is the token scan. */
  lemma {:induction false} NextNodeFromIsScan(ts: seq<Token>, k: nat, d: int)
    requires Block(ts) && k < |ts| && Scannable(Enc(ts), Off(ts, k))
    ensures NextNodeFrom(Enc(ts), Off(ts, k), d) == OffsetOf(ts, Scan(ts, k, d))
    decreases |ts| - k
  {
    hide Enc, Off, NextTag, WfTokens;
    NextTagAt(ts, k);
    if ts[k].TEnd? {
      if d - 1 >= 0 {
        NextNodeFromIsScan(ts, k + 1, d - 1);
      }
    } else if ts[k].TProp? || ts[k].TNop? {
      NextNodeFromIsScan(ts, k + 1, d);
    }
  }
}
