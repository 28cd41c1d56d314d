/** The reserve map: what the sequential writer puts there is what is counted and read. */
module FdtRsv {
  import opened Common
  import opened FdtBytes
  import opened FdtSw
  import opened FdtPack

  /** A 64-bit number, most significant byte first. */
  function Number(s: Bytes, at: nat): u64
    requires at + 8 <= |s|
  {
    ReadWord(s, at) * 0x1_0000_0000 + ReadWord(s, at + 4)
  }

  /** Entry `i`: address and size. */
  function EntryOf(rsv: Bytes, i: nat): (u64, u64)
    requires 16 * i + 16 <= |rsv|
  {
    (Number(rsv, 16 * i), Number(rsv, 16 * i + 8))
  }

  /** What the writer has appended for these entries. */
  function Stored(entries: seq<(u64, u64)>): (b: Bytes)
    ensures |b| == 16 * |entries|
  {
    if entries == [] then []
    else
      var e := entries[|entries| - 1];
      Stored(entries[..|entries| - 1]) + (Word64(e.0) + Word64(e.1))
  }

  /** The first entry of size zero, or their number. */
  function FirstEmpty(entries: seq<(u64, u64)>, i: nat): (n: nat)
    requires i <= |entries|
    ensures i <= n <= |entries| && (n < |entries| ==> entries[n].1 == 0) && forall k :: i <= k < n ==> entries[k].1 != 0
    decreases |entries| - i
  {
    if i == |entries| || entries[i].1 == 0 then i else FirstEmpty(entries, i + 1)
  }

  lemma WordZero(s: Bytes, at: nat)
    requires at + 4 <= |s|
    ensures ReadWord(s, at) == 0 <==> forall k :: at <= k < at + 4 ==> s[k] == 0
  {
  }

  lemma LastIs(rsv: Bytes, i: nat)
    requires 16 * i + 16 <= |rsv|
    ensures IsLast(rsv, i) <==> EntryOf(rsv, i).1 == 0
  {
    hide ReadWord;
    WordZero(rsv, 16 * i + 8);
    WordZero(rsv, 16 * i + 12);
  }

  lemma NumberOf(a: Bytes, w: u64, z: Bytes)
    ensures Number(a + Word64(w) + z, |a|) == w
  {
    hide ReadWord, Word;
    var hi, lo := w / 0x1_0000_0000, w % 0x1_0000_0000;
    var s := a + Word64(w) + z;
    assert s[|a|..|a| + 4] == Word(hi);
    assert s[|a| + 4..|a| + 8] == Word(lo);
    WordRoundTrip(s, |a|, hi);
    WordRoundTrip(s, |a| + 4, lo);
  }

  /** Each of them is read back, whatever follows. */
  lemma {:induction false} StoredAt(entries: seq<(u64, u64)>, more: Bytes, k: nat)
    requires k < |entries|
    ensures |Stored(entries) + more| >= 16 * k + 16 && EntryOf(Stored(entries) + more, k) == entries[k]
    decreases |entries|
  {
    hide Number, Word64;
    var n := |entries| - 1;
    var past, e := entries[..n], entries[n];
    var b := Word64(e.0) + Word64(e.1);
    assert Stored(entries) + more == Stored(past) + (b + more);
    if k < n {
      StoredAt(past, b + more, k);
    } else {
      NumberOf(Stored(past), e.0, Word64(e.1) + more);
      NumberOf(Stored(past) + Word64(e.0), e.1, more);
      assert Stored(past) + (b + more) == Stored(past) + Word64(e.0) + (Word64(e.1) + more);
      assert Stored(past) + (b + more) == Stored(past) + Word64(e.0) + Word64(e.1) + more;
    }
  }

  lemma {:induction false} CountIs(entries: seq<(u64, u64)>, rsv: Bytes, i: nat)
    requires i <= |entries| && 16 * |entries| + 16 <= |rsv| && EntryOf(rsv, |entries|).1 == 0
    requires forall k :: 0 <= k < |entries| ==> EntryOf(rsv, k) == entries[k]
    ensures CountFrom(rsv, i) == FirstEmpty(entries, i)
    decreases |entries| - i
  {
    hide EntryOf, IsLast;
    LastIs(rsv, i);
    if i < |entries| && entries[i].1 != 0 {
      CountIs(entries, rsv, i + 1);
    }
  }

  /**
   The map written entry by entry and terminated has as many entries as come before the first of size zero, all of them
   if there is none, and they are read back as they were written.
   */
  lemma ReserveRoundTrip(entries: seq<(u64, u64)>, more: Bytes)
    ensures var rsv := Stored(entries) + (Word64(0) + Word64(0)) + more;
            CountFrom(rsv, 0) == FirstEmpty(entries, 0) &&
            forall k :: 0 <= k < |entries| ==> EntryOf(rsv, k) == entries[k]
  {
    hide EntryOf, Word64, CountFrom, FirstEmpty;
    var all := entries + [(0, 0)];
    var rsv := Stored(entries) + (Word64(0) + Word64(0)) + more;
    assert all[..|entries|] == entries;
    assert Stored(all) == Stored(entries) + (Word64(0) + Word64(0));
    forall k | 0 <= k < |all|
      ensures EntryOf(rsv, k) == all[k]
    {
      StoredAt(all, more, k);
    }
    assert all[|entries|] == (0, 0);
    CountIs(entries, rsv, 0);
  }
}
