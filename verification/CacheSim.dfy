/**
 The set-associative cache simulator: one array of tag words, a valid and a dirty bit in each.
 What the words say is tied to the history of the cache.
 */
module CacheSim {
  import opened Common
  import Bits

  const VALID := 0x8000_0000_0000_0000
  const DIRTY := 0x4000_0000_0000_0000
  /** Line numbers: addresses shifted right by at least three. */
  const LINES := 0x2000_0000_0000_0000

  // ---- tag words ----

  /** `w & VALID` */
  predicate IsValid(w: u64) {
    w >= VALID
  }

  /** `w & ~VALID` */
  function ClearValid(w: u64): u64 {
    if IsValid(w) then w - VALID else w
  }

  /** `w & DIRTY` */
  predicate IsDirty(w: u64) {
    ClearValid(w) >= DIRTY
  }

  /** `w & ~DIRTY` */
  function ClearDirty(w: u64): u64 {
    if IsDirty(w) then w - DIRTY else w
  }

  /** `w | DIRTY` */
  function SetDirty(w: u64): u64 {
    if IsDirty(w) then w else w + DIRTY
  }

  /** `w & ~(VALID | DIRTY)` */
  function Line(w: u64): u64 {
    ClearDirty(ClearValid(w))
  }

  /** `line | VALID` */
  function TagOf(l: nat): u64
    requires l < LINES
  {
    l + VALID
  }

  lemma WordFacts(w: u64, l: u64)
    ensures l < LINES ==> IsValid(TagOf(l)) && !IsDirty(TagOf(l)) && Line(TagOf(l)) == l
    ensures l < LINES ==> (TagOf(l) == ClearDirty(w) <==> IsValid(w) && Line(w) == l)
    ensures IsValid(SetDirty(w)) == IsValid(w) && IsDirty(SetDirty(w)) && Line(SetDirty(w)) == Line(w)
    ensures IsValid(ClearDirty(w)) == IsValid(w) && !IsDirty(ClearDirty(w)) && Line(ClearDirty(w)) == Line(w)
    ensures !IsValid(ClearValid(w))
  {
  }

  // ---- the reference: what happened to a line ----

  datatype Event =
    | Use(line: nat, store: bool)
    | Evict(line: nat)
    | Clean(line: nat)
    | Inval(line: nat)

  /** Brought in and not evicted or invalidated since. */
  predicate Resident(history: seq<Event>, l: nat) {
    if history == [] then false
    else
      var e, past := history[|history| - 1], history[..|history| - 1];
      if e.line != l then Resident(past, l)
      else match e
           case Use(_, _) => true
           case Clean(_) => Resident(past, l)
           case _ => false
  }

  /** Stored to and not evicted, cleaned or invalidated since. */
  predicate Modified(history: seq<Event>, l: nat) {
    if history == [] then false
    else
      var e, past := history[|history| - 1], history[..|history| - 1];
      if e.line != l then Modified(past, l)
      else match e
           case Use(_, store) => store || Modified(past, l)
           case _ => false
  }

  lemma Then(history: seq<Event>, e: Event, l: nat)
    ensures Resident(history + [e], l) ==
            if e.line != l then Resident(history, l)
            else if e.Use? then true else if e.Clean? then Resident(history, l) else false
    ensures Modified(history + [e], l) ==
            if e.line != l then Modified(history, l)
            else if e.Use? then e.store || Modified(history, l) else false
  {
    var h := history + [e];
    assert h[|h| - 1] == e && h[..|h| - 1] == history;
  }

  /** What a cache asks of the level below. */
  datatype Request =
    | Read(addr: nat, len: nat) | Write(addr: nat, len: nat)
    | Flush(addr: nat, len: nat, clean: bool, inval: bool)

  // ---- sets and ways ----

  function Slot(ways: nat, idx: nat, way: nat): nat {
    idx * ways + way
  }

  lemma SlotBound(sets: nat, ways: nat, idx: nat, way: nat)
    requires idx < sets && way < ways
    ensures Slot(ways, idx, way) < sets * ways
  {
    assert (idx + 1) * ways <= sets * ways;
  }

  lemma SlotUnique(ways: nat, idx: nat, way: nat, idx2: nat, way2: nat)
    requires way < ways && way2 < ways && Slot(ways, idx, way) == Slot(ways, idx2, way2)
    ensures idx == idx2 && way == way2
  {
    if idx < idx2 {
      SlotBound(idx2, ways, idx, way);
    } else if idx2 < idx {
      SlotBound(idx, ways, idx2, way2);
    }
  }

  /** Every valid word names a line of its own set, at the way recorded for the line, dirty as recorded. */
  ghost predicate WordsOk(tags: seq<u64>, sets: nat, ways: nat, ways': map<nat, nat>, dirty: set<nat>) {
    |tags| == sets * ways &&
    forall idx, way | 0 <= idx < sets && 0 <= way < ways ::
      Slot(ways, idx, way) < |tags| &&
      var w := tags[Slot(ways, idx, way)];
      IsValid(w) ==>
        Line(w) in ways' && Line(w) % sets == idx && ways'[Line(w)] == way && (IsDirty(w) <==> Line(w) in dirty)
  }

  /** Every recorded line has its word. */
  ghost predicate LinesOk(tags: seq<u64>, sets: nat, ways: nat, ways': map<nat, nat>, dirty: set<nat>) {
    sets > 0 && |tags| == sets * ways && dirty <= ways'.Keys &&
    forall l | l in ways' ::
      ways'[l] < ways && Slot(ways, l % sets, ways'[l]) < |tags| && l < LINES &&
      var w := tags[Slot(ways, l % sets, ways'[l])];
      IsValid(w) && Line(w) == l
  }

  ghost predicate TagsOk(tags: seq<u64>, sets: nat, ways: nat, ways': map<nat, nat>, dirty: set<nat>) {
    WordsOk(tags, sets, ways, ways', dirty) && LinesOk(tags, sets, ways, ways', dirty)
  }

  /** The word at one slot. */
  lemma WordAt(tags: seq<u64>, sets: nat, ways: nat, ways': map<nat, nat>, dirty: set<nat>, idx: nat, way: nat)
    requires TagsOk(tags, sets, ways, ways', dirty) && idx < sets && way < ways
    ensures Slot(ways, idx, way) < |tags| == sets * ways
    ensures var w := tags[Slot(ways, idx, way)];
            IsValid(w) ==> Line(w) in ways' && Line(w) % sets == idx && ways'[Line(w)] == way &&
                           (IsDirty(w) <==> Line(w) in dirty) && Line(w) < LINES
  {
    hide Slot, IsValid, IsDirty, Line;
  }

  lemma LineAt(tags: seq<u64>, sets: nat, ways: nat, ways': map<nat, nat>, dirty: set<nat>, l: nat)
    requires TagsOk(tags, sets, ways, ways', dirty) && l in ways'
    ensures sets > 0 && l % sets < sets && ways'[l] < ways && Slot(ways, l % sets, ways'[l]) < |tags| && l < LINES
    ensures var w := tags[Slot(ways, l % sets, ways'[l])];
            IsValid(w) && Line(w) == l && (IsDirty(w) <==> l in dirty)
  {
    hide Slot, IsValid, IsDirty, Line;
  }

  /** A change of one word: the word of line `l` before, that of line `l'` after. */
  lemma OneWord(tags: seq<u64>, sets: nat, ways: nat, where: map<nat, nat>, dirty: set<nat>,
                idx: nat, way: nat, w: u64, where': map<nat, nat>, dirty': set<nat>)
    requires TagsOk(tags, sets, ways, where, dirty) && idx < sets && way < ways
    requires dirty' <= where'.Keys
    requires IsValid(w) ==>
               Line(w) < LINES && Line(w) % sets == idx && Line(w) in where' && where'[Line(w)] == way &&
               (IsDirty(w) <==> Line(w) in dirty')
    requires Slot(ways, idx, way) < |tags|
    requires var w0 := tags[Slot(ways, idx, way)];
             forall l :: !(IsValid(w0) && l == Line(w0)) && !(IsValid(w) && l == Line(w)) ==>
               (l in where' <==> l in where) && (l in where ==> where'[l] == where[l]) && (l in dirty' <==> l in dirty)
    requires var w0 := tags[Slot(ways, idx, way)];
             IsValid(w0) && !(IsValid(w) && Line(w) == Line(w0)) ==> Line(w0) !in where'
    requires var w0 := tags[Slot(ways, idx, way)];
             IsValid(w) && !(IsValid(w0) && Line(w) == Line(w0)) ==> Line(w) !in where
    ensures TagsOk(tags[Slot(ways, idx, way) := w], sets, ways, where', dirty')
  {
    hide Slot, IsValid, IsDirty, Line;
    var s := Slot(ways, idx, way);
    var tags' := tags[s := w];
    forall i, j | 0 <= i < sets && 0 <= j < ways
      ensures Slot(ways, i, j) < |tags'| &&
              var x := tags'[Slot(ways, i, j)];
              IsValid(x) ==>
                Line(x) in where' && Line(x) % sets == i && where'[Line(x)] == j &&
                (IsDirty(x) <==> Line(x) in dirty')
    {
      WordAt(tags, sets, ways, where, dirty, i, j);
      if Slot(ways, i, j) == s {
        SlotUnique(ways, i, j, idx, way);
      }
    }
    forall l | l in where'
      ensures where'[l] < ways && Slot(ways, l % sets, where'[l]) < |tags'| && l < LINES &&
              var x := tags'[Slot(ways, l % sets, where'[l])];
              IsValid(x) && Line(x) == l
    {
      if !(IsValid(w) && l == Line(w)) {
        LineAt(tags, sets, ways, where, dirty, l);
      }
    }
  }

  // ---- powers of two ----

  /** The loop of init: how far addresses are shifted. */
  method IndexShift(linesz: nat, ghost n: nat) returns (shift: nat)
    requires linesz == Bits.Pow2(n)
    ensures Bits.Pow2(shift) == linesz
  {
    shift := 0;
    var x := linesz;
    ghost var left := n;
    while x > 1
      invariant x == Bits.Pow2(left) && shift + left == n
    {
      shift := shift + 1;
      x := x / 2;
      left := left - 1;
    }
  }

  // ---- the cache ----

  /** The history of a cache, the way of every line it holds, and which of them are dirty. */
  datatype Past = Past(history: seq<Event>, where: map<nat, nat>, dirty: set<nat>)

  function SetOf(l: nat, sets: nat): (r: nat)
    requires sets > 0
    ensures r < sets
  {
    l % sets
  }

  /** The slot recorded for a line. */
  ghost function Place(where: map<nat, nat>, l: nat, sets: nat, ways: nat): nat
    requires sets > 0 && l in where
  {
    Slot(ways, SetOf(l, sets), where[l])
  }

  /** `line << idx_shift` */
  function LineAddr(l: nat, linesz: nat): nat {
    l * linesz
  }

  /** `x & ~(linesz - 1)` */
  function AlignDown(x: nat, linesz: nat): nat
    requires linesz > 0
  {
    x - x % linesz
  }

  ghost predicate Ok(tags: seq<u64>, sets: nat, ways: nat, linesz: nat, g: Past) {
    sets > 0 && TagsOk(tags, sets, ways, g.where, g.dirty) && Told(g.history, g.where, g.dirty) &&
    Addressed(g.where, linesz)
  }

  /** The tag words tell the history of every line. */
  lemma OkFacts(tags: seq<u64>, sets: nat, ways: nat, linesz: nat, g: Past, l: nat)
    requires Ok(tags, sets, ways, linesz, g)
    ensures sets > 0 && (l in g.where <==> Resident(g.history, l)) && (l in g.dirty <==> Modified(g.history, l))
    ensures g.dirty <= g.where.Keys
    ensures l in g.where ==>
              g.where[l] < ways && Place(g.where, l, sets, ways) < |tags| && LineAddr(l, linesz) < WORD &&
              var w := tags[Place(g.where, l, sets, ways)];
              IsValid(w) && Line(w) == l && (IsDirty(w) <==> l in g.dirty)
  {
    hide TagsOk, Told, Slot, IsValid, IsDirty, Line, Resident, Modified;
    ToldAt(g.history, g.where, g.dirty, l);
    DirtyAreLines(tags, sets, ways, g.where, g.dirty);
    if l in g.where {
      LineAt(tags, sets, ways, g.where, g.dirty, l);
    }
  }

  /** What every valid word says is what happened: it is in its own set, held once, and dirty when stored to since. */
  lemma TagsTellHistory(tags: seq<u64>, sets: nat, ways: nat, linesz: nat, g: Past, idx: nat, way: nat, way2: nat)
    requires Ok(tags, sets, ways, linesz, g) && idx < sets && way < ways && way2 < ways
    ensures Slot(ways, idx, way) < |tags| && Slot(ways, idx, way2) < |tags|
    ensures var w, w2 := tags[Slot(ways, idx, way)], tags[Slot(ways, idx, way2)];
            IsValid(w) ==>
              SetOf(Line(w), sets) == idx && Resident(g.history, Line(w)) &&
              (IsDirty(w) <==> Modified(g.history, Line(w))) &&
              (IsValid(w2) && Line(w2) == Line(w) ==> way2 == way)
  {
    hide TagsOk, Told, Slot, IsValid, IsDirty, Line, Resident, Modified;
    WordAt(tags, sets, ways, g.where, g.dirty, idx, way);
    WordAt(tags, sets, ways, g.where, g.dirty, idx, way2);
    ToldAt(g.history, g.where, g.dirty, Line(tags[Slot(ways, idx, way)]));
  }

  class CacheSim {
    const sets: nat
    const ways: nat
    const linesz: nat
    const idxShift: nat
    const tags: array<u64>
    const hasMissHandler: bool
    var readAccesses: nat
    var readMisses: nat
    var bytesRead: nat
    var writeAccesses: nat
    var writeMisses: nat
    var bytesWritten: nat
    var writebacks: nat
    /** What the level below was asked, oldest first. */
    var requests: seq<Request>
    ghost var past: Past

    ghost predicate Config() {
      sets > 0 && ways > 0 && linesz >= 8 && linesz == Bits.Pow2(idxShift)
    }

    /** The tags tell the history of every line, and write-backs never outnumber stores. */
    ghost predicate Valid()
      reads this, tags
    {
      Config() && Ok(tags[..], sets, ways, linesz, past) && writebacks + |past.dirty| <= writeAccesses
    }

    /** `addr >> idx_shift` */
    function LineOf(addr: u64): (l: u64)
      requires Config()
      ensures l < LINES
    {
      DivBound(addr, linesz);
      addr / Bits.Pow2(idxShift)
    }

    /** A fresh cache holds no line. */
    constructor (sets0: nat, ways0: nat, linesz0: nat, hasMissHandler0: bool, ghost m: nat, ghost n: nat)
      requires sets0 == Bits.Pow2(m) && ways0 > 0 && linesz0 == Bits.Pow2(n) && linesz0 >= 8
      ensures Valid() && past.history == [] && requests == [] && fresh(tags)
      ensures sets == sets0 && ways == ways0 && linesz == linesz0 && hasMissHandler == hasMissHandler0
    {
      sets, ways, linesz, hasMissHandler := sets0, ways0, linesz0, hasMissHandler0;
      var shift := IndexShift(linesz0, n);
      idxShift := shift;
      tags := new u64[sets0 * ways0](_ => 0);
      readAccesses, readMisses, bytesRead := 0, 0, 0;
      writeAccesses, writeMisses, bytesWritten := 0, 0, 0;
      writebacks, requests := 0, [];
      past := Past([], map[], {});
      new;
      EmptyOk(tags[..], sets, ways, linesz);
    }

    lemma ConfigFacts()
      requires Valid()
      ensures Config() && sets > 0 && ways > 0 && linesz >= 8 && Ok(tags[..], sets, ways, linesz, past)
      ensures writebacks + |past.dirty| <= writeAccesses && tags.Length == sets * ways
    {
      OkLength(tags[..], sets, ways, linesz, past);
      hide Ok;
    }

    lemma Positive()
      requires Config()
      ensures sets > 0 && ways > 0 && linesz >= 8
    {
    }

    lemma IsValidCache()
      requires Config() && Ok(tags[..], sets, ways, linesz, past) && writebacks + |past.dirty| <= writeAccesses
      ensures Valid()
    {
      hide Ok;
    }

    lemma LineFacts(addr: u64)
      requires Config()
      ensures LineAddr(LineOf(addr), linesz) == AlignDown(addr, linesz) <= addr < AlignDown(addr, linesz) + linesz
      ensures LineOf(addr) < LINES
    {
      DivMulLe(addr, linesz);
    }

    /** The loop of clean_invalidate stands at line `k`, before line `to`. */
    lemma CurLine(cur: nat, k: nat, to: nat)
      requires Config() && cur == LineAddr(k, linesz) && cur < LineAddr(to, linesz) < WORD
      ensures cur < WORD && LineOf(cur) == k
    {
      DivIs(cur, linesz, k, 0);
    }

    /** check_tag: the slot that holds the line of `addr`, if any does. */
    method CheckTag(addr: u64) returns (hit: bool, slot: nat)
      requires Config() && Ok(tags[..], sets, ways, linesz, past)
      ensures hit == (LineOf(addr) in past.where) == Resident(past.history, LineOf(addr))
      ensures hit ==> slot == Place(past.where, LineOf(addr), sets, ways) < tags.Length
    {
      hide *;
      OkLength(tags[..], sets, ways, linesz, past);
      var l := LineOf(addr);
      LineFacts(addr);
      var idx, tag := SetOf(l, sets), TagOf(l);
      OkFacts(tags[..], sets, ways, linesz, past, l);
      var i := 0;
      while i < ways
        invariant i <= ways
        invariant l in past.where ==> past.where[l] >= i
      {
        SlotBound(sets, ways, idx, i);
        slot := Slot(ways, idx, i);
        WordFacts(tags[slot], l);
        TagIsPlace(tags[..], sets, ways, linesz, past, l, i);
        if tag == ClearDirty(tags[slot]) {
          return true, slot;
        }
        i := i + 1;
      }
      return false, 0;
    }

    /** victimize: any way of the set is replaced; the old word is returned. */
    method Victimize(addr: u64, random: nat) returns (victim: u64, ghost out: seq<Event>)
      requires Config() && Ok(tags[..], sets, ways, linesz, past) && !Resident(past.history, LineOf(addr))
      modifies tags, this`past
      ensures Ok(tags[..], sets, ways, linesz, past) && LineOf(addr) in past.where
      ensures past.history == old(past.history) + out + [Use(LineOf(addr), false)]
      ensures Victim(old(past), out, SetOf(LineOf(addr), sets), sets, linesz, victim)
      ensures past.dirty == if out == [] then old(past.dirty) else old(past.dirty) - {out[0].line}
    {
      hide *;
      Positive();
      OkLength(tags[..], sets, ways, linesz, past);
      var l := LineOf(addr);
      LineFacts(addr);
      OkFacts(tags[..], sets, ways, linesz, past, l);
      var idx, way := SetOf(l, sets), random % ways;
      SlotBound(sets, ways, idx, way);
      ghost var t0 := tags[..];
      var slot := Slot(ways, idx, way);
      victim := tags[slot];
      tags[slot] := TagOf(l);
      assert tags[..] == t0[slot := TagOf(l)];
      VictimOk(past, t0, sets, ways, linesz, way, l);
      out := if IsValid(victim) then [Evict(Line(victim))] else [];
      RefilledIs(past, l, way, victim);
      past := Refilled(past, l, way, victim);
    }

    /** `|= DIRTY` on the word of a line held. */
    method MarkDirty(slot: nat, ghost l: nat)
      requires Config() && Ok(tags[..], sets, ways, linesz, past)
      requires l in past.where && slot == Place(past.where, l, sets, ways) < tags.Length
      modifies tags, this`past
      ensures Ok(tags[..], sets, ways, linesz, past)
      ensures past == Past(old(past.history) + [Use(l, true)], old(past.where), old(past.dirty) + {l})
    {
      hide *;
      ghost var t0 := tags[..];
      tags[slot] := SetDirty(tags[slot]);
      assert tags[..] == t0[slot := SetDirty(t0[slot])];
      DirtyOk(past, t0, sets, ways, linesz, l);
      past := Past(past.history + [Use(l, true)], past.where, past.dirty + {l});
    }

    /** The work of access on the tags of a line that is not held: the victim's word, and what was evicted. */
    method Miss(addr: u64, store: bool, random: nat) returns (victim: u64, ghost out: seq<Event>)
      requires Config() && Ok(tags[..], sets, ways, linesz, past) && !Resident(past.history, LineOf(addr))
      modifies tags, this`past, this`writebacks, this`requests
      ensures Ok(tags[..], sets, ways, linesz, past)
      ensures past.history == old(past.history) + out + [Use(LineOf(addr), false)] +
              (if store then [Use(LineOf(addr), true)] else [])
      ensures Replaced(old(past.history), out, SetOf(LineOf(addr), sets), sets, linesz)
      ensures writebacks == old(writebacks) + (if WrittenBack(old(past.history), out) then 1 else 0)
      ensures requests == old(requests) + if hasMissHandler then Asked(old(past.history), out, addr, linesz) else []
      ensures writebacks + |past.dirty| <= old(writebacks) + |old(past.dirty)| + if store then 1 else 0
    {
      hide *;
      Positive();
      ghost var g0, l := past, LineOf(addr);
      victim, out := Victimize(addr, random);
      VictimFacts(g0, out, SetOf(l, sets), sets, linesz, victim, old(tags[..]), ways);
      AskedIs(requests, addr, linesz, g0.history, out);
      ghost var g1 := past;
      if IsValid(victim) && IsDirty(victim) {
        var dirtyAddr := LineAddr(Line(victim), linesz);
        if hasMissHandler {
          requests := requests + [Write(dirtyAddr, linesz)];
        }
        writebacks := writebacks + 1;
      }
      if hasMissHandler {
        requests := requests + [Read(AlignDown(addr, linesz), linesz)];
      }
      if store {
        var found, slot := CheckTag(addr);
        MarkDirty(slot, l);
      }
      NothingMore(g1.history);
    }

    /**
     access: a hit only marks the line dirty when it stores; a miss replaces a word of the line's
     set, writes the victim back at its own address if it was dirty, and reads the line.
     */
    method Access(addr: u64, bytes: nat, store: bool, random: nat) returns (ghost out: seq<Event>)
      requires Valid()
      modifies this`readAccesses, this`writeAccesses, this`readMisses, this`writeMisses, this`bytesRead,
               this`bytesWritten,
        this`writebacks, this`requests, this`past, tags
      ensures Valid()
      ensures readAccesses == old(readAccesses) + (if store then 0 else 1)
      ensures writeAccesses == old(writeAccesses) + if store then 1 else 0
      ensures bytesRead == old(bytesRead) + (if store then 0 else bytes)
      ensures bytesWritten == old(bytesWritten) + if store then bytes else 0
      ensures old(Resident(past.history, LineOf(addr))) ==>
                past.history == old(past.history) + [Use(LineOf(addr), store)] && requests == old(requests) &&
                writebacks == old(writebacks) && readMisses == old(readMisses) && writeMisses == old(writeMisses)
      ensures !old(Resident(past.history, LineOf(addr))) ==>
                past.history == old(past.history) + out + [Use(LineOf(addr), false)] +
                  (if store then [Use(LineOf(addr), true)] else []) &&
                Replaced(old(past.history), out, SetOf(LineOf(addr), sets), sets, linesz) &&
                writebacks == old(writebacks) + (if WrittenBack(old(past.history), out) then 1 else 0) &&
                requests == old(requests) + (if hasMissHandler then Asked(old(past.history), out, addr, linesz)
                  else []) &&
                readMisses == old(readMisses) + (if store then 0 else 1) &&
                writeMisses == old(writeMisses) + if store then 1 else 0
    {
      hide *;
      ConfigFacts();
      out := [];
      if store {
        writeAccesses := writeAccesses + 1;
        bytesWritten := bytesWritten + bytes;
      } else {
        readAccesses := readAccesses + 1;
        bytesRead := bytesRead + bytes;
      }
      var hit, hitWay := CheckTag(addr);
      if hit {
        if store {
          MarkDirty(hitWay, LineOf(addr));
        } else {
          UseOk(past, tags[..], sets, ways, linesz, LineOf(addr));
          past := past.(history := past.history + [Use(LineOf(addr), false)]);
        }
        IsValidCache();
        return;
      }
      if store {
        writeMisses := writeMisses + 1;
      } else {
        readMisses := readMisses + 1;
      }
      var victim;
      victim, out := Miss(addr, store, random);
      IsValidCache();
    }

    /** clean_invalidate: every line of the range that is held, in order. */
    method CleanInvalidate(addr: u64, bytes: nat, clean: bool, inval: bool)
      requires Valid()
      modifies this`writebacks, this`requests, this`past, tags
      ensures Valid()
      ensures past.history == Flushed(old(past.history), LineOf(addr), FlushEnd(addr, bytes, linesz), clean, inval)
      ensures requests == old(requests) + if hasMissHandler then [Flush(addr, bytes, clean, inval)] else []
      ensures Cleaned(old(writebacks), |old(past.dirty)|, writebacks, |past.dirty|, clean)
    {
      hide *;
      ConfigFacts();
      LineFacts(addr);
      FlushEndFacts(addr, bytes, linesz);
      ghost var h0, w0, d0, r0 := past.history, writebacks, |past.dirty|, requests;
      Uncleaned(w0, d0, clean);
      var endAddr := AlignDown(Wrap64(addr + bytes + linesz - 1), linesz);
      var curAddr := AlignDown(addr, linesz);
      ghost var k: nat, to := LineOf(addr), FlushEnd(addr, bytes, linesz);
      LineOrder(k, to, linesz);
      while curAddr < endAddr
        invariant Config() && Ok(tags[..], sets, ways, linesz, past) && curAddr == LineAddr(k, linesz)
        invariant k < to <==> curAddr < endAddr
        invariant Flushed(h0, LineOf(addr), to, clean, inval) == Flushed(past.history, k, to, clean, inval)
        invariant Cleaned(w0, d0, writebacks, |past.dirty|, clean)
        invariant requests == r0
        decreases endAddr - curAddr
      {
        CurLine(curAddr, k, to);
        FlushedStep(past.history, k, to, clean, inval);
        ghost var w1, d1 := writebacks, |past.dirty|;
        FlushLine(curAddr, clean, inval);
        CleanedMore(w0, d0, w1, d1, writebacks, |past.dirty|, clean);
        LineOrder(k + 1, to, linesz);
        curAddr := curAddr + linesz;
        k := k + 1;
      }
      FlushedStep(past.history, k, to, clean, inval);
      if hasMissHandler {
        requests := requests + [Flush(addr, bytes, clean, inval)];
      } else {
        NothingMore(requests);
      }
      CleanedSum(w0, d0, writebacks, |past.dirty|, clean);
      IsValidCache();
    }

    /** The loop body of clean_invalidate. */
    method FlushLine(curAddr: u64, clean: bool, inval: bool)
      requires Config() && Ok(tags[..], sets, ways, linesz, past)
      modifies this`writebacks, this`past, tags
      ensures Ok(tags[..], sets, ways, linesz, past)
      ensures past.history == FlushOne(old(past.history), LineOf(curAddr), clean, inval)
      ensures Cleaned(old(writebacks), |old(past.dirty)|, writebacks, |past.dirty|, clean)
    {
      hide *;
      ghost var k, w0, dirty0 := LineOf(curAddr), writebacks, past.dirty;
      FlushOneIs(past.history, k, clean, inval);
      Uncleaned(w0, |dirty0|, clean);
      var hit, hitWay := CheckTag(curAddr);
      if hit {
        OkFacts(tags[..], sets, ways, linesz, past, k);
        if clean {
          ghost var t0 := tags[..];
          CleanOk(past, t0, sets, ways, linesz, k);
          if IsDirty(tags[hitWay]) {
            writebacks := writebacks + 1;
            tags[hitWay] := ClearDirty(tags[hitWay]);
          }
          assert tags[..] == t0[hitWay := ClearDirty(t0[hitWay])];
          past := Past(past.history + [Clean(k)], past.where, past.dirty - {k});
          OneCleaned(w0, dirty0, k);
        }
        if inval {
          ghost var t1 := tags[..];
          InvalOk(past, t1, sets, ways, linesz, k);
          tags[hitWay] := ClearValid(tags[hitWay]);
          assert tags[..] == t1[hitWay := ClearValid(t1[hitWay])];
          past := Past(past.history + [Inval(k)], past.where - {k}, past.dirty - {k});
          OneInvalidated(w0, dirty0, k, clean);
        }
      }
    }
  }

  lemma OneCleaned(w0: nat, dirty: set<nat>, k: nat)
    ensures Cleaned(w0, |dirty|, if k in dirty then w0 + 1 else w0, |dirty - {k}|, true)
  {
    if k !in dirty {
      assert dirty - {k} == dirty;
    }
  }

  lemma OneInvalidated(w0: nat, dirty: set<nat>, k: nat, clean: bool)
    ensures dirty - {k} - {k} == dirty - {k}
    ensures !clean ==> Cleaned(w0, |dirty|, w0, |dirty - {k}|, false)
  {
  }

  lemma OkLength(tags: seq<u64>, sets: nat, ways: nat, linesz: nat, g: Past)
    requires Ok(tags, sets, ways, linesz, g)
    ensures sets > 0 && |tags| == sets * ways && g.dirty <= g.where.Keys
  {
  }

  /** The word that matches the tag of a line is the one recorded for it. */
  lemma TagIsPlace(tags: seq<u64>, sets: nat, ways: nat, linesz: nat, g: Past, l: nat, i: nat)
    requires Ok(tags, sets, ways, linesz, g) && i < ways && l < LINES
    ensures Slot(ways, SetOf(l, sets), i) < |tags|
    ensures TagOf(l) == ClearDirty(tags[Slot(ways, SetOf(l, sets), i)]) <==> l in g.where && g.where[l] == i
    ensures l in g.where && g.where[l] == i ==> Place(g.where, l, sets, ways) == Slot(ways, SetOf(l, sets), i)
  {
    hide TagsOk, Slot, IsValid, IsDirty, Line, TagOf, ClearDirty;
    WordAt(tags, sets, ways, g.where, g.dirty, SetOf(l, sets), i);
    WordFacts(tags[Slot(ways, SetOf(l, sets), i)], l);
    if l in g.where {
      LineAt(tags, sets, ways, g.where, g.dirty, l);
    }
  }

  /** Cleaning turns dirty lines into write-backs one for one; without it dirty lines can only be lost. */
  ghost predicate Cleaned(w0: nat, d0: nat, w: nat, d: nat, clean: bool) {
    if clean then w + d == w0 + d0 && w >= w0 else w == w0 && d <= d0
  }

  lemma Uncleaned(w0: nat, d0: nat, clean: bool)
    ensures Cleaned(w0, d0, w0, d0, clean)
  {
  }

  lemma CleanedMore(w0: nat, d0: nat, w1: nat, d1: nat, w2: nat, d2: nat, clean: bool)
    requires Cleaned(w0, d0, w1, d1, clean) && Cleaned(w1, d1, w2, d2, clean)
    ensures Cleaned(w0, d0, w2, d2, clean)
  {
  }

  lemma CleanedSum(w0: nat, d0: nat, w: nat, d: nat, clean: bool)
    requires Cleaned(w0, d0, w, d, clean)
    ensures w + d <= w0 + d0
  {
  }

  ghost function Refilled(g: Past, l: nat, way: nat, w: u64): Past {
    if IsValid(w)
    then Past(g.history + [Evict(Line(w))] + [Use(l, false)], (g.where - {Line(w)})[l := way], g.dirty - {Line(w)})
    else Past(g.history + [] + [Use(l, false)], g.where[l := way], g.dirty)
  }

  lemma RefilledIs(g: Past, l: nat, way: nat, w: u64)
    ensures var g', out := Refilled(g, l, way, w), if IsValid(w) then [Evict(Line(w))] else [];
            l in g'.where && g'.history == g.history + out + [Use(l, false)] &&
            g'.dirty == if out == [] then g.dirty else g.dirty - {out[0].line}
  {
    hide IsValid, Line;
  }

  lemma NothingMore<T>(s: seq<T>)
    ensures s + [] == s
  {
  }

  lemma DivMulLe(x: nat, d: nat)
    requires d > 0
    ensures 0 <= x / d * d <= x < x / d * d + d
  {
  }

  lemma MulLe(q: int, a: nat, b: nat)
    requires a <= b
    ensures q >= 0 ==> q * a <= q * b
  {
    if q >= 0 {
      assert q * b == q * a + q * (b - a);
    }
  }

  lemma DivBound(addr: u64, linesz: nat)
    requires linesz >= 8
    ensures 0 <= addr / linesz < LINES
  {
    var q := addr / linesz;
    DivMulLe(addr, linesz);
    MulLe(q, 8, linesz);
  }

  /** What the ghost state says about every line is what its history says. */
  ghost predicate Told(history: seq<Event>, where: map<nat, nat>, dirty: set<nat>) {
    forall l :: (l in where <==> Resident(history, l)) && (l in dirty <==> Modified(history, l))
  }

  lemma ToldAt(history: seq<Event>, where: map<nat, nat>, dirty: set<nat>, l: nat)
    requires Told(history, where, dirty)
    ensures (l in where <==> Resident(history, l)) && (l in dirty <==> Modified(history, l))
  {
    hide Resident, Modified;
  }

  lemma EmptyOk(tags: seq<u64>, sets: nat, ways: nat, linesz: nat)
    requires sets > 0 && |tags| == sets * ways && forall i :: 0 <= i < |tags| ==> tags[i] == 0
    ensures Ok(tags, sets, ways, linesz, Past([], map[], {}))
  {
    hide Slot;
    forall idx, way | 0 <= idx < sets && 0 <= way < ways
      ensures Slot(ways, idx, way) < |tags| && !IsValid(tags[Slot(ways, idx, way)])
    {
      SlotBound(sets, ways, idx, way);
    }
  }

  /** Every line held is the line of some address. */
  ghost predicate Addressed(where: map<nat, nat>, linesz: nat) {
    forall l :: l in where ==> LineAddr(l, linesz) < WORD
  }

  lemma AddressedLess(where: map<nat, nat>, linesz: nat, l: nat)
    requires Addressed(where, linesz)
    ensures Addressed(where - {l}, linesz)
  {
  }

  lemma UseOk(g: Past, tags: seq<u64>, sets: nat, ways: nat, linesz: nat, l: nat)
    requires Ok(tags, sets, ways, linesz, g) && l in g.where
    ensures Ok(tags, sets, ways, linesz, g.(history := g.history + [Use(l, false)]))
  {
    hide TagsOk, Told, Addressed;
    ToldUse(g.history, g.where, g.dirty, l, false);
  }

  lemma DirtyOk(g: Past, tags: seq<u64>, sets: nat, ways: nat, linesz: nat, l: nat)
    requires Ok(tags, sets, ways, linesz, g) && l in g.where
    ensures Place(g.where, l, sets, ways) < |tags|
    ensures var s := Place(g.where, l, sets, ways);
            Ok(tags[s := SetDirty(tags[s])], sets, ways, linesz,
              Past(g.history + [Use(l, true)], g.where, g.dirty + {l}))
  {
    hide TagsOk, Told, Addressed, Slot, IsValid, IsDirty, Line, SetDirty;
    LineAt(tags, sets, ways, g.where, g.dirty, l);
    var s := Place(g.where, l, sets, ways);
    WordFacts(tags[s], l);
    DirtyAreLines(tags, sets, ways, g.where, g.dirty);
    OneWord(tags, sets, ways, g.where, g.dirty, SetOf(l, sets), g.where[l], SetDirty(tags[s]), g.where, g.dirty + {l});
    ToldUse(g.history, g.where, g.dirty, l, true);
  }

  lemma CleanOk(g: Past, tags: seq<u64>, sets: nat, ways: nat, linesz: nat, l: nat)
    requires Ok(tags, sets, ways, linesz, g) && l in g.where
    ensures Place(g.where, l, sets, ways) < |tags|
    ensures var s := Place(g.where, l, sets, ways);
            Ok(tags[s := ClearDirty(tags[s])], sets, ways, linesz,
              Past(g.history + [Clean(l)], g.where, g.dirty - {l})) &&
            (!IsDirty(tags[s]) ==> ClearDirty(tags[s]) == tags[s])
  {
    NotDirtyStays(tags, if l in g.where then Place(g.where, l, sets, ways) else 0);
    hide TagsOk, Told, Addressed, Slot, IsValid, IsDirty, Line, ClearDirty;
    LineAt(tags, sets, ways, g.where, g.dirty, l);
    var s := Place(g.where, l, sets, ways);
    WordFacts(tags[s], l);
    DirtyAreLines(tags, sets, ways, g.where, g.dirty);
    OneWord(tags, sets, ways, g.where, g.dirty, SetOf(l, sets), g.where[l], ClearDirty(tags[s]), g.where,
      g.dirty - {l});
    ToldClean(g.history, g.where, g.dirty, l);
  }

  lemma NotDirtyStays(tags: seq<u64>, s: nat)
    ensures s < |tags| && !IsDirty(tags[s]) ==> ClearDirty(tags[s]) == tags[s]
  {
  }

  lemma InvalOk(g: Past, tags: seq<u64>, sets: nat, ways: nat, linesz: nat, l: nat)
    requires Ok(tags, sets, ways, linesz, g) && l in g.where
    ensures Place(g.where, l, sets, ways) < |tags|
    ensures var s := Place(g.where, l, sets, ways);
            Ok(tags[s := ClearValid(tags[s])], sets, ways, linesz,
              Past(g.history + [Inval(l)], g.where - {l}, g.dirty - {l}))
  {
    hide TagsOk, Told, Addressed, Slot, IsValid, IsDirty, Line, ClearValid;
    LineAt(tags, sets, ways, g.where, g.dirty, l);
    var s := Place(g.where, l, sets, ways);
    WordFacts(tags[s], l);
    DirtyAreLines(tags, sets, ways, g.where, g.dirty);
    OneWord(tags, sets, ways, g.where, g.dirty, SetOf(l, sets), g.where[l], ClearValid(tags[s]), g.where - {l},
      g.dirty - {l});
    ToldGone(g.history, g.where, g.dirty, Inval(l));
    AddressedLess(g.where, linesz, l);
  }

  lemma DirtyAreLines(tags: seq<u64>, sets: nat, ways: nat, where: map<nat, nat>, dirty: set<nat>)
    requires TagsOk(tags, sets, ways, where, dirty)
    ensures dirty <= where.Keys && sets > 0
  {
    hide Slot, IsValid, IsDirty, Line;
  }

  lemma ToldUse(history: seq<Event>, where: map<nat, nat>, dirty: set<nat>, l: nat, store: bool)
    requires Told(history, where, dirty) && l in where
    ensures Told(history + [Use(l, store)], where, if store then dirty + {l} else dirty)
  {
    hide Resident, Modified;
    forall k
      ensures (k in where <==> Resident(history + [Use(l, store)], k)) &&
              (k in (if store then dirty + {l} else dirty) <==> Modified(history + [Use(l, store)], k))
    {
      Then(history, Use(l, store), k);
    }
  }

  lemma ToldClean(history: seq<Event>, where: map<nat, nat>, dirty: set<nat>, l: nat)
    requires Told(history, where, dirty)
    ensures Told(history + [Clean(l)], where, dirty - {l})
  {
    hide Resident, Modified;
    forall k
      ensures (k in where <==> Resident(history + [Clean(l)], k)) &&
              (k in dirty - {l} <==> Modified(history + [Clean(l)], k))
    {
      Then(history, Clean(l), k);
    }
  }

  lemma ToldGone(history: seq<Event>, where: map<nat, nat>, dirty: set<nat>, e: Event)
    requires Told(history, where, dirty) && (e.Evict? || e.Inval?)
    ensures Told(history + [e], where - {e.line}, dirty - {e.line})
  {
    hide Resident, Modified;
    forall k
      ensures (k in where - {e.line} <==> Resident(history + [e], k)) &&
              (k in dirty - {e.line} <==> Modified(history + [e], k))
    {
      Then(history, e, k);
    }
  }

  lemma ToldNew(history: seq<Event>, where: map<nat, nat>, dirty: set<nat>, l: nat, way: nat)
    requires Told(history, where, dirty)
    ensures Told(history + [Use(l, false)], where[l := way], dirty)
  {
    hide Resident, Modified;
    forall k
      ensures (k in where[l := way] <==> Resident(history + [Use(l, false)], k)) &&
              (k in dirty <==> Modified(history + [Use(l, false)], k))
    {
      Then(history, Use(l, false), k);
    }
  }

  /** `out` says which line, if any, was replaced; it was in the same set. */
  ghost predicate Replaced(history: seq<Event>, out: seq<Event>, idx: nat, sets: nat, linesz: nat) {
    |out| <= 1 &&
    (out != [] ==>
       out[0].Evict? && Resident(history, out[0].line) && sets > 0 && SetOf(out[0].line, sets) == idx &&
       LineAddr(out[0].line, linesz) < WORD)
  }

  ghost predicate Victim(g: Past, out: seq<Event>, idx: nat, sets: nat, linesz: nat, victim: u64) {
    Replaced(g.history, out, idx, sets, linesz) && (IsValid(victim) <==> out != []) &&
    (out != [] ==> out[0].line == Line(victim) && (IsDirty(victim) <==> Line(victim) in g.dirty))
  }

  lemma VictimFacts(g: Past, out: seq<Event>, idx: nat, sets: nat, linesz: nat, victim: u64, tags: seq<u64>, ways: nat)
    requires Victim(g, out, idx, sets, linesz, victim) && Ok(tags, sets, ways, linesz, g)
    ensures Replaced(g.history, out, idx, sets, linesz) && |out| <= 1 && (IsValid(victim) <==> out != [])
    ensures out != [] ==> out[0].line == Line(victim) && LineAddr(Line(victim), linesz) < WORD
    ensures IsValid(victim) && IsDirty(victim) <==> WrittenBack(g.history, out)
    ensures WrittenBack(g.history, out) ==> out[0].line in g.dirty
  {
    hide Resident, Modified, IsValid, Line, IsDirty, Ok, LineAddr;
    if out != [] {
      OkFacts(tags, sets, ways, linesz, g, out[0].line);
    }
  }

  /** Replacing a word by that of a line not held. */
  lemma VictimOk(g: Past, tags: seq<u64>, sets: nat, ways: nat, linesz: nat, way: nat, l: nat)
    requires Ok(tags, sets, ways, linesz, g) && way < ways && l !in g.where && l < LINES && LineAddr(l, linesz) < WORD
    requires Slot(ways, SetOf(l, sets), way) < |tags|
    ensures var s := Slot(ways, SetOf(l, sets), way);
            var w := tags[s];
            Ok(tags[s := TagOf(l)], sets, ways, linesz, Refilled(g, l, way, w)) &&
            Victim(g, if IsValid(w) then [Evict(Line(w))] else [], SetOf(l, sets), sets, linesz, w)
  {
    hide TagsOk, Slot, IsValid, IsDirty, Line, Told, Resident, TagOf;
    var idx := SetOf(l, sets);
    var s := Slot(ways, idx, way);
    var w := tags[s];
    WordAt(tags, sets, ways, g.where, g.dirty, idx, way);
    WordFacts(w, l);
    DirtyAreLines(tags, sets, ways, g.where, g.dirty);
    ToldAt(g.history, g.where, g.dirty, l);
    if IsValid(w) {
      var v := Line(w);
      ToldAt(g.history, g.where, g.dirty, v);
      ToldGone(g.history, g.where, g.dirty, Evict(v));
      ToldNew(g.history + [Evict(v)], g.where - {v}, g.dirty - {v}, l, way);
      OneWord(tags, sets, ways, g.where, g.dirty, idx, way, TagOf(l), (g.where - {v})[l := way], g.dirty - {v});
    } else {
      assert g.history + [] == g.history;
      ToldNew(g.history, g.where, g.dirty, l, way);
      OneWord(tags, sets, ways, g.where, g.dirty, idx, way, TagOf(l), g.where[l := way], g.dirty);
    }
  }

  ghost predicate WrittenBack(history: seq<Event>, out: seq<Event>) {
    out != [] && Modified(history, out[0].line)
  }

  /** The requests of a miss: the victim written back whole at its own address if dirty, then the line read. */
  ghost function Asked(history: seq<Event>, out: seq<Event>, addr: u64, linesz: nat): seq<Request>
    requires linesz > 0
  {
    (if WrittenBack(history, out) then [Write(LineAddr(out[0].line, linesz), linesz)] else []) +
    [Read(AlignDown(addr, linesz), linesz)]
  }

  lemma AskedIs(requests: seq<Request>, addr: u64, linesz: nat, history: seq<Event>, out: seq<Event>)
    requires linesz > 0
    ensures requests + [] == requests && (WrittenBack(history, out) ==> out != [])
    ensures requests + Asked(history, out, addr, linesz) ==
            (if WrittenBack(history, out) then requests + [Write(LineAddr(out[0].line, linesz), linesz)]
              else requests) +
            [Read(AlignDown(addr, linesz), linesz)]
  {
    hide LineAddr, AlignDown, Modified;
  }

  // ---- ranges ----

  /** The line after the last one of a flushed range; the sum wraps. */
  function FlushEnd(addr: u64, bytes: nat, linesz: nat): nat
    requires linesz > 0
  {
    Wrap64(addr + bytes + linesz - 1) / linesz
  }

  ghost function FlushOne(history: seq<Event>, l: nat, clean: bool, inval: bool): seq<Event> {
    if !Resident(history, l) then history
    else history + (if clean then [Clean(l)] else []) + (if inval then [Inval(l)] else [])
  }

  ghost function Flushed(history: seq<Event>, from: nat, to: nat, clean: bool, inval: bool): seq<Event>
    decreases if from < to then to - from else 0
  {
    if from >= to then history else Flushed(FlushOne(history, from, clean, inval), from + 1, to, clean, inval)
  }

  lemma FlushedStep(history: seq<Event>, from: nat, to: nat, clean: bool, inval: bool)
    ensures Flushed(history, from, to, clean, inval) ==
            if from >= to then history else Flushed(FlushOne(history, from, clean, inval), from + 1, to, clean, inval)
  {
    hide FlushOne;
  }

  lemma FlushOneIs(history: seq<Event>, l: nat, clean: bool, inval: bool)
    ensures FlushOne(history, l, clean, inval) ==
            if !Resident(history, l) then history
            else if clean && inval then history + [Clean(l)] + [Inval(l)]
            else if clean then history + [Clean(l)]
            else if inval then history + [Inval(l)] else history
  {
    hide Resident;
  }

  /** A flushed range: invalidated lines are gone, cleaned or invalidated ones are not dirty, the rest is as before. */
  lemma {:induction false} FlushedMeans(history: seq<Event>, from: nat, to: nat, clean: bool, inval: bool, l: nat)
    ensures Resident(Flushed(history, from, to, clean, inval), l) ==
            (Resident(history, l) && !(inval && from <= l < to))
    ensures Modified(Flushed(history, from, to, clean, inval), l) ==
            (Modified(history, l) && !((clean || inval) && from <= l < to))
    decreases if from < to then to - from else 0
  {
    hide Resident, Modified, FlushOne;
    FlushedStep(history, from, to, clean, inval);
    if from < to {
      FlushOneIs(history, from, clean, inval);
      Then(history, Clean(from), l);
      Then(history, Inval(from), l);
      Then(history + [Clean(from)], Inval(from), l);
      ModifiedIsResident(history, l);
      FlushedMeans(FlushOne(history, from, clean, inval), from + 1, to, clean, inval, l);
    }
  }

  lemma {:induction false} ModifiedIsResident(history: seq<Event>, l: nat)
    ensures Modified(history, l) ==> Resident(history, l)
  {
    if history != [] {
      ModifiedIsResident(history[..|history| - 1], l);
    }
  }

  /** A flush of the bytes visits line `l`. */
  predicate Visited(addr: u64, bytes: nat, linesz: nat, l: nat)
    requires linesz > 0
  {
    addr / linesz <= l < FlushEnd(addr, bytes, linesz)
  }

  /** Line `l` holds one of the bytes. */
  predicate Overlaps(addr: u64, bytes: nat, linesz: nat, l: nat) {
    l * linesz < addr + bytes && addr < l * linesz + linesz
  }

  /** A flush visits exactly the lines that hold one of the bytes. */
  ghost predicate Exact(addr: u64, bytes: nat, linesz: nat)
    requires linesz > 0
  {
    forall l: nat :: Visited(addr, bytes, linesz, l) <==> Overlaps(addr, bytes, linesz, l)
  }

  lemma LineVisited(addr: u64, bytes: nat, linesz: nat, l: nat)
    requires linesz > 0 && bytes > 0 && addr + bytes + linesz - 1 < WORD
    ensures Visited(addr, bytes, linesz, l) <==> Overlaps(addr, bytes, linesz, l)
  {
    var from, to, e := addr / linesz, FlushEnd(addr, bytes, linesz), addr + bytes + linesz - 1;
    DivMulLe(addr, linesz);
    DivMulLe(e, linesz);
    MulGap(linesz, l, from);
    MulGap(linesz, from, l);
    MulGap(linesz, l, to);
    MulGap(linesz, to, l);
  }

  /** When the rounded-up end wraps it is zero, and no line is visited. */
  lemma EndWraps(addr: u64, bytes: nat, linesz: nat)
    requires 0 < linesz < WORD && addr + bytes <= WORD <= addr + bytes + linesz - 1
    ensures FlushEnd(addr, bytes, linesz) == 0
  {
    var e := addr + bytes + linesz - 1 - WORD;
    assert Wrap64(addr + bytes + linesz - 1) == e;
    DivIs(e, linesz, 0, e);
  }

  /**
   A flush visits exactly the lines that hold one of the bytes if and only if their end, rounded up to a line,
   does not wrap around.
   */
  lemma FlushRange(addr: u64, bytes: nat, linesz: nat)
    requires 0 < linesz < WORD && bytes > 0 && addr + bytes <= WORD
    ensures Exact(addr, bytes, linesz) <==> addr + bytes + linesz - 1 < WORD
  {
    hide *;
    if addr + bytes + linesz - 1 < WORD {
      forall l: nat
        ensures Visited(addr, bytes, linesz, l) <==> Overlaps(addr, bytes, linesz, l)
      {
        LineVisited(addr, bytes, linesz, l);
      }
      ExactIs(addr, bytes, linesz);
    } else {
      EndWraps(addr, bytes, linesz);
      FirstLine(addr, bytes, linesz);
    }
  }

  lemma ExactIs(addr: u64, bytes: nat, linesz: nat)
    requires linesz > 0
    requires forall l: nat :: Visited(addr, bytes, linesz, l) <==> Overlaps(addr, bytes, linesz, l)
    ensures Exact(addr, bytes, linesz)
  {
    hide Visited, Overlaps;
  }

  lemma FirstLine(addr: u64, bytes: nat, linesz: nat)
    requires linesz > 0 && bytes > 0
    ensures FlushEnd(addr, bytes, linesz) == 0 ==> !Exact(addr, bytes, linesz)
  {
    DivMulLe(addr, linesz);
    var l := addr / linesz;
    hide FlushEnd;
    assert Overlaps(addr, bytes, linesz, l) &&
           (FlushEnd(addr, bytes, linesz) == 0 ==> !Visited(addr, bytes, linesz, l));
  }

  /** A line at the top of the address space that no flush of its bytes reaches. */
  lemma LastLineMissed()
    ensures var addr, l := WORD - 64, WORD / 64 - 1;
            Overlaps(addr, 64, 64, l) && !Visited(addr, 64, 64, l) && FlushEnd(addr, 64, 64) == 0
  {
    EndWraps(WORD - 64, 64, 64);
  }

  /** A flush of no bytes visits a line if and only if it starts inside one that is not the last; it is that line. */
  lemma EmptyRange(addr: u64, linesz: nat, l: nat)
    requires 0 < linesz < WORD
    ensures Visited(addr, 0, linesz, l) <==> l == addr / linesz && addr % linesz != 0 && addr + linesz - 1 < WORD
  {
    var q, r := addr / linesz, addr % linesz;
    DivMulLe(addr, linesz);
    if addr + linesz - 1 >= WORD {
      EndWraps(addr, 0, linesz);
    } else if r == 0 {
      DivIs(addr + linesz - 1, linesz, q, linesz - 1);
    } else {
      assert addr + linesz - 1 == (q + 1) * linesz + (r - 1);
      DivIs(addr + linesz - 1, linesz, q + 1, r - 1);
    }
  }

  lemma MulGap(a: nat, x: int, y: int)
    requires a > 0
    ensures x < y ==> x * a + a <= y * a
  {
    if x < y {
      Bits.MulLe(x + 1, y, a);
    }
  }

  lemma DivIs(x: int, a: nat, q: int, r: nat)
    requires r < a && x == q * a + r
    ensures x / a == q && x % a == r
  {
    var q' := x / a;
    assert x == q' * a + x % a;
    MulGap(a, q, q');
    MulGap(a, q', q);
  }

  lemma FlushEndFacts(addr: u64, bytes: nat, linesz: nat)
    requires linesz > 0
    ensures AlignDown(Wrap64(addr + bytes + linesz - 1), linesz) ==
            LineAddr(FlushEnd(addr, bytes, linesz), linesz) < WORD
  {
    hide Wrap64;
    var e := Wrap64(addr + bytes + linesz - 1);
    DivMulLe(e, linesz);
  }

  lemma LineOrder(k: nat, to: nat, linesz: nat)
    requires linesz > 0
    ensures k < to <==> LineAddr(k, linesz) < LineAddr(to, linesz)
    ensures LineAddr(k + 1, linesz) == LineAddr(k, linesz) + linesz
    ensures k > 0 ==> LineAddr(k, linesz) == LineAddr(k - 1, linesz) + linesz
  {
    MulGap(linesz, k, to);
    MulGap(linesz, to, k);
  }
}
