/** The sequential-write blob and its operations, on a flat memory that blobs of any address share. */
module FdtSw {
  import opened Common
  import opened FdtBytes
  import opened FdtTokens
  import opened FdtScan
  import opened FdtProps
  import opened FdtEdit
  import opened FdtView
  import opened FdtDecode
  import opened FdtSplice
  import opened FdtBlob
  import opened FdtWriter

  const FDT_ERR_BADFLAGS := 18
  /** The header, rounded up to the alignment of reserve map entries. */
  const RESERVE_START := 48
  const NO_NAME_DEDUP := 1

  function Word64(w: u64): (b: Bytes)
    ensures |b| == 8
  {
    Word(w / 0x1_0000_0000) + Word(w % 0x1_0000_0000)
  }

  class SwBlob {
    const mem: array<byte>
    var base: nat
    var totalSize: nat
    var offStruct: nat
    var sizeStruct: nat
    var offStrings: nat
    var sizeStrings: nat
    var flags: nat
    var finished: bool
    ghost var toks: seq<Token>

    ghost predicate Layout()
      reads `base, `totalSize, `offStruct, `sizeStruct, `sizeStrings
    {
      base + totalSize <= mem.Length && RESERVE_START <= offStruct &&
      offStruct + sizeStruct + sizeStrings <= totalSize < FDT_MAX_SIZE
    }

    ghost function Struct(): (s: Bytes)
      requires Layout()
      reads `base, `totalSize, `offStruct, `sizeStruct, `sizeStrings, mem
      ensures |s| == sizeStruct
    {
      Part(mem[..], base + offStruct, sizeStruct)
    }

    /** The strings lie at the end of the buffer, before and after finishing. */
    ghost function Strings(): (s: Bytes)
      requires Layout()
      reads `base, `totalSize, `offStruct, `sizeStruct, `sizeStrings, mem
      ensures |s| == sizeStrings
    {
      Part(mem[..], base + totalSize - sizeStrings, sizeStrings)
    }

    ghost function Reserve(): Bytes
      requires Layout()
      reads `base, `totalSize, `offStruct, `sizeStruct, `sizeStrings, mem
    {
      Part(mem[..], base + RESERVE_START, offStruct - RESERVE_START)
    }

    ghost predicate Content()
      requires Layout()
      reads this, mem
    {
      Holds(toks, Strings(), Struct(), finished)
    }

    /** The states: reserve map, structure block, finished. */
    ghost predicate Valid()
      reads this, mem
      ensures Valid() ==> Layout()
    {
      Layout() && Content() &&
      if finished then offStrings == offStruct + sizeStruct && totalSize == offStrings + sizeStrings
      else offStrings == totalSize || (offStrings == 0 && sizeStruct == 0 && sizeStrings == 0 && toks == [])
    }

    /** The calls made so far. */
    ghost function Written(): seq<Call>
      requires Layout()
      reads this, mem
    {
      Calls(toks, Strings())
    }

    /** In the state that accepts nodes and properties. */
    predicate Open()
      reads `finished, `offStrings, `totalSize
    {
      !finished && offStrings == totalSize
    }

    constructor (m: array<byte>)
      ensures mem == m && !finished
    {
      mem := m;
      base, totalSize, offStruct, sizeStruct, offStrings, sizeStrings, flags := 0, 0, 0, 0, 0, 0, 0;
      finished := false;
      toks := [];
    }

    method Store(at: nat, data: Bytes)
      requires at + |data| <= mem.Length
      modifies mem
      ensures mem[..] == Splice(old(mem[..]), at, |data|, data)
    {
      forall i | 0 <= i < |data| {
        mem[at + i] := data[i];
      }
    }

    method Move(dst: nat, src: nat, n: nat)
      requires dst + n <= mem.Length && src + n <= mem.Length
      modifies mem
      ensures mem[..] == Splice(old(mem[..]), dst, n, old(mem[src..src + n]))
    {
      forall i | 0 <= i < n {
        mem[dst + i] := mem[src + i];
      }
    }

    lemma ValidFacts()
      requires Valid()
      ensures Holds(toks, Strings(), Struct(), finished) && Open() == (!finished && offStrings == totalSize)
      ensures base + totalSize <= mem.Length && RESERVE_START <= offStruct
      ensures offStruct + sizeStruct + sizeStrings <= totalSize < FDT_MAX_SIZE
    {
      hide Holds;
    }

    lemma WrittenIs()
      requires Layout()
      ensures Written() == Calls(toks, Strings())
    {
      hide Calls;
    }

    /** What makes a blob valid while it is open. */
    lemma OpenValid()
      requires Layout() && !finished && offStrings == totalSize && Holds(toks, Strings(), Struct(), false)
      ensures Valid() && Open()
    {
      hide Holds;
    }

    lemma BlocksAre()
      requires Layout()
      ensures base + offStruct + sizeStruct <= mem.Length && base + totalSize <= mem.Length && sizeStrings <= totalSize
      ensures base + RESERVE_START <= base + offStruct <= mem.Length
      ensures Struct() == Part(mem[..], base + offStruct, sizeStruct)
      ensures Strings() == Part(mem[..], base + totalSize - sizeStrings, sizeStrings)
      ensures Reserve() == Part(mem[..], base + RESERVE_START, offStruct - RESERVE_START)
    {
      hide Part;
    }

    /** fdt_create_with_flags */
    method Create(at: nat, bufsize: nat, createFlags: nat) returns (err: int)
      requires at + bufsize <= mem.Length && bufsize < FDT_MAX_SIZE
      modifies this, mem
      ensures err == if bufsize < RESERVE_START then -FDT_ERR_NOSPACE
                     else if createFlags > NO_NAME_DEDUP then -FDT_ERR_BADFLAGS
                     else 0
      ensures err == 0 ==> Valid() && !finished && offStrings == 0 && Reserve() == [] && Written() == []
      ensures err == 0 ==> base == at && totalSize == bufsize && flags == createFlags
      ensures err == 0 ==> offStruct == RESERVE_START && sizeStruct == 0 && Strings() == []
      ensures err != 0 ==> mem[..] == old(mem[..]) && toks == old(toks) && finished == old(finished)
    {
      hide *;
      SwCodes();
      if bufsize < RESERVE_START {
        return -FDT_ERR_NOSPACE;
      }
      if createFlags > NO_NAME_DEDUP {
        return -FDT_ERR_BADFLAGS;
      }
      forall i | at <= i < at + bufsize {
        mem[i] := 0;
      }
      base, totalSize, flags := at, bufsize, createFlags;
      offStruct, sizeStruct, offStrings, sizeStrings := RESERVE_START, 0, 0, 0;
      finished, toks := false, [];
      LayoutShrunk();
      BlocksAre();
      CreatedValid();
      WrittenIs();
      return 0;
    }

    lemma CreatedValid()
      requires Layout() && !finished && offStrings == 0 && offStruct == RESERVE_START
      requires sizeStruct == 0 && sizeStrings == 0 && toks == []
      ensures Valid() && Reserve() == [] && Strings() == [] && Calls(toks, Strings()) == []
    {
      hide Enc, CallOf, Holds, Calls;
      EncNothing();
      NoParts(mem[..], base + RESERVE_START);
      assert Struct() == [] && Strings() == [];
    }

    /** fdt_add_reservemap_entry */
    method AddReservemapEntry(addr: u64, size: u64) returns (err: int)
      requires Valid()
      modifies this`offStruct, mem
      ensures Valid()
      ensures err == if finished || offStrings != 0 then -FDT_ERR_BADSTATE
                     else if old(offStruct) + 16 > totalSize then -FDT_ERR_NOSPACE
                     else 0
      ensures Reserve() == old(Reserve()) + if err == 0 then Word64(addr) + Word64(size) else []
      ensures Written() == old(Written()) && Strings() == old(Strings())
      ensures offStruct == old(offStruct) + if err == 0 then 16 else 0
    {
      hide Part, Holds, Calls, Splice, Word64;
      NothingMore(Reserve());
      if finished || offStrings != 0 {
        return -FDT_ERR_BADSTATE;
      }
      var offset := offStruct;
      if offset + 16 > totalSize {
        return -FDT_ERR_NOSPACE;
      }
      PartSpliceAfter(mem[..], base + RESERVE_START, offset - RESERVE_START, Word64(addr) + Word64(size));
      NoBytes();
      Store(base + offset, Word64(addr) + Word64(size));
      offStruct := offset + 16;
      return 0;
    }

    /**
     fdt_resize: the blob moves to another place of another size, whichever way the two overlap.
     The head moves first when it moves down, the strings first when it moves up.
     */
    method Resize(newBase: nat, bufsize: nat) returns (err: int)
      requires Valid() && newBase + bufsize <= mem.Length && bufsize < FDT_MAX_SIZE
      modifies this`base, this`totalSize, this`offStrings, mem
      ensures Valid()
      ensures err == if finished then -FDT_ERR_BADSTATE
                     else if offStruct + sizeStruct + sizeStrings > bufsize then -FDT_ERR_NOSPACE
                     else 0
      ensures Struct() == old(Struct()) && Strings() == old(Strings()) && Reserve() == old(Reserve())
      ensures Written() == old(Written())
      ensures err == 0 ==> base == newBase && totalSize == bufsize && Open() == old(Open())
      ensures err != 0 ==> base == old(base) && totalSize == old(totalSize)
    {
      hide *;
      SwCodes();
      ValidFacts();
      if finished {
        return -FDT_ERR_BADSTATE;
      }
      var headsize := offStruct + sizeStruct;
      var tailsize := sizeStrings;
      if headsize + tailsize > totalSize {
        return -FDT_ERR_INTERNAL;
      }
      if headsize + tailsize > bufsize {
        return -FDT_ERR_NOSPACE;
      }
      var oldtail := base + totalSize - tailsize;
      var newtail := newBase + bufsize - tailsize;
      BlocksAre();
      WrittenIs();
      WasOpen();
      ghost var a := mem[..];
      MoveBoth(newBase, headsize, oldtail, newtail, tailsize);
      PartIs(a, base, headsize);
      PartIs(mem[..], newBase, headsize);
      MovedPart(a, base, mem[..], newBase, headsize, offStruct, sizeStruct);
      MovedPart(a, base, mem[..], newBase, headsize, RESERVE_START, offStruct - RESERVE_START);
      base := newBase;
      totalSize := bufsize;
      if offStrings != 0 {
        offStrings := bufsize;
      }
      LayoutShrunk();
      BlocksAre();
      WrittenIs();
      StateValid();
      return 0;
    }

    /** The two moves of fdt_resize. */
    method MoveBoth(newBase: nat, headsize: nat, oldtail: nat, newtail: nat, tailsize: nat)
      requires base + headsize <= oldtail && oldtail + tailsize <= mem.Length
      requires newBase + headsize <= newtail && newtail + tailsize <= mem.Length
      modifies mem
      ensures Part(mem[..], newBase, headsize) == Part(old(mem[..]), base, headsize)
      ensures Part(mem[..], newtail, tailsize) == Part(old(mem[..]), oldtail, tailsize)
    {
      hide *;
      ghost var a := mem[..];
      MovedBlocks(a, base, newBase, headsize, oldtail, newtail, tailsize);
      PartIs(a, base, headsize);
      PartIs(a, oldtail, tailsize);
      if newBase <= base {
        Move(newBase, base, headsize);
        Move(newtail, oldtail, tailsize);
      } else {
        Move(newtail, oldtail, tailsize);
        Move(newBase, base, headsize);
      }
      HeadTailFacts(mem[..], newBase, a[base..base + headsize], newtail, a[oldtail..oldtail + tailsize]);
    }

    lemma WasOpen()
      requires Valid() && !finished
      ensures Open() == (offStrings == totalSize) && (offStrings == totalSize || offStrings == 0)
      ensures offStrings != totalSize ==> sizeStruct == 0 && sizeStrings == 0 && toks == []
      ensures Open() ==> offStrings != 0
    {
      hide Holds;
    }

    lemma StateValid()
      requires Layout() && !finished && Holds(toks, Strings(), Struct(), false)
      requires offStrings == totalSize || (offStrings == 0 && sizeStruct == 0 && sizeStrings == 0 && toks == [])
      ensures Valid() && Open() == (offStrings == totalSize)
    {
      hide Holds;
    }

    /** fdt_finish_reservemap: the terminating entry; nodes may follow. */
    method FinishReservemap() returns (err: int)
      requires Valid()
      modifies this`offStruct, this`offStrings, mem
      ensures Valid() && Written() == old(Written()) && Strings() == old(Strings())
      ensures err == if finished || old(offStrings) != 0 then -FDT_ERR_BADSTATE
                     else if old(offStruct) + 16 > totalSize then -FDT_ERR_NOSPACE
                     else 0
      ensures Reserve() == old(Reserve()) + if err == 0 then Word64(0) + Word64(0) else []
      ensures err == 0 ==> Open()
      ensures err != 0 ==> offStrings == old(offStrings)
      ensures offStruct == old(offStruct) + if err == 0 then 16 else 0
    {
      hide Part, Holds, Calls, Word64;
      err := AddReservemapEntry(0, 0);
      if err != 0 {
        return;
      }
      offStrings := totalSize;
    }

    /** fdt_grab_space_: `len` more bytes at the end of the structure block. */
    method GrabSpace(len: nat) returns (ok: bool, offset: nat)
      requires Layout()
      modifies this`sizeStruct
      ensures Layout() && offset == old(sizeStruct)
      ensures ok == (offStruct + old(sizeStruct) + len + sizeStrings <= totalSize)
      ensures sizeStruct == old(sizeStruct) + if ok then len else 0
      ensures Struct()[..offset] == old(Struct())
      ensures Strings() == old(Strings()) && Reserve() == old(Reserve())
    {
      hide *;
      BlocksAre();
      LayoutMax();
      offset := sizeStruct;
      WholeFront(Struct());
      ghost var room := totalSize - offStruct - sizeStrings;
      ghost var more := if sizeStruct + len <= room then sizeStruct + len else sizeStruct;
      PartFront(mem[..], base + offStruct, sizeStruct, more);
      var spaceleft := totalSize - offStruct - sizeStrings;
      if offset + len > spaceleft {
        return false, offset;
      }
      sizeStruct := offset + len;
      LayoutShrunk();
      BlocksAre();
      return true, offset;
    }

    method StoreStruct(at: nat, data: Bytes)
      requires Layout() && at + |data| <= sizeStruct
      modifies mem
      ensures Struct() == Splice(old(Struct()), at, |data|, data)
      ensures Strings() == old(Strings()) && Reserve() == old(Reserve())
    {
      hide Splice, Part;
      ghost var a := mem[..];
      PartSpliceInside(a, base + offStruct, sizeStruct, at, data);
      PartSpliceOutside(a, base + totalSize - sizeStrings, sizeStrings, base + offStruct + at, data);
      PartSpliceOutside(a, base + RESERVE_START, offStruct - RESERVE_START, base + offStruct + at, data);
      Store(base + offStruct + at, data);
    }

    /** fdt_begin_node */
    method BeginNode(name: Bytes) returns (err: int)
      requires Valid() && NulFree(name) && |name| + 8 <= FDT_MAX_SIZE
      modifies this`sizeStruct, this`toks, mem
      ensures Valid() && Reserve() == old(Reserve())
      ensures err == if !old(Open()) then -FDT_ERR_BADSTATE
                     else if offStruct + old(sizeStruct) + 4 + AlignUp(|name| + 1) + sizeStrings > totalSize
                       then -FDT_ERR_NOSPACE
                     else 0
      ensures Written() == old(Written()) + if err == 0 then [CBegin(name)] else []
      ensures sizeStruct == old(sizeStruct) + (if err == 0 then 4 + AlignUp(|name| + 1) else 0)
      ensures Strings() == old(Strings())
    {
      hide *;
      NothingMore(Written());
      SwCodes();
      ValidFacts();
      WrittenIs();
      if finished || offStrings != totalSize {
        return -FDT_ERR_BADSTATE;
      }
      ghost var ts, s0, strs := toks, Struct(), Strings();
      var ok, offset := GrabSpace(4 + AlignUp(|name| + 1));
      if !ok {
        SameStruct(s0, Struct());
        OpenValid();
        WrittenIs();
        return -FDT_ERR_NOSPACE;
      }
      ghost var g := Struct()[offset..];
      BeginStores(s0, Struct(), g, name);
      StoreStruct(offset, Word(FDT_BEGIN_NODE));
      StoreStruct(offset + 4, name + [0]);
      ghost var t := TBegin(name, g[5 + |name|..]);
      BeginIsOk(t, strs);
      toks := toks + [t];
      TokenAdded(ts, t, strs, s0);
      OpenValid();
      WrittenIs();
      return 0;
    }

    /** fdt_end_node */
    method EndNode() returns (err: int)
      requires Valid()
      modifies this`sizeStruct, this`toks, mem
      ensures Valid() && Reserve() == old(Reserve())
      ensures err == if !old(Open()) then -FDT_ERR_BADSTATE
                     else if offStruct + old(sizeStruct) + 4 + sizeStrings > totalSize then -FDT_ERR_NOSPACE
                     else 0
      ensures Written() == old(Written()) + if err == 0 then [CEnd] else []
      ensures sizeStruct == old(sizeStruct) + (if err == 0 then 4 else 0) && Strings() == old(Strings())
    {
      hide *;
      NothingMore(Written());
      SwCodes();
      ValidFacts();
      WrittenIs();
      if finished || offStrings != totalSize {
        return -FDT_ERR_BADSTATE;
      }
      ghost var ts, s0, strs := toks, Struct(), Strings();
      var ok, offset := GrabSpace(FDT_TAGSIZE);
      if !ok {
        SameStruct(s0, Struct());
        OpenValid();
        WrittenIs();
        return -FDT_ERR_NOSPACE;
      }
      EndStore(s0, Struct(), strs);
      StoreStruct(offset, Word(FDT_END_NODE));
      toks := toks + [TEnd];
      TokenAdded(ts, TEnd, strs, s0);
      OpenValid();
      WrittenIs();
      return 0;
    }

    /** fdt_add_string_: a string below the others; its offset from the end, or 0 when there is no room. */
    method AddString(name: Bytes) returns (offset: int)
      requires Layout() && |name| + 1 + sizeStrings <= totalSize
      modifies this`sizeStrings, mem
      ensures Layout() && Struct() == old(Struct()) && Reserve() == old(Reserve())
      ensures offset == if offStruct + sizeStruct + |name| + 1 + old(sizeStrings) > totalSize then 0
                        else -(old(sizeStrings) + |name| + 1)
      ensures Strings() == if offset == 0 then old(Strings()) else name + [0] + old(Strings())
    {
      hide Splice, Part, Wrap32;
      var len := |name| + 1;
      offset := 0 - sizeStrings - len;
      var structTop := offStruct + sizeStruct;
      WrapFacts(totalSize + offset);
      if Wrap32(totalSize + offset) < structTop {
        return 0;
      }
      ghost var a := mem[..];
      PartSpliceOutside(a, base + offStruct, sizeStruct, base + totalSize + offset, name + [0]);
      PartSpliceOutside(a, base + RESERVE_START, offStruct - RESERVE_START, base + totalSize + offset, name + [0]);
      PartSpliceBefore(a, base + totalSize + offset, sizeStrings, name + [0]);
      Store(base + totalSize + offset, name + [0]);
      sizeStrings := sizeStrings + len;
    }

    /** fdt_del_last_string_ */
    method DelLastString(name: Bytes)
      requires Layout() && sizeStrings >= |name| + 1
      modifies this`sizeStrings
      ensures Layout() && Strings() == old(Strings())[|name| + 1..]
      ensures Struct() == old(Struct()) && Reserve() == old(Reserve())
    {
      hide *;
      LayoutMax();
      BlocksAre();
      PartTail(mem[..], base + totalSize - sizeStrings, sizeStrings, |name| + 1);
      sizeStrings := sizeStrings - |name| - 1;
      LayoutShrunk();
      BlocksAre();
    }

    /** The name's offset from the end, looked up first unless the blob was created to skip that. */
    method FindAddString(name: Bytes) returns (offset: int, fresh': bool)
      requires Layout() && NulFree(name) && NewString(Strings(), flags, name) + sizeStrings <= totalSize
      modifies this`sizeStrings, mem
      ensures Layout() && Struct() == old(Struct()) && Reserve() == old(Reserve())
      ensures offset == 0 <==>
              offStruct + sizeStruct + old(sizeStrings) + NewString(old(Strings()), flags, name) > totalSize
      ensures offset == 0 ==> Strings() == old(Strings())
      ensures offset != 0 ==>
                0 <= sizeStrings + offset < sizeStrings && GetString(Strings(), sizeStrings + offset) == Some(name) &&
                fresh' == (NewString(old(Strings()), flags, name) > 0) &&
                Strings() == if fresh' then name + [0] + old(Strings()) else old(Strings())
      ensures offset != 0 && !fresh' ==> sizeStrings + offset >= 0 && FirstAt(Strings(), sizeStrings + offset, name)
    {
      hide *;
      BlocksAre();
      LayoutMax();
      ghost var strs := Strings();
      StringInFront(strs, name);
      NewStringIs(strs, flags, name);
      if flags == NO_NAME_DEDUP {
        offset := AddString(name);
        return offset, true;
      }
      StringsIs();
      var p := FindString(mem[base + totalSize - sizeStrings..base + totalSize], name);
      if p.Some? {
        FoundThere(strs, p.value, name);
        return p.value - sizeStrings, false;
      }
      offset := AddString(name);
      return offset, true;
    }

    lemma LayoutShrunk()
      requires base + totalSize <= mem.Length && RESERVE_START <= offStruct && totalSize < FDT_MAX_SIZE
      requires offStruct + sizeStruct + sizeStrings <= totalSize
      ensures Layout()
    {
    }

    lemma LayoutMax()
      requires Layout()
      ensures |Strings()| + 48 <= totalSize < FDT_MAX_SIZE && sizeStrings + sizeStruct + offStruct <= totalSize
      ensures RESERVE_START <= offStruct && base + totalSize <= mem.Length
    {
    }

    lemma StringsLong()
      requires Layout()
      ensures |Strings()| == sizeStrings
    {
    }

    lemma StringsIs()
      requires Layout()
      ensures Strings() == mem[base + totalSize - sizeStrings..base + totalSize]
    {
    }

    /** fdt_property_placeholder: a property whose value is still to be stored, at `valp`. */
    method PropertyPlaceholder(name: Bytes, len: nat) returns (err: int, valp: nat)
      requires Valid() && NulFree(name) && len + 16 <= FDT_MAX_SIZE
      requires Open() ==> NewString(Strings(), flags, name) + sizeStrings <= totalSize
      modifies this`sizeStruct, this`sizeStrings, this`toks, mem
      ensures Valid() && Reserve() == old(Reserve())
      ensures err == if !old(Open()) then -FDT_ERR_BADSTATE
                     else if old(PropertyRoom(name, len)) > totalSize then -FDT_ERR_NOSPACE
                     else 0
      ensures err != 0 ==> Written() == old(Written()) && Strings() == old(Strings()) && Struct() == old(Struct())
      ensures err == 0 ==> Open() && Written() == old(Written()) + [CProp(name, LastValue(toks))]
      ensures err == 0 ==> LastProp(old(toks), toks, len, valp, sizeStruct)
      ensures err == 0 ==> Strings() == StringsWith(old(Strings()), flags, name)
      ensures err == 0 ==> sizeStruct == old(sizeStruct) + 12 + AlignUp(len)
    {
      hide *;
      valp := 0;
      SwCodes();
      ValidFacts();
      WrittenIs();
      RoomIs(name, len);
      NewStringIs(Strings(), flags, name);
      if finished || offStrings != totalSize {
        return -FDT_ERR_BADSTATE, valp;
      }
      ghost var ts, s0, strs0 := toks, Struct(), Strings();
      var nameoff, allocated' := FindAddString(name);
      if nameoff == 0 {
        OpenValid();
        WrittenIs();
        return -FDT_ERR_NOSPACE, valp;
      }
      ghost var strs1 := Strings();
      var ok, offset := GrabSpace(12 + AlignUp(len));
      if !ok {
        if allocated' {
          FrontDropped(name, strs0);
          DelLastString(name);
        }
        SameStruct(s0, Struct());
        OpenValid();
        WrittenIs();
        return -FDT_ERR_NOSPACE, valp;
      }
      ghost var g := Struct()[offset..];
      PropStores(s0, Struct(), g, len, Wrap32(nameoff));
      LayoutMax();
      StoreStruct(offset, Word(FDT_PROP));
      StoreStruct(offset + 8, Word(Wrap32(nameoff)));
      StoreStruct(offset + 4, Word(len));
      valp := offset + 12;
      ghost var t := TProp(Wrap32(nameoff), g[12..12 + len], g[12 + len..]);
      PropIsOk(t, nameoff, name, strs1);
      StringsGrown(ts, if allocated' then name + [0] else [], strs0, strs1, s0);
      toks := toks + [t];
      TokenAdded(ts, t, strs1, s0);
      OpenValid();
      WrittenIs();
      LastPropIs(ts, t, len, valp, sizeStruct);
      return 0, valp;
    }

    /** fdt_property */
    method Property(name: Bytes, val: Bytes) returns (err: int)
      requires Valid() && NulFree(name) && |val| + 16 <= FDT_MAX_SIZE
      requires Open() ==> NewString(Strings(), flags, name) + sizeStrings <= totalSize
      modifies this`sizeStruct, this`sizeStrings, this`toks, mem
      ensures Valid() && Reserve() == old(Reserve())
      ensures err == if !old(Open()) then -FDT_ERR_BADSTATE
                     else if old(PropertyRoom(name, |val|)) > totalSize then -FDT_ERR_NOSPACE
                     else 0
      ensures err != 0 ==> Written() == old(Written()) && Strings() == old(Strings()) && Struct() == old(Struct())
      ensures err == 0 ==> Written() == old(Written()) + [CProp(name, val)]
      ensures err == 0 ==> Open() && Strings() == StringsWith(old(Strings()), flags, name)
      ensures err == 0 ==> sizeStruct == old(sizeStruct) + 12 + AlignUp(|val|)
    {
      hide *;
      SwCodes();
      ghost var ts, w0 := toks, Written();
      var ptr;
      err, ptr := PropertyPlaceholder(name, |val|);
      if err != 0 {
        return;
      }
      ValidFacts();
      WrittenIs();
      LastPropFacts(ts, toks, |val|, ptr, sizeStruct);
      ghost var t, st, strs := toks[|ts|], Struct(), Strings();
      ValueStored(ts, t, val, strs, st, ptr);
      SameFront(Calls(ts, strs), w0, CallOf(t, strs), CProp(name, t.value));
      StoreStruct(ptr, val);
      ghost var t' := t.(value := val);
      toks := ts + [t'];
      WrittenIs();
      OpenValid();
    }

    lemma RoomIs(name: Bytes, len: nat)
      requires Layout()
      ensures PropertyRoom(name, len) == offStruct + sizeStruct + sizeStrings + NewString(Strings(), flags, name) + 12 +
              AlignUp(len)
    {
      hide NewString, AlignUp;
    }

    /** The walk of fdt_finish: every name offset counts from the start of the strings afterwards. */
    method RelocateNames() returns (err: int)
      requires Layout() && WfTokens(toks) && OkTokens(toks, Strings())
      requires WfTokens(toks + [TFinish]) && Struct() == Enc(toks + [TFinish])
      modifies mem
      ensures err == 0 && Closing(toks, Strings(), Struct())
      ensures Strings() == old(Strings()) && Reserve() == old(Reserve())
    {
      hide *;
      ghost var size, strs := sizeStrings, Strings();
      ghost var cur, j := toks + [TFinish], 0;
      BlocksAre();
      WalkStart(toks, size, Struct());
      PartIs(mem[..], base + offStruct, sizeStruct);
      var offset := 0;
      var tag, nextoffset := ReadNextTag(mem[base + offStruct..base + offStruct + sizeStruct], offset);
      while tag != FDT_END
        invariant offset >= 0 && Layout() && Strings() == strs && Walking(toks, size, Struct(), j, offset)
        invariant (tag, nextoffset) == NextTag(Struct(), offset)
        invariant Reserve() == old(Reserve())
        decreases |toks| - j
      {
        ghost var st := Struct();
        BlocksAre();
        PartIs(mem[..], base + offStruct, sizeStruct);
        WalkStep(toks, size, st, j, offset);
        if tag == FDT_PROP {
          var nameoff := Wrap32(ReadWord(mem[base + offStruct..base + offStruct + sizeStruct], offset + 8) +
            sizeStrings);
          StoreStruct(offset + 8, Word(nameoff));
        }
        offset := nextoffset;
        j := j + 1;
        BlocksAre();
        PartIs(mem[..], base + offStruct, sizeStruct);
        tag, nextoffset := ReadNextTag(mem[base + offStruct..base + offStruct + sizeStruct], offset);
      }
      WalkEnd(toks, strs, Struct(), j, offset);
      if nextoffset < 0 {
        return nextoffset;
      }
      return 0;
    }

    /**
     fdt_finish: the end tag, the strings moved up against it, the names relocated. What was
     written by the calls of a tree then decodes to that tree.
     */
    method Finish() returns (err: int)
      requires Valid()
      modifies this`sizeStruct, this`offStrings, this`totalSize, this`finished, mem
      ensures Valid() && Reserve() == old(Reserve()) && Written() == old(Written()) && Strings() == old(Strings())
      ensures err == if !old(Open()) then -FDT_ERR_BADSTATE
                     else if offStruct + old(sizeStruct) + 4 + sizeStrings > old(totalSize) then -FDT_ERR_NOSPACE
                     else 0
      ensures err == 0 ==> finished && totalSize == offStruct + sizeStruct + sizeStrings <= old(totalSize)
      ensures sizeStruct == old(sizeStruct) + if err == 0 then 4 else 0
      ensures err == 0 ==> forall t :: Written() == TreeCalls(t) ==> Decode(Struct(), Strings()) == Some(t)
      ensures err != 0 ==> finished == old(finished) && Struct() == old(Struct())
    {
      hide *;
      SwCodes();
      ValidFacts();
      WrittenIs();
      if finished || offStrings != totalSize {
        return -FDT_ERR_BADSTATE;
      }
      ghost var ts, s0, strs, reserve := toks, Struct(), Strings(), Reserve();
      var ok, end := GrabSpace(FDT_TAGSIZE);
      if !ok {
        SameStruct(s0, Struct());
        OpenValid();
        WrittenIs();
        return -FDT_ERR_NOSPACE;
      }
      FinishStore(ts, s0, Struct(), strs);
      StoreStruct(end, Word(FDT_END));
      var oldstroffset := totalSize - sizeStrings;
      var newstroffset := offStruct + sizeStruct;
      ghost var st := Struct();
      LayoutMax();
      MoveStrings(oldstroffset, newstroffset);
      BlocksAre();
      offStrings := newstroffset;
      totalSize := newstroffset + sizeStrings;
      LayoutShrunk();
      BlocksAre();
      err := RelocateNames();
      finished := true;
      FinishedHolds(ts, strs, Struct());
      FinishedValid();
      WrittenIs();
    }

    /** The move of the strings in fdt_finish: they end up at the new offset and the other blocks stay. */
    method MoveStrings(oldstroffset: nat, newstroffset: nat)
      requires Layout() && oldstroffset == totalSize - sizeStrings && newstroffset == offStruct + sizeStruct
      requires base + newstroffset + sizeStrings <= mem.Length
      modifies mem
      ensures Struct() == old(Struct()) && Reserve() == old(Reserve())
      ensures Part(mem[..], base + newstroffset, sizeStrings) == old(Strings())
    {
      hide *;
      SwCodes();
      LayoutMax();
      BlocksAre();
      ghost var a := mem[..];
      Move(base + newstroffset, base + oldstroffset, sizeStrings);
      PartIs(a, base + oldstroffset, sizeStrings);
      PartSpliceOutside(a, base + offStruct, sizeStruct, base + newstroffset,
        a[base + oldstroffset..base + oldstroffset + sizeStrings]);
      PartSpliceOutside(a, base + RESERVE_START, offStruct - RESERVE_START, base + newstroffset,
        a[base + oldstroffset..base + oldstroffset + sizeStrings]);
      PartSpliceThere(a, base + newstroffset, a[base + oldstroffset..base + oldstroffset + sizeStrings]);
      BlocksAre();
    }

    lemma FinishedValid()
      requires Layout() && offStrings == offStruct + sizeStruct && totalSize == offStrings + sizeStrings
      requires finished && Holds(toks, Strings(), Struct(), true)
      ensures Valid()
    {
      hide Holds;
    }

    /** Size the blob would need with one more property. */
    ghost function PropertyRoom(name: Bytes, len: nat): nat
      requires Layout()
      reads `base, `totalSize, `offStruct, `sizeStruct, `sizeStrings, `flags, mem
    {
      offStruct + sizeStruct + sizeStrings + NewString(Strings(), flags, name) + 12 + AlignUp(len)
    }
  }

  /** The bytes of the structure block of a finished blob. */
  ghost predicate Closing(ts: seq<Token>, strs: Bytes, st: Bytes)
    requires WfTokens(ts)
  {
    RelocatedWf(ts, |strs|);
    WfTokens(Relocated(ts, |strs|) + [TFinish]) && st == Enc(Relocated(ts, |strs|) + [TFinish])
  }

  /** The structure block `st` holds the tokens, whose names lie in `strs`. */
  ghost predicate Holds(ts: seq<Token>, strs: Bytes, st: Bytes, done: bool) {
    WfTokens(ts) && OkTokens(ts, strs) && if done then Closing(ts, strs, st) else st == Enc(ts)
  }

  /**
   The test for room of fdt_add_string_ is a 32-bit sum. It tells exactly whether the string fits, as long as the
   string table with the new string is no longer than the whole blob; beyond that it always finds room.
   */
  lemma RoomTest(total: nat, structTop: nat, strings: nat, len: nat)
    requires structTop + strings <= total < FDT_MAX_SIZE && len < FDT_MAX_SIZE
    ensures (Wrap32(total - strings - len) < structTop <==> structTop + strings + len > total) <==>
            strings + len <= total
    ensures strings + len > total ==> Wrap32(total - strings - len) >= structTop
  {
    hide Wrap32;
    WrapFacts(total - strings - len);
  }

  lemma EncNothing()
    ensures Holds([], [], [], false) && Calls([], []) == []
  {
  }

  lemma NoParts(a: Bytes, off: nat)
    requires off <= |a|
    ensures Part(a, off, 0) == []
  {
  }

  lemma NothingMore<T>(s: seq<T>)
    ensures s + [] == s
  {
  }

  lemma NoBytes()
    ensures Holds([], [], [], false)
  {
  }

  lemma SameStruct(s0: Bytes, s1: Bytes)
    requires |s1| == |s0| && s1[..|s0|] == s0
    ensures s1 == s0
  {
  }

  lemma TokenAdded(ts: seq<Token>, t: Token, strs: Bytes, s0: Bytes)
    requires Holds(ts, strs, s0, false) && WfToken(t) && OkToken(t, strs)
    ensures Holds(ts + [t], strs, s0 + EncTok(t), false)
    ensures Calls(ts + [t], strs) == Calls(ts, strs) + [CallOf(t, strs)]
  {
    hide WfToken, OkToken, Enc, EncTok, WfTokens, OkTokens, Calls, CallOf;
    EncAppend(ts, t);
    CallsOne(ts, t, strs);
  }

  /** Stores at the end of the block, over freshly grabbed bytes. */
  lemma StoresAtEnd(s0: Bytes, g: Bytes, q: nat, d: Bytes)
    requires q + |d| <= |g|
    ensures Splice(s0 + g, |s0| + q, |d|, d) == s0 + Splice(g, q, |d|, d)
  {
    assert s0 + g + [] == s0 + g;
    SpliceInner(s0, g, [], q, |d|, d);
    assert s0 + Splice(g, q, |d|, d) + [] == s0 + Splice(g, q, |d|, d);
  }

  lemma BeginStores(s0: Bytes, s1: Bytes, g: Bytes, name: Bytes)
    requires |s1| == |s0| + 4 + AlignUp(|name| + 1) && s1[..|s0|] == s0 && g == s1[|s0|..]
    ensures 5 + |name| <= |g|
    ensures var t := TBegin(name, g[5 + |name|..]);
            |t.pad| == PadLen(|name| + 1) && |Splice(s1, |s0|, 4, Word(FDT_BEGIN_NODE))| == |s1| &&
            (NulFree(name) ==>
               Splice(Splice(s1, |s0|, 4, Word(FDT_BEGIN_NODE)), |s0| + 4, |name + [0]|, name + [0]) == s0 + EncTok(t))
  {
    hide Word, Splice;
    AlignFacts(0, |name| + 1);
    assert s1 == s0 + g;
    var w, z := Word(FDT_BEGIN_NODE), name + [0];
    StoresAtEnd(s0, g, 0, w);
    var g1 := w + g[4..];
    FrontSplice(g, w);
    StoresAtEnd(s0, g1, 4, z);
    assert g1 == w + g[4..5 + |name|] + g[5 + |name|..];
    SpliceMiddle(w, g[4..5 + |name|], g[5 + |name|..], z);
  }

  lemma FrontSplice(g: Bytes, w: Bytes)
    requires |w| <= |g|
    ensures Splice(g, 0, |w|, w) == w + g[|w|..]
  {
  }

  lemma BeginIsOk(t: Token, strs: Bytes)
    requires t.TBegin? && NulFree(t.name) && |t.pad| == PadLen(|t.name| + 1)
    ensures WfToken(t) && OkToken(t, strs) && CallOf(t, strs) == CBegin(t.name)
  {
  }

  lemma EndStore(s0: Bytes, s1: Bytes, strs: Bytes)
    requires |s1| == |s0| + FDT_TAGSIZE && s1[..|s0|] == s0
    ensures |s0| + |Word(FDT_END_NODE)| <= |s1|
    ensures Splice(s1, |s0|, |Word(FDT_END_NODE)|, Word(FDT_END_NODE)) == s0 + EncTok(TEnd)
    ensures WfToken(TEnd) && OkToken(TEnd, strs) && CallOf(TEnd, strs) == CEnd
  {
    hide Word;
  }

  /** Bytes a name adds to the strings: none when it is found there and duplicates are avoided. */
  ghost function NewString(strs: Bytes, flags: nat, name: Bytes): nat {
    if flags != NO_NAME_DEDUP && Lies(strs, name) then 0 else |name| + 1
  }

  /** The strings with a name added, if it is not found there. */
  ghost function StringsWith(strs: Bytes, flags: nat, name: Bytes): (r: Bytes)
    ensures |r| == |strs| + NewString(strs, flags, name)
  {
    if NewString(strs, flags, name) == 0 then strs else name + [0] + strs
  }

  lemma NewStringIs(strs: Bytes, flags: nat, name: Bytes)
    ensures NewString(strs, flags, name) ==
            if flags != NO_NAME_DEDUP && Lies(strs, name) then 0 else |name| + 1
    ensures StringsWith(strs, flags, name) == if NewString(strs, flags, name) == 0 then strs else name + [0] + strs
  {
    hide Lies;
  }

  lemma StringInFront(strs: Bytes, name: Bytes)
    requires NulFree(name)
    ensures |strs| + |name| + 1 < FDT_MAX_SIZE ==> GetString(name + [0] + strs, 0) == Some(name)
    ensures |name + [0] + strs| == |name| + 1 + |strs|
  {
    hide GetString;
    if |strs| + |name| + 1 < FDT_MAX_SIZE {
      assert Has(name + [0] + strs, 0, name + [0]);
      StringAt(name + [0] + strs, 0, name);
    }
  }

  lemma FrontDropped(name: Bytes, strs: Bytes)
    ensures |name + [0] + strs| >= |name| + 1 && (name + [0] + strs)[|name| + 1..] == strs
  {
  }

  /** The words of a property header and what is left of the grabbed bytes. */
  lemma PropStores(s0: Bytes, s1: Bytes, g: Bytes, len: nat, nameoff: u32)
    requires |s1| == |s0| + 12 + AlignUp(len) && s1[..|s0|] == s0 && g == s1[|s0|..] && len + 16 <= FDT_MAX_SIZE
    ensures 12 + len <= |g| && |g| == 12 + len + PadLen(len) && |s0| + 12 <= |s1|
    ensures var a := Splice(s1, |s0|, 4, Word(FDT_PROP));
            |a| == |s1| && |Splice(a, |s0| + 8, 4, Word(nameoff))| == |s1| &&
            Splice(Splice(a, |s0| + 8, 4, Word(nameoff)), |s0| + 4, 4, Word(len)) ==
            s0 + EncTok(TProp(nameoff, g[12..12 + len], g[12 + len..]))
  {
    AlignFacts(0, len);
    assert s1 == s0 + g;
    hide *;
    ThreeStores(s0, g, len, nameoff);
    PropHeaderStores(g, len, nameoff);
    PropBytesAre(g, len, nameoff);
  }

  lemma ThreeStores(s0: Bytes, g: Bytes, len: u32, nameoff: u32)
    requires |g| >= 12
    ensures var a, b := Splice(s0 + g, |s0|, 4, Word(FDT_PROP)), Splice(g, 0, 4, Word(FDT_PROP));
            |a| == |s0 + g| && |b| == |g| &&
            var a2, b2 := Splice(a, |s0| + 8, 4, Word(nameoff)), Splice(b, 8, 4, Word(nameoff));
            |a2| == |s0 + g| && |b2| == |g| &&
            Splice(a2, |s0| + 4, 4, Word(len)) == s0 + Splice(b2, 4, 4, Word(len))
  {
    hide *;
    var b := Splice(g, 0, 4, Word(FDT_PROP));
    SpliceLen(g, 0, 4, Word(FDT_PROP));
    StoresAtEnd(s0, g, 0, Word(FDT_PROP));
    StoresAtEnd(s0, b, 8, Word(nameoff));
    SpliceLen(b, 8, 4, Word(nameoff));
    StoresAtEnd(s0, Splice(b, 8, 4, Word(nameoff)), 4, Word(len));
  }

  lemma PropBytesAre(g: Bytes, len: nat, nameoff: u32)
    requires 12 + len <= |g| && |g| == 12 + len + PadLen(len) && len < FDT_MAX_SIZE
    ensures Word(FDT_PROP) + Word(len) + Word(nameoff) + g[12..] ==
            EncTok(TProp(nameoff, g[12..12 + len], g[12 + len..]))
  {
    hide Word, PadLen;
    assert g[12..] == g[12..12 + len] + g[12 + len..];
  }

  lemma PropIsOk(t: Token, nameoff: int, name: Bytes, strs: Bytes)
    requires t.TProp? && t.nameoff == Wrap32(nameoff) && -|strs| <= nameoff < 0 && |strs| < FDT_MAX_SIZE
    requires GetString(strs, |strs| + nameoff) == Some(name) && |t.value| < FDT_MAX_SIZE && |t.pad| == PadLen(|t.value|)
    ensures WfToken(t) && OkToken(t, strs) && CallOf(t, strs) == CProp(name, t.value)
  {
    hide GetString, PadLen;
    WrapFacts(nameoff);
    WrapFacts(Wrap32(nameoff) + |strs|);
  }

  lemma StringsGrown(ts: seq<Token>, x: Bytes, strs0: Bytes, strs1: Bytes, st: Bytes)
    requires Holds(ts, strs0, st, false) && strs1 == x + strs0 && |strs1| < FDT_MAX_SIZE
    ensures Holds(ts, strs1, st, false) && Calls(ts, strs1) == Calls(ts, strs0)
  {
    hide Enc, WfTokens, OkTokens, Calls;
    CallsGrow(x, strs0, ts);
  }

  /** A property of `len` bytes has been added, its value at `valp` and its padding up to `size`. */
  ghost predicate LastProp(ts0: seq<Token>, ts: seq<Token>, len: nat, valp: nat, size: nat) {
    |ts| == |ts0| + 1 && ts[..|ts0|] == ts0 && ts[|ts0|].TProp? && |ts[|ts0|].value| == len &&
    valp + len + |ts[|ts0|].pad| == size
  }

  ghost function LastValue(ts: seq<Token>): Bytes {
    if ts != [] && ts[|ts| - 1].TProp? then ts[|ts| - 1].value else []
  }

  lemma LastPropIs(ts: seq<Token>, t: Token, len: nat, valp: nat, size: nat)
    requires t.TProp? && |t.value| == len && valp + len + |t.pad| == size
    ensures LastProp(ts, ts + [t], len, valp, size) && LastValue(ts + [t]) == t.value
  {
  }

  lemma LastPropFacts(ts0: seq<Token>, ts: seq<Token>, len: nat, valp: nat, size: nat)
    requires LastProp(ts0, ts, len, valp, size)
    ensures |ts| == |ts0| + 1 && ts == ts0 + [ts[|ts0|]] && ts[|ts0|].TProp? && |ts[|ts0|].value| == len
    ensures LastValue(ts) == ts[|ts0|].value && valp + len + |ts[|ts0|].pad| == size
  {
  }

  lemma SameFront<T>(a: seq<T>, b: seq<T>, x: T, y: T)
    requires a + [x] == b + [y]
    ensures a == b && x == y
  {
    assert (a + [x])[..|a|] == a && (b + [y])[..|b|] == b;
    assert (a + [x])[|a|] == x && (b + [y])[|b|] == y;
  }

  lemma SwCodes()
    ensures FDT_ERR_BADSTATE == 7 && FDT_ERR_NOSPACE == 3 && FDT_ERR_BADFLAGS == 18 && FDT_TAGSIZE == 4
    ensures FDT_MAX_SIZE == 0x7fff_ffff && RESERVE_START == 48 && NO_NAME_DEDUP == 1
  {
  }

  /** Storing a value of the right size changes the value and nothing else. */
  lemma ValueStored(ts: seq<Token>, t: Token, val: Bytes, strs: Bytes, st: Bytes, ptr: nat)
    requires Holds(ts + [t], strs, st, false) && t.TProp? && |t.value| == |val| && ptr + |t.value| + |t.pad| == |st|
    ensures ptr + |val| <= |st| && Holds(ts + [t.(value := val)], strs, Splice(st, ptr, |val|, val), false)
    ensures Calls(ts, strs) + [CallOf(t, strs)] == Calls(ts + [t], strs)
    ensures Calls(ts + [t.(value := val)], strs) == Calls(ts, strs) + [CallOf(t.(value := val), strs)]
    ensures CallOf(t, strs).CProp? && CallOf(t.(value := val), strs) == CProp(CallOf(t, strs).pname, val)
  {
    hide Enc, EncTok, Splice, WfToken, OkToken, WfTokens, OkTokens, CallOf, Calls;
    var t' := t.(value := val);
    LastTokenOk(ts, t, strs);
    ValueTokenOk(t, val, strs);
    EncAppend(ts, t);
    EncAppend(ts, t');
    CallsOne(ts, t, strs);
    CallsOne(ts, t', strs);
    ValueBytes(Enc(ts), t, val);
  }

  lemma LastTokenOk(ts: seq<Token>, t: Token, strs: Bytes)
    requires WfTokens(ts + [t]) && OkTokens(ts + [t], strs)
    ensures WfTokens(ts) && OkTokens(ts, strs) && WfToken(t) && OkToken(t, strs)
  {
    hide WfToken, OkToken;
    var all := ts + [t];
    assert all[|ts|] == t;
    assert forall i :: 0 <= i < |ts| ==> all[i] == ts[i];
  }

  lemma ValueTokenOk(t: Token, val: Bytes, strs: Bytes)
    requires WfToken(t) && OkToken(t, strs) && t.TProp? && |t.value| == |val|
    ensures WfToken(t.(value := val)) && OkToken(t.(value := val), strs)
    ensures CallOf(t, strs).CProp? && CallOf(t.(value := val), strs) == CProp(CallOf(t, strs).pname, val)
  {
    hide PadLen, NameOf;
  }

  lemma ValueBytes(s: Bytes, t: Token, val: Bytes)
    requires WfToken(t) && t.TProp? && |t.value| == |val| && WfToken(t.(value := val))
    ensures var all := s + EncTok(t);
            |all| == |s| + 12 + |t.value| + |t.pad| &&
            Splice(all, |s| + 12, |val|, val) == s + EncTok(t.(value := val))
  {
    hide *;
    PropEnc(t);
    PropEnc(t.(value := val));
    var h := Word(FDT_PROP) + Word(|val|) + Word(t.nameoff);
    Regroup(s, h, t.value, t.pad);
    Regroup(s, h, val, t.pad);
    SpliceMiddle(s + h, t.value, t.pad, val);
  }

  lemma Regroup(s: Bytes, h: Bytes, v: Bytes, p: Bytes)
    ensures s + (h + v + p) == (s + h) + v + p && |s + (h + v + p)| == |s| + |h| + |v| + |p|
  {
  }

  lemma PartSpliceBefore(a: Bytes, off: nat, size: nat, data: Bytes)
    requires off + |data| + size <= |a|
    ensures Part(Splice(a, off, |data|, data), off, |data| + size) == data + Part(a, off + |data|, size)
  {
    var x, y, z := a[..off], a[off + |data|..off + |data| + size], a[off + |data| + size..];
    assert a[off + |data|..] == y + z;
    assert Splice(a, off, |data|, data) == x + (data + y) + z;
    PartMiddle(x, data + y, z);
  }

  lemma PartFront(a: Bytes, off: nat, size: nat, more: nat)
    requires size <= more && off + more <= |a|
    ensures Part(a, off, more)[..size] == Part(a, off, size)
  {
  }

  lemma WholeFront(s: Bytes)
    ensures s[..|s|] == s
  {
  }

  lemma PartTail(a: Bytes, off: nat, size: nat, n: nat)
    requires off + size <= |a| && n <= size
    ensures Part(a, off, size)[n..] == Part(a, off + n, size - n)
  {
    SliceOf(a, off, off + size, n, size);
  }

  // ---- the walk over the structure block ----

  /** The block when the names of the first `j` tokens have been relocated. */
  ghost function HalfWay(ts: seq<Token>, size: nat, j: nat): (r: seq<Token>)
    requires j <= |ts|
    ensures |r| == |ts| + 1
  {
    Relocated(ts, size)[..j] + ts[j..] + [TFinish]
  }

  ghost predicate Walking(ts: seq<Token>, size: nat, st: Bytes, j: nat, offset: nat) {
    WfTokens(ts) && j <= |ts| && WfTokens(HalfWay(ts, size, j)) &&
    st == Enc(HalfWay(ts, size, j)) && offset == Off(HalfWay(ts, size, j), j)
  }

  lemma WalkStart(ts: seq<Token>, size: nat, st: Bytes)
    requires WfTokens(ts) && WfTokens(ts + [TFinish]) && st == Enc(ts + [TFinish])
    ensures Walking(ts, size, st, 0, 0)
  {
    hide WfTokens, Enc;
    var r := Relocated(ts, size);
    assert r[..0] == [] && ts[0..] == ts;
    assert HalfWay(ts, size, 0) == ts + [TFinish];
    OffZero(ts + [TFinish]);
  }

  /** One turn of the walk. */
  lemma WalkStep(ts: seq<Token>, size: nat, st: Bytes, j: nat, offset: nat)
    requires Walking(ts, size, st, j, offset) && NextTag(st, offset).0 != FDT_END
    ensures j < |ts| && NextTag(st, offset).1 >= 0
    ensures var next := NextTag(st, offset).1;
            if NextTag(st, offset).0 == FDT_PROP
            then offset + 12 <= |st| &&
                 Walking(ts, size, Splice(st, offset + 8, 4, Word(Wrap32(ReadWord(st, offset + 8) + size))), j + 1,
                   next)
            else Walking(ts, size, st, j + 1, next)
  {
    hide WfTokens, Enc, Off, NextTag, ReadWord, Word, Splice, Wrap32, Relocated;
    var cur := HalfWay(ts, size, j);
    NextTagAt(cur, j);
    HalfTokens(ts, size, j);
    var t := ts[j];
    if t.TProp? {
      PropAt(cur, j);
      StoreNameOff(cur, j, Wrap32(t.nameoff + size));
    } else {
      assert cur[j := t] == cur;
    }
  }

  lemma HalfTokens(ts: seq<Token>, size: nat, j: nat)
    requires j <= |ts|
    ensures var cur := HalfWay(ts, size, j);
            if j < |ts|
            then cur[j] == ts[j] && HalfWay(ts, size, j + 1) == cur[j := Moved1(ts[j], size)]
            else cur[j] == TFinish
  {
    hide Moved1;
    if j < |ts| {
      var r := Relocated(ts, size);
      assert r[..j + 1] == r[..j] + [r[j]] && ts[j..] == [ts[j]] + ts[j + 1..];
    }
  }

  lemma WalkEnd(ts: seq<Token>, strs: Bytes, st: Bytes, j: nat, offset: nat)
    requires Walking(ts, |strs|, st, j, offset) && NextTag(st, offset).0 == FDT_END && OkTokens(ts, strs)
    ensures NextTag(st, offset).1 >= 0 && Closing(ts, strs, st)
  {
    hide WfTokens, Enc, Off, NextTag, Relocated, OkToken;
    var cur := HalfWay(ts, |strs|, j);
    NextTagAt(cur, j);
    HalfTokens(ts, |strs|, j);
    if j < |ts| {
      assert OkToken(ts[j], strs);
      NotFinish(ts[j], strs);
    }
    RelocatedWf(ts, |strs|);
    assert Relocated(ts, |strs|)[..|ts|] == Relocated(ts, |strs|) && ts[|ts|..] == [];
    assert HalfWay(ts, |strs|, |ts|) == Relocated(ts, |strs|) + [TFinish];
  }

  lemma NotFinish(t: Token, strs: Bytes)
    requires OkToken(t, strs)
    ensures Tag(t) != FDT_END
  {
  }

  lemma PartIs(a: Bytes, off: nat, size: nat)
    requires off + size <= |a|
    ensures Part(a, off, size) == a[off..off + size]
  {
  }

  lemma FinishStore(ts: seq<Token>, s0: Bytes, s1: Bytes, strs: Bytes)
    requires Holds(ts, strs, s0, false) && |s1| == |s0| + FDT_TAGSIZE && s1[..|s0|] == s0
    ensures WfTokens(ts) && OkTokens(ts, strs) && WfTokens(ts + [TFinish])
    ensures |s0| + |Word(FDT_END)| <= |s1| && Splice(s1, |s0|, |Word(FDT_END)|, Word(FDT_END)) == Enc(ts + [TFinish])
  {
    hide Enc, Word, WfTokens, OkTokens;
    EncAppend(ts, TFinish);
  }

  /** A finished block decodes to every tree whose calls wrote it. */
  lemma FinishedHolds(ts: seq<Token>, strs: Bytes, st: Bytes)
    requires WfTokens(ts) && OkTokens(ts, strs) && Closing(ts, strs, st)
    ensures Holds(ts, strs, st, true)
    ensures forall t :: Calls(ts, strs) == TreeCalls(t) ==> Decode(st, strs) == Some(t)
  {
    hide Enc, WfTokens, OkTokens, Calls, TreeCalls, Decode, Relocated;
    forall t | Calls(ts, strs) == TreeCalls(t)
      ensures Decode(st, strs) == Some(t)
    {
      FinishDecodes(ts, strs, t);
    }
  }

  lemma PartSpliceThere(a: Bytes, off: nat, data: Bytes)
    requires off + |data| <= |a|
    ensures Part(Splice(a, off, |data|, data), off, |data|) == data
  {
    PartMiddle(a[..off], data, a[off + |data|..]);
  }

  /** Moving head and tail of a blob in the right order moves both whole. */
  lemma MovedBlocks(a: Bytes, from: nat, to: nat, head: nat, oldtail: nat, newtail: nat, tail: nat)
    requires from + head <= oldtail && oldtail + tail <= |a| && to + head <= newtail && newtail + tail <= |a|
    ensures var x, y := a[from..from + head], a[oldtail..oldtail + tail];
            if to <= from
            then var b := Splice(a, to, head, x);
                 |b| == |a| && b[oldtail..oldtail + tail] == y &&
                   HeadTail(Splice(b, newtail, tail, y), to, x, newtail, y)
            else var b := Splice(a, newtail, tail, y);
                 |b| == |a| && b[from..from + head] == x && HeadTail(Splice(b, to, head, x), to, x, newtail, y)
  {
    hide Splice, Part;
    var x, y := a[from..from + head], a[oldtail..oldtail + tail];
    PartIs(a, from, head);
    PartIs(a, oldtail, tail);
    if to <= from {
      var b := Splice(a, to, head, x);
      TwoStores(a, to, x, oldtail, tail);
      TwoStores(b, newtail, y, to, head);
      PartSpliceThere(a, to, x);
      PartSpliceThere(b, newtail, y);
    } else {
      var b := Splice(a, newtail, tail, y);
      TwoStores(a, newtail, y, from, head);
      TwoStores(b, to, x, newtail, tail);
      PartSpliceThere(a, newtail, y);
      PartSpliceThere(b, to, x);
    }
  }

  lemma TwoStores(a: Bytes, at: nat, x: Bytes, off: nat, size: nat)
    requires at + |x| <= |a| && off + size <= |a| && (off + size <= at || at + |x| <= off)
    ensures |Splice(a, at, |x|, x)| == |a| && Part(Splice(a, at, |x|, x), off, size) == Part(a, off, size)
    ensures Splice(a, at, |x|, x)[off..off + size] == a[off..off + size]
  {
    hide Splice, Part;
    SpliceLen(a, at, |x|, x);
    PartSpliceOutside(a, off, size, at, x);
    PartIs(a, off, size);
    PartIs(Splice(a, at, |x|, x), off, size);
  }

  ghost predicate HeadTail(b: Bytes, to: nat, x: Bytes, newtail: nat, y: Bytes) {
    to + |x| <= |b| && newtail + |y| <= |b| && Part(b, to, |x|) == x && Part(b, newtail, |y|) == y
  }

  lemma HeadTailFacts(b: Bytes, to: nat, x: Bytes, newtail: nat, y: Bytes)
    requires HeadTail(b, to, x, newtail, y)
    ensures to + |x| <= |b| && newtail + |y| <= |b| && Part(b, to, |x|) == x && Part(b, newtail, |y|) == y
  {
  }

  lemma MovedPart(a: Bytes, from: nat, b: Bytes, to: nat, head: nat, off: nat, size: nat)
    requires from + head <= |a| && to + head <= |b| && off + size <= head
    requires b[to..to + head] == a[from..from + head]
    ensures Part(b, to + off, size) == Part(a, from + off, size)
  {
    SameRange(b, to, a, from, head, off, off + size);
  }
}
