/**
 The read-write blob: one byte buffer that holds the reserve map, the structure block and
 the strings block, and whose operations splice bytes in the middle of it.
 */
module FdtBlob {
  import opened Common
  import opened FdtBytes
  import opened FdtTokens
  import opened FdtTree
  import opened FdtScan
  import opened FdtVisit
  import opened FdtNodes
  import opened FdtProps
  import opened FdtEdit
  import opened FdtView
  import opened FdtDecode
  import opened FdtSplice
  import opened FdtOps

  const HEADER_SIZE := 40
  const RESERVE_ENTRY_SIZE := 16

  class Blob {
    const buf: array<byte>
    var totalSize: nat
    var offReserve: nat
    var offStruct: nat
    var sizeStruct: nat
    var offStrings: nat
    var sizeStrings: nat
    ghost var root: Node

    /** The blocks in order, inside the buffer. */
    ghost predicate Layout()
      reads `totalSize, `offReserve, `offStruct, `sizeStruct, `offStrings, `sizeStrings
    {
      HEADER_SIZE <= offReserve && offReserve + RESERVE_ENTRY_SIZE <= offStruct &&
      offStruct + sizeStruct <= offStrings && offStrings + sizeStrings <= totalSize <= buf.Length &&
      totalSize < FDT_MAX_SIZE
    }

    ghost function Struct(): (s: Bytes)
      requires Layout()
      reads `totalSize, `offReserve, `offStruct, `sizeStruct, `offStrings, `sizeStrings, buf
      ensures |s| == sizeStruct
    {
      buf[offStruct..offStruct + sizeStruct]
    }

    ghost function Strings(): (s: Bytes)
      requires Layout()
      reads `totalSize, `offReserve, `offStruct, `sizeStruct, `offStrings, `sizeStrings, buf
      ensures |s| == sizeStrings
    {
      buf[offStrings..offStrings + sizeStrings]
    }

    ghost function Reserve(): Bytes
      requires Layout()
      reads `totalSize, `offReserve, `offStruct, `sizeStruct, `offStrings, `sizeStrings, buf
    {
      buf[offReserve..offStruct]
    }

    ghost predicate Valid()
      reads this, buf
      ensures Valid() ==> Layout()
    {
      Layout() && WfNode(root) && Struct() == Encode(root) && Proper(root, Strings())
    }

    function DataSize(): nat
      reads `offStrings, `sizeStrings
    {
      offStrings + sizeStrings
    }

    method MemMove(dst: nat, src: nat, n: nat)
      requires dst + n <= buf.Length && src + n <= buf.Length
      modifies buf
      ensures forall i :: 0 <= i < dst || dst + n <= i < buf.Length ==> buf[i] == old(buf[i])
      ensures forall i :: dst <= i < dst + n ==> buf[i] == old(buf[i - dst + src])
    {
      forall i | 0 <= i < n {
        buf[dst + i] := buf[src + i];
      }
    }

    method MemCopy(dst: nat, data: Bytes)
      requires dst + |data| <= buf.Length
      modifies buf
      ensures buf[..] == Splice(old(buf[..]), dst, |data|, data)
    {
      forall i | 0 <= i < |data| {
        buf[dst + i] := data[i];
      }
    }

    /** fdt_splice_: make `oldLen` bytes at `p` into `newLen`, moving what follows. */
    method SpliceData(p: nat, oldLen: nat, newLen: nat) returns (err: int)
      requires Layout()
      modifies buf
      ensures err == if p + oldLen > DataSize() then -FDT_ERR_BADOFFSET
                     else if DataSize() - oldLen + newLen > totalSize then -FDT_ERR_NOSPACE
                     else 0
      ensures err != 0 ==> buf[..] == old(buf[..])
      ensures err == 0 ==> Moved(old(buf[..]), buf[..], p, oldLen, newLen, DataSize())
    {
      hide Moved;
      var end := DataSize();
      if p + oldLen > end {
        return -FDT_ERR_BADOFFSET;
      }
      if end - oldLen + newLen > totalSize {
        return -FDT_ERR_NOSPACE;
      }
      ghost var a := buf[..];
      MemMove(p + newLen, p + oldLen, end - p - oldLen);
      MovedIs(a, buf[..], p, oldLen, newLen, end);
      return 0;
    }

    /** fdt_splice_struct_: the same inside the structure block, `at` counted from its start. */
    method SpliceStruct(at: nat, oldLen: nat, newLen: nat) returns (err: int)
      requires Layout() && at + oldLen <= sizeStruct
      modifies this`sizeStruct, this`offStrings, buf
      ensures Layout()
      ensures err == if old(DataSize()) - oldLen + newLen > totalSize then -FDT_ERR_NOSPACE else 0
      ensures err != 0 ==> sizeStruct == old(sizeStruct) && offStrings == old(offStrings) && Struct() == old(Struct())
      ensures err == 0 ==>
                sizeStruct == old(sizeStruct) - oldLen + newLen && offStrings == old(offStrings) - oldLen + newLen &&
                Struct() == Splice(old(Struct()), at, oldLen, Struct()[at..at + newLen])
      ensures Strings() == old(Strings()) && Reserve() == old(Reserve())
    {
      hide Splice, Moved, Part, Struct, Strings, Reserve;
      ghost var a := buf[..];
      BlocksAre();
      err := SpliceData(offStruct + at, oldLen, newLen);
      if err == 0 {
        SpliceBlocks(a, buf[..], offReserve, offStruct, sizeStruct, offStrings, sizeStrings, at, oldLen, newLen);
        sizeStruct := sizeStruct - oldLen + newLen;
        offStrings := offStrings - oldLen + newLen;
      }
      BlocksAre();
    }

    /** Store bytes inside the structure block. */
    method WriteStruct(at: nat, data: Bytes)
      requires Layout() && at + |data| <= sizeStruct
      modifies buf
      ensures Struct() == Splice(old(Struct()), at, |data|, data)
      ensures Strings() == old(Strings()) && Reserve() == old(Reserve())
    {
      hide Splice, Part, Struct, Strings, Reserve;
      BlocksAre();
      PartSpliceInside(buf[..], offStruct, sizeStruct, at, data);
      PartSpliceOutside(buf[..], offStrings, sizeStrings, offStruct + at, data);
      PartSpliceOutside(buf[..], offReserve, offStruct - offReserve, offStruct + at, data);
      MemCopy(offStruct + at, data);
      BlocksAre();
    }

    /** Add a string with its NUL at the end of the strings block. */
    method AppendString(name: Bytes) returns (err: int)
      requires Layout()
      modifies this`sizeStrings, buf
      ensures Layout()
      ensures err == if old(DataSize()) + |name| + 1 > totalSize then -FDT_ERR_NOSPACE else 0
      ensures Strings() == old(Strings()) + if err == 0 then name + [0] else []
      ensures Struct() == old(Struct()) && Reserve() == old(Reserve())
    {
      hide Splice, Part, Struct, Strings, Reserve, Moved;
      assert Strings() + [] == Strings();
      BlocksAre();
      ghost var a := buf[..];
      var end := DataSize();
      err := SpliceData(end, 0, |name| + 1);
      if err == 0 {
        ghost var b := buf[..];
        PartsMoved(a, b, end, |name| + 1, end, offStruct, sizeStruct);
        PartsMoved(a, b, end, |name| + 1, end, offReserve, offStruct - offReserve);
        PartsMoved(a, b, end, |name| + 1, end, offStrings, sizeStrings);
        PartSpliceOutside(b, offStruct, sizeStruct, end, name + [0]);
        PartSpliceOutside(b, offReserve, offStruct - offReserve, end, name + [0]);
        PartSpliceAfter(b, offStrings, sizeStrings, name + [0]);
        MemCopy(end, name + [0]);
        sizeStrings := sizeStrings + |name| + 1;
      }
      BlocksAre();
    }

    /** fdt_del_last_string_: forget the last string again. */
    method DelLastString(name: Bytes)
      requires Layout() && sizeStrings >= |name| + 1
      modifies this`sizeStrings
      ensures Layout() && Strings() == old(Strings())[..old(sizeStrings) - |name| - 1]
      ensures Struct() == old(Struct()) && Reserve() == old(Reserve())
    {
      sizeStrings := sizeStrings - |name| - 1;
    }

    /** Offset of a string equal to `name`, added at the end if there is none. */
    method FindAddString(name: Bytes) returns (off: int, added: bool)
      requires Layout() && NulFree(name)
      modifies this`sizeStrings, buf
      ensures Layout()
      ensures off < 0 ==> off == -FDT_ERR_NOSPACE && !added && Strings() == old(Strings())
      ensures off < 0 <==> old(DataSize()) + NameRoom(old(Strings()), name) > totalSize
      ensures off >= 0 ==> off < sizeStrings && GetString(Strings(), off) == Some(name)
      ensures off >= 0 ==> Strings() == old(Strings()) + NameBytes(old(Strings()), name)
      ensures added ==> NameBytes(old(Strings()), name) == name + [0]
      ensures off >= 0 && !added ==> NameBytes(old(Strings()), name) == [] && FirstAt(Strings(), off, name)
      ensures Struct() == old(Struct()) && Reserve() == old(Reserve())
    {
      hide Part, Struct, Reserve, GetString, Lies, Has;
      added := false;
      ghost var s := Strings();
      assert s + [] == s;
      var p := FindString(buf[offStrings..offStrings + sizeStrings], name);
      assert NameBytes(s, name) == if p.Some? then [] else name + [0];
      if p.Some? {
        FoundThere(s, p.value, name);
        off := p.value;
        return;
      }
      off := sizeStrings;
      var err := AppendString(name);
      if err != 0 {
        off := err;
        return;
      }
      added := true;
      StringAtEnd(s, name);
    }

    /** A node offset the caller may pass: the offset of the node at `p`, or one the header check rejects. */
    ghost predicate NodeArg(offset: int, p: Path)
      requires Valid()
      reads this, buf
    {
      CheckNodeOffset(Struct(), offset) >= 0 ==> ValidPath(root, p) && offset == NodeOff(root, p)
    }

    lemma ArgFacts(offset: int, p: Path)
      requires Valid() && NodeArg(offset, p) && CheckNodeOffset(Struct(), offset) >= 0
      ensures ValidPath(root, p) && offset == NodeOff(root, p)
      ensures CheckNodeOffset(Struct(), offset) == ItemOff(root, p, 0) <= sizeStruct
      ensures Scannable(Struct(), offset)
    {
      hide WfNode, Proper, Encode, Scannable, ItemOff, NodeOff;
      HeaderAt(root, p);
      ItemOffBound(root, p, 0);
    }

    /** Open room for a property at `prop` and store its header. */
    method OpenProp(prop: nat, len: nat, nameoff: u32) returns (err: int)
      requires Layout() && prop <= sizeStruct && len + 16 <= FDT_MAX_SIZE
      modifies this`sizeStruct, this`offStrings, buf
      ensures Layout() && Strings() == old(Strings()) && Reserve() == old(Reserve())
      ensures err == if old(DataSize()) + 12 + AlignUp(len) > totalSize then -FDT_ERR_NOSPACE else 0
      ensures err != 0 ==> Struct() == old(Struct()) && sizeStrings == old(sizeStrings)
      ensures err == 0 ==> prop + 12 + AlignUp(len) <= sizeStruct
      ensures err == 0 ==>
                Struct() == Splice(old(Struct()), prop, 0,
                                   Word(FDT_PROP) + Word(len) + Word(nameoff) +
                                     Struct()[prop + 12..prop + 12 + AlignUp(len)])
    {
      hide Struct, Strings, Reserve, Word, AlignUp, Splice;
      ghost var s0 := Struct();
      err := SpliceStruct(prop, 0, 12 + AlignUp(len));
      if err == 0 {
        ghost var gap := Struct()[prop..prop + 12 + AlignUp(len)];
        WriteStruct(prop, Word(FDT_PROP));
        WriteStruct(prop + 8, Word(nameoff));
        WriteStruct(prop + 4, Word(len));
        HeaderInGap(s0, prop, gap, len, nameoff);
        GapIs(s0, prop, Word(FDT_PROP) + Word(len) + Word(nameoff), gap[12..]);
      }
    }

    /** fdt_add_property_: a new first property with room for `len` bytes; the name goes to the strings block. */
    method AddProperty(nodeoffset: int, name: Bytes, len: nat, ghost p: Path) returns (err: int, prop: nat)
      requires Valid() && NodeArg(nodeoffset, p) && NulFree(name) && len + 16 <= FDT_MAX_SIZE
      modifies this`sizeStruct, this`offStrings, this`sizeStrings, this`root, buf
      ensures Valid() && Reserve() == old(Reserve())
      ensures err != 0 ==> root == old(root) && Strings() == old(Strings())
      ensures err == if CheckNodeOffset(old(Struct()), nodeoffset) < 0 then -FDT_ERR_BADOFFSET
                     else if old(DataSize()) + NameRoom(old(Strings()), name) + 12 + AlignUp(len) > totalSize
                       then -FDT_ERR_NOSPACE
                     else 0
      ensures err == 0 ==> Added(old(root), root, p, prop, len)
      ensures err == 0 ==> GetString(Strings(), At(root, p).items[0].nameoff) == Some(name)
      ensures err == 0 ==> Strings() == old(Strings()) + NameBytes(old(Strings()), name)
    {
      hide WfNode, Proper, Encode, GetString, Struct, Strings, Reserve, Word, AlignUp, Splice, PutItems, GapProp,
           NameBytes, Added, NextTag, ItemOff, NodeOff, ValidPath;
      prop := 0;
      var nextoffset := CheckNodeOffset(buf[offStruct..offStruct + sizeStruct], nodeoffset);
      StructIs();
      if nextoffset < 0 {
        return nextoffset, prop;
      }
      ArgFacts(nodeoffset, p);
      ghost var strs0 := Strings();
      var off, added := FindAddString(name);
      if off < 0 {
        return off, prop;
      }
      prop := nextoffset;
      err := OpenProp(prop, len, off);
      if err != 0 {
        if added {
          DelLastString(name);
        }
        Rollback(strs0, name);
        return;
      }
      ProperGrows(root, strs0, NameBytes(strs0, name));
      ghost var g := Struct()[prop + 12..prop + 12 + AlignUp(len)];
      AddPropEdit(root, p, Strings(), off, len, g);
      AlignFacts(0, len);
      AddedIs(root, p, prop, off, len, g);
      root := PutItems(root, p, 0, 0, [GapProp(off, len, g)]);
    }

    /** The property `name` of the node at `p`, if there is one, as an item index. */
    ghost function Found(name: Bytes, p: Path): (i: nat)
      requires Valid() && ValidPath(root, p)
      reads this, buf
      ensures i <= |At(root, p).items|
    {
      PropIndex(At(root, p).items, Strings(), name)
    }

    lemma FoundFacts(name: Bytes, p: Path)
      requires Valid() && ValidPath(root, p)
      ensures Scannable(Struct(), NodeOff(root, p))
      ensures var i := Found(name, p);
              if i < |At(root, p).items|
              then FindProp(Struct(), Strings(), NodeOff(root, p), name) == ItemOff(root, p, i) &&
                At(root, p).items[i].Prop?
              else FindProp(Struct(), Strings(), NodeOff(root, p), name) == NOTFOUND
      ensures CheckNodeOffset(Struct(), NodeOff(root, p)) >= 0
    {
      hide WfNode, Proper, Encode, Scannable, ItemOff, NodeOff, FindProp;
      FindPropOnTree(root, p, Strings(), name);
      HeaderAt(root, p);
    }

    /** Lookup of a property by name: its offset in the structure block, or an error. */
    method GetPropertyOffset(nodeoffset: int, name: Bytes, ghost p: Path) returns (prop: int)
      requires Valid() && NodeArg(nodeoffset, p)
      ensures CheckNodeOffset(Struct(), nodeoffset) < 0 ==> prop == -FDT_ERR_BADOFFSET
      ensures CheckNodeOffset(Struct(), nodeoffset) >= 0 ==>
                ValidPath(root, p) &&
                prop == if Found(name, p) < |At(root, p).items| then ItemOff(root, p, Found(name, p)) else NOTFOUND
    {
      hide WfNode, Proper, Encode, Scannable, ItemOff, NodeOff, FindPropFrom, NextPropFrom, Found, NextTag;
      var s := buf[offStruct..offStruct + sizeStruct];
      if CheckNodeOffset(s, nodeoffset) < 0 {
        return -FDT_ERR_BADOFFSET;
      }
      ArgFacts(nodeoffset, p);
      FoundFacts(name, p);
      prop := ReadFindProp(s, buf[offStrings..offStrings + sizeStrings], nodeoffset, name);
    }

    /** fdt_resize_property_: give an existing property room for `len` bytes. */
    method ResizeProperty(nodeoffset: int, name: Bytes, len: nat, ghost p: Path) returns (err: int, prop: nat)
      requires Valid() && NodeArg(nodeoffset, p) && len + 16 <= FDT_MAX_SIZE
      modifies this`sizeStruct, this`offStrings, this`root, buf
      ensures Valid() && Reserve() == old(Reserve()) && Strings() == old(Strings())
      ensures err != 0 ==> root == old(root) && DataSize() == old(DataSize())
      ensures CheckNodeOffset(old(Struct()), nodeoffset) < 0 ==> err == -FDT_ERR_BADOFFSET
      ensures CheckNodeOffset(old(Struct()), nodeoffset) >= 0 ==>
                ValidPath(old(root), p) &&
                var i := old(Found(name, p));
                err == if i == |old(At(root, p).items)| then NOTFOUND
                       else if old(DataSize()) - AlignUp(|old(At(root, p).items[i].value)|) + AlignUp(len) > totalSize
                         then -FDT_ERR_NOSPACE
                       else 0
      ensures err == 0 ==>
                ValidPath(old(root), p) && old(Found(name, p)) < |old(At(root, p).items)| &&
                Resized(old(root), root, p, old(Found(name, p)), prop, len)
    {
      hide WfNode, Proper, Encode, Scannable, ItemOff, NodeOff, Found, NextTag, Struct, Strings, Reserve, Word, AlignUp,
           Splice, PutItems, GapProp, Resized, ReadWord;
      prop := 0;
      err := GetPropertyOffset(nodeoffset, name, p);
      if err < 0 {
        return;
      }
      prop := err;
      ghost var i := Found(name, p);
      ghost var s0 := Struct();
      StructIs();
      FoundFacts(name, p);
      PropLen(i, p);
      var oldLen := ReadWord(buf[offStruct..offStruct + sizeStruct], prop + 4);
      err := SpliceStruct(prop + 12, AlignUp(oldLen), AlignUp(len));
      if err != 0 {
        return;
      }
      ghost var g := Struct()[prop + 12..prop + 12 + AlignUp(len)];
      WriteStruct(prop + 4, Word(len));
      ResizePropEdit(root, p, i, Strings(), len, g);
      AlignFacts(0, len);
      ResizedIs(root, p, i, prop, len, g);
      root := PutItems(root, p, i, i + 1, [GapProp(At(root, p).items[i].nameoff, len, g)]);
    }

    lemma PropLen(i: nat, p: Path)
      requires Valid() && ValidPath(root, p) && i < |At(root, p).items| && At(root, p).items[i].Prop?
      ensures var o := ItemOff(root, p, i);
              o + 12 + AlignUp(|At(root, p).items[i].value|) <= sizeStruct &&
              ReadWord(Struct(), o + 4) == |At(root, p).items[i].value|
    {
      hide WfNode, Proper, Encode, ItemOff, AlignUp, ReadWord, PutItems, GapProp, Splice;
      PropExtent(root, p, i, Strings());
    }

    /** The copy at the end of fdt_setprop: store a value of the property's size at its data. */
    method WriteValue(prop: nat, value: Bytes, ghost p: Path, ghost i: nat)
      requires Valid() && ValidPath(root, p) && i < |At(root, p).items| && At(root, p).items[i].Prop?
      requires |At(root, p).items[i].value| == |value| && prop == ItemOff(root, p, i)
      modifies this`root, buf
      ensures Valid() && Reserve() == old(Reserve()) && Strings() == old(Strings())
      ensures root == PutItems(old(root), p, i, i + 1, [old(At(root, p).items[i]).(value := value)])
    {
      hide WfNode, Proper, Encode, Scannable, ItemOff, Struct, Strings, Reserve, Splice, PutItems;
      ValueEdit(root, p, i, Strings(), value);
      WriteStruct(prop + 12, value);
      root := PutItems(root, p, i, i + 1, [At(root, p).items[i].(value := value)]);
    }

    /**
     fdt_setprop: the named property of the node gets the value, in place when it exists and as a
     new first property otherwise; when there is no room nothing that the blob means changes.
     */
    method Setprop(nodeoffset: int, name: Bytes, value: Bytes, ghost p: Path) returns (err: int)
      requires Valid() && NodeArg(nodeoffset, p) && NulFree(name) && |value| + 16 <= FDT_MAX_SIZE
      modifies this`sizeStruct, this`offStrings, this`sizeStrings, this`root, buf
      ensures Valid() && Reserve() == old(Reserve())
      ensures err != 0 ==> root == old(root) && Strings() == old(Strings())
      ensures err == if CheckNodeOffset(old(Struct()), nodeoffset) < 0 then -FDT_ERR_BADOFFSET
                     else if old(DataSize()) + old(SetpropRoom(name, |value|, p)) > totalSize then -FDT_ERR_NOSPACE
                     else 0
      ensures err == 0 ==> ValidPath(old(root), p) && old(Strings()) <= Strings()
      ensures err == 0 ==> SetIn(old(root), root, p, old(Strings()), Strings(), name, value)
    {
      hide WfNode, Proper, Encode, Scannable, ItemOff, NodeOff, Struct, Strings, Reserve, Splice, PutItems, NextTag,
           Added, Resized, PropIndex, GetString, AlignUp, NameBytes, SetIn;
      ghost var n0, strs0 := root, Strings();
      var prop;
      err, prop := ResizeProperty(nodeoffset, name, |value|, p);
      if err == NOTFOUND {
        err, prop := AddProperty(nodeoffset, name, |value|, p);
        if err == 0 {
          ghost var n1 := root;
          AddedFacts(n0, n1, p, prop, |value|);
          WriteValue(prop, value, p, 0);
          SetInAdded(n0, n1, root, p, prop, strs0, Strings(), name, value);
        }
      } else if err == 0 {
        ghost var n1 := root;
        ResizedFacts(n0, n1, p, old(Found(name, p)), prop, |value|);
        WriteValue(prop, value, p, old(Found(name, p)));
        SetInResized(n0, n1, root, p, prop, strs0, name, value);
      }
    }

    /** Bytes by which setting a property of `len` bytes grows the data. */
    ghost function SetpropRoom(name: Bytes, len: nat, p: Path): int
      requires Valid()
      reads this, buf
    {
      if !ValidPath(root, p) then 0
      else if Found(name, p) < |At(root, p).items|
      then AlignUp(len) - AlignUp(|At(root, p).items[Found(name, p)].value|)
      else NameRoom(Strings(), name) + 12 + AlignUp(len)
    }

    /** fdt_delprop: the named property is gone, bytes and all. */
    method Delprop(nodeoffset: int, name: Bytes, ghost p: Path) returns (err: int)
      requires Valid() && NodeArg(nodeoffset, p)
      modifies this`sizeStruct, this`offStrings, this`root, buf
      ensures Valid() && Reserve() == old(Reserve()) && Strings() == old(Strings())
      ensures CheckNodeOffset(old(Struct()), nodeoffset) < 0 ==> err == -FDT_ERR_BADOFFSET
      ensures CheckNodeOffset(old(Struct()), nodeoffset) >= 0 ==>
                ValidPath(old(root), p) &&
                err == if old(Found(name, p)) < |old(At(root, p).items)| then 0 else NOTFOUND
      ensures err != 0 ==> root == old(root)
      ensures err == 0 ==> root == old(PutItems(root, p, Found(name, p), Found(name, p) + 1, []))
    {
      hide WfNode, Proper, Encode, Scannable, ItemOff, NodeOff, Found, NextTag, Struct, Strings, Reserve, AlignUp,
           Splice, PutItems, ReadWord;
      err := GetPropertyOffset(nodeoffset, name, p);
      if err < 0 {
        return;
      }
      var prop := err;
      ghost var i := Found(name, p);
      StructIs();
      FoundFacts(name, p);
      PropLen(i, p);
      PropItemSize(root, p, i);
      var len := ReadWord(buf[offStruct..offStruct + sizeStruct], prop + 4);
      RemoveEdit(root, p, i, Strings());
      err := SpliceStruct(prop, 12 + AlignUp(len), 0);
      assert Struct()[prop..prop + 0] == [];
      root := PutItems(root, p, i, i + 1, []);
    }

    /** fdt_del_node on a node that is not the root: the node and all below it are gone. */
    method DelNode(nodeoffset: int, ghost p: Path) returns (err: int)
      requires Valid() && NodeArg(nodeoffset, p) && p != []
      modifies this`sizeStruct, this`offStrings, this`root, buf
      ensures Valid() && Reserve() == old(Reserve()) && Strings() == old(Strings())
      ensures err == if CheckNodeOffset(old(Struct()), nodeoffset) < 0 then -FDT_ERR_BADOFFSET else 0
      ensures err != 0 ==> root == old(root)
      ensures err == 0 ==>
                ValidPath(old(root), p) && ParentOf(old(root), p) &&
                root == PutItems(old(root), p[..|p| - 1], p[|p| - 1], p[|p| - 1] + 1, [])
    {
      hide WfNode, Proper, Encode, ItemOff, NodeOff, NextTag, Struct, Strings, Reserve, Splice, PutItems, NodeEndFrom,
           Scannable;
      var s := buf[offStruct..offStruct + sizeStruct];
      StructIs();
      if CheckNodeOffset(s, nodeoffset) < 0 {
        return -FDT_ERR_BADOFFSET;
      }
      ArgFacts(nodeoffset, p);
      NodeEndOnTree(root, p);
      var end := ReadNodeEnd(s, nodeoffset);
      ghost var q, i := p[..|p| - 1], p[|p| - 1];
      RemoveEdit(root, q, i, Strings());
      err := SpliceStruct(nodeoffset, end - nodeoffset, 0);
      assert Struct()[nodeoffset..nodeoffset + 0] == [];
      root := PutItems(root, q, i, i + 1, []);
    }

    /** fdt_add_subnode: a new empty subnode before the others; its offset, or an error. */
    method AddSubnode(parent: int, name: Bytes, ghost p: Path) returns (r: int)
      requires Valid() && NodeArg(parent, p) && NulFree(name) && |name| + 32 <= FDT_MAX_SIZE
      modifies this`sizeStruct, this`offStrings, this`root, buf
      ensures Valid() && Reserve() == old(Reserve()) && Strings() == old(Strings())
      ensures r < 0 ==> root == old(root)
      ensures CheckNodeOffset(old(Struct()), parent) < 0 ==> r == -FDT_ERR_BADOFFSET
      ensures CheckNodeOffset(old(Struct()), parent) >= 0 ==>
                ValidPath(old(root), p) &&
                var items := old(At(root, p).items);
                if MatchIndex(items, name) < |items| then r == -FDT_ERR_EXISTS
                else if old(DataSize()) + 8 + AlignUp(|name| + 1) > totalSize then r == -FDT_ERR_NOSPACE
                else r >= 0
      ensures r >= 0 ==>
                ValidPath(old(root), p) && NodeAdded(old(root), root, p, name) &&
                  r == ItemOff(old(root), p, LeadCount(old(At(root, p).items)))
    {
      hide WfNode, Proper, Encode, Scannable, ItemOff, NodeOff, NextTag, Struct, Strings, Reserve, AlignUp, Splice,
           PutItems, MatchIndex, LeadCount, EmptyNode, Word, SubnodeOffsetFrom, AfterProps;
      var s := buf[offStruct..offStruct + sizeStruct];
      StructIs();
      if CheckNodeOffset(s, parent) < 0 {
        return -FDT_ERR_BADOFFSET;
      }
      ArgFacts(parent, p);
      SubnodeOnTree(root, p, name);
      var offset := ReadSubnodeOffset(s, parent, name);
      if offset >= 0 {
        return -FDT_ERR_EXISTS;
      } else if offset != NOTFOUND {
        return offset;
      }
      AfterPropsOnTree(root, p);
      AddSubnodeEdit(root, p, name, Strings());
      offset := ReadAfterProps(s, CheckNodeOffset(s, parent));
      var err := OpenNode(offset, name);
      if err != 0 {
        return err;
      }
      ghost var i := LeadCount(At(root, p).items);
      root := PutItems(root, p, i, i, [Child(EmptyNode(name))]);
      return offset;
    }

    /** Open room for an empty node at `offset` and store it. */
    method OpenNode(offset: nat, name: Bytes) returns (err: int)
      requires Layout() && offset <= sizeStruct && |name| + 32 <= FDT_MAX_SIZE
      modifies this`sizeStruct, this`offStrings, buf
      ensures Layout() && Strings() == old(Strings()) && Reserve() == old(Reserve())
      ensures err == if old(DataSize()) + 8 + AlignUp(|name| + 1) > totalSize then -FDT_ERR_NOSPACE else 0
      ensures err != 0 ==> Struct() == old(Struct())
      ensures err == 0 ==>
                Struct() == Splice(old(Struct()), offset, 0,
                                   Word(FDT_BEGIN_NODE) + (name + [0]) + EmptyNode(name).pad + Word(FDT_END_NODE))
    {
      hide Struct, Strings, Reserve, Word, AlignUp, Splice, EmptyNode;
      ghost var s0, pad := Struct(), EmptyNode(name).pad;
      EmptyPad(name);
      var area := AlignUp(|name| + 1);
      err := SpliceStruct(offset, 0, 8 + area);
      if err == 0 {
        ghost var gap := Struct()[offset..offset + 8 + area];
        NodeInGap(s0, offset, gap, name, pad);
        WriteStruct(offset, Word(FDT_BEGIN_NODE));
        WriteStruct(offset + 4, seq(area, _ => 0));
        WriteStruct(offset + 4, name);
        WriteStruct(offset + 4 + area, Word(FDT_END_NODE));
      }
    }

    /** fdt_nop_region_: NOP words over `len` bytes, rounded up to whole words. */
    method NopRegion(start: nat, len: nat)
      requires Layout() && start + AlignUp(len) <= sizeStruct
      modifies buf
      ensures Strings() == old(Strings()) && Reserve() == old(Reserve())
      ensures AlignUp(len) == 4 * ((len + 3) / 4)
      ensures Struct() == Splice(old(Struct()), start, AlignUp(len), NopBytes((len + 3) / 4))
    {
      hide Struct, Strings, Reserve, Word, Splice, NopBytes;
      ghost var s0 := Struct();
      var k := 0;
      NopStart(s0, start);
      while 4 * k < len
        invariant 4 * k <= AlignUp(len) && k <= (len + 3) / 4
        invariant Strings() == old(Strings()) && Reserve() == old(Reserve())
        invariant Struct() == Splice(s0, start, 4 * k, NopBytes(k))
      {
        WriteStruct(start + 4 * k, Word(FDT_NOP));
        NopStep(s0, start, k);
        k := k + 1;
      }
    }

    /** fdt_nop_property: the property is overwritten with NOPs, nothing moves. */
    method NopProperty(nodeoffset: int, name: Bytes, ghost p: Path) returns (err: int)
      requires Valid() && NodeArg(nodeoffset, p)
      modifies this`root, buf
      ensures Valid() && Reserve() == old(Reserve()) && Strings() == old(Strings())
      ensures CheckNodeOffset(old(Struct()), nodeoffset) < 0 ==> err == -FDT_ERR_BADOFFSET
      ensures CheckNodeOffset(old(Struct()), nodeoffset) >= 0 ==>
                ValidPath(old(root), p) &&
                err == if old(Found(name, p)) < |old(At(root, p).items)| then 0 else NOTFOUND
      ensures err != 0 ==> root == old(root)
      ensures err == 0 ==>
                exists m: nat :: root == old(PutItems(root, p, Found(name, p), Found(name, p) + 1, Nops(m)))
    {
      hide WfNode, Proper, Encode, Scannable, ItemOff, NodeOff, Found, NextTag, Struct, Strings, Reserve, AlignUp,
           Splice, PutItems, ReadWord, NopBytes, Nops;
      err := GetPropertyOffset(nodeoffset, name, p);
      if err < 0 {
        return;
      }
      var prop := err;
      ghost var i := Found(name, p);
      StructIs();
      FoundFacts(name, p);
      PropLen(i, p);
      PropItemSize(root, p, i);
      var len := ReadWord(buf[offStruct..offStruct + sizeStruct], prop + 4);
      AlignFacts(12, len);
      NopRegion(prop, len + 12);
      NopEdit(root, p, i, (len + 12 + 3) / 4, Strings());
      root := PutItems(root, p, i, i + 1, Nops((len + 12 + 3) / 4));
      err := 0;
    }

    /** fdt_nop_node on a node that is not the root. */
    method NopNode(nodeoffset: int, ghost p: Path) returns (err: int)
      requires Valid() && NodeArg(nodeoffset, p) && p != []
      modifies this`root, buf
      ensures Valid() && Reserve() == old(Reserve()) && Strings() == old(Strings())
      ensures err == if CheckNodeOffset(old(Struct()), nodeoffset) < 0 then -FDT_ERR_BADOFFSET else 0
      ensures err != 0 ==> root == old(root)
      ensures err == 0 ==>
                ValidPath(old(root), p) && ParentOf(old(root), p) &&
                exists m: nat :: root == PutItems(old(root), p[..|p| - 1], p[|p| - 1], p[|p| - 1] + 1, Nops(m))
    {
      hide WfNode, Proper, Encode, ItemOff, NodeOff, NextTag, Struct, Strings, Reserve, Splice, PutItems, NodeEndFrom,
           Scannable, AlignUp, NopBytes, Nops;
      var s := buf[offStruct..offStruct + sizeStruct];
      StructIs();
      if CheckNodeOffset(s, nodeoffset) < 0 {
        return -FDT_ERR_BADOFFSET;
      }
      ArgFacts(nodeoffset, p);
      NodeEndOnTree(root, p);
      var end := ReadNodeEnd(s, nodeoffset);
      ghost var q, i := p[..|p| - 1], p[|p| - 1];
      RemoveEdit(root, q, i, Strings());
      ItemOffAligned(root, q, i);
      ItemOffAligned(root, q, i + 1);
      WholeWords(nodeoffset, end);
      NopRegion(nodeoffset, end - nodeoffset);
      NopEdit(root, q, i, (end - nodeoffset + 3) / 4, Strings());
      root := PutItems(root, q, i, i + 1, Nops((end - nodeoffset + 3) / 4));
      return 0;
    }

    lemma StructIs()
      requires Layout()
      ensures Struct() == buf[offStruct..offStruct + sizeStruct] &&
              Strings() == buf[offStrings..offStrings + sizeStrings]
    {
    }

    lemma BlocksAre()
      requires Layout()
      ensures Struct() == Part(buf[..], offStruct, sizeStruct)
      ensures Strings() == Part(buf[..], offStrings, sizeStrings)
      ensures Reserve() == Part(buf[..], offReserve, offStruct - offReserve)
    {
    }
  }

  /** The name with its NUL lies somewhere in the strings, perhaps as the end of another one. */
  ghost predicate Lies(strs: Bytes, name: Bytes) {
    exists off: nat :: Has(strs, off, name + [0])
  }

  /** The first place where it lies. */
  ghost predicate FirstAt(strs: Bytes, off: nat, name: Bytes) {
    Has(strs, off, name + [0]) && forall o: nat :: o < off ==> !Has(strs, o, name + [0])
  }

  /** fdt_find_string_: the first place where `name` and its NUL lie, and None only when they lie nowhere. */
  method FindString(strs: Bytes, name: Bytes) returns (r: Option<nat>)
    ensures r.Some? ==> FirstAt(strs, r.value, name)
    ensures r.Some? <==> Lies(strs, name)
  {
    var s := name + [0];
    var p := 0;
    while p + |name| + 1 <= |strs|
      invariant forall o: nat :: o < p ==> !Has(strs, o, s)
      decreases |strs| - p
    {
      if strs[p..p + |name| + 1] == s {
        assert Has(strs, p, s);
        return Some(p);
      }
      p := p + 1;
    }
    return None;
  }

  /** Then and only then some offset reads as the name. */
  lemma LiesWhereRead(strs: Bytes, name: Bytes)
    requires NulFree(name) && |strs| < FDT_MAX_SIZE
    ensures Lies(strs, name) <==> exists off: u32 :: GetString(strs, off) == Some(name)
  {
    hide GetString;
    if Lies(strs, name) {
      var off: nat :| Has(strs, off, name + [0]);
      assert off < |strs|;
      StringAt(strs, off, name);
    }
    if off: u32 :| GetString(strs, off) == Some(name) {
      StringThere(strs, off, name);
    }
  }

  lemma StringThere(strs: Bytes, off: u32, name: Bytes)
    requires GetString(strs, off) == Some(name)
    ensures Has(strs, off, name + [0])
  {
    var e := FindNul(strs, off);
    assert strs[off..e + 1] == strs[off..e] + [0];
  }

  lemma StringAt(strs: Bytes, off: nat, name: Bytes)
    requires Has(strs, off, name + [0]) && NulFree(name) && |strs| < FDT_MAX_SIZE
    ensures GetString(strs, off) == Some(name)
  {
    FindNulIs(strs, off, name);
    HasSplit(strs, off, name, [0]);
  }

  lemma FoundThere(strs: Bytes, off: nat, name: Bytes)
    requires FirstAt(strs, off, name) && NulFree(name) && |strs| < FDT_MAX_SIZE
    ensures off < |strs| && GetString(strs, off) == Some(name)
  {
    hide GetString;
    StringAt(strs, off, name);
  }

  lemma StringAtEnd(strs: Bytes, name: Bytes)
    requires NulFree(name) && |strs| + |name| + 1 < FDT_MAX_SIZE
    ensures GetString(strs + (name + [0]), |strs|) == Some(name)
  {
    hide GetString;
    StringAt(strs + (name + [0]), |strs|, name);
  }

  /** Bytes a new name takes in the strings block: none when it is there already. */
  ghost function NameBytes(strs: Bytes, name: Bytes): Bytes {
    if Lies(strs, name) then [] else name + [0]
  }

  ghost function NameRoom(strs: Bytes, name: Bytes): nat {
    |NameBytes(strs, name)|
  }

  /** `n'` is `n` with a new first property of `len` bytes at byte offset `prop`. */
  ghost predicate Added(n: Node, n': Node, p: Path, prop: nat, len: nat) {
    WfNode(n) && WfNode(n') && ValidPath(n, p) && ValidPath(n', p) && |At(n', p).items| > 0 &&
    var it := At(n', p).items[0];
    it.Prop? && |it.value| == len && n' == PutItems(n, p, 0, 0, [it]) && prop == ItemOff(n', p, 0)
  }

  lemma AddedIs(n: Node, p: Path, prop: nat, nameoff: u32, len: nat, g: Bytes)
    requires WfNode(n) && ValidPath(n, p) && len <= |g| && prop == ItemOff(n, p, 0)
    requires WfNode(PutItems(n, p, 0, 0, [GapProp(nameoff, len, g)]))
    ensures var n' := PutItems(n, p, 0, 0, [GapProp(nameoff, len, g)]);
            Added(n, n', p, prop, len) && At(n', p).items[0].nameoff == nameoff
  {
    hide Off, Stream, WfNode;
    var n' := PutItems(n, p, 0, 0, [GapProp(nameoff, len, g)]);
    PutFacts(n, p, At(n, p).(items := Splice(At(n, p).items, 0, 0, [GapProp(nameoff, len, g)])));
    SameOff(n, n', p, 0, 0, [GapProp(nameoff, len, g)]);
  }

  lemma PropExtent(n: Node, p: Path, i: nat, strs: Bytes)
    requires WfNode(n) && Proper(n, strs) && ValidPath(n, p) && i < |At(n, p).items| && At(n, p).items[i].Prop?
    ensures var o := ItemOff(n, p, i);
            o + 12 + AlignUp(|At(n, p).items[i].value|) <= |Encode(n)| &&
            ReadWord(Encode(n), o + 4) == |At(n, p).items[i].value|
  {
    hide WfNode, Proper, Encode, ItemOff, ReadWord, PutItems, GapProp, Splice;
    ResizePropEdit(n, p, i, strs, 0, []);
  }

  /** `n'` is `n` with property item `i` of the node at `p` resized to `len` bytes; it lies at `prop`. */
  ghost predicate Resized(n: Node, n': Node, p: Path, i: nat, prop: nat, len: nat) {
    WfNode(n) && WfNode(n') && ValidPath(n, p) && ValidPath(n', p) &&
    i < |At(n, p).items| == |At(n', p).items| && At(n, p).items[i].Prop? &&
    var it := At(n', p).items[i];
    it.Prop? && |it.value| == len && it.nameoff == At(n, p).items[i].nameoff &&
    n' == PutItems(n, p, i, i + 1, [it]) && prop == ItemOff(n', p, i)
  }

  lemma ResizedIs(n: Node, p: Path, i: nat, prop: nat, len: nat, g: Bytes)
    requires WfNode(n) && ValidPath(n, p) && i < |At(n, p).items| && At(n, p).items[i].Prop? && len <= |g|
    requires prop == ItemOff(n, p, i)
    requires WfNode(PutItems(n, p, i, i + 1, [GapProp(At(n, p).items[i].nameoff, len, g)]))
    ensures Resized(n, PutItems(n, p, i, i + 1, [GapProp(At(n, p).items[i].nameoff, len, g)]), p, i, prop, len)
  {
    hide Off, Stream, WfNode;
    var it := GapProp(At(n, p).items[i].nameoff, len, g);
    var n' := PutItems(n, p, i, i + 1, [it]);
    PutFacts(n, p, At(n, p).(items := Splice(At(n, p).items, i, 1, [it])));
    SameOff(n, n', p, i, i + 1, [it]);
  }

  /**
   `n'` is `n` with property `name` of the node at `p` set to `value`: the first property of that
   name replaced, or a new first property.
   */
  ghost predicate SetIn(n: Node, n': Node, p: Path, strs: Bytes, strs': Bytes, name: Bytes, value: Bytes) {
    ValidPath(n, p) &&
    var items := At(n, p).items;
    var i := PropIndex(items, strs, name);
    exists it: Item ::
      it.Prop? && it.value == value && GetString(strs', it.nameoff) == Some(name) &&
      n' == if i < |items| then PutItems(n, p, i, i + 1, [it]) else PutItems(n, p, 0, 0, [it])
  }

  lemma AddedFacts(n: Node, n': Node, p: Path, prop: nat, len: nat)
    requires Added(n, n', p, prop, len)
    ensures ValidPath(n, p) && ValidPath(n', p) && |At(n', p).items| > 0 && At(n', p).items[0].Prop?
    ensures |At(n', p).items[0].value| == len && WfNode(n') && prop == ItemOff(n', p, 0)
  {
    hide PutItems, ItemOff, WfNode;
  }

  lemma ResizedFacts(n: Node, n': Node, p: Path, i: nat, prop: nat, len: nat)
    requires Resized(n, n', p, i, prop, len)
    ensures ValidPath(n, p) && ValidPath(n', p) && i < |At(n', p).items| && At(n', p).items[i].Prop?
    ensures |At(n', p).items[i].value| == len && WfNode(n') && prop == ItemOff(n', p, i)
  {
    hide PutItems, ItemOff, WfNode;
  }

  lemma SetInAdded(n: Node, n1: Node, n': Node, p: Path, prop: nat, strs: Bytes, strs': Bytes, name: Bytes,
                   value: Bytes)
    requires Added(n, n1, p, prop, |value|) && PropIndex(At(n, p).items, strs, name) == |At(n, p).items|
    requires GetString(strs', At(n1, p).items[0].nameoff) == Some(name)
    requires n' == PutItems(n1, p, 0, 1, [At(n1, p).items[0].(value := value)])
    ensures SetIn(n, n', p, strs, strs', name, value)
  {
    hide GetString, WfNode, ItemOff;
    var it := At(n1, p).items[0].(value := value);
    TwoEdits(n, p, 0, 0, At(n1, p).items[0], it);
  }

  lemma SetInResized(n: Node, n1: Node, n': Node, p: Path, prop: nat, strs: Bytes, name: Bytes, value: Bytes)
    requires ValidPath(n, p)
    requires var i := PropIndex(At(n, p).items, strs, name);
             Resized(n, n1, p, i, prop, |value|) &&
             n' == PutItems(n1, p, i, i + 1, [At(n1, p).items[i].(value := value)])
    ensures SetIn(n, n', p, strs, strs, name, value)
  {
    hide GetString, WfNode, ItemOff;
    var i := PropIndex(At(n, p).items, strs, name);
    TwoEdits(n, p, i, i + 1, At(n1, p).items[i], At(n1, p).items[i].(value := value));
  }

  /** Putting an item in and then another in its place is putting in the other. */
  lemma TwoEdits(n: Node, p: Path, i: nat, j: nat, a: Item, b: Item)
    requires ValidPath(n, p) && i <= j <= |At(n, p).items|
    ensures var n1 := PutItems(n, p, i, j, [a]);
            ValidPath(n1, p) && i < |At(n1, p).items| && At(n1, p).items[i] == a &&
            PutItems(n1, p, i, i + 1, [b]) == PutItems(n, p, i, j, [b])
  {
    var items := At(n, p).items;
    var m := At(n, p).(items := Splice(items, i, j - i, [a]));
    PutFacts(n, p, m);
    assert Splice(m.items, i, 1, [b]) == Splice(items, i, j - i, [b]);
  }

  /** An edit moves nothing before it. */
  lemma SameOff(n: Node, n': Node, p: Path, i: nat, j: nat, new': seq<Item>)
    requires WfNode(n) && WfNode(n') && ValidPath(n, p) && ValidPath(n', p) && i <= j <= |At(n, p).items|
    requires n' == PutItems(n, p, i, j, new')
    ensures At(n', p).items == Splice(At(n, p).items, i, j - i, new') && i <= |At(n', p).items|
    ensures ItemOff(n', p, i) == ItemOff(n, p, i)
  {
    hide Flat, WfNode, Enc, WfTokens, FlatItems, Splice, Stream;
    StreamFacts(n);
    StreamFacts(n');
    PutFacts(n, p, At(n, p).(items := Splice(At(n, p).items, i, j - i, new')));
    FlatPutItems(n, p, i, j, new');
    StreamSplice(n, n', ItemPos(n, p, i), |FlatItems(At(n, p).items[i..j])|, FlatItems(new'));
    ItemPosBound(n, p, i);
    SplicePrefix(At(n, p).items, i, j - i, new');
    ItemPosBound(n', p, i);
    SplicePrefix(Stream(n), ItemPos(n, p, i), |FlatItems(At(n, p).items[i..j])|, FlatItems(new'));
  }

  lemma SplicePrefix<T>(s: seq<T>, at: nat, n: nat, d: seq<T>)
    requires at + n <= |s|
    ensures |Splice(s, at, n, d)| == |s| - n + |d| && Splice(s, at, n, d)[..at] == s[..at]
  {
  }

  /** `n'` is `n` with an empty subnode before the other subnodes of the node at `p`. */
  ghost predicate NodeAdded(n: Node, n': Node, p: Path, name: Bytes) {
    ValidPath(n, p) &&
    var i := LeadCount(At(n, p).items);
    n' == PutItems(n, p, i, i, [Child(EmptyNode(name))])
  }

  lemma EmptyPad(name: Bytes)
    ensures var pad := EmptyNode(name).pad;
            |name| + 1 + |pad| == AlignUp(|name| + 1) && forall i :: 0 <= i < |pad| ==> pad[i] == 0
  {
  }

  lemma NopStart(s: Bytes, start: nat)
    requires start <= |s|
    ensures s == Splice(s, start, 0, NopBytes(0))
  {
  }

  lemma NopStep(s: Bytes, start: nat, k: nat)
    requires start + 4 * k + 4 <= |s|
    ensures var t := Splice(s, start, 4 * k, NopBytes(k));
            |t| == |s| && Splice(t, start + 4 * k, 4, Word(FDT_NOP)) == Splice(s, start, 4 * (k + 1), NopBytes(k + 1))
  {
    hide Word;
    var a, b, c := s[..start] + NopBytes(k), s[start + 4 * k..start + 4 * k + 4], s[start + 4 * k + 4..];
    assert Splice(s, start, 4 * k, NopBytes(k)) == a + b + c;
    SpliceMiddle(a, b, c, Word(FDT_NOP));
  }

  lemma WholeWords(a: nat, b: nat)
    requires a <= b && a % 4 == 0 && b % 4 == 0
    ensures AlignUp(b - a) == b - a == 4 * ((b - a + 3) / 4)
  {
    var m := b / 4 - a / 4;
    assert b - a == 4 * m;
    ModShift(m, 3);
  }

  lemma GapIs(s: Bytes, at: nat, h: Bytes, g: Bytes)
    requires at <= |s|
    ensures var t := Splice(s, at, 0, h + g);
            |t| == |s| + |h| + |g| && t[at + |h|..at + |h| + |g|] == g
  {
    assert Splice(s, at, 0, h + g) == (s[..at] + h) + g + s[at..];
  }

  lemma ProperGrows(n: Node, strs: Bytes, extra: Bytes)
    requires Proper(n, strs)
    ensures Proper(n, strs + extra) && View(n, strs + extra) == View(n, strs)
  {
    hide *;
    ViewGrows(n, strs, extra);
  }

  lemma Rollback(strs: Bytes, name: Bytes)
    ensures (strs + (name + [0]))[..|strs|] == strs && strs + [] == strs
  {
  }

  lemma SamePrefix<T>(x: seq<T>, y: seq<T>, n: nat, a: nat, b: nat)
    requires a <= b <= n <= |x| && n <= |y| && x[..n] == y[..n]
    ensures x[a..b] == y[a..b]
  {
    assert x[a..b] == x[..n][a..b] && y[a..b] == y[..n][a..b];
  }

  lemma SliceOf<T>(s: seq<T>, i: nat, j: nat, a: nat, b: nat)
    requires i <= j <= |s| && a <= b <= j - i
    ensures s[i..j][a..b] == s[i + a..i + b]
  {
    var t := s[i..j];
    var u, v := t[a..b], s[i + a..i + b];
    forall k | 0 <= k < b - a
      ensures u[k] == v[k]
    {
      assert u[k] == t[a + k];
    }
  }

  lemma SameRange<T>(x: seq<T>, i: nat, y: seq<T>, j: nat, n: nat, a: nat, b: nat)
    requires a <= b <= n && i + n <= |x| && j + n <= |y| && x[i..i + n] == y[j..j + n]
    ensures x[i + a..i + b] == y[j + a..j + b]
  {
    SliceOf(x, i, i + n, a, b);
    SliceOf(y, j, j + n, a, b);
  }

  /** The blocks of a buffer. */
  ghost function Part(a: Bytes, off: nat, size: nat): (s: Bytes)
    requires off + size <= |a|
    ensures |s| == size
  {
    a[off..off + size]
  }

  /** The bytes before `p` stayed, and those from `p + oldLen` to `end` now follow `newLen` bytes. */
  ghost predicate Moved(a: Bytes, b: Bytes, p: nat, oldLen: nat, newLen: nat, end: nat) {
    p + oldLen <= end && end <= |a| && end - oldLen + newLen <= |b| == |a| &&
    b[..p] == a[..p] && b[p + newLen..end - oldLen + newLen] == a[p + oldLen..end]
  }

  lemma MovedIs(a: Bytes, b: Bytes, p: nat, oldLen: nat, newLen: nat, end: nat)
    requires p + oldLen <= end <= |a| == |b| && end - oldLen + newLen <= |b|
    requires forall i :: 0 <= i < p ==> b[i] == a[i]
    requires forall i :: p + newLen <= i < end - oldLen + newLen ==> b[i] == a[i - newLen + oldLen]
    ensures Moved(a, b, p, oldLen, newLen, end)
  {
    var u, v := b[p + newLen..end - oldLen + newLen], a[p + oldLen..end];
    forall k | 0 <= k < end - p - oldLen
      ensures u[k] == v[k]
    {
      assert u[k] == b[p + newLen + k];
    }
  }

  lemma BlockEnds(a: Bytes, st: nat, size: nat, at: nat, len: nat)
    requires at + len <= size && st + size <= |a|
    ensures Part(a, st, size)[..at] == a[st..st + at]
    ensures Part(a, st, size)[at + len..] == a[st + at + len..st + size]
  {
  }

  /** What moving the tail of the data does to each block. */
  lemma SpliceBlocks(a: Bytes, b: Bytes, reserve: nat, st: nat, stSize: nat, strs: nat, strsSize: nat,
                     at: nat, oldLen: nat, newLen: nat)
    requires reserve <= st && st + stSize <= strs && strs + strsSize <= |a| == |b| && at + oldLen <= stSize
    requires strs + strsSize - oldLen + newLen <= |a|
    requires Moved(a, b, st + at, oldLen, newLen, strs + strsSize)
    ensures var s, s' := Part(a, st, stSize), Part(b, st, stSize - oldLen + newLen);
            s' == Splice(s, at, oldLen, s'[at..at + newLen])
    ensures Part(b, strs - oldLen + newLen, strsSize) == Part(a, strs, strsSize)
    ensures Part(b, reserve, st - reserve) == Part(a, reserve, st - reserve)
  {
    hide Splice;
    var p, q := st + at + oldLen, st + at + newLen;
    var n, k := strs + strsSize - p, st + stSize - p;
    SamePrefix(b, a, st + at, reserve, st);
    SameRange(b, q, a, p, n, strs - p, n);
    var s, s' := Part(a, st, stSize), Part(b, st, stSize - oldLen + newLen);
    SamePrefix(b, a, st + at, st, st + at);
    SameRange(b, q, a, p, n, 0, k);
    BlockEnds(a, st, stSize, at, oldLen);
    BlockEnds(b, st, stSize - oldLen + newLen, at, newLen);
    SpliceFrom(s, s', at, oldLen, newLen);
  }

  lemma PartSpliceInside(a: Bytes, off: nat, size: nat, at: nat, data: Bytes)
    requires off + size <= |a| && at + |data| <= size
    ensures Part(Splice(a, off + at, |data|, data), off, size) == Splice(Part(a, off, size), at, |data|, data)
  {
    var x, y, z := a[..off], a[off..off + size], a[off + size..];
    assert a == x + y + z;
    SpliceInner(x, y, z, at, |data|, data);
    hide Splice;
    PartMiddle(x, Splice(y, at, |data|, data), z) by {
      SpliceLen(y, at, |data|, data);
    }
    SpliceLen(y, at, |data|, data);
  }

  lemma SpliceLen<T>(s: seq<T>, at: nat, n: nat, d: seq<T>)
    requires at + n <= |s|
    ensures |Splice(s, at, n, d)| == |s| - n + |d|
  {
  }

  lemma PartMiddle(x: Bytes, y: Bytes, z: Bytes)
    ensures Part(x + y + z, |x|, |y|) == y
  {
  }

  lemma PartSpliceOutside(a: Bytes, off: nat, size: nat, dst: nat, data: Bytes)
    requires off + size <= |a| && dst + |data| <= |a| && (off + size <= dst || dst + |data| <= off)
    ensures Part(Splice(a, dst, |data|, data), off, size) == Part(a, off, size)
  {
    var s := Splice(a, dst, |data|, data);
    if off + size <= dst {
      assert s[..dst] == a[..dst];
      SamePrefix(s, a, dst, off, off + size);
    } else {
      var k := dst + |data|;
      assert s == (a[..dst] + data) + a[k..];
      assert s[k..] == a[k..];
      assert s[k..k + (|a| - k)] == s[k..] && a[k..k + (|a| - k)] == a[k..];
      SameRange(s, k, a, k, |a| - k, off - k, off - k + size);
    }
  }

  lemma PartSpliceAfter(a: Bytes, off: nat, size: nat, data: Bytes)
    requires off + size + |data| <= |a|
    ensures Part(Splice(a, off + size, |data|, data), off, size + |data|) == Part(a, off, size) + data
  {
    var x, y, z := a[..off], a[off..off + size], a[off + size + |data|..];
    assert a[..off + size] == x + y;
    assert Splice(a, off + size, |data|, data) == x + (y + data) + z;
    PartMiddle(x, y + data, z);
  }

  lemma PartsMoved(a: Bytes, b: Bytes, p: nat, newLen: nat, end: nat, off: nat, size: nat)
    requires Moved(a, b, p, 0, newLen, end) && off + size <= p
    ensures Part(a, off, size) == Part(b, off, size)
  {
    SamePrefix(a, b, p, off, off + size);
  }

  lemma SpliceFrom<T>(s: seq<T>, s': seq<T>, at: nat, oldLen: nat, newLen: nat)
    requires at + oldLen <= |s| && |s'| == |s| - oldLen + newLen
    requires s'[..at] == s[..at] && s'[at + newLen..] == s[at + oldLen..]
    ensures s' == Splice(s, at, oldLen, s'[at..at + newLen])
  {
    assert s' == s'[..at] + s'[at..at + newLen] + s'[at + newLen..];
  }

  lemma ValidAgain(b: Blob)
    requires b.Layout() && WfNode(b.root) && b.Struct() == Encode(b.root) && Proper(b.root, b.Strings())
    ensures b.Valid()
  {
    hide WfNode, Encode, Proper;
  }
}
