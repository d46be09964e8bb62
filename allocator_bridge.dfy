/** The host's writer of guest strings, `writeNameToMemory` in go/main.go: it
    UTF-16-encodes a name, asks the guest's `allocate` export for exactly two
    bytes per code unit, and stores each unit little-endian from the returned
    offset, with no terminator. */
module AllocatorBridge {
  import opened Wire
  import Utf16

  /** `mem` with `bytes` laid over it from index `off`. */
  function Patch(mem: seq<uint8>, off: nat, bytes: seq<uint8>): (r: seq<uint8>)
    requires off + |bytes| <= |mem|
    ensures |r| == |mem|
    ensures forall j :: 0 <= j < |mem| ==> r[j] == if off <= j < off + |bytes| then bytes[j - off] else mem[j]
  {
    mem[..off] + bytes + mem[off + |bytes|..]
  }

  /** The number of bytes the writer asks the allocator for: two per code unit,
      so between two and four per character. */
  function RequestSize(name: string): (n: nat)
    ensures 2 * |name| <= n <= 4 * |name|
  {
    2 * |Utf16.Encode(name)|
  }

  /** The outcome of `writeNameToMemory` and the memory afterwards, given what
      `allocate` answered: an allocation error is returned with nothing written;
      an offset outside the memory panics when the memory is sliced; a region
      that runs past the end panics at the first unit that does not fit, after
      the units before it have been stored. */
  function WriteName(name: string, mem: seq<uint8>, reply: Option<Int32>): (out: (Result<Int32>, seq<uint8>))
    ensures |out.1| == |mem|
    ensures out.0.Fail? <==> reply.None?
    ensures out.0.Fail? ==> out.0.error == AllocateFailed && out.1 == mem
    ensures out.0.Ok? ==> out.0 == Ok(reply.value)
    ensures reply.Some? && (reply.value < 0 || reply.value > |mem|) ==> out == (Panic, mem)
  {
    var units := Utf16.Encode(name);
    match reply
    case None => (Fail(AllocateFailed), mem)
    case Some(off) =>
      if off < 0 || off > |mem| then (Panic, mem)
      else if off + 2 * |units| <= |mem| then (Ok(off), Patch(mem, off, LittleEndian(units)))
      else (Panic, Patch(mem, off, LittleEndian(units[..(|mem| - off) / 2])))
  }

  lemma LittleEndianSnoc(units: seq<uint16>, k: nat)
    requires k < |units|
    ensures LittleEndian(units[..k + 1]) == LittleEndian(units[..k]) + [LowByte(units[k]), HighByte(units[k])]
  {
    assert units[..k + 1][..k] == units[..k];
  }

  lemma PatchSnoc(mem: seq<uint8>, off: nat, bytes: seq<uint8>, x: uint8, y: uint8)
    requires off + |bytes| + 2 <= |mem|
    ensures Patch(mem, off, bytes + [x, y]) == Patch(mem, off, bytes)[off + |bytes| := x][off + |bytes| + 1 := y]
  {
    var a := Patch(mem, off, bytes + [x, y]);
    var b := Patch(mem, off, bytes)[off + |bytes| := x][off + |bytes| + 1 := y];
    forall j | 0 <= j < |mem|
      ensures a[j] == b[j]
    {
    }
  }

  lemma PatchStep(mem: seq<uint8>, off: nat, units: seq<uint16>, k: nat)
    requires k < |units| && off + 2 * k + 2 <= |mem|
    ensures Patch(mem, off, LittleEndian(units[..k + 1])) ==
              Patch(mem, off, LittleEndian(units[..k]))[off + 2 * k := LowByte(units[k])][off + 2 * k + 1 := HighByte(units[k])]
  {
    LittleEndianSnoc(units, k);
    PatchSnoc(mem, off, LittleEndian(units[..k]), LowByte(units[k]), HighByte(units[k]));
  }

  /** The encoding loop: stores `units` little-endian from `off`, one unit at a
      time, and stops, reporting false, at the first unit whose two bytes do not
      both lie inside the buffer. */
  method StoreUnits(mem: array<uint8>, off: nat, units: seq<uint16>) returns (complete: bool)
    requires off <= mem.Length
    modifies mem
    ensures complete <==> off + 2 * |units| <= mem.Length
    ensures complete ==> mem[..] == Patch(old(mem[..]), off, LittleEndian(units))
    ensures !complete ==> mem[..] == Patch(old(mem[..]), off, LittleEndian(units[..(mem.Length - off) / 2]))
  {
    ghost var before: seq<uint8> := mem[..];
    assert LittleEndian(units[..0]) == [];
    assert mem[..] == Patch(before, off, LittleEndian(units[..0]));
    var k := 0;
    while k < |units|
      invariant 0 <= k <= |units| && off + 2 * k <= mem.Length
      invariant mem[..] == Patch(before, off, LittleEndian(units[..k]))
    {
      if off + 2 * k + 1 >= mem.Length {
        assert k == (mem.Length - off) / 2;
        return false;
      }
      PatchStep(before, off, units, k);
      ghost var was: seq<uint8> := mem[..];
      mem[off + 2 * k] := LowByte(units[k]);
      mem[off + 2 * k + 1] := HighByte(units[k]);
      assert mem[..] == was[off + 2 * k := LowByte(units[k])][off + 2 * k + 1 := HighByte(units[k])];
      k := k + 1;
    }
    assert units[..k] == units;
    return true;
  }

  /** The writer over the memory buffer; `allocate` stands for the guest's
      allocation export. */
  method WriteNameToMemory(name: string, mem: array<uint8>, allocate: nat -> Option<Int32>) returns (r: Result<Int32>)
    modifies mem
    ensures (r, mem[..]) == WriteName(name, old(mem[..]), allocate(RequestSize(name)))
  {
    ghost var before: seq<uint8> := mem[..];
    var units := Utf16.Encode(name);
    var reply := allocate(2 * |units|);
    assert reply == allocate(RequestSize(name));
    if reply.None? {
      return Fail(AllocateFailed);
    }
    var off := reply.value;
    if off < 0 || off > mem.Length {
      return Panic;
    }
    var complete := StoreUnits(mem, off, units);
    if complete {
      assert WriteName(name, before, reply) == (Result<Int32>.Ok(off), Patch(before, off, LittleEndian(units)));
      r := Ok(off);
    } else {
      assert WriteName(name, before, reply) == (Result<Int32>.Panic, Patch(before, off, LittleEndian(units[..(|before| - off) / 2])));
      r := Panic;
    }
  }

  // ---------------------------------------------------------------------------
  // Properties of a write

  /** A failed allocation is reported as an error and leaves memory untouched. */
  lemma AllocationFailureWritesNothing(name: string, mem: seq<uint8>)
    ensures WriteName(name, mem, None) == (Fail(AllocateFailed), mem)
  {
  }

  /** The write succeeds exactly when the requested region lies inside memory,
      and then returns the allocator's offset. */
  lemma WriteSucceedsIffRegionFits(name: string, mem: seq<uint8>, off: Int32)
    ensures WriteName(name, mem, Some(off)).0.Ok? <==> 0 <= off && off + RequestSize(name) <= |mem|
    ensures WriteName(name, mem, Some(off)).0.Ok? ==> WriteName(name, mem, Some(off)).0.value == off
    ensures WriteName(name, mem, Some(off)).0.Fail? == false
  {
  }

  /** Laying the little-endian image of `units` over memory from `off` stores
      them there and leaves every other byte alone. */
  lemma PatchStores(mem: seq<uint8>, off: nat, units: seq<uint16>)
    requires off + 2 * |units| <= |mem|
    ensures StoredAt(Patch(mem, off, LittleEndian(units)), off, units)
    ensures forall j :: 0 <= j < |mem| && !(off <= j < off + 2 * |units|) ==> Patch(mem, off, LittleEndian(units))[j] == mem[j]
  {
    var after := Patch(mem, off, LittleEndian(units));
    var bytes := LittleEndian(units);
    forall k | 0 <= k < |units|
      ensures after[off + 2 * k] == LowByte(units[k]) && after[off + 2 * k + 1] == HighByte(units[k])
    {
      assert after[off + 2 * k] == bytes[2 * k];
      assert after[off + 2 * k + 1] == bytes[2 * k + 1];
    }
  }

  /** Byte layout of a successful write: byte `off + 2k` is the low byte and
      `off + 2k + 1` the high byte of unit k, no terminator follows, and every
      byte outside `[off, off + 2n)` keeps its value. */
  lemma WriteLayout(name: string, mem: seq<uint8>, off: Int32)
    requires 0 <= off && off + RequestSize(name) <= |mem|
    ensures var (r, after) := WriteName(name, mem, Some(off));
            && r == Ok(off)
            && |after| == |mem|
            && StoredAt(after, off, Utf16.Encode(name))
            && (forall j :: 0 <= j < |mem| && !(off <= j < off + RequestSize(name)) ==> after[j] == mem[j])
  {
    var units := Utf16.Encode(name);
    assert WriteName(name, mem, Some(off)) == (Ok(off), Patch(mem, off, LittleEndian(units)));
    PatchStores(mem, off, units);
  }

  /** A write whose region fits succeeds, and the requested region then holds
      exactly the little-endian encoding of the name. */
  lemma WrittenRegion(name: string, mem: seq<uint8>, off: Int32)
    requires 0 <= off && off + RequestSize(name) <= |mem|
    ensures WriteName(name, mem, Some(off)).0 == Ok(off)
    ensures WriteName(name, mem, Some(off)).1[off..off + RequestSize(name)] == LittleEndian(Utf16.Encode(name))
  {
    var bytes := LittleEndian(Utf16.Encode(name));
    var after := WriteName(name, mem, Some(off)).1;
    assert after == Patch(mem, off, bytes);
    assert after[off..off + |bytes|] == bytes;
  }

  /** A write that runs past the end of memory stores the units that fit whole,
      and nothing else, before it panics. */
  lemma OverrunWritesWholeUnitsThatFit(name: string, mem: seq<uint8>, off: Int32)
    requires 0 <= off <= |mem| < off + RequestSize(name)
    ensures var (r, after) := WriteName(name, mem, Some(off));
            var fit := (|mem| - off) / 2;
            && r == Panic
            && |after| == |mem|
            && StoredAt(after, off, Utf16.Encode(name)[..fit])
            && (forall j :: 0 <= j < |mem| && !(off <= j < off + 2 * fit) ==> after[j] == mem[j])
  {
    var fit := (|mem| - off) / 2;
    var units := Utf16.Encode(name)[..fit];
    assert |units| == fit;
    assert WriteName(name, mem, Some(off)) == (Panic, Patch(mem, off, LittleEndian(units)));
    PatchStores(mem, off, units);
  }
}
