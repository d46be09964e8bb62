/** The host's reader of guest strings, `readMemoryString` in go/main.go: it scans
    linear memory in 2-byte little-endian code units from an offset, skips every
    unit whose high byte is non-zero, stops at a unit of two zero bytes, and keeps
    the low byte of every other unit as a character.

    The loop limit is `int32(offset + len(data))`, not `len(data)`, and the index
    `i` is an int32, so both wrap around; an index outside the buffer is a Go
    runtime panic, which the model returns as `Panic`. */
module MemoryCodec {
  import opened Wire

  /** Text the decoder can produce: every character is a non-zero byte. */
  predicate IsDecodable(s: string) {
    forall k :: 0 <= k < |s| ==> 0 < s[k] as int < 0x100
  }

  /** Puts decoded characters in front of the rest of a scan; a panic stays one. */
  function Prepend(prefix: string, r: Result<string>): (p: Result<string>)
    ensures p.Ok? <==> r.Ok?
    ensures !r.Ok? ==> p == r
    ensures p.Ok? ==> p.value == prefix + r.value
  {
    if r.Ok? then Ok(prefix + r.value) else r
  }

  /** Decreases with every step of the scan: the index grows by 2 until it wraps
      around below -1, after which the scan ends at once. */
  function ScanMeasure(i: Int32): nat {
    if i < -1 then 0 else 0x8000_0001 - i
  }

  /** The scan loop from index `i` to the limit `size`. It yields a text or
      panics, and the text has at most one character per two bytes left. */
  function Scan(data: seq<uint8>, i: Int32, size: Int32): (r: Result<string>)
    ensures !r.Fail?
    ensures r.Ok? ==> 2 * |r.value| <= if i < 0 then |data| else if i <= |data| then |data| - i else 0
    decreases ScanMeasure(i)
  {
    if i >= size then Ok([])
    else if i + 1 < 0 || i + 1 >= |data| then Panic
    else if data[i + 1] != 0 then Scan(data, Wrap32(i + 2), size)
    else if i < 0 then Panic
    else if data[i] == 0 then Ok([])
    else Prepend([data[i] as char], Scan(data, Wrap32(i + 2), size))
  }

  /** Every character the scan yields is a non-zero byte. */
  lemma {:induction false} ScanYieldsDecodable(data: seq<uint8>, i: Int32, size: Int32)
    ensures Scan(data, i, size).Ok? ==> IsDecodable(Scan(data, i, size).value)
    decreases ScanMeasure(i)
  {
    if i < size && 0 <= i + 1 < |data| {
      var rest := Scan(data, Wrap32(i + 2), size);
      ScanYieldsDecodable(data, Wrap32(i + 2), size);
      if rest.Ok? && data[i + 1] == 0 && i >= 0 && data[i] != 0 {
        var c := data[i] as char;
        assert Scan(data, i, size).value == [c] + rest.value;
        assert forall k :: 0 <= k < |rest.value| ==> ([c] + rest.value)[k + 1] == rest.value[k];
      }
    }
  }

  /** The loop limit `int32(offset + len(data))`: the end of the buffer counted
      from the offset, truncated to 32 bits. */
  function LoopLimit(data: seq<uint8>, offset: Int32): (size: Int32)
    ensures (size - (offset + |data|)) % 0x1_0000_0000 == 0
    ensures offset + |data| <= MaxInt32 ==> size == offset + |data|
  {
    Wrap32(offset + |data|)
  }

  /** What `readMemoryString(data, offset)` computes: a text, or a panic. It
      never returns an error, and the text has at most one character per two
      bytes of the buffer. */
  function ReadString(data: seq<uint8>, offset: Int32): (r: Result<string>)
    ensures !r.Fail?
    ensures r.Ok? ==> 2 * |r.value| <= |data|
  {
    Scan(data, offset, LoopLimit(data, offset))
  }

  /** Whatever the decoder returns consists of non-zero bytes, one per character. */
  lemma ReadStringDecodable(data: seq<uint8>, offset: Int32)
    ensures ReadString(data, offset).Ok? ==> IsDecodable(ReadString(data, offset).value)
  {
    ScanYieldsDecodable(data, offset, LoopLimit(data, offset));
  }

  lemma PrependAppend(a: string, b: string, r: Result<string>)
    ensures Prepend(a, Prepend(b, r)) == Prepend(a + b, r)
  {
    if r.Ok? {
      assert a + (b + r.value) == (a + b) + r.value;
    }
  }

  /** The decoding loop itself, over the memory buffer. */
  method ReadMemoryString(data: array<uint8>, offset: Int32) returns (s: Result<string>)
    ensures s == ReadString(data[..], offset)
  {
    ghost var d := data[..];
    var runes: string := [];
    var size := Wrap32(offset + data.Length);
    var i: Int32 := offset;
    assert Prepend([], Scan(d, i, size)) == Scan(d, i, size) by {
      assert Scan(d, i, size).Ok? ==> [] + Scan(d, i, size).value == Scan(d, i, size).value;
    }
    while i < size
      invariant ReadString(d, offset) == Prepend(runes, Scan(d, i, size))
      decreases ScanMeasure(i)
    {
      if i + 1 < 0 || i + 1 >= data.Length {
        return Panic;
      }
      if data[i + 1] != 0 {
        assert Scan(d, i, size) == Scan(d, Wrap32(i + 2), size);
        i := Wrap32(i + 2);
        continue;
      }
      if i < 0 {
        return Panic;
      }
      if data[i] == 0 {
        assert Scan(d, i, size) == Ok([]);
        break;
      }
      assert Scan(d, i, size) == Prepend([data[i] as char], Scan(d, Wrap32(i + 2), size));
      PrependAppend(runes, [data[i] as char], Scan(d, Wrap32(i + 2), size));
      runes := runes + [data[i] as char];
      i := Wrap32(i + 2);
    }
    assert runes + [] == runes;
    return Ok(runes);
  }

  // ---------------------------------------------------------------------------
  // A declarative account of the result

  /** Code unit `k` counted from byte index `i` is two zero bytes. */
  predicate IsZeroUnit(data: seq<uint8>, i: int, k: int) {
    TerminatorAt(data, i + 2 * k)
  }

  /** Unit `t` from byte index `i` is the first zero unit. */
  predicate FirstZeroUnit(data: seq<uint8>, i: int, t: nat) {
    IsZeroUnit(data, i, t) && forall k :: 0 <= k < t ==> !IsZeroUnit(data, i, k)
  }

  /** What the unit at byte index `i` contributes: nothing when its high byte is
      non-zero, otherwise its low byte as one character. */
  function UnitText(data: seq<uint8>, i: nat): (r: string)
    requires i + 1 < |data|
    ensures |r| <= 1
  {
    if data[i + 1] != 0 then [] else [data[i] as char]
  }

  /** The text of the first `t` units from byte index `i`, in scan order. */
  function Kept(data: seq<uint8>, i: nat, t: nat): string
    requires t == 0 || i + 2 * t <= |data|
    decreases t
  {
    if t == 0 then [] else UnitText(data, i) + Kept(data, i + 2, t - 1)
  }

  lemma PrependNothing(r: Result<string>)
    ensures Prepend([], r) == r
  {
    if r.Ok? {
      assert [] + r.value == r.value;
    }
  }

  /** One step of the scan over a unit that is not the terminator, at a
      non-negative index before the limit: the unit's text goes in front of the
      rest, and the index does not wrap. */
  lemma ScanUnit(data: seq<uint8>, i: Int32, size: Int32)
    requires 0 <= i && i + 1 < |data| && i + 1 < size
    requires !TerminatorAt(data, i)
    ensures i + 2 <= MaxInt32
    ensures Scan(data, i, size) == Prepend(UnitText(data, i), Scan(data, i + 2, size))
  {
    assert Wrap32(i + 2) == i + 2;
    if data[i + 1] != 0 {
      PrependNothing(Scan(data, i + 2, size));
    }
  }

  /** The first zero unit from `i`, when it is not unit 0, is one unit nearer
      from `i + 2`. */
  lemma FirstZeroUnitNext(data: seq<uint8>, i: int, t: nat)
    requires t > 0 && FirstZeroUnit(data, i, t)
    ensures !IsZeroUnit(data, i, 0) && FirstZeroUnit(data, i + 2, t - 1)
  {
    assert !IsZeroUnit(data, i, 0);
    var next := i + 2;
    forall k | 0 <= k < t - 1
      ensures !IsZeroUnit(data, next, k)
    {
      assert !IsZeroUnit(data, i, k + 1);
    }
    assert IsZeroUnit(data, i, t);
  }

  lemma {:induction false} ScanToTerminator(data: seq<uint8>, i: Int32, size: Int32, t: nat)
    requires 0 <= i && |data| <= size
    requires FirstZeroUnit(data, i, t)
    ensures Scan(data, i, size) == Ok(Kept(data, i, t))
    decreases t
  {
    if t > 0 {
      FirstZeroUnitNext(data, i, t);
      ScanUnit(data, i, size);
      ScanToTerminator(data, i + 2, size, t - 1);
    }
  }

  /** Decoding stops at the first zero unit: the result is exactly the kept text
      of the units before it, and nothing from that unit or beyond. */
  lemma ReadStringStopsAtTerminator(data: seq<uint8>, offset: Int32, t: nat)
    requires 0 <= offset && offset + |data| <= MaxInt32
    requires FirstZeroUnit(data, offset, t)
    ensures offset + 2 * t + 2 <= |data|
    ensures ReadString(data, offset) == Ok(Kept(data, offset, t))
  {
    ScanToTerminator(data, offset, LoopLimit(data, offset), t);
  }

  lemma {:induction false} KeptLength(data: seq<uint8>, i: nat, t: nat)
    requires i + 2 * t <= |data|
    ensures |Kept(data, i, t)| <= t
    decreases t
  {
    if t > 0 {
      var head, rest := UnitText(data, i), Kept(data, i + 2, t - 1);
      assert Kept(data, i, t) == head + rest;
      KeptLength(data, i + 2, t - 1);
      assert |head + rest| == |head| + |rest|;
    }
  }

  /** Kept text depends only on the bytes of the units it reads. */
  lemma {:induction false} KeptDependsOnUnits(d1: seq<uint8>, d2: seq<uint8>, i: nat, t: nat)
    requires i + 2 * t <= |d1| && i + 2 * t <= |d2|
    requires d1[i..i + 2 * t] == d2[i..i + 2 * t]
    ensures Kept(d1, i, t) == Kept(d2, i, t)
    decreases t
  {
    if t > 0 {
      assert d1[i] == d1[i..i + 2 * t][0] && d1[i + 1] == d1[i..i + 2 * t][1];
      assert d2[i] == d2[i..i + 2 * t][0] && d2[i + 1] == d2[i..i + 2 * t][1];
      assert d1[i + 2..i + 2 + 2 * (t - 1)] == d1[i..i + 2 * t][2..];
      assert d2[i + 2..i + 2 + 2 * (t - 1)] == d2[i..i + 2 * t][2..];
      KeptDependsOnUnits(d1, d2, i + 2, t - 1);
    }
  }

  /** Whatever follows the terminator, however long, leaves the result alone. */
  lemma ReadStringIgnoresTail(data: seq<uint8>, offset: Int32, t: nat, tail: seq<uint8>)
    requires 0 <= offset && offset + |data| <= MaxInt32
    requires FirstZeroUnit(data, offset, t)
    requires offset + 2 * t + 2 + |tail| + offset <= MaxInt32
    ensures offset + 2 * t + 2 <= |data|
    ensures ReadString(data[..offset + 2 * t + 2] + tail, offset) == ReadString(data, offset)
  {
    ReadStringStopsAtTerminator(data, offset, t);
    var d2 := data[..offset + 2 * t + 2] + tail;
    assert d2[..offset + 2 * t + 2] == data[..offset + 2 * t + 2];
    assert FirstZeroUnit(d2, offset, t) by {
      forall k | 0 <= k <= t
        ensures IsZeroUnit(d2, offset, k) == IsZeroUnit(data, offset, k)
      {
        assert d2[offset + 2 * k] == data[offset + 2 * k];
        assert d2[offset + 2 * k + 1] == data[offset + 2 * k + 1];
      }
    }
    ReadStringStopsAtTerminator(d2, offset, t);
    assert d2[offset..offset + 2 * t] == data[offset..offset + 2 * t];
    KeptDependsOnUnits(d2, data, offset, t);
  }

  /** The number of whole units from byte index `i` to the end of the buffer. */
  function WholeUnits(data: seq<uint8>, i: nat): (w: nat)
    ensures w > 0 ==> i + 2 * w <= |data|
  {
    if i < |data| then (|data| - i) / 2 else 0
  }

  lemma {:induction false} ScanWithoutTerminator(data: seq<uint8>, i: Int32, size: Int32)
    requires 0 <= i && |data| <= size
    requires forall k :: 0 <= k < WholeUnits(data, i) ==> !IsZeroUnit(data, i, k)
    ensures Scan(data, i, size) ==
              if i + 2 * WholeUnits(data, i) < size then Panic else Ok(Kept(data, i, WholeUnits(data, i)))
    decreases |data| - i
  {
    if i + 1 < |data| {
      assert !IsZeroUnit(data, i, 0);
      var next := i + 2;
      assert WholeUnits(data, next) == WholeUnits(data, i) - 1;
      forall k | 0 <= k < WholeUnits(data, next)
        ensures !IsZeroUnit(data, next, k)
      {
        assert !IsZeroUnit(data, i, k + 1);
      }
      ScanUnit(data, i, size);
      ScanWithoutTerminator(data, next, size);
    }
  }

  /** Without a zero unit inside the buffer the decoder runs past its end and
      panics. The one exception is a scan from offset 0 over an even number of
      bytes, where the limit coincides with the end of the buffer, and an empty
      buffer, where the loop does not run at all; then every unit is decoded. */
  lemma UnterminatedPanics(data: seq<uint8>, offset: Int32)
    requires 0 <= offset && offset + |data| <= MaxInt32
    requires forall k :: 0 <= k < WholeUnits(data, offset) ==> !IsZeroUnit(data, offset, k)
    ensures ReadString(data, offset).Panic? <==> |data| > 0 && (offset > 0 || |data| % 2 == 1)
    ensures !ReadString(data, offset).Panic? ==>
              ReadString(data, offset) == Ok(Kept(data, offset, WholeUnits(data, offset)))
  {
    ScanWithoutTerminator(data, offset, LoopLimit(data, offset));
  }

  /** A unit whose high byte is non-zero is skipped, even when its low byte is
      zero: decoding continues with the next unit. */
  lemma HighByteUnitSkipped(data: seq<uint8>, offset: Int32)
    requires 0 <= offset && offset + |data| <= MaxInt32
    requires offset + 1 < |data| && data[offset + 1] != 0
    ensures ReadString(data, offset) == Scan(data, offset + 2, LoopLimit(data, offset))
  {
  }

  /** An offset below -1 indexes before the buffer at once. */
  lemma NegativeOffsetPanics(data: seq<uint8>, offset: Int32)
    requires offset < -1 && 0 < |data| && offset + |data| <= MaxInt32
    ensures ReadString(data, offset) == Panic
  {
  }

  /** From offset -1 (guest pointer 0xFFFFFFFF) the first byte is read as the
      high byte of a unit: when it is zero the reader indexes `data[-1]` and
      panics, otherwise it skips that unit and goes on from index 1, with the
      limit one short of the end of the buffer. */
  lemma MinusOneOffset(data: seq<uint8>)
    requires 0 < |data| <= MaxInt32 + 1
    ensures ReadString(data, -1) == if data[0] == 0 then Panic else Scan(data, 1, |data| - 1)
  {
  }

  /** So an unterminated buffer can be read without a panic from offset -1:
      [5, 0, 65, 0] skips both units and returns the empty text. */
  lemma MinusOneOffsetUnterminated()
    ensures forall k :: 0 <= k < WholeUnits([5, 0, 65, 0], 0) ==> !IsZeroUnit([5, 0, 65, 0], 0, k)
    ensures ReadString([5, 0, 65, 0], -1) == Ok([])
  {
    MinusOneOffset([5, 0, 65, 0]);
    assert Scan([5, 0, 65, 0], 1, 3) == Scan([5, 0, 65, 0], 3, 3);
  }

  /** A buffer that reaches 2 GiB past the offset makes the truncated limit
      negative, so the loop never runs and the result is empty. */
  lemma WrappedLimitReadsNothing(data: seq<uint8>, offset: Int32)
    requires 0 <= offset && MaxInt32 < offset + |data| <= offset + 0x8000_0000
    ensures ReadString(data, offset) == Ok([])
  {
  }

  // ---------------------------------------------------------------------------
  // Reading back stored code units

  /** The text the decoder takes from a sequence of non-zero code units: the
      units below 0x100 as characters, in order; every other unit is dropped. */
  function Narrow(units: seq<uint16>): string {
    if units == [] then []
    else (if units[0] < 0x100 then [units[0] as char] else []) + Narrow(units[1..])
  }

  /** Units stored from `i` are, after the first, stored from `i + 2`. */
  lemma StoredAtTail(mem: seq<uint8>, i: nat, units: seq<uint16>)
    requires StoredAt(mem, i, units) && units != []
    ensures mem[i] == LowByte(units[0]) && mem[i + 1] == HighByte(units[0])
    ensures StoredAt(mem, i + 2, units[1..])
  {
    assert mem[i + 2 * 0] == LowByte(units[0]) && mem[i + 2 * 0 + 1] == HighByte(units[0]);
    forall k | 0 <= k < |units| - 1
      ensures mem[i + 2 + 2 * k] == LowByte(units[1..][k]) && mem[i + 2 + 2 * k + 1] == HighByte(units[1..][k])
    {
      assert units[1..][k] == units[k + 1];
      assert mem[i + 2 * (k + 1)] == LowByte(units[k + 1]);
      assert mem[i + 2 * (k + 1) + 1] == HighByte(units[k + 1]);
    }
  }

  lemma {:induction false} KeptOfStoredUnits(mem: seq<uint8>, i: nat, units: seq<uint16>)
    requires StoredAt(mem, i, units) && 0 !in units
    ensures Kept(mem, i, |units|) == Narrow(units)
    ensures forall k :: 0 <= k < |units| ==> !IsZeroUnit(mem, i, k)
    decreases |units|
  {
    if units != [] {
      StoredAtTail(mem, i, units);
      KeptOfStoredUnits(mem, i + 2, units[1..]);
      var next := i + 2;
      forall k | 0 <= k < |units|
        ensures !IsZeroUnit(mem, i, k)
      {
        if k > 0 {
          assert !IsZeroUnit(mem, next, k - 1);
        }
      }
    }
  }

  /** Decoding a region that holds non-zero code units followed by a zero unit
      gives back exactly the units below 0x100, as characters. */
  lemma ReadStoredUnits(mem: seq<uint8>, offset: Int32, units: seq<uint16>)
    requires 0 <= offset && offset + |mem| <= MaxInt32
    requires StoredAt(mem, offset, units) && 0 !in units
    requires TerminatorAt(mem, offset + 2 * |units|)
    ensures ReadString(mem, offset) == Ok(Narrow(units))
  {
    KeptOfStoredUnits(mem, offset, units);
    assert FirstZeroUnit(mem, offset, |units|);
    ReadStringStopsAtTerminator(mem, offset, |units|);
  }
}
