/** Machine-level values shared by the host and the guest: Go's and WebAssembly's
    32-bit integers, bytes of linear memory, 16-bit code units, and the outcome
    of a host routine (a value, a returned Go error, or a runtime panic). */
module Wire {

  const MinInt32: int := -0x8000_0000
  const MaxInt32: int := 0x7FFF_FFFF

  /** A Go `int32` / WebAssembly `i32`. */
  type Int32 = x: int | -0x8000_0000 <= x < 0x8000_0000

  /** A byte of linear memory. */
  type uint8 = x: int | 0 <= x < 0x100

  /** A UTF-16 code unit. */
  type uint16 = x: int | 0 <= x < 0x1_0000

  /** Two's-complement truncation to 32 bits, as Go's conversion `int32(x)` and
      int32 (and i32) arithmetic perform it. */
  function Wrap32(x: int): (r: Int32)
    ensures (r - x) % 0x1_0000_0000 == 0
    ensures MinInt32 <= x <= MaxInt32 ==> r == x
  {
    var m := x % 0x1_0000_0000;
    if m < 0x8000_0000 then m else m - 0x1_0000_0000
  }

  datatype Option<T> = None | Some(value: T)

  /** The errors a host routine returns as a Go `error` value. */
  datatype Error =
    | AllocateFailed      // the guest's `allocate` call reported an error
    | MemoryNotExported   // the instance has no `memory` export

  /** What a host routine does: returns a value, returns an error (Go returns
      the zero value beside it), or panics on an index out of range. */
  datatype Result<T> = Ok(value: T) | Fail(error: Error) | Panic

  function LowByte(u: uint16): (b: uint8)
    ensures u == b + 0x100 * HighByte(u)
  {
    u % 0x100
  }

  function HighByte(u: uint16): uint8 {
    u / 0x100
  }

  /** The little-endian byte image of a sequence of code units, as
      `binary.LittleEndian.PutUint16` lays each unit out. */
  function LittleEndian(units: seq<uint16>): (bytes: seq<uint8>)
    ensures |bytes| == 2 * |units|
    ensures forall k :: 0 <= k < |units| ==>
              bytes[2 * k] == LowByte(units[k]) && bytes[2 * k + 1] == HighByte(units[k])
  {
    if units == [] then []
    else
      var n := |units| - 1;
      LittleEndian(units[..n]) + [LowByte(units[n]), HighByte(units[n])]
  }

  /** The code units `units` lie little-endian in `mem` from index `off`. */
  predicate StoredAt(mem: seq<uint8>, off: int, units: seq<uint16>) {
    && 0 <= off && off + 2 * |units| <= |mem|
    && forall k :: 0 <= k < |units| ==>
         mem[off + 2 * k] == LowByte(units[k]) && mem[off + 2 * k + 1] == HighByte(units[k])
  }

  /** A double-null code unit (two zero bytes) starts at index `i` of `mem`. */
  predicate TerminatorAt(mem: seq<uint8>, i: int) {
    0 <= i && i + 1 < |mem| && mem[i] == 0 && mem[i + 1] == 0
  }
}
