# Host/guest string marshalling for a WebAssembly greeter

A Go host embeds a WebAssembly module compiled from AssemblyScript. The two sides
exchange text through the guest's linear memory as UTF-16 little-endian code units,
with a unit of two zero bytes as the terminator. This project models the host side
of that exchange and the guest's two pure exports:

- **Reader** (`readMemoryString`, module `MemoryCodec`). It scans memory in 2-byte
  steps from an offset:
  - a unit whose high byte is non-zero is skipped;
  - a zero unit ends the string;
  - the low byte of every other unit becomes one character.

  The method `ReadMemoryString` runs this loop over an `array`. It is proved equal
  to the recursive specification `ReadString`, and the lemmas about that function
  state what the loop promises.
- **Writer** (`writeNameToMemory`, module `AllocatorBridge`):
  - it UTF-16-encodes a name (`Utf16`, section 2.1 of RFC 2781);
  - it asks the guest's allocator for exactly two bytes per code unit;
  - it stores the units little-endian, in place, with no terminator.

  `WriteNameToMemory` and its loop `StoreUnits` change an `array`, and are proved
  against the function `WriteName`.
- **Abort import** (`ImportBridge.Abort`). The host's `env.abort` handler reads
  the message and the file name through the reader and builds a diagnostic record.
  The line and column are passed through unchanged.
- **Guest exports** (`Guest`). `add` is i32 addition, so it wraps around. `greet`
  puts the fixed text `"Welcome to AssemblyScript, "` in front of the name.
- **End to end** (`EndToEnd`):
  - a write followed by a read, the round trip, the ten bytes of "Jamal";
  - the greeting read back from memory;
  - the `abort(…, 10, 5)` diagnostic for "oops" in "test.ts".

## Go semantics kept in the model

- **Integer width.** Int32 is a subset type and `Wrap32` is Go's `int32(…)`
  conversion. The reader's loop limit `int32(offset + len(data))` and its index
  step `i += 2` both wrap.
- **Outcomes.** A routine's outcome is a `Result`:
  - `Ok(value)` is a normal return;
  - `Fail(error)` is a returned Go `error` (Go returns the zero value beside it);
  - `Panic` is an index out of range.
- **The reader's panics.** The reader indexes `data[i+1]` and then `data[i]`, so
  an index outside the buffer at either access panics there.
- **The writer's panics.** The writer slices memory at the allocator's offset. An
  offset outside memory panics at the slice. A region that runs past the end panics
  at the first unit whose two bytes do not both fit, after the units before it have
  been stored: `PutUint16` checks its second byte before writing either.
- **The allocator.** It is a function parameter, `nat -> Option<Int32>`: `None` is
  an allocation error, `Some(off)` an offset.

## Behaviour of the code worth knowing

- **Unterminated strings.** The loop limit is `offset + len(data)`, not
  `len(data)`. So without a zero unit, the reader usually indexes past the end of
  the buffer and panics; it does not stop quietly there.
  - For offsets from 0 whose limit does not wrap, `MemoryCodec.UnterminatedPanics`
    states exactly when it panics. It returns normally only for an empty buffer, or
    for offset 0 over an even number of bytes, where the limit and the end coincide.
  - From offset -1 (guest pointer 0xFFFFFFFF) the limit is one short of the end.
    The first byte is then read as a high byte (`MemoryCodec.MinusOneOffset`), so
    an unterminated buffer such as [5, 0, 65, 0] reads as the empty text
    (`MemoryCodec.MinusOneOffsetUnterminated`).
  - A buffer reaching 2 GiB past the offset makes the limit wrap negative, and the
    reader returns the empty text (`MemoryCodec.WrappedLimitReadsNothing`).
- **Accented characters.** The code unit 0x00E9 has a zero high byte, so the
  reader keeps it as 'é': a stored "José" reads back whole
  (`EndToEnd.AccentReadsBack`). Only units at 0x0100 or above are dropped
  (`EndToEnd.WideCharacterDropped`).
- **Allocator replies that are not int32.** Such a reply panics at the type
  assertion `inputPointer.(int32)`. It is not reported as an allocation error. This
  case is left out (see below).
- **The abort handler.** It returns normally only when both reads succeed. A read
  that panics makes the handler panic (`ImportBridge.Abort`).

## Model

| member | source | states |
|---|---|---|
| Wire.Wrap32 | go/main.go:14 | the int32 conversion: the result is congruent to its argument modulo 2^32 and equals it when it is in range |
| Wire.LittleEndian | go/main.go:44-46 | the byte image has two bytes per unit, the low byte of unit k at 2k and its high byte at 2k+1 |
| Utf16.EncodeChar | go/main.go:32 | a BMP character is its own single unit; any other character becomes a high surrogate followed by a low surrogate |
| Utf16.DecodeEncode | go/main.go:32 | UTF-16 decoding undoes the encoding of every text |
| Utf16.EncodeAppend | go/main.go:32 | encoding distributes over concatenation |
| Utf16.EncodeBmp | go/main.go:32 | BMP text encodes to one unit per character, equal to its code point |
| Utf16.EncodeCodePoints | go/main.go:32 | a unit sequence equal to a BMP text's code points is that text's encoding |
| Utf16.Encode | go/main.go:32 | the UTF-16 encoding of a text: each character takes one or two units, and DecodeEncode shows the decoder recovers the text |
| MemoryCodec.LoopLimit | go/main.go:14 | the limit is offset + len(data) truncated to the int32 range: congruent to it modulo 2^32, and equal to it when it fits |
| MemoryCodec.ReadString | go/main.go:12-29 | readMemoryString returns a text or panics, never an error, and the text has at most one character per two bytes of the buffer (the lemmas below pin down which text) |
| MemoryCodec.Scan | go/main.go:15-27 | the loop from index i yields at most one character per two bytes left, or it panics |
| MemoryCodec.ScanYieldsDecodable | go/main.go:26 | every character the loop yields is a byte in 1..255 |
| MemoryCodec.ReadStringDecodable | go/main.go:12-29 | every character the reader returns is a byte in 1..255 |
| MemoryCodec.ReadMemoryString | go/main.go:12-29 | the loop over the buffer returns exactly ReadString of its contents, panics included |
| MemoryCodec.UnitText | go/main.go:18-26 | one unit contributes at most one character |
| MemoryCodec.ScanUnit | go/main.go:15-26 | one step over a non-terminator unit puts that unit's text in front of the rest of the scan, without wrapping the index |
| MemoryCodec.ScanToTerminator | go/main.go:15-25 | the scan up to the first zero unit yields exactly the kept text of the units before it |
| MemoryCodec.ReadStringStopsAtTerminator | go/main.go:22-25 | given a first zero unit t, the terminator lies inside the buffer and the result is the kept text of units 0..t-1, nothing from unit t on |
| MemoryCodec.KeptLength | go/main.go:26 | the output has at most as many characters as units scanned |
| MemoryCodec.KeptDependsOnUnits | go/main.go:18-26 | the kept text depends only on the bytes of the units read |
| MemoryCodec.ReadStringIgnoresTail | go/main.go:22-25 | replacing everything after the terminator with any bytes leaves the result unchanged |
| MemoryCodec.ScanWithoutTerminator | go/main.go:14-18 | with no zero unit to the end of the buffer, the scan yields every whole unit's text when the limit is reached exactly, and panics otherwise |
| MemoryCodec.UnterminatedPanics | go/main.go:14-18 | for offsets from 0 whose limit does not wrap: without a zero unit the reader panics if and only if the buffer is non-empty and the offset is positive or the length is odd; otherwise it returns the text of all units |
| MemoryCodec.HighByteUnitSkipped | go/main.go:18-21 | a unit with a non-zero high byte, even one with a zero low byte, is skipped and the scan continues with the next unit |
| MemoryCodec.NegativeOffsetPanics | go/main.go:15-18 | an offset below -1 into a non-empty buffer panics |
| MemoryCodec.MinusOneOffset | go/main.go:14-21 | from offset -1, a zero first byte panics at data[-1]; any other first byte is skipped, and scanning goes on from index 1 with a limit one short of the end |
| MemoryCodec.MinusOneOffsetUnterminated | go/main.go:14-21 | the unterminated buffer [5, 0, 65, 0] read from offset -1 gives the empty text, not a panic |
| MemoryCodec.WrappedLimitReadsNothing | go/main.go:14-15 | when offset plus length exceeds the int32 range, the limit wraps and the result is empty |
| MemoryCodec.KeptOfStoredUnits | go/main.go:18-26 | non-zero units stored little-endian contain no zero unit and read back as exactly their units below 0x100, in order |
| MemoryCodec.ReadStoredUnits | go/main.go:12-29 | stored non-zero units followed by a zero unit decode to exactly their units below 0x100 |
| AllocatorBridge.Patch | go/main.go:44-46 | bytes laid over memory from an offset replace exactly that range; every other byte keeps its value |
| AllocatorBridge.RequestSize | go/main.go:36 | the allocation request is two bytes per code unit, so between two and four bytes per character |
| AllocatorBridge.WriteName | go/main.go:31-49 | the write keeps memory's length. It returns an error exactly when allocation fails, and then leaves memory unchanged. It returns Ok only with the allocator's offset. An offset outside memory panics with nothing written |
| AllocatorBridge.StoreUnits | go/main.go:44-46 | the store loop succeeds if and only if the region fits; on success memory is the old memory with the units' little-endian image laid over it; otherwise only the units that fit whole are laid over it |
| AllocatorBridge.WriteNameToMemory | go/main.go:31-49 | the method's result and the new memory are WriteName of the old memory and the allocator's reply to a request of 2 bytes per code unit |
| AllocatorBridge.AllocationFailureWritesNothing | go/main.go:36-39 | an allocation error is returned as an error and memory is unchanged |
| AllocatorBridge.WriteSucceedsIffRegionFits | go/main.go:41-48 | the write succeeds if and only if [off, off + 2n) lies inside memory; it then returns the allocator's offset; it never returns an error for a granted allocation |
| AllocatorBridge.PatchStores | go/main.go:44-46 | laying a unit sequence's image over memory stores those units there and changes no other byte |
| AllocatorBridge.WriteLayout | go/main.go:42-46 | after a successful write, byte off+2k is the low and off+2k+1 the high byte of unit k, memory keeps its length, and every byte outside [off, off + 2n) is unchanged, so no terminator is written |
| AllocatorBridge.WrittenRegion | go/main.go:36-48 | a write whose region fits returns the allocator's offset, and the requested region then holds exactly the little-endian UTF-16 encoding of the name |
| AllocatorBridge.OverrunWritesWholeUnitsThatFit | go/main.go:42-46 | a region running past the end panics after storing exactly the units that fit whole, changing no other byte |
| ImportBridge.Abort | go/main.go:77-98 | without a memory export the handler returns that error; it returns a diagnostic if and only if both reads succeed, and that diagnostic holds the message and file name read at the two pointers and the line and column unchanged |
| Guest.Add | assembly/index.ts:3-5 | i32 addition: the result is congruent to a + b modulo 2^32 and equals it when no overflow occurs |
| Guest.AddCommutes | assembly/index.ts:4 | add is commutative, wrap-around included |
| Guest.AddThreeFour | assembly/index.ts:4 | add(3, 4) = 7, the call the host makes |
| Guest.AddWrapsAround | assembly/index.ts:4 | add(2^31 - 1, 1) wraps to -2^31 |
| Guest.GreetingUnitsEncodeText | assembly/index.ts:8 | the greeting's stored prefix units are the UTF-16 encoding of "Welcome to AssemblyScript, " |
| Guest.Greet | assembly/index.ts:7-9 | the result has 27 + \|name\| units: the prefix's characters, then the name unit for unit |
| Guest.GreetEncodesTemplate | assembly/index.ts:7-9 | greeting an encoded name gives the encoding of the filled-in template |
| Guest.GreetEndsWithName | assembly/index.ts:8 | the name is a suffix of the greeting |
| EndToEnd.NarrowEncode | go/main.go:18-26 | applied to a UTF-16 encoding, the reader keeps exactly the characters below U+0100; text without U+0000 encodes to no zero unit |
| EndToEnd.Latin1OnlyDecodable | go/main.go:26 | text made only of bytes in 1..255 is unchanged by the reader's filtering |
| EndToEnd.ReadStoredName | go/main.go:12-29 | any text without U+0000, stored encoded and followed by a zero unit, reads back as its characters below U+0100 |
| EndToEnd.ReadStoredText | go/main.go:12-29 | text of bytes in 1..255, stored encoded and terminated, reads back unchanged |
| EndToEnd.WriteThenRead | go/main.go:32-46 | a write into a region that fits returns the offset; once a zero unit follows the region, reading from the offset gives the name's characters below U+0100 |
| EndToEnd.RoundTrip | go/main.go:12-49 | a name of bytes in 1..255, written and then terminated, reads back unchanged |
| EndToEnd.JamalTakesTenBytes | go/main.go:122 | writing "Jamal" requests 10 bytes, succeeds, and leaves exactly J,0,a,0,m,0,a,0,l,0 in the region |
| EndToEnd.AccentKeptWideDropped | go/main.go:18-26 | the reader's filter keeps "José" whole (U+00E9 is below U+0100) and drops the character U+0100 from "Āb" |
| EndToEnd.AccentReadsBack | go/main.go:12-29 | "José" stored as its code units and terminated reads back as "José" |
| EndToEnd.WideCharacterDropped | go/main.go:12-29 | U+0100 followed by "b", stored and terminated, reads back as "b" |
| EndToEnd.GreetingReadsBack | go/main.go:133-138 | the guest's greeting for a name, stored and terminated, reads back as the prefix followed by the name's characters below U+0100 |
| EndToEnd.ReadPrefixedName | go/main.go:133-138 | decodable text followed by any name, stored encoded and terminated, reads back as the text followed by the name's characters below U+0100 |
| EndToEnd.GreetingTextDecodable | assembly/index.ts:8 | the greeting's prefix consists of bytes in 1..255 only |
| EndToEnd.JamalGreeting | go/main.go:122-138 | greeting "Jamal" reads back as "Welcome to AssemblyScript, Jamal" |
| EndToEnd.AbortReportsStoredStrings | go/main.go:78-97 | with both strings stored and terminated at the two pointers, the handler returns a diagnostic holding them and the unchanged line and column |
| EndToEnd.AbortOopsScenario | go/main.go:78-97 | abort with "oops" and "test.ts" at line 10, column 5 yields exactly that diagnostic |
| EndToEnd.AbortWithoutMemoryFails | go/main.go:86-89 | without a memory export the handler returns that error |

## Left out

- **`main()` orchestration** (go/main.go:51-167): reading the module file, the
  wasmer engine, store, module and instance, the export lookups and the panics
  on their errors. It is runtime plumbing over a library that is not part of this
  model. The end-to-end lemmas state the facts that `main` relies on instead.
- **The late-bound `instance`** captured by the abort closure. The handler takes
  the instance's `memory` export directly, as an `Option`.
- **Output.** `fmt.Printf` and `fmt.Println` are left out: the handler returns
  the diagnostic record rather than printing it. A returned error is the `Error`
  value alone, without the message text Go wraps around it.
- **The guest's allocator.** `allocate` calls `heap.alloc`, and `deallocate` is
  called as well; both are runtime calls. The allocator is a parameter, and
  deallocation is not modelled.
- **Memory growth.** An allocation may grow memory, and the writer reads
  `memory.Data()` after the allocation. The model writes into the buffer it is
  given.
- **The `.(int32)` type assertion** on the allocator's reply. A reply of another
  type would panic there. The model's reply is already an `Option<Int32>`.
- **The Go string's UTF-8.** `[]rune(name)` decodes the Go string, and
  `string(runes)` encodes the result. Names and results are modelled as sequences
  of Unicode scalar values, so invalid UTF-8 in a name (which Go turns into
  U+FFFD) and the UTF-8 bytes of the result are not modelled.
- **The AssemblyScript runtime's string layout** (its length header and the
  absence of a terminator). It is not visible in this code. `Guest.Greet` works on
  code units, and the lemmas that read a greeting back take the zero unit after it
  as a precondition.
- **The Node loader script** `main.js`. It has no logic of its own.
