/** Facts the host relies on when it drives the guest: what survives a write
    followed by a read, the "Jamal" round trip, the greeting read back from
    guest memory, the abort diagnostic and `add(3, 4)`. */
module EndToEnd {
  import opened Wire
  import Utf16
  import MemoryCodec
  import AllocatorBridge
  import ImportBridge
  import Guest

  /** The characters of `s` below U+0100, in order. */
  function Latin1Only(s: string): (r: string)
    ensures |r| <= |s|
  {
    if s == [] then []
    else (if (s[0] as int) < 0x100 then [s[0]] else []) + Latin1Only(s[1..])
  }

  lemma {:induction false} Latin1OnlyAppend(a: string, b: string)
    ensures Latin1Only(a + b) == Latin1Only(a) + Latin1Only(b)
  {
    if a == [] {
      assert a + b == b;
    } else {
      assert (a + b)[1..] == a[1..] + b;
      Latin1OnlyAppend(a[1..], b);
    }
  }

  lemma {:induction false} NarrowAppend(a: seq<uint16>, b: seq<uint16>)
    ensures MemoryCodec.Narrow(a + b) == MemoryCodec.Narrow(a) + MemoryCodec.Narrow(b)
  {
    if a == [] {
      assert a + b == b;
    } else {
      assert (a + b)[1..] == a[1..] + b;
      NarrowAppend(a[1..], b);
    }
  }

  /** What the decoder makes of UTF-16: characters below U+0100 come back,
      every other character (a wider BMP unit or a surrogate pair) is dropped;
      and no code unit is zero unless the text holds U+0000. */
  lemma {:induction false} NarrowEncode(s: string)
    ensures MemoryCodec.Narrow(Utf16.Encode(s)) == Latin1Only(s)
    ensures '\0' !in s ==> 0 !in Utf16.Encode(s)
  {
    if s != [] {
      var head := Utf16.EncodeChar(s[0]);
      NarrowEncode(s[1..]);
      NarrowAppend(head, Utf16.Encode(s[1..]));
      if (s[0] as int) >= Utf16.SupplementaryStart {
        assert head[1..] == [head[1]];
        assert MemoryCodec.Narrow(head) == [];
      }
      assert s == [s[0]] + s[1..];
    }
  }

  /** Any text without U+0000 that lies UTF-16-encoded in memory, followed by a
      zero unit, decodes to its characters below U+0100. */
  lemma ReadStoredName(mem: seq<uint8>, off: Int32, s: string)
    requires '\0' !in s
    requires 0 <= off && off + |mem| <= MaxInt32
    requires StoredAt(mem, off, Utf16.Encode(s))
    requires TerminatorAt(mem, off + 2 * |Utf16.Encode(s)|)
    ensures MemoryCodec.ReadString(mem, off) == Ok(Latin1Only(s))
  {
    NarrowEncode(s);
    MemoryCodec.ReadStoredUnits(mem, off, Utf16.Encode(s));
  }

  /** Text of non-zero bytes that lies UTF-16-encoded in memory, followed by a
      zero unit, decodes to itself. */
  lemma ReadStoredText(mem: seq<uint8>, off: Int32, s: string)
    requires MemoryCodec.IsDecodable(s)
    requires 0 <= off && off + |mem| <= MaxInt32
    requires StoredAt(mem, off, Utf16.Encode(s))
    requires TerminatorAt(mem, off + 2 * |Utf16.Encode(s)|)
    ensures MemoryCodec.ReadString(mem, off) == Ok(s)
  {
    DecodableHasNoNul(s);
    Latin1OnlyDecodable(s);
    ReadStoredName(mem, off, s);
  }

  /** Write, then read: the allocator's offset comes back, and once the unit
      after the written region is zero, decoding it yields the name's characters
      below U+0100. Characters at U+0100 or above are lost. */
  lemma WriteThenRead(name: string, mem: seq<uint8>, off: Int32)
    requires '\0' !in name
    requires 0 <= off && off + |mem| <= MaxInt32
    requires off + AllocatorBridge.RequestSize(name) <= |mem|
    requires TerminatorAt(mem, off + AllocatorBridge.RequestSize(name))
    ensures AllocatorBridge.WriteName(name, mem, Some(off)).0 == Ok(off)
    ensures MemoryCodec.ReadString(AllocatorBridge.WriteName(name, mem, Some(off)).1, off) == Ok(Latin1Only(name))
  {
    var after := AllocatorBridge.WriteName(name, mem, Some(off)).1;
    AllocatorBridge.WriteLayout(name, mem, off);
    var n := AllocatorBridge.RequestSize(name);
    assert after[off + n] == mem[off + n] && after[off + n + 1] == mem[off + n + 1];
    ReadStoredName(after, off, name);
  }

  /** Round trip: text of non-zero bytes survives a write and a read unchanged. */
  lemma RoundTrip(name: string, mem: seq<uint8>, off: Int32)
    requires MemoryCodec.IsDecodable(name)
    requires 0 <= off && off + |mem| <= MaxInt32
    requires off + 2 * |name| + 2 <= |mem|
    requires TerminatorAt(mem, off + 2 * |name|)
    ensures AllocatorBridge.WriteName(name, mem, Some(off)).0 == Ok(off)
    ensures MemoryCodec.ReadString(AllocatorBridge.WriteName(name, mem, Some(off)).1, off) == Ok(name)
  {
    Utf16.EncodeBmp(name);
    assert '\0' !in name;
    WriteThenRead(name, mem, off);
    Latin1OnlyDecodable(name);
  }

  /** "Jamal" takes exactly ten bytes: each letter's low byte, then a zero. */
  lemma JamalTakesTenBytes(mem: seq<uint8>, off: Int32)
    requires 0 <= off && off + 10 <= |mem|
    ensures AllocatorBridge.RequestSize("Jamal") == 10
    ensures AllocatorBridge.WriteName("Jamal", mem, Some(off)).0 == Ok(off)
    ensures AllocatorBridge.WriteName("Jamal", mem, Some(off)).1[off..off + 10] ==
              [0x4A, 0, 0x61, 0, 0x6D, 0, 0x61, 0, 0x6C, 0]
  {
    var units: seq<uint16> := [0x4A, 0x61, 0x6D, 0x61, 0x6C];
    JamalRequestSize(units);
    AllocatorBridge.WrittenRegion("Jamal", mem, off);
    JamalBytes(units);
  }

  lemma JamalRequestSize(units: seq<uint16>)
    requires units == [0x4A, 0x61, 0x6D, 0x61, 0x6C]
    ensures units == Utf16.Encode("Jamal") && AllocatorBridge.RequestSize("Jamal") == 10
  {
    Utf16.EncodeCodePoints("Jamal", units);
  }

  lemma JamalBytes(units: seq<uint16>)
    requires units == [0x4A, 0x61, 0x6D, 0x61, 0x6C]
    ensures LittleEndian(units) == [0x4A, 0, 0x61, 0, 0x6D, 0, 0x61, 0, 0x6C, 0]
  {
    var b := LittleEndian(units);
    assert b[2 * 0] == LowByte(units[0]) && b[2 * 0 + 1] == HighByte(units[0]);
    assert b[2 * 1] == LowByte(units[1]) && b[2 * 1 + 1] == HighByte(units[1]);
    assert b[2 * 2] == LowByte(units[2]) && b[2 * 2 + 1] == HighByte(units[2]);
    assert b[2 * 3] == LowByte(units[3]) && b[2 * 3 + 1] == HighByte(units[3]);
    assert b[2 * 4] == LowByte(units[4]) && b[2 * 4 + 1] == HighByte(units[4]);
  }

  /** A character such as U+00E9 has a zero high byte and is kept; one at U+0100
      or above is dropped. */
  lemma AccentKeptWideDropped()
    ensures Latin1Only("José") == "José"
    ensures Latin1Only("Āb") == "b"
  {
  }

  /** "José", stored as its code units and terminated, is read back whole: the
      unit 0x00E9 has a zero high byte, so the reader keeps it as 'é'. */
  lemma AccentReadsBack(mem: seq<uint8>, off: Int32)
    requires 0 <= off && off + |mem| <= MaxInt32
    requires StoredAt(mem, off, [0x4A, 0x6F, 0x73, 0xE9]) && TerminatorAt(mem, off + 8)
    ensures MemoryCodec.ReadString(mem, off) == Ok("José")
  {
    JoseUnits([0x4A, 0x6F, 0x73, 0xE9]);
    ReadStoredName(mem, off, "José");
    AccentKeptWideDropped();
  }

  lemma JoseUnits(units: seq<uint16>)
    requires units == [0x4A, 0x6F, 0x73, 0xE9]
    ensures units == Utf16.Encode("José") && '\0' !in "José"
  {
    Utf16.EncodeCodePoints("José", units);
  }

  /** A character at U+0100, stored in front of "b" and terminated, is dropped
      by the reader, which goes on to read the "b". */
  lemma WideCharacterDropped(mem: seq<uint8>, off: Int32)
    requires 0 <= off && off + |mem| <= MaxInt32
    requires StoredAt(mem, off, [0x100, 0x62]) && TerminatorAt(mem, off + 4)
    ensures MemoryCodec.ReadString(mem, off) == Ok("b")
  {
    WideUnits([0x100, 0x62]);
    ReadStoredName(mem, off, "Āb");
    AccentKeptWideDropped();
  }

  lemma WideUnits(units: seq<uint16>)
    requires units == [0x100, 0x62]
    ensures units == Utf16.Encode("Āb") && '\0' !in "Āb"
  {
    Utf16.EncodeCodePoints("Āb", units);
  }

  /** Text the decoder can produce passes through unchanged. */
  lemma {:induction false} Latin1OnlyDecodable(s: string)
    requires MemoryCodec.IsDecodable(s)
    ensures Latin1Only(s) == s
  {
    if s != [] {
      assert MemoryCodec.IsDecodable(s[1..]) by {
        forall k | 0 <= k < |s| - 1
          ensures 0 < s[1..][k] as int < 0x100
        {
          assert s[1..][k] == s[k + 1];
        }
      }
      Latin1OnlyDecodable(s[1..]);
      assert s == [s[0]] + s[1..];
    }
  }

  lemma DecodableHasNoNul(s: string)
    requires MemoryCodec.IsDecodable(s)
    ensures '\0' !in s
  {
  }

  /** The greeting the guest returns for a name, once it lies in guest memory
      followed by a zero unit, decodes to the fixed prefix followed by the
      name's characters below U+0100. */
  lemma GreetingReadsBack(name: string, mem: seq<uint8>, off: Int32)
    requires '\0' !in name
    requires 0 <= off && off + |mem| <= MaxInt32
    requires StoredAt(mem, off, Utf16.Encode(Guest.GreetingText + name))
    requires TerminatorAt(mem, off + 2 * |Utf16.Encode(Guest.GreetingText + name)|)
    ensures MemoryCodec.ReadString(mem, off) == Ok(Guest.GreetingText + Latin1Only(name))
  {
    GreetingTextDecodable();
    ReadPrefixedName(Guest.GreetingText, name, Utf16.Encode(Guest.GreetingText + name), mem, off);
  }

  /** Decodable text followed by any name, stored encoded and terminated,
      decodes to that text followed by the name's characters below U+0100. */
  lemma ReadPrefixedName(prefix: string, name: string, units: seq<uint16>, mem: seq<uint8>, off: Int32)
    requires MemoryCodec.IsDecodable(prefix) && '\0' !in name
    requires units == Utf16.Encode(prefix + name)
    requires 0 <= off && off + |mem| <= MaxInt32
    requires StoredAt(mem, off, units) && TerminatorAt(mem, off + 2 * |units|)
    ensures MemoryCodec.ReadString(mem, off) == Ok(prefix + Latin1Only(name))
  {
    NoNulInJoin(prefix, name);
    ReadStoredName(mem, off, prefix + name);
    Latin1OnlyAppend(prefix, name);
    Latin1OnlyDecodable(prefix);
  }

  lemma NoNulInJoin(prefix: string, name: string)
    requires MemoryCodec.IsDecodable(prefix) && '\0' !in name
    ensures '\0' !in prefix + name
  {
  }

  lemma GreetingTextDecodable()
    ensures MemoryCodec.IsDecodable(Guest.GreetingText)
  {
  }

  /** Host and guest together: "Jamal" is greeted as
      "Welcome to AssemblyScript, Jamal". */
  lemma JamalGreeting(mem: seq<uint8>, off: Int32)
    requires 0 <= off && off + |mem| <= MaxInt32
    requires StoredAt(mem, off, Utf16.Encode(Guest.GreetingText + "Jamal"))
    requires TerminatorAt(mem, off + 2 * |Utf16.Encode(Guest.GreetingText + "Jamal")|)
    ensures MemoryCodec.ReadString(mem, off) == Ok("Welcome to AssemblyScript, Jamal")
  {
    GreetingReadsBack("Jamal", mem, off);
    JamalIsLatin1();
    GreetingJoin();
  }

  lemma JamalIsLatin1()
    ensures Latin1Only("Jamal") == "Jamal"
  {
    assert MemoryCodec.IsDecodable("Jamal");
  }

  lemma GreetingJoin()
    ensures Guest.GreetingText + "Jamal" == "Welcome to AssemblyScript, Jamal"
  {
  }

  /** The abort diagnostic carries the two strings stored at the guest's
      pointers and the line and column unchanged; the handler succeeds. */
  lemma AbortReportsStoredStrings(mem: seq<uint8>, messagePtr: Int32, fileNamePtr: Int32,
                                  message: string, fileName: string, line: Int32, column: Int32)
    requires MemoryCodec.IsDecodable(message) && MemoryCodec.IsDecodable(fileName)
    requires 0 <= messagePtr && messagePtr + |mem| <= MaxInt32
    requires 0 <= fileNamePtr && fileNamePtr + |mem| <= MaxInt32
    requires StoredAt(mem, messagePtr, Utf16.Encode(message))
    requires StoredAt(mem, fileNamePtr, Utf16.Encode(fileName))
    requires TerminatorAt(mem, messagePtr + 2 * |Utf16.Encode(message)|)
    requires TerminatorAt(mem, fileNamePtr + 2 * |Utf16.Encode(fileName)|)
    ensures ImportBridge.Abort(Some(mem), messagePtr, fileNamePtr, line, column) ==
              Ok(ImportBridge.Diagnostic(message, fileName, line, column))
  {
    ReadStoredText(mem, messagePtr, message);
    ReadStoredText(mem, fileNamePtr, fileName);
  }

  /** The guest aborts with "oops" in "test.ts" at line 10, column 5: the two
      texts lie in memory as their code units, each followed by a zero unit. */
  lemma AbortOopsScenario(mem: seq<uint8>, messagePtr: Int32, fileNamePtr: Int32)
    requires 0 <= messagePtr && messagePtr + |mem| <= MaxInt32
    requires 0 <= fileNamePtr && fileNamePtr + |mem| <= MaxInt32
    requires StoredAt(mem, messagePtr, [0x6F, 0x6F, 0x70, 0x73])
    requires StoredAt(mem, fileNamePtr, [0x74, 0x65, 0x73, 0x74, 0x2E, 0x74, 0x73])
    requires TerminatorAt(mem, messagePtr + 8) && TerminatorAt(mem, fileNamePtr + 14)
    ensures ImportBridge.Abort(Some(mem), messagePtr, fileNamePtr, 10, 5) ==
              Ok(ImportBridge.Diagnostic("oops", "test.ts", 10, 5))
  {
    OopsReadsBack(mem, messagePtr);
    TestTsReadsBack(mem, fileNamePtr);
  }

  lemma OopsReadsBack(mem: seq<uint8>, ptr: Int32)
    requires 0 <= ptr && ptr + |mem| <= MaxInt32
    requires StoredAt(mem, ptr, [0x6F, 0x6F, 0x70, 0x73]) && TerminatorAt(mem, ptr + 8)
    ensures MemoryCodec.ReadString(mem, ptr) == Ok("oops")
  {
    Utf16.EncodeCodePoints("oops", [0x6F, 0x6F, 0x70, 0x73]);
    ReadStoredText(mem, ptr, "oops");
  }

  lemma TestTsReadsBack(mem: seq<uint8>, ptr: Int32)
    requires 0 <= ptr && ptr + |mem| <= MaxInt32
    requires StoredAt(mem, ptr, [0x74, 0x65, 0x73, 0x74, 0x2E, 0x74, 0x73]) && TerminatorAt(mem, ptr + 14)
    ensures MemoryCodec.ReadString(mem, ptr) == Ok("test.ts")
  {
    TestTsUnits([0x74, 0x65, 0x73, 0x74, 0x2E, 0x74, 0x73]);
    ReadStoredText(mem, ptr, "test.ts");
  }

  lemma TestTsUnits(units: seq<uint16>)
    requires units == [0x74, 0x65, 0x73, 0x74, 0x2E, 0x74, 0x73]
    ensures units == Utf16.Encode("test.ts") && MemoryCodec.IsDecodable("test.ts")
  {
    Utf16.EncodeCodePoints("test.ts", units);
  }

  /** Without a `memory` export the handler returns an error and reads nothing. */
  lemma AbortWithoutMemoryFails(messagePtr: Int32, fileNamePtr: Int32, line: Int32, column: Int32)
    ensures ImportBridge.Abort(None, messagePtr, fileNamePtr, line, column) == Fail(MemoryNotExported)
  {
  }
}
