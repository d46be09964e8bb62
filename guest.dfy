/** The guest's two pure exports in assembly/index.ts. AssemblyScript strings
    are sequences of UTF-16 code units, so `greet` is modelled on those. */
module Guest {
  import opened Wire
  import Utf16

  /** `add(a: i32, b: i32): i32`: the i32 sum, which wraps around modulo 2^32. */
  function Add(a: Int32, b: Int32): (r: Int32)
    ensures (r - (a + b)) % 0x1_0000_0000 == 0
    ensures MinInt32 <= a + b <= MaxInt32 ==> r == a + b
  {
    Wrap32(a + b)
  }

  /** The fixed text in front of the name in `greet`'s template string. */
  const GreetingText: string := "Welcome to AssemblyScript, "

  /** The prefix as the compiled module stores it: one UTF-16 code unit per
      character, all of them ASCII. */
  const GreetingUnits: seq<uint16> :=
    [0x57, 0x65, 0x6C, 0x63, 0x6F, 0x6D, 0x65, 0x20, 0x74, 0x6F, 0x20, 0x41, 0x73, 0x73,
     0x65, 0x6D, 0x62, 0x6C, 0x79, 0x53, 0x63, 0x72, 0x69, 0x70, 0x74, 0x2C, 0x20]

  /** The stored prefix is the UTF-16 encoding of the template's text. */
  lemma GreetingUnitsEncodeText()
    ensures GreetingUnits == Utf16.Encode(GreetingText)
  {
    assert forall k :: 0 <= k < |GreetingText| ==> GreetingUnits[k] == GreetingText[k] as int;
    Utf16.EncodeCodePoints(GreetingText, GreetingUnits);
  }


  /** `greet(name: string): string`: the template's text followed by the name,
      unit for unit. */
  function Greet(name: seq<uint16>): (r: seq<uint16>)
    ensures |r| == |GreetingText| + |name|
    ensures forall k :: 0 <= k < |GreetingText| ==> r[k] == GreetingText[k] as int
    ensures r[|GreetingText|..] == name
  {
    GreetingUnits + name
  }

  /** Greeting an encoded name gives the encoding of the template filled in
      with that name. */
  lemma GreetEncodesTemplate(name: string)
    ensures Greet(Utf16.Encode(name)) == Utf16.Encode(GreetingText + name)
  {
    GreetingUnitsEncodeText();
    Utf16.EncodeAppend(GreetingText, name);
  }

  /** Addition is commutative, wrap-around included. */
  lemma AddCommutes(a: Int32, b: Int32)
    ensures Add(a, b) == Add(b, a)
  {
  }

  /** The call the host makes. */
  lemma AddThreeFour()
    ensures Add(3, 4) == 7
  {
  }

  /** i32 overflow wraps to the most negative value. */
  lemma AddWrapsAround()
    ensures Add(MaxInt32, 1) == MinInt32
  {
  }

  /** The greeting ends with the name: the name is a suffix of the result. */
  lemma GreetEndsWithName(name: seq<uint16>)
    ensures |name| <= |Greet(name)|
    ensures Greet(name)[|Greet(name)| - |name|..] == name
  {
  }
}
