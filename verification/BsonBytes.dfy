/**
 What the encoded bytes say when they are read by themselves: numbers as little-endian words, lengths that
 describe what follows them, the index names of arrays, and the examples of the BSON specification.
 */
module BsonBytes {
  import opened Machine
  import opened Bson

  // ---------------------------------------------------------------- numbers

  /** A little-endian word read as a two's complement integer. */
  function SignedWord(bytes: seq<byte>): int {
    var n := FromLittleEndian(bytes);
    if 2 * n < Power256(|bytes|) then n else n - Power256(|bytes|)
  }

  lemma SignedWordReads(n: int, width: nat)
    requires (width == 4 && FitsI32(n)) || (width == 8 && FitsI64(n))
    ensures -(Power256(width) as int) <= n < Power256(width)
    ensures SignedWord(LittleEndian(TwosComplement(n, Power256(width)), width)) == n
  {
    WordBounds();
    LittleEndianInverts(TwosComplement(n, Power256(width)), width);
  }

  lemma IntegerBytes(v: Value)
    ensures v.Int32? ==> |EncodeValue(v)| == 4 && SignedWord(EncodeValue(v)) == v.int32
    ensures v.Int64? ==> |EncodeValue(v)| == 8 && SignedWord(EncodeValue(v)) == v.int64
    ensures v.DateTime? ==> |EncodeValue(v)| == 8 && SignedWord(EncodeValue(v)) == v.millis
  {
    WordBounds();
    if v.Int32? {
      SignedWordReads(v.int32, 4);
    } else if v.Int64? {
      SignedWordReads(v.int64, 8);
    } else if v.DateTime? {
      SignedWordReads(v.millis, 8);
    }
  }

  /** A timestamp is one 64-bit number with the seconds above the increment. */
  lemma WordBytes(v: Value)
    ensures v.Double? ==> |EncodeValue(v)| == 8 && FromLittleEndian(EncodeValue(v)) == v.bits
    ensures v.Timestamp? ==>
              |EncodeValue(v)| == 8 && FromLittleEndian(EncodeValue(v)) == v.time * 0x1_0000_0000 + v.increment
    ensures v.Boolean? ==> EncodeValue(v) == (if v.truth then [1] else [0])
  {
    WordBounds();
    if v.Double? {
      LittleEndianInverts(v.bits, 8);
    } else if v.Timestamp? {
      LittleEndianInverts(v.increment, 4);
      LittleEndianInverts(v.time, 4);
      FromLittleEndianConcat(LittleEndian(v.increment, 4), LittleEndian(v.time, 4));
    }
  }

  /** Identifiers and decimals are written as they are. */
  lemma VerbatimBytes(v: Value)
    ensures v.ObjectId? ==> EncodeValue(v) == v.oid
    ensures v.Decimal128? ==> EncodeValue(v) == v.bid
    ensures v.Null? || v.MinKey? || v.MaxKey? ==> EncodeValue(v) == []
  {
  }

  /** The type of an element, read from its byte. */
  lemma TypeByteMeaning(v: Value)
    ensures (TypeByte(v) == 0x01 <==> v.Double?) && (TypeByte(v) == 0x02 <==> v.Str?)
    ensures (TypeByte(v) == 0x03 <==> v.Document?) && (TypeByte(v) == 0x04 <==> v.Array?)
    ensures (TypeByte(v) == 0x05 <==> v.Binary? || v.Uuid?) && (TypeByte(v) == 0x07 <==> v.ObjectId?)
    ensures (TypeByte(v) == 0x08 <==> v.Boolean?) && (TypeByte(v) == 0x09 <==> v.DateTime?)
    ensures (TypeByte(v) == 0x0A <==> v.Null?) && (TypeByte(v) == 0x0B <==> v.Regex?)
    ensures TypeByte(v) == 0x0D <==> v.JavaScript? && v.scope.None?
    ensures TypeByte(v) == 0x0F <==> v.JavaScript? && v.scope.Some?
    ensures (TypeByte(v) == 0x10 <==> v.Int32?) && (TypeByte(v) == 0x11 <==> v.Timestamp?)
    ensures (TypeByte(v) == 0x12 <==> v.Int64?) && (TypeByte(v) == 0x13 <==> v.Decimal128?)
    ensures (TypeByte(v) == 0x7F <==> v.MaxKey?) && (TypeByte(v) == 0xFF <==> v.MinKey?)
  {
  }

  // ---------------------------------------------------------------- lengths

  /** A document says how long it is, and ends with a zero byte. */
  lemma DocumentCountsItself(doc: Doc)
    requires |EncodeDoc(doc)| < 0x1_0000_0000
    ensures var bytes := EncodeDoc(doc);
            |bytes| >= 5 && FromLittleEndian(bytes[..4]) == |bytes| && bytes[|bytes| - 1] == 0
  {
    FrameCounts(EncodeDoc(doc), EncodeEntries(doc.entries));
  }

  lemma ArrayCountsItself(items: seq<Value>)
    requires |EncodeValue(Array(items))| < 0x1_0000_0000
    ensures var bytes := EncodeValue(Array(items));
            |bytes| >= 5 && FromLittleEndian(bytes[..4]) == |bytes| && bytes[|bytes| - 1] == 0
  {
    FrameCounts(EncodeValue(Array(items)), EncodeItems(items));
  }

  lemma FrameCounts(bytes: seq<byte>, elements: seq<byte>)
    requires bytes == Frame(elements) && |bytes| < 0x1_0000_0000
    ensures |bytes| >= 5 && FromLittleEndian(bytes[..4]) == |bytes| && bytes[|bytes| - 1] == 0
  {
    WordBounds();
    LittleEndianInverts(|elements| + 5, 4);
    assert bytes[..4] == LittleEndian(|elements| + 5, 4);
  }

  /** A string counts its bytes with the terminator. */
  lemma StringCountsItself(text: Text)
    requires |EncodeString(text)| < 0x1_0000_0000
    ensures var bytes := EncodeString(text);
            && |bytes| >= 5 && FromLittleEndian(bytes[..4]) == |bytes| - 4
            && bytes[4..|bytes| - 1] == Utf8(text) && bytes[|bytes| - 1] == 0
  {
    WordBounds();
    LittleEndianInverts(|Utf8(text)| + 1, 4);
    assert EncodeString(text)[..4] == LittleEndian(|Utf8(text)| + 1, 4);
  }

  /** The count, subtype and payload of a binary; the old subtype 2 counts its payload twice. */
  lemma BinaryCountsItself(subtype: byte, payload: seq<byte>)
    requires |payload| + 9 < 0x1_0000_0000
    ensures var bytes := EncodeBinary(subtype, payload);
            && |bytes| >= 5 && FromLittleEndian(bytes[..4]) == |bytes| - 5 && bytes[4] == subtype
            && if subtype == 2 then
                 |bytes| >= 9 && FromLittleEndian(bytes[5..9]) == |bytes| - 9 && bytes[9..] == payload
               else bytes[5..] == payload
  {
    WordBounds();
    var bytes := EncodeBinary(subtype, payload);
    var counted := if subtype == 2 then |payload| + 4 else |payload|;
    LittleEndianInverts(counted, 4);
    LittleEndianInverts(|payload|, 4);
    assert bytes[..4] == LittleEndian(counted, 4);
    assert subtype == 2 ==> bytes[5..9] == LittleEndian(|payload|, 4);
  }

  /** A UUID is a binary of sixteen bytes, of subtype 4 in the standard representation and 3 in the older ones. */
  lemma UuidBytes(uuid: Bytes16, rep: UuidRepresentation)
    ensures var bytes := EncodeValue(Uuid(uuid, rep));
            && |bytes| == 21 && bytes[4] == (if rep.Standard? then 4 else 3)
            && FromLittleEndian(bytes[..4]) == 16 && bytes[5..] == rep.Transform(uuid)
  {
    BinaryCountsItself(rep.Subtype(), rep.Transform(uuid));
  }

  /** A regular expression is its pattern and its options, each ended by a zero byte. */
  lemma RegexBytes(pattern: Text, options: Text)
    ensures var bytes, n := EncodeValue(Regex(pattern, options)), |Utf8(pattern)|;
            && n + 2 <= |bytes| && bytes[..n] == Utf8(pattern) && bytes[n] == 0
            && bytes[n + 1..|bytes| - 1] == Utf8(options) && bytes[|bytes| - 1] == 0
  {
    Terminated(Utf8(pattern), Utf8(options), EncodeValue(Regex(pattern, options)));
  }

  lemma Terminated(a: seq<byte>, b: seq<byte>, bytes: seq<byte>)
    requires bytes == (a + [0]) + (b + [0])
    ensures |a| + 2 <= |bytes| && bytes[..|a|] == a && bytes[|a|] == 0
    ensures bytes[|a| + 1..|bytes| - 1] == b && bytes[|bytes| - 1] == 0
  {
  }

  /** Code with a scope counts all of it, then holds the code string and the scope document. */
  lemma CodeCountsItself(code: Text, scope: Doc)
    requires |EncodeValue(JavaScript(code, Some(scope)))| < 0x1_0000_0000
    ensures var bytes := EncodeValue(JavaScript(code, Some(scope)));
            && |bytes| >= 4 && FromLittleEndian(bytes[..4]) == |bytes|
            && bytes[4..] == EncodeString(code) + EncodeDoc(scope)
  {
    Counted(EncodeValue(JavaScript(code, Some(scope))), EncodeString(code) + EncodeDoc(scope));
  }

  lemma Counted(bytes: seq<byte>, body: seq<byte>)
    requires bytes == LittleEndian(|body| + 4, 4) + body && |bytes| < 0x1_0000_0000
    ensures |bytes| >= 4 && FromLittleEndian(bytes[..4]) == |bytes| && bytes[4..] == body
  {
    WordBounds();
    LittleEndianInverts(|body| + 4, 4);
    assert bytes[..4] == LittleEndian(|body| + 4, 4);
  }

  // ---------------------------------------------------------------- index names

  function DecimalNumber(text: seq<CodePoint>): int {
    if text == [] then 0
    else
      var digit: int := text[|text| - 1];
      10 * DecimalNumber(text[..|text| - 1]) + (digit - 0x30)
  }

  /** The name of an array item is its index in decimal, without leading zeros. */
  lemma {:induction false} DecimalTextReads(n: nat)
    ensures DecimalNumber(DecimalText(n)) == n && (n > 0 ==> DecimalText(n)[0] != 0x30)
  {
    if n < 10 {
      assert [0x30 + n][..0] == [];
    } else {
      DecimalTextReads(n / 10);
      var text := DecimalText(n);
      assert text[..|text| - 1] == DecimalText(n / 10);
    }
  }

  // ---------------------------------------------------------------- the specification's examples

  lemma {:induction false} AsciiBytes(text: Text)
    requires Ascii(text)
    ensures Utf8(text) == text
  {
    if text != [] {
      var n := |text| - 1;
      AsciiBytes(text[..n]);
      assert text == text[..n] + [text[n]];
    }
  }

  lemma OneEntry(e: Entry, entries: seq<Entry>)
    requires entries == [e]
    ensures EncodeEntries(entries) == [TypeByte(e.value)] + EncodeCString(e.name) + EncodeValue(e.value)
  {
    assert entries[..0] == [];
  }

  lemma StringBytes(text: Text, count: seq<byte>)
    requires Ascii(text) && count == LittleEndian(|text| + 1, 4)
    ensures EncodeString(text) == count + text + [0]
  {
    AsciiBytes(text);
  }

  /** The elements of a document of one ASCII string. */
  lemma OneString(name: Text, text: Text, count: seq<byte>, entries: seq<Entry>)
    requires Ascii(name) && Ascii(text) && entries == [Entry(name, Str(text))]
    requires count == LittleEndian(|text| + 1, 4)
    ensures EncodeEntries(entries) == [0x02] + (name + [0]) + (count + text + [0])
  {
    AsciiBytes(name);
    StringBytes(text, count);
    OneEntry(Entry(name, Str(text)), entries);
  }

  lemma Framed(entries: seq<Entry>, elements: seq<byte>, size: seq<byte>)
    requires EncodeEntries(entries) == elements && size == LittleEndian(|elements| + 5, 4)
    ensures EncodeDoc(Doc(entries)) == size + elements + [0]
  {
  }

  lemma SmallWord(n: byte, width: nat)
    requires width == 4
    ensures LittleEndian(n, width) == [n, 0, 0, 0]
  {
    assert LittleEndian(0, width - 4) == [];
    assert LittleEndian(0, width - 3) == [0] + LittleEndian(0, width - 4);
    assert LittleEndian(0, width - 2) == [0] + LittleEndian(0, width - 3);
    assert LittleEndian(0, width - 1) == [0] + LittleEndian(0, width - 2);
  }

  /** The specification's example `{"hello": "world"}`. */
  lemma HelloWorld(hello: Text, world: Text, entries: seq<Entry>)
    requires hello == [0x68, 0x65, 0x6C, 0x6C, 0x6F] && world == [0x77, 0x6F, 0x72, 0x6C, 0x64]
    requires entries == [Entry(hello, Str(world))]
    ensures EncodeDoc(Doc(entries))
            == [0x16, 0, 0, 0, 0x02, 0x68, 0x65, 0x6C, 0x6C, 0x6F, 0,
                0x06, 0, 0, 0, 0x77, 0x6F, 0x72, 0x6C, 0x64, 0, 0]
  {
    var count, size := [6, 0, 0, 0], [22, 0, 0, 0];
    SmallWord(6, 4);
    SmallWord(22, 4);
    OneString(hello, world, count, entries);
    var elements := Spelled(hello, world, count);
    Framed(entries, elements, size);
    Whole(size, elements);
  }

  lemma Whole(size: seq<byte>, elements: seq<byte>)
    requires size == [22, 0, 0, 0]
    requires elements == [0x02, 0x68, 0x65, 0x6C, 0x6C, 0x6F, 0,
                          0x06, 0, 0, 0, 0x77, 0x6F, 0x72, 0x6C, 0x64, 0]
    ensures size + elements + [0]
            == [0x16, 0, 0, 0, 0x02, 0x68, 0x65, 0x6C, 0x6C, 0x6F, 0,
                0x06, 0, 0, 0, 0x77, 0x6F, 0x72, 0x6C, 0x64, 0, 0]
  {
  }

  lemma Spelled(hello: Text, world: Text, count: seq<byte>) returns (elements: seq<byte>)
    requires count == [6, 0, 0, 0]
    requires hello == [0x68, 0x65, 0x6C, 0x6C, 0x6F] && world == [0x77, 0x6F, 0x72, 0x6C, 0x64]
    ensures elements == [0x02] + (hello + [0]) + (count + world + [0])
    ensures elements == [0x02, 0x68, 0x65, 0x6C, 0x6C, 0x6F, 0,
                         0x06, 0, 0, 0, 0x77, 0x6F, 0x72, 0x6C, 0x64, 0]
  {
    elements := [0x02] + (hello + [0]) + (count + world + [0]);
  }
}
