/**
 BSON values as the engine owns them, their byte encoding under the BSON specification 1.1
 ("Non-terminals": document, e_list, element), and the measures the bounded code paths use.
 */
module Bson {
  import opened Machine

  const MAX_DOCUMENT_BYTES: nat := 16 * 1024 * 1024
  const MAX_NESTING_DEPTH: nat := 100
  const MAX_DECODED_BYTES: nat := 64 * 1024 * 1024

  // ---------------------------------------------------------------- text

  /** A Unicode code point; a Python `str` may hold any of them, surrogates included. */
  type CodePoint = c: int | 0 <= c < 0x11_0000

  /** A Unicode scalar value, the only thing a Rust `String` may hold. */
  type Scalar = c: int | 0 <= c < 0xD800 || 0xE000 <= c < 0x11_0000

  type Text = seq<Scalar>

  /** UTF-8 of one code point (section 3 of RFC 3629; surrogates, which it excludes, get three bytes). */
  function Utf8Char(c: CodePoint): (bytes: seq<byte>)
    ensures 1 <= |bytes| <= 4
  {
    if c < 0x80 then [c]
    else if c < 0x800 then [0xC0 + c / 64, 0x80 + c % 64]
    else if c < 0x1_0000 then [0xE0 + c / 4096, 0x80 + c / 64 % 64, 0x80 + c % 64]
    else [0xF0 + c / 262144, 0x80 + c / 4096 % 64, 0x80 + c / 64 % 64, 0x80 + c % 64]
  }

  function Utf8(text: seq<CodePoint>): (bytes: seq<byte>)
    ensures |text| <= |bytes|
  {
    if text == [] then [] else Utf8(text[..|text| - 1]) + Utf8Char(text[|text| - 1])
  }

  /** Encoded lengths add up over concatenation. */
  lemma {:induction false} Utf8Concat(a: seq<CodePoint>, b: seq<CodePoint>)
    ensures |Utf8(a + b)| == |Utf8(a)| + |Utf8(b)|
    decreases |b|
  {
    if b == [] {
      assert a + b == a;
    } else {
      var front := b[..|b| - 1];
      assert (a + b)[..|a + b| - 1] == a + front;
      Utf8Concat(a, front);
    }
  }

  predicate Ascii(text: seq<CodePoint>) {
    forall i | 0 <= i < |text| :: text[i] < 0x80
  }

  lemma {:induction false} Utf8Ascii(text: seq<CodePoint>)
    requires Ascii(text)
    ensures |Utf8(text)| == |text|
  {
    if text != [] {
      Utf8Ascii(text[..|text| - 1]);
    }
  }

  /** Decimal digits of an array index, most significant first. */
  function DecimalText(n: nat): (text: Text)
    ensures |text| > 0
    ensures forall i | 0 <= i < |text| :: 0x30 <= text[i] <= 0x39
  {
    if n < 10 then [0x30 + n] else DecimalText(n / 10) + [0x30 + n % 10]
  }

  // ---------------------------------------------------------------- values

  type Bytes12 = s: seq<byte> | |s| == 12 witness seq(12, _ => 0)
  type Bytes16 = s: seq<byte> | |s| == 16 witness seq(16, _ => 0)

  datatype UuidRepresentation = Standard | PythonLegacy | JavaLegacy | CSharpLegacy {
    function Subtype(): byte {
      if this.Standard? then 4 else 3
    }

    /** Byte permutation between the RFC 4122 order and the stored order. */
    function Transform(b: Bytes16): (t: Bytes16) {
      match this
      case Standard | PythonLegacy => b
      case JavaLegacy =>
        [b[7], b[6], b[5], b[4], b[3], b[2], b[1], b[0],
         b[15], b[14], b[13], b[12], b[11], b[10], b[9], b[8]]
      case CSharpLegacy =>
        [b[3], b[2], b[1], b[0], b[5], b[4], b[7], b[6]] + b[8..]
    }
  }

  /** The same permutation serves encoding and decoding. */
  lemma TransformInvolutive(rep: UuidRepresentation, b: Bytes16)
    ensures rep.Transform(rep.Transform(b)) == b
  {
    var t := rep.Transform(b);
    if rep.CSharpLegacy? {
      assert t[8..] == b[8..];
    }
    assert forall i | 0 <= i < 16 :: rep.Transform(t)[i] == b[i];
  }

  /** Bytes as a number, most significant first. */
  function FromBigEndian(bytes: seq<byte>): nat {
    if bytes == [] then 0 else 256 * FromBigEndian(bytes[..|bytes| - 1]) + bytes[|bytes| - 1]
  }

  /** The second sequence is the first one backwards. */
  predicate Backwards(a: seq<byte>, b: seq<byte>) {
    |a| == |b| && forall i | 0 <= i < |a| :: b[i] == a[|a| - 1 - i]
  }

  lemma {:induction false} ByteOrders(a: seq<byte>, b: seq<byte>)
    requires Backwards(a, b)
    ensures FromLittleEndian(b) == FromBigEndian(a)
  {
    if a != [] {
      ByteOrders(a[..|a| - 1], b[1..]);
    }
  }

  /**
   What the representations store: the Java one has both halves of the UUID little-endian, the C# one the
   fields `time_low`, `time_mid` and `time_hi` (section 4.1.2 of RFC 4122), the others nothing.
   */
  lemma TransformMeaning(rep: UuidRepresentation, b: Bytes16)
    ensures var t := rep.Transform(b);
            match rep
            case JavaLegacy =>
              && FromLittleEndian(t[..8]) == FromBigEndian(b[..8])
              && FromLittleEndian(t[8..]) == FromBigEndian(b[8..])
            case CSharpLegacy =>
              && FromLittleEndian(t[..4]) == FromBigEndian(b[..4])
              && FromLittleEndian(t[4..6]) == FromBigEndian(b[4..6])
              && FromLittleEndian(t[6..8]) == FromBigEndian(b[6..8]) && t[8..] == b[8..]
            case _ => t == b
  {
    var t := rep.Transform(b);
    if rep.JavaLegacy? {
      ByteOrders(b[..8], t[..8]);
      ByteOrders(b[8..], t[8..]);
    } else if rep.CSharpLegacy? {
      ByteOrders(b[..4], t[..4]);
      ByteOrders(b[4..6], t[4..6]);
      ByteOrders(b[6..8], t[6..8]);
    }
  }

  datatype Value =
    | Double(bits: u64)
    | Str(text: Text)
    | Document(doc: Doc)
    | Array(items: seq<Value>)
    | Binary(subtype: byte, bytes: seq<byte>)
    | Uuid(uuid: Bytes16, rep: UuidRepresentation)
    | ObjectId(oid: Bytes12)
    | Boolean(truth: bool)
    | DateTime(millis: i64)
    | Null
    | Regex(pattern: Text, options: Text)
    | JavaScript(code: Text, scope: Option<Doc>)
    | Int32(int32: i32)
    | Timestamp(time: u32, increment: u32)
    | Int64(int64: i64)
    | Decimal128(bid: Bytes16)
    | MinKey
    | MaxKey

  datatype Doc = Doc(entries: seq<Entry>)
  datatype Entry = Entry(name: Text, value: Value)

  // ---------------------------------------------------------------- the wire format

  function TypeByte(v: Value): byte {
    match v
    case Double(_) => 0x01
    case Str(_) => 0x02
    case Document(_) => 0x03
    case Array(_) => 0x04
    case Binary(_, _) | Uuid(_, _) => 0x05
    case ObjectId(_) => 0x07
    case Boolean(_) => 0x08
    case DateTime(_) => 0x09
    case Null => 0x0A
    case Regex(_, _) => 0x0B
    case JavaScript(_, scope) => if scope.None? then 0x0D else 0x0F
    case Int32(_) => 0x10
    case Timestamp(_, _) => 0x11
    case Int64(_) => 0x12
    case Decimal128(_) => 0x13
    case MinKey => 0xFF
    case MaxKey => 0x7F
  }

  /** `string ::= int32 (byte*) "\x00"`, the count including the trailing NUL. */
  function EncodeString(text: Text): seq<byte> {
    LittleEndian(|Utf8(text)| + 1, 4) + Utf8(text) + [0]
  }

  function EncodeCString(text: Text): seq<byte> {
    Utf8(text) + [0]
  }

  /** `binary ::= int32 subtype (byte*)`; the old subtype 2 repeats the count inside the payload. */
  function EncodeBinary(subtype: byte, bytes: seq<byte>): seq<byte> {
    if subtype == 2 then
      LittleEndian(|bytes| + 4, 4) + [subtype] + LittleEndian(|bytes|, 4) + bytes
    else
      LittleEndian(|bytes|, 4) + [subtype] + bytes
  }

  /** `document ::= int32 e_list "\x00"`, the count covering the whole document. */
  function Frame(elements: seq<byte>): seq<byte> {
    LittleEndian(|elements| + 5, 4) + elements + [0]
  }

  function EncodeValue(v: Value): seq<byte>
    decreases v, 0
  {
    match v
    case Double(bits) => LittleEndian(bits, 8)
    case Str(text) => EncodeString(text)
    case Document(doc) => EncodeDoc(doc)
    case Array(items) => Frame(EncodeItems(items))
    case Binary(subtype, bytes) => EncodeBinary(subtype, bytes)
    case Uuid(uuid, rep) => EncodeBinary(rep.Subtype(), rep.Transform(uuid))
    case ObjectId(oid) => oid
    case Boolean(truth) => [if truth then 1 else 0]
    case DateTime(millis) => LittleEndian(TwosComplement(millis, 0x1_0000_0000_0000_0000), 8)
    case Null | MinKey | MaxKey => []
    case Regex(pattern, options) => EncodeCString(pattern) + EncodeCString(options)
    case JavaScript(code, None) => EncodeString(code)
    case JavaScript(code, Some(scope)) =>
      var body := EncodeString(code) + EncodeDoc(scope);
      LittleEndian(|body| + 4, 4) + body
    case Int32(n) => LittleEndian(TwosComplement(n, 0x1_0000_0000), 4)
    case Timestamp(time, increment) => LittleEndian(increment, 4) + LittleEndian(time, 4)
    case Int64(n) => LittleEndian(TwosComplement(n, 0x1_0000_0000_0000_0000), 8)
    case Decimal128(bid) => bid
  }

  function EncodeDoc(doc: Doc): seq<byte>
    decreases doc, 1
  {
    Frame(EncodeEntries(doc.entries))
  }

  function EncodeEntries(entries: seq<Entry>): seq<byte>
    decreases entries, 0
  {
    if entries == [] then []
    else
      var last := entries[|entries| - 1];
      EncodeEntries(entries[..|entries| - 1])
      + [TypeByte(last.value)] + EncodeCString(last.name) + EncodeValue(last.value)
  }

  /** An array is a document whose names are "0", "1", "2", ... */
  function EncodeItems(items: seq<Value>): seq<byte>
    decreases items, 0
  {
    if items == [] then []
    else
      var n := |items| - 1;
      EncodeItems(items[..n])
      + [TypeByte(items[n])] + EncodeCString(DecimalText(n)) + EncodeValue(items[n])
  }

  // ---------------------------------------------------------------- measures

  /** Encoded length of a value, added up without materializing any byte. */
  function ValueLen(v: Value): nat
    decreases v, 0
  {
    match v
    case Double(_) | DateTime(_) | Timestamp(_, _) | Int64(_) => 8
    case Str(text) => 5 + |Utf8(text)|
    case Document(doc) => DocLen(doc)
    case Array(items) => 5 + ItemsLen(items)
    case Binary(subtype, bytes) => (if subtype == 2 then 9 else 5) + |bytes|
    case Uuid(_, _) => 21
    case ObjectId(_) => 12
    case Boolean(_) => 1
    case Null | MinKey | MaxKey => 0
    case Regex(pattern, options) => 2 + |Utf8(pattern)| + |Utf8(options)|
    case JavaScript(code, None) => 5 + |Utf8(code)|
    case JavaScript(code, Some(scope)) => 9 + |Utf8(code)| + DocLen(scope)
    case Int32(_) => 4
    case Decimal128(_) => 16
  }

  function DocLen(doc: Doc): nat
    decreases doc, 1
  {
    5 + EntriesLen(doc.entries)
  }

  function EntriesLen(entries: seq<Entry>): nat
    decreases entries, 0
  {
    if entries == [] then 0
    else
      var last := entries[|entries| - 1];
      EntriesLen(entries[..|entries| - 1]) + |Utf8(last.name)| + 2 + ValueLen(last.value)
  }

  function ItemsLen(items: seq<Value>): nat
    decreases items, 0
  {
    if items == [] then 0
    else
      var n := |items| - 1;
      ItemsLen(items[..n]) + |DecimalText(n)| + 2 + ValueLen(items[n])
  }

  /** The added-up length is the length of the bytes the BSON specification prescribes. */
  lemma {:induction false} EncodedValueLength(v: Value)
    ensures |EncodeValue(v)| == ValueLen(v)
    decreases v, 0
  {
    match v
    case Document(doc) => EncodedDocLength(doc);
    case Array(items) => EncodedItemsLength(items);
    case JavaScript(_, Some(scope)) => EncodedDocLength(scope);
    case _ =>
  }

  lemma {:induction false} EncodedDocLength(doc: Doc)
    ensures |EncodeDoc(doc)| == DocLen(doc)
    decreases doc, 1
  {
    EncodedEntriesLength(doc.entries);
  }

  lemma {:induction false} EncodedEntriesLength(entries: seq<Entry>)
    ensures |EncodeEntries(entries)| == EntriesLen(entries)
    decreases entries, 0
  {
    if entries != [] {
      EncodedEntriesLength(entries[..|entries| - 1]);
      EncodedValueLength(entries[|entries| - 1].value);
    }
  }

  lemma {:induction false} EncodedItemsLength(items: seq<Value>)
    ensures |EncodeItems(items)| == ItemsLen(items)
    decreases items, 0
  {
    if items != [] {
      var n := |items| - 1;
      EncodedItemsLength(items[..n]);
      EncodedValueLength(items[n]);
      Utf8Ascii(DecimalText(n));
    }
  }

  lemma {:induction false} EntriesLenMonotone(entries: seq<Entry>, n: nat)
    requires n <= |entries|
    ensures EntriesLen(entries[..n]) <= EntriesLen(entries)
    decreases |entries| - n
  {
    if n == |entries| {
      assert entries[..n] == entries;
    } else {
      EntriesLenMonotone(entries, n + 1);
      assert entries[..n + 1][..n] == entries[..n];
    }
  }

  lemma {:induction false} ItemsLenMonotone(items: seq<Value>, n: nat)
    requires n <= |items|
    ensures ItemsLen(items[..n]) <= ItemsLen(items)
    decreases |items| - n
  {
    if n == |items| {
      assert items[..n] == items;
    } else {
      ItemsLenMonotone(items, n + 1);
      assert items[..n + 1][..n] == items[..n];
    }
  }

  /** Containers on the longest path down a value; code scope counts as a document. */
  function Height(v: Value): nat
    decreases v, 0
  {
    match v
    case Document(doc) => DocHeight(doc)
    case Array(items) => 1 + ItemsHeight(items)
    case JavaScript(_, Some(scope)) => DocHeight(scope)
    case _ => 0
  }

  function DocHeight(doc: Doc): nat
    decreases doc, 1
  {
    1 + EntriesHeight(doc.entries)
  }

  function EntriesHeight(entries: seq<Entry>): nat
    decreases entries, 0
  {
    if entries == [] then 0
    else Max(EntriesHeight(entries[..|entries| - 1]), Height(entries[|entries| - 1].value))
  }

  function ItemsHeight(items: seq<Value>): nat
    decreases items, 0
  {
    if items == [] then 0
    else Max(ItemsHeight(items[..|items| - 1]), Height(items[|items| - 1]))
  }

  function Max(a: nat, b: nat): nat {
    if a < b then b else a
  }

  lemma {:induction false} EntriesHeightBound(entries: seq<Entry>, i: nat)
    requires i < |entries|
    ensures Height(entries[i].value) <= EntriesHeight(entries)
  {
    if i < |entries| - 1 {
      EntriesHeightBound(entries[..|entries| - 1], i);
    }
  }

  lemma {:induction false} ItemsHeightBound(items: seq<Value>, i: nat)
    requires i < |items|
    ensures Height(items[i]) <= ItemsHeight(items)
  {
    if i < |items| - 1 {
      ItemsHeightBound(items[..|items| - 1], i);
    }
  }

  predicate NulFree(text: seq<CodePoint>) {
    0 !in text
  }

  function NamesOf(entries: seq<Entry>): set<Text> {
    if entries == [] then {}
    else NamesOf(entries[..|entries| - 1]) + {entries[|entries| - 1].name}
  }

  /** Every document in the value has distinct names without a NUL. */
  predicate WellNamed(v: Value)
    decreases v, 0
  {
    match v
    case Document(doc) => EntriesNamed(doc.entries)
    case Array(items) => ItemsNamed(items)
    case JavaScript(_, Some(scope)) => EntriesNamed(scope.entries)
    case _ => true
  }

  predicate EntriesNamed(entries: seq<Entry>)
    decreases entries, 0
  {
    entries != [] ==>
      var front, last := entries[..|entries| - 1], entries[|entries| - 1];
      EntriesNamed(front) && NulFree(last.name) && last.name !in NamesOf(front) && WellNamed(last.value)
  }

  predicate ItemsNamed(items: seq<Value>)
    decreases items, 0
  {
    items != [] ==> ItemsNamed(items[..|items| - 1]) && WellNamed(items[|items| - 1])
  }

  lemma {:induction false} EntryNamed(entries: seq<Entry>, i: nat)
    requires EntriesNamed(entries) && i < |entries|
    ensures NulFree(entries[i].name) && entries[i].name !in NamesOf(entries[..i]) && WellNamed(entries[i].value)
  {
    if i < |entries| - 1 {
      EntryNamed(entries[..|entries| - 1], i);
      assert entries[..|entries| - 1][..i] == entries[..i];
    }
  }

  lemma {:induction false} ItemNamed(items: seq<Value>, i: nat)
    requires ItemsNamed(items) && i < |items|
    ensures WellNamed(items[i])
  {
    if i < |items| - 1 {
      ItemNamed(items[..|items| - 1], i);
    }
  }

  lemma {:induction false} NamesOfContains(entries: seq<Entry>, name: Text)
    ensures name in NamesOf(entries) <==> exists i | 0 <= i < |entries| :: entries[i].name == name
  {
    if entries != [] {
      var front := entries[..|entries| - 1];
      NamesOfContains(front, name);
      if i :| 0 <= i < |front| && front[i].name == name {
        assert entries[i].name == name;
      }
      if i :| 0 <= i < |entries| && entries[i].name == name {
        assert i < |front| ==> front[i].name == name;
      }
    }
  }

  /** What `EntriesNamed` says of the names, without the recursion: pairwise distinct and NUL-free. */
  lemma {:induction false} EntriesNamedMeaning(entries: seq<Entry>)
    ensures EntriesNamed(entries) <==>
            && (forall i, j | 0 <= i < j < |entries| :: entries[i].name != entries[j].name)
            && (forall i | 0 <= i < |entries| :: NulFree(entries[i].name) && WellNamed(entries[i].value))
  {
    if entries != [] {
      var n := |entries| - 1;
      var front, last := entries[..n], entries[n];
      EntriesNamedMeaning(front);
      NamesOfContains(front, last.name);
      if EntriesNamed(entries) {
        forall i, j | 0 <= i < j < |entries| ensures entries[i].name != entries[j].name {
          assert entries[i] == front[i];
          assert j < n ==> entries[j] == front[j];
        }
        forall i | 0 <= i < |entries| ensures NulFree(entries[i].name) && WellNamed(entries[i].value) {
          assert i < n ==> entries[i] == front[i];
        }
      }
    }
  }

  /** Every regular expression in the value can be written as two NUL-terminated strings. */
  predicate CStrings(v: Value)
    decreases v, 0
  {
    match v
    case Document(doc) => EntriesCStrings(doc.entries)
    case Array(items) => ItemsCStrings(items)
    case JavaScript(_, Some(scope)) => EntriesCStrings(scope.entries)
    case Regex(pattern, options) => NulFree(pattern) && NulFree(options)
    case _ => true
  }

  predicate EntriesCStrings(entries: seq<Entry>)
    decreases entries, 0
  {
    entries != [] ==> EntriesCStrings(entries[..|entries| - 1]) && CStrings(entries[|entries| - 1].value)
  }

  predicate ItemsCStrings(items: seq<Value>)
    decreases items, 0
  {
    items != [] ==> ItemsCStrings(items[..|items| - 1]) && CStrings(items[|items| - 1])
  }

  lemma {:induction false} EntryCStrings(entries: seq<Entry>, i: nat)
    requires EntriesCStrings(entries) && i < |entries|
    ensures CStrings(entries[i].value)
  {
    if i < |entries| - 1 {
      EntryCStrings(entries[..|entries| - 1], i);
    }
  }

  lemma {:induction false} ItemCStrings(items: seq<Value>, i: nat)
    requires ItemsCStrings(items) && i < |items|
    ensures CStrings(items[i])
  {
    if i < |items| - 1 {
      ItemCStrings(items[..|items| - 1], i);
    }
  }
}
