/**
 The encoding is uniquely decodable: documents with the same bytes are the same document, up to
 whether a binary is held as a UUID, which the bytes do not say.
 */
module BsonUnique {
  import opened Machine
  import opened Bson
  import opened Charges
  import opened BsonCodec
  import opened BsonEncoder
  import opened DocumentOutput

  // ---------------------------------------------------------------- reading off a prefix

  lemma Cut(x: seq<byte>, s: seq<byte>, y: seq<byte>, t: seq<byte>)
    requires x + s == y + t && |x| == |y|
    ensures x == y && s == t
  {
    assert x == (x + s)[..|x|] && s == (x + s)[|x|..];
    assert y == (y + t)[..|y|] && t == (y + t)[|y|..];
  }

  lemma Regrouped(a: seq<byte>, b: seq<byte>, c: seq<byte>)
    ensures (a + b) + c == a + (b + c)
  {
  }

  /** A little-endian word is read off the front. */
  lemma SameWord(n: nat, m: nat, width: nat, s: seq<byte>, t: seq<byte>)
    requires n < Power256(width) && m < Power256(width) && LittleEndian(n, width) + s == LittleEndian(m, width) + t
    ensures n == m && s == t
  {
    Cut(LittleEndian(n, width), s, LittleEndian(m, width), t);
    LittleEndianInverts(n, width);
    LittleEndianInverts(m, width);
  }

  // ---------------------------------------------------------------- text

  /** The code point whose UTF-8 form the bytes begin with. */
  function LeadingChar(bytes: seq<byte>): int
    requires bytes != []
  {
    var b0: int := bytes[0];
    if b0 < 0x80 || |bytes| < 2 then b0
    else
      var b1: int := bytes[1];
      if b0 < 0xE0 || |bytes| < 3 then (b0 - 0xC0) * 64 + (b1 - 0x80)
      else
        var b2: int := bytes[2];
        if b0 < 0xF0 || |bytes| < 4 then (b0 - 0xE0) * 4096 + (b1 - 0x80) * 64 + (b2 - 0x80)
        else
          var b3: int := bytes[3];
          (b0 - 0xF0) * 262144 + (b1 - 0x80) * 4096 + (b2 - 0x80) * 64 + (b3 - 0x80)
  }

  /** The four groups of six bits. */
  lemma SixBits(c: nat)
    ensures c == c / 64 * 64 + c % 64 && c / 64 == c / 4096 * 64 + c / 64 % 64
    ensures c / 4096 == c / 262144 * 64 + c / 4096 % 64
  {
    SixBitsOf(c);
    SixBitsOf(c / 64);
    SixBitsOf(c / 4096);
    Nested(c, 64, 4096);
    Nested(c, 4096, 262144);
  }

  lemma SixBitsOf(n: nat)
    ensures n == n / 64 * 64 + n % 64
  {
  }

  lemma Nested(c: nat, low: nat, high: nat)
    requires (low == 64 && high == 4096) || (low == 4096 && high == 262144)
    ensures c / low / 64 == c / high
  {
  }

  lemma LeadingCharReads(c: CodePoint, s: seq<byte>)
    ensures LeadingChar(Utf8Char(c) + s) == c
  {
    var u := Utf8Char(c);
    var all := u + s;
    SixBits(c);
    if c < 0x80 {
      assert all[0] == c;
    } else if c < 0x800 {
      assert all[0] == 0xC0 + c / 64 && all[1] == 0x80 + c % 64;
    } else if c < 0x1_0000 {
      assert all[0] == 0xE0 + c / 4096 && all[1] == 0x80 + c / 64 % 64 && all[2] == 0x80 + c % 64;
    } else {
      assert all[0] == 0xF0 + c / 262144 && all[1] == 0x80 + c / 4096 % 64;
      assert all[2] == 0x80 + c / 64 % 64 && all[3] == 0x80 + c % 64;
    }
  }

  lemma SameChar(c: CodePoint, d: CodePoint, s: seq<byte>, t: seq<byte>)
    requires Utf8Char(c) + s == Utf8Char(d) + t
    ensures c == d && s == t
  {
    LeadingCharReads(c, s);
    LeadingCharReads(d, t);
    Cut(Utf8Char(c), s, Utf8Char(d), t);
  }

  lemma {:induction false} Utf8Head(text: seq<CodePoint>)
    requires text != []
    ensures Utf8(text) == Utf8Char(text[0]) + Utf8(text[1..])
  {
    var n := |text| - 1;
    if n == 0 {
      assert text[..0] == [] && text[1..] == [];
    } else {
      Utf8Head(text[..n]);
      assert text[..n][1..] == text[1..][..n - 1] && text[1..][n - 1] == text[n];
      Regrouped(Utf8Char(text[0]), Utf8(text[1..][..n - 1]), Utf8Char(text[n]));
    }
  }

  lemma {:induction false} SameText(a: seq<CodePoint>, b: seq<CodePoint>)
    requires Utf8(a) == Utf8(b)
    ensures a == b
  {
    if a != [] && b != [] {
      Utf8Head(a);
      Utf8Head(b);
      SameChar(a[0], b[0], Utf8(a[1..]), Utf8(b[1..]));
      SameText(a[1..], b[1..]);
      assert a == [a[0]] + a[1..] && b == [b[0]] + b[1..];
    }
  }

  /** A text without a NUL ends at the first zero byte. */
  lemma {:induction false} SameCString(a: seq<CodePoint>, b: seq<CodePoint>, s: seq<byte>, t: seq<byte>)
    requires NulFree(a) && NulFree(b) && Utf8(a) + ([0] + s) == Utf8(b) + ([0] + t)
    ensures a == b && s == t
    decreases |a|
  {
    if a != [] && b != [] {
      Utf8Head(a);
      Utf8Head(b);
      Regrouped(Utf8Char(a[0]), Utf8(a[1..]), [0] + s);
      Regrouped(Utf8Char(b[0]), Utf8(b[1..]), [0] + t);
      SameChar(a[0], b[0], Utf8(a[1..]) + ([0] + s), Utf8(b[1..]) + ([0] + t));
      SameCString(a[1..], b[1..], s, t);
      assert a == [a[0]] + a[1..] && b == [b[0]] + b[1..];
    } else if a == [] && b == [] {
      assert Utf8(a) + ([0] + s) == [0] + s && Utf8(b) + ([0] + t) == [0] + t;
      Cut([0], s, [0], t);
    } else {
      TerminatorIsNoChar(a, b, s, t);
    }
  }

  /** The first byte of a character other than NUL is not zero. */
  lemma TerminatorIsNoChar(a: seq<CodePoint>, b: seq<CodePoint>, s: seq<byte>, t: seq<byte>)
    requires NulFree(a) && NulFree(b) && (a == [] <==> b != [])
    ensures Utf8(a) + ([0] + s) != Utf8(b) + ([0] + t)
  {
    var text, left, right := if a == [] then b else a, Utf8(a) + ([0] + s), Utf8(b) + ([0] + t);
    Utf8Head(text);
    assert text[0] in text;
    assert Utf8(text)[0] == Utf8Char(text[0])[0] != 0;
    assert a == [] ==> left[0] == 0 && right[0] == Utf8(b)[0];
    assert b == [] ==> right[0] == 0 && left[0] == Utf8(a)[0];
  }

  // ---------------------------------------------------------------- values without children

  lemma Spread(x: seq<byte>, y: seq<byte>, z: seq<byte>, s: seq<byte>)
    ensures x + y + z + s == x + (y + (z + s))
  {
  }

  lemma SameString(a: Text, b: Text, s: seq<byte>, t: seq<byte>)
    requires |Utf8(a)| < 0x8000_0000 && |Utf8(b)| < 0x8000_0000 && EncodeString(a) + s == EncodeString(b) + t
    ensures a == b && s == t
  {
    var la, lb := |Utf8(a)| + 1, |Utf8(b)| + 1;
    WordBounds();
    Spread(LittleEndian(la, 4), Utf8(a), [0], s);
    Spread(LittleEndian(lb, 4), Utf8(b), [0], t);
    SameWord(la, lb, 4, Utf8(a) + ([0] + s), Utf8(b) + ([0] + t));
    Cut(Utf8(a), [0] + s, Utf8(b), [0] + t);
    Cut([0], s, [0], t);
    SameText(a, b);
  }

  lemma SameRegex(p: Text, o: Text, q: Text, u: Text, s: seq<byte>, t: seq<byte>)
    requires NulFree(p) && NulFree(o) && NulFree(q) && NulFree(u)
    requires EncodeCString(p) + EncodeCString(o) + s == EncodeCString(q) + EncodeCString(u) + t
    ensures p == q && o == u && s == t
  {
    TwoCStrings(p, o, s);
    TwoCStrings(q, u, t);
    SameCString(p, q, Utf8(o) + ([0] + s), Utf8(u) + ([0] + t));
    SameCString(o, u, s, t);
  }

  lemma TwoCStrings(p: Text, o: Text, s: seq<byte>)
    ensures EncodeCString(p) + EncodeCString(o) + s == Utf8(p) + ([0] + (Utf8(o) + ([0] + s)))
  {
  }

  lemma SpreadMore(x: seq<byte>, y: seq<byte>, z: seq<byte>, u: seq<byte>, s: seq<byte>)
    ensures x + y + z + u + s == x + (y + (z + (u + s)))
  {
  }

  function Counted(subtype: byte, n: nat): nat {
    if subtype == 2 then n + 4 else n
  }

  /** What follows the subtype; the old subtype 2 repeats the count there. */
  function AfterSubtype(subtype: byte, bytes: seq<byte>, s: seq<byte>): seq<byte> {
    if subtype == 2 then LittleEndian(|bytes|, 4) + (bytes + s) else bytes + s
  }

  lemma BinaryParts(subtype: byte, bytes: seq<byte>, s: seq<byte>)
    ensures EncodeBinary(subtype, bytes) + s
            == LittleEndian(Counted(subtype, |bytes|), 4) + ([subtype] + AfterSubtype(subtype, bytes, s))
  {
    if subtype == 2 {
      SpreadMore(LittleEndian(|bytes| + 4, 4), [subtype], LittleEndian(|bytes|, 4), bytes, s);
    } else {
      Spread(LittleEndian(|bytes|, 4), [subtype], bytes, s);
    }
  }

  lemma SameBinaryBytes(f: byte, a: seq<byte>, g: byte, b: seq<byte>, s: seq<byte>, t: seq<byte>)
    requires |a| < 0x8000_0000 && |b| < 0x8000_0000 && EncodeBinary(f, a) + s == EncodeBinary(g, b) + t
    ensures f == g && a == b && s == t
  {
    WordBounds();
    BinaryParts(f, a, s);
    BinaryParts(g, b, t);
    SameWord(Counted(f, |a|), Counted(g, |b|), 4, [f] + AfterSubtype(f, a, s), [g] + AfterSubtype(g, b, t));
    Cut([f], AfterSubtype(f, a, s), [g], AfterSubtype(g, b, t));
    if f == 2 {
      SameWord(|a|, |b|, 4, a + s, b + t);
    }
    Cut(a, s, b, t);
  }

  /** Values of fixed width are determined by their type byte and payload. */
  lemma SameFixed(v: Value, w: Value)
    requires FixedWidth(v) && FixedWidth(w) && TypeByte(v) == TypeByte(w) && EncodeValue(v) == EncodeValue(w)
    ensures v == w
  {
    WordBounds();
    match v
    case Double(bits) => SameWord(bits, w.bits, 8, [], []);
    case DateTime(millis) =>
      SameWord(TwosComplement(millis, 0x1_0000_0000_0000_0000), TwosComplement(w.millis, 0x1_0000_0000_0000_0000), 8,
               [], []);
    case Int64(n) =>
      SameWord(TwosComplement(n, 0x1_0000_0000_0000_0000), TwosComplement(w.int64, 0x1_0000_0000_0000_0000), 8, [], []);
    case Int32(n) => SameWord(TwosComplement(n, 0x1_0000_0000), TwosComplement(w.int32, 0x1_0000_0000), 4, [], []);
    case Timestamp(time, increment) =>
      SameWord(increment, w.increment, 4, LittleEndian(time, 4), LittleEndian(w.time, 4));
      SameWord(time, w.time, 4, [], []);
    case _ =>
  }

  // ---------------------------------------------------------------- elements, from the front

  ghost function EntriesFrom(entries: seq<Entry>, k: nat): seq<byte>
    requires k <= |entries|
    decreases |entries| - k
  {
    if k == |entries| then [] else Element(entries[k].name, Raw(entries[k].value)) + EntriesFrom(entries, k + 1)
  }

  ghost function ItemsFrom(items: seq<Value>, k: nat): seq<byte>
    requires k <= |items|
    decreases |items| - k
  {
    if k == |items| then [] else Element(DecimalText(k), Raw(items[k])) + ItemsFrom(items, k + 1)
  }

  lemma {:induction false} EntriesSplit(entries: seq<Entry>, k: nat)
    requires k <= |entries|
    ensures EncodeEntries(entries) == EncodeEntries(entries[..k]) + EntriesFrom(entries, k)
    decreases |entries| - k
  {
    if k == |entries| {
      assert entries[..k] == entries;
    } else {
      EntriesSplit(entries, k + 1);
      EntriesStep(entries, k);
      Regrouped(EncodeEntries(entries[..k]), Element(entries[k].name, Raw(entries[k].value)),
                EntriesFrom(entries, k + 1));
    }
  }

  lemma {:induction false} ItemsSplit(items: seq<Value>, k: nat)
    requires k <= |items|
    ensures EncodeItems(items) == EncodeItems(items[..k]) + ItemsFrom(items, k)
    decreases |items| - k
  {
    if k == |items| {
      assert items[..k] == items;
    } else {
      var element := Element(DecimalText(k), Raw(items[k]));
      ItemsSplit(items, k + 1);
      ItemsStep(items, k);
      Regrouped(EncodeItems(items[..k]), element, ItemsFrom(items, k + 1));
      assert ItemsFrom(items, k) == element + ItemsFrom(items, k + 1);
    }
  }

  /** A whole frame: after its count come the elements from the first on, and the terminator. */
  lemma EntriesFramed(entries: seq<Entry>, s: seq<byte>)
    ensures EncodeDoc(Doc(entries)) + s
            == LittleEndian(|EncodeEntries(entries)| + 5, 4) + (EntriesFrom(entries, 0) + ([0] + s))
  {
    EntriesSplit(entries, 0);
    assert entries[..0] == [] && [] + EntriesFrom(entries, 0) == EntriesFrom(entries, 0);
    Spread(LittleEndian(|EncodeEntries(entries)| + 5, 4), EncodeEntries(entries), [0], s);
  }

  lemma ItemsFramed(items: seq<Value>, s: seq<byte>)
    ensures EncodeValue(Array(items)) + s
            == LittleEndian(|EncodeItems(items)| + 5, 4) + (ItemsFrom(items, 0) + ([0] + s))
  {
    ItemsSplit(items, 0);
    assert items[..0] == [] && [] + ItemsFrom(items, 0) == ItemsFrom(items, 0);
    Spread(LittleEndian(|EncodeItems(items)| + 5, 4), EncodeItems(items), [0], s);
  }

  /** An element: type byte, name, terminator, payload, and what follows. */
  lemma ElementParts(name: Text, v: Value, rest: seq<byte>)
    ensures Element(name, Raw(v)) + rest == [TypeByte(v)] + (Utf8(name) + ([0] + (EncodeValue(v) + rest)))
  {
    SpreadMore([TypeByte(v)], Utf8(name), [0], EncodeValue(v), rest);
    Regrouped([TypeByte(v)], Utf8(name), [0]);
  }

  lemma TypeByteIsNoTerminator(v: Value)
    ensures TypeByte(v) != 0
  {
  }

  // ---------------------------------------------------------------- unique decoding

  /** A value a document of at most 16 MiB can hold. */
  ghost predicate Encodable(v: Value) {
    ValueLen(v) <= MAX_DOCUMENT_BYTES && WellNamed(v) && CStrings(v)
  }

  ghost predicate EncodableEntries(entries: seq<Entry>) {
    EntriesLen(entries) <= MAX_DOCUMENT_BYTES && EntriesNamed(entries) && EntriesCStrings(entries)
  }

  ghost predicate EncodableItems(items: seq<Value>) {
    ItemsLen(items) <= MAX_DOCUMENT_BYTES && ItemsNamed(items) && ItemsCStrings(items)
  }

  lemma EncodableEntry(entries: seq<Entry>, i: nat)
    requires EncodableEntries(entries) && i < |entries|
    ensures NulFree(entries[i].name) && Encodable(entries[i].value)
  {
    EntryWithin(Layout(0, 0), entries, i);
    EntryNamed(entries, i);
    EntryCStrings(entries, i);
  }

  ghost predicate EachEncodable(entries: seq<Entry>) {
    forall i | 0 <= i < |entries| :: NulFree(entries[i].name) && Encodable(entries[i].value)
  }

  lemma AllEncodable(entries: seq<Entry>)
    requires EncodableEntries(entries)
    ensures EachEncodable(entries)
  {
    forall i | 0 <= i < |entries| ensures NulFree(entries[i].name) && Encodable(entries[i].value) {
      EncodableEntry(entries, i);
    }
  }

  lemma EncodableItem(items: seq<Value>, i: nat)
    requires EncodableItems(items) && i < |items|
    ensures Encodable(items[i])
  {
    ItemWithin(Layout(0, 0), items, i);
    ItemNamed(items, i);
    ItemCStrings(items, i);
  }

  ghost predicate EachItemEncodable(items: seq<Value>) {
    forall i | 0 <= i < |items| :: Encodable(items[i])
  }

  lemma AllItemsEncodable(items: seq<Value>)
    requires EncodableItems(items)
    ensures EachItemEncodable(items)
  {
    forall i | 0 <= i < |items| ensures Encodable(items[i]) {
      EncodableItem(items, i);
    }
  }

  lemma EncodableChildren(v: Value)
    requires Encodable(v)
    ensures v.Document? ==> EncodableEntries(v.doc.entries)
    ensures v.Array? ==> EncodableItems(v.items)
    ensures v.JavaScript? && v.scope.Some? ==> EncodableEntries(v.scope.value.entries)
    ensures v.JavaScript? ==> |Utf8(v.code)| <= MAX_DOCUMENT_BYTES
    ensures v.Str? ==> |Utf8(v.text)| <= MAX_DOCUMENT_BYTES
  {
    if v.Document? {
      assert DocLen(v.doc) == 5 + EntriesLen(v.doc.entries);
    } else if v.JavaScript? && v.scope.Some? {
      assert DocLen(v.scope.value) == 5 + EntriesLen(v.scope.value.entries);
    }
  }

  /** The same value, a UUID being a binary. */
  predicate Same(v: Value, w: Value) {
    Rendered(v, None) == Rendered(w, None)
  }

  predicate SameEntry(a: Entry, b: Entry) {
    a.name == b.name && Same(a.value, b.value)
  }

  predicate AgreeFrom(a: seq<Entry>, b: seq<Entry>, k: nat)
    decreases |a| - k
  {
    |a| == |b| && (k < |a| ==> SameEntry(a[k], b[k]) && AgreeFrom(a, b, k + 1))
  }

  lemma {:induction false} AgreeAt(a: seq<Entry>, b: seq<Entry>, k: nat, i: nat)
    requires AgreeFrom(a, b, k) && k <= i < |a|
    ensures |a| == |b| && SameEntry(a[i], b[i])
    decreases i - k
  {
    if k < i {
      AgreeAt(a, b, k + 1, i);
    }
  }

  predicate ItemsAgreeFrom(a: seq<Value>, b: seq<Value>, k: nat)
    decreases |a| - k
  {
    |a| == |b| && (k < |a| ==> Same(a[k], b[k]) && ItemsAgreeFrom(a, b, k + 1))
  }

  lemma {:induction false} ItemsAgreeAt(a: seq<Value>, b: seq<Value>, k: nat, i: nat)
    requires ItemsAgreeFrom(a, b, k) && k <= i < |a|
    ensures |a| == |b| && Same(a[i], b[i])
    decreases i - k
  {
    if k < i {
      ItemsAgreeAt(a, b, k + 1, i);
    }
  }

  /** Elements up to the terminator are read off the front one by one. */
  lemma {:induction false} SameEntriesFrom(a: seq<Entry>, b: seq<Entry>, k: nat, s: seq<byte>, t: seq<byte>)
    requires EachEncodable(a) && EachEncodable(b) && k <= |a| && k <= |b|
    requires EntriesFrom(a, k) + ([0] + s) == EntriesFrom(b, k) + ([0] + t)
    ensures AgreeFrom(a, b, k) && s == t
    decreases a, |a| - k
  {
    if k < |a| && k < |b| {
      SameNextEntry(a, b, k, s, t);
      SameEntriesFrom(a, b, k + 1, s, t);
    } else {
      EntriesEnd(a, b, k, s, t);
    }
  }

  lemma {:induction false} SameNextEntry(a: seq<Entry>, b: seq<Entry>, k: nat, s: seq<byte>, t: seq<byte>)
    requires EachEncodable(a) && EachEncodable(b) && k < |a| && k < |b|
    requires EntriesFrom(a, k) + ([0] + s) == EntriesFrom(b, k) + ([0] + t)
    ensures SameEntry(a[k], b[k]) && EntriesFrom(a, k + 1) + ([0] + s) == EntriesFrom(b, k + 1) + ([0] + t)
    decreases a, 0
  {
    var ra, rb := EntriesFrom(a, k + 1) + ([0] + s), EntriesFrom(b, k + 1) + ([0] + t);
    NextEntry(a, b, k, s, t, ra, rb);
    SameValue(a[k].value, b[k].value, ra, rb);
  }

  lemma NextEntry(a: seq<Entry>, b: seq<Entry>, k: nat, s: seq<byte>, t: seq<byte>, ra: seq<byte>, rb: seq<byte>)
    requires EachEncodable(a) && EachEncodable(b) && k < |a| && k < |b|
    requires EntriesFrom(a, k) + ([0] + s) == EntriesFrom(b, k) + ([0] + t)
    requires ra == EntriesFrom(a, k + 1) + ([0] + s) && rb == EntriesFrom(b, k + 1) + ([0] + t)
    ensures a[k].name == b[k].name && TypeByte(a[k].value) == TypeByte(b[k].value)
    ensures Encodable(a[k].value) && Encodable(b[k].value)
    ensures EncodeValue(a[k].value) + ra == EncodeValue(b[k].value) + rb
  {
    EntriesAdvance(a, k, s);
    EntriesAdvance(b, k, t);
    SameHead(a[k].name, a[k].value, ra, b[k].name, b[k].value, rb);
  }

  lemma EntriesEnd(a: seq<Entry>, b: seq<Entry>, k: nat, s: seq<byte>, t: seq<byte>)
    requires k <= |a| && k <= |b| && (k == |a| || k == |b|)
    requires EntriesFrom(a, k) + ([0] + s) == EntriesFrom(b, k) + ([0] + t)
    ensures |a| == |b| && s == t
  {
    if k < |a| {
      EntriesAdvance(a, k, s);
      TypeByteIsNoTerminator(a[k].value);
    }
    if k < |b| {
      EntriesAdvance(b, k, t);
      TypeByteIsNoTerminator(b[k].value);
    }
    SameEnd(EntriesFrom(a, k), k < |a|, EntriesFrom(b, k), k < |b|, s, t);
  }

  /** The next element in front of the rest. */
  lemma EntriesAdvance(entries: seq<Entry>, k: nat, s: seq<byte>)
    requires k < |entries|
    ensures var rest := EntriesFrom(entries, k + 1) + ([0] + s);
            && EntriesFrom(entries, k) + ([0] + s)
               == [TypeByte(entries[k].value)]
                  + (Utf8(entries[k].name) + ([0] + (EncodeValue(entries[k].value) + rest)))
            && EntriesFrom(entries, k) != [] && EntriesFrom(entries, k)[0] == TypeByte(entries[k].value)
  {
    var element := Element(entries[k].name, Raw(entries[k].value));
    Regrouped(element, EntriesFrom(entries, k + 1), [0] + s);
    ElementParts(entries[k].name, entries[k].value, EntriesFrom(entries, k + 1) + ([0] + s));
  }

  /** Type byte and name in front are the same, and so is what follows. */
  lemma SameHead(m: Text, v: Value, rv: seq<byte>, n: Text, w: Value, rw: seq<byte>)
    requires NulFree(m) && NulFree(n)
    requires [TypeByte(v)] + (Utf8(m) + ([0] + (EncodeValue(v) + rv)))
             == [TypeByte(w)] + (Utf8(n) + ([0] + (EncodeValue(w) + rw)))
    ensures TypeByte(v) == TypeByte(w) && m == n && EncodeValue(v) + rv == EncodeValue(w) + rw
  {
    Cut([TypeByte(v)], Utf8(m) + ([0] + (EncodeValue(v) + rv)), [TypeByte(w)], Utf8(n) + ([0] + (EncodeValue(w) + rw)));
    SameCString(m, n, EncodeValue(v) + rv, EncodeValue(w) + rw);
  }

  /** If one side has ended, so has the other. */
  lemma SameEnd(x: seq<byte>, more: bool, y: seq<byte>, another: bool, s: seq<byte>, t: seq<byte>)
    requires !more || !another
    requires (if more then x != [] && x[0] != 0 else x == []) && (if another then y != [] && y[0] != 0 else y == [])
    ensures x + ([0] + s) == y + ([0] + t) ==> !more && !another && s == t
  {
    assert (x + ([0] + s))[0] == if more then x[0] else 0;
    assert (y + ([0] + t))[0] == if another then y[0] else 0;
    if !more && !another && x + ([0] + s) == y + ([0] + t) {
      assert x + ([0] + s) == [0] + s && y + ([0] + t) == [0] + t;
      Cut([0], s, [0], t);
    }
  }

  lemma {:induction false} SameItemsFrom(a: seq<Value>, b: seq<Value>, k: nat, s: seq<byte>, t: seq<byte>)
    requires EachItemEncodable(a) && EachItemEncodable(b) && k <= |a| && k <= |b|
    requires ItemsFrom(a, k) + ([0] + s) == ItemsFrom(b, k) + ([0] + t)
    ensures ItemsAgreeFrom(a, b, k) && s == t
    decreases a, |a| - k
  {
    if k < |a| && k < |b| {
      SameNextItem(a, b, k, s, t);
      SameItemsFrom(a, b, k + 1, s, t);
    } else {
      ItemsEnd(a, b, k, s, t);
    }
  }

  lemma {:induction false} SameNextItem(a: seq<Value>, b: seq<Value>, k: nat, s: seq<byte>, t: seq<byte>)
    requires EachItemEncodable(a) && EachItemEncodable(b) && k < |a| && k < |b|
    requires ItemsFrom(a, k) + ([0] + s) == ItemsFrom(b, k) + ([0] + t)
    ensures Same(a[k], b[k]) && ItemsFrom(a, k + 1) + ([0] + s) == ItemsFrom(b, k + 1) + ([0] + t)
    decreases a, 0
  {
    var ra, rb := ItemsFrom(a, k + 1) + ([0] + s), ItemsFrom(b, k + 1) + ([0] + t);
    NextItem(a, b, k, s, t, ra, rb);
    SameValue(a[k], b[k], ra, rb);
  }

  lemma NextItem(a: seq<Value>, b: seq<Value>, k: nat, s: seq<byte>, t: seq<byte>, ra: seq<byte>, rb: seq<byte>)
    requires EachItemEncodable(a) && EachItemEncodable(b) && k < |a| && k < |b|
    requires ItemsFrom(a, k) + ([0] + s) == ItemsFrom(b, k) + ([0] + t)
    requires ra == ItemsFrom(a, k + 1) + ([0] + s) && rb == ItemsFrom(b, k + 1) + ([0] + t)
    ensures TypeByte(a[k]) == TypeByte(b[k]) && Encodable(a[k]) && Encodable(b[k])
    ensures EncodeValue(a[k]) + ra == EncodeValue(b[k]) + rb
  {
    ItemsAdvance(a, k, s);
    ItemsAdvance(b, k, t);
    SameHead(DecimalText(k), a[k], ra, DecimalText(k), b[k], rb);
  }

  lemma ItemsEnd(a: seq<Value>, b: seq<Value>, k: nat, s: seq<byte>, t: seq<byte>)
    requires k <= |a| && k <= |b| && (k == |a| || k == |b|)
    requires ItemsFrom(a, k) + ([0] + s) == ItemsFrom(b, k) + ([0] + t)
    ensures |a| == |b| && s == t
  {
    if k < |a| {
      ItemsAdvance(a, k, s);
      TypeByteIsNoTerminator(a[k]);
    }
    if k < |b| {
      ItemsAdvance(b, k, t);
      TypeByteIsNoTerminator(b[k]);
    }
    SameEnd(ItemsFrom(a, k), k < |a|, ItemsFrom(b, k), k < |b|, s, t);
  }

  lemma ItemsAdvance(items: seq<Value>, k: nat, s: seq<byte>)
    requires k < |items|
    ensures var rest := ItemsFrom(items, k + 1) + ([0] + s);
            && ItemsFrom(items, k) + ([0] + s)
               == [TypeByte(items[k])] + (Utf8(DecimalText(k)) + ([0] + (EncodeValue(items[k]) + rest)))
            && ItemsFrom(items, k) != [] && ItemsFrom(items, k)[0] == TypeByte(items[k])
  {
    var element := Element(DecimalText(k), Raw(items[k]));
    Regrouped(element, ItemsFrom(items, k + 1), [0] + s);
    ElementParts(DecimalText(k), items[k], ItemsFrom(items, k + 1) + ([0] + s));
  }

  /** A value of known type is read off the front. */
  lemma {:induction false} SameValue(v: Value, w: Value, s: seq<byte>, t: seq<byte>)
    requires Encodable(v) && Encodable(w) && TypeByte(v) == TypeByte(w)
    requires EncodeValue(v) + s == EncodeValue(w) + t
    ensures Same(v, w) && s == t
    decreases v, 1
  {
    EncodableChildren(v);
    EncodableChildren(w);
    if v.Document? {
      SameDocument(v.doc.entries, w.doc.entries, s, t);
    } else if v.Array? {
      SameArray(v.items, w.items, s, t);
    } else if v.JavaScript? {
      SameCode(v, w, s, t);
    } else if v.Str? {
      SameString(v.text, w.text, s, t);
    } else if v.Regex? {
      SameRegex(v.pattern, v.options, w.pattern, w.options, s, t);
    } else if v.Binary? || v.Uuid? {
      SameBinaryValue(v, w, s, t);
    } else {
      EncodedValueLength(v);
      EncodedValueLength(w);
      Cut(EncodeValue(v), s, EncodeValue(w), t);
      SameFixed(v, w);
    }
  }

  function AsBinary(v: Value): (byte, seq<byte>)
    requires v.Binary? || v.Uuid?
  {
    if v.Binary? then (v.subtype, v.bytes) else (v.rep.Subtype(), v.rep.Transform(v.uuid))
  }

  lemma SameBinaryValue(v: Value, w: Value, s: seq<byte>, t: seq<byte>)
    requires (v.Binary? || v.Uuid?) && (w.Binary? || w.Uuid?) && Encodable(v) && Encodable(w)
    requires EncodeValue(v) + s == EncodeValue(w) + t
    ensures Same(v, w) && s == t
  {
    var (f, a) := AsBinary(v);
    var (g, b) := AsBinary(w);
    SameBinaryBytes(f, a, g, b, s, t);
  }

  lemma {:induction false} SameCode(v: Value, w: Value, s: seq<byte>, t: seq<byte>)
    requires v.JavaScript? && w.JavaScript? && Encodable(v) && Encodable(w) && TypeByte(v) == TypeByte(w)
    requires EncodeValue(v) + s == EncodeValue(w) + t
    ensures Same(v, w) && s == t
    decreases v, 0
  {
    EncodableChildren(v);
    EncodableChildren(w);
    if v.scope.None? {
      SameString(v.code, w.code, s, t);
    } else {
      var da, db := EncodeDoc(v.scope.value), EncodeDoc(w.scope.value);
      CodeUnframed(v, w, s, t);
      SameString(v.code, w.code, da + s, db + t);
      SameDocument(v.scope.value.entries, w.scope.value.entries, s, t);
    }
  }

  lemma CodeUnframed(v: Value, w: Value, s: seq<byte>, t: seq<byte>)
    requires v.JavaScript? && v.scope.Some? && w.JavaScript? && w.scope.Some?
    requires EncodeValue(v) + s == EncodeValue(w) + t
    ensures EncodeString(v.code) + (EncodeDoc(v.scope.value) + s)
            == EncodeString(w.code) + (EncodeDoc(w.scope.value) + t)
  {
    var n := CodeParts(v, s);
    var m := CodeParts(w, t);
    Cut(LittleEndian(n, 4), EncodeString(v.code) + (EncodeDoc(v.scope.value) + s),
        LittleEndian(m, 4), EncodeString(w.code) + (EncodeDoc(w.scope.value) + t));
  }

  /** The length of the whole, the code and the scope. */
  lemma CodeParts(v: Value, s: seq<byte>) returns (n: nat)
    requires v.JavaScript? && v.scope.Some?
    ensures EncodeValue(v) + s == LittleEndian(n, 4) + (EncodeString(v.code) + (EncodeDoc(v.scope.value) + s))
  {
    var doc := EncodeDoc(v.scope.value);
    var body := EncodeString(v.code) + doc;
    n := |body| + 4;
    Regrouped(LittleEndian(n, 4), body, s);
    Regrouped(EncodeString(v.code), doc, s);
  }

  lemma {:induction false} SameDocument(a: seq<Entry>, b: seq<Entry>, s: seq<byte>, t: seq<byte>)
    requires EncodableEntries(a) && EncodableEntries(b) && EncodeDoc(Doc(a)) + s == EncodeDoc(Doc(b)) + t
    ensures RenderedEntries(a, None) == RenderedEntries(b, None) && s == t
    decreases a, |a| + 1
  {
    EntriesUnframed(a, b, s, t);
    AllEncodable(a);
    AllEncodable(b);
    SameEntriesFrom(a, b, 0, s, t);
    AgreeMeansRenderedAlike(a, b);
  }

  lemma EntriesUnframed(a: seq<Entry>, b: seq<Entry>, s: seq<byte>, t: seq<byte>)
    requires EncodeDoc(Doc(a)) + s == EncodeDoc(Doc(b)) + t
    ensures EntriesFrom(a, 0) + ([0] + s) == EntriesFrom(b, 0) + ([0] + t)
  {
    EntriesFramed(a, s);
    EntriesFramed(b, t);
    Cut(LittleEndian(|EncodeEntries(a)| + 5, 4), EntriesFrom(a, 0) + ([0] + s),
        LittleEndian(|EncodeEntries(b)| + 5, 4), EntriesFrom(b, 0) + ([0] + t));
  }

  lemma AgreeMeansRenderedAlike(a: seq<Entry>, b: seq<Entry>)
    requires AgreeFrom(a, b, 0)
    ensures RenderedEntries(a, None) == RenderedEntries(b, None)
  {
    forall i | 0 <= i < |a| ensures SameEntry(a[i], b[i]) {
      AgreeAt(a, b, 0, i);
    }
    RenderedAlike(a, b);
  }

  lemma {:induction false} SameArray(a: seq<Value>, b: seq<Value>, s: seq<byte>, t: seq<byte>)
    requires EncodableItems(a) && EncodableItems(b) && EncodeValue(Array(a)) + s == EncodeValue(Array(b)) + t
    ensures RenderedItems(a, None) == RenderedItems(b, None) && s == t
    decreases a, |a| + 1
  {
    ItemsUnframed(a, b, s, t);
    AllItemsEncodable(a);
    AllItemsEncodable(b);
    SameItemsFrom(a, b, 0, s, t);
    AgreeMeansItemsAlike(a, b);
  }

  lemma ItemsUnframed(a: seq<Value>, b: seq<Value>, s: seq<byte>, t: seq<byte>)
    requires EncodeValue(Array(a)) + s == EncodeValue(Array(b)) + t
    ensures ItemsFrom(a, 0) + ([0] + s) == ItemsFrom(b, 0) + ([0] + t)
  {
    ItemsFramed(a, s);
    ItemsFramed(b, t);
    Cut(LittleEndian(|EncodeItems(a)| + 5, 4), ItemsFrom(a, 0) + ([0] + s),
        LittleEndian(|EncodeItems(b)| + 5, 4), ItemsFrom(b, 0) + ([0] + t));
  }

  lemma AgreeMeansItemsAlike(a: seq<Value>, b: seq<Value>)
    requires ItemsAgreeFrom(a, b, 0)
    ensures RenderedItems(a, None) == RenderedItems(b, None)
  {
    forall i | 0 <= i < |a| ensures Same(a[i], b[i]) {
      ItemsAgreeAt(a, b, 0, i);
    }
    RenderedItemsAlike(a, b);
  }

  lemma {:induction false} RenderedAlike(a: seq<Entry>, b: seq<Entry>)
    requires |a| == |b| && forall i | 0 <= i < |a| :: SameEntry(a[i], b[i])
    ensures RenderedEntries(a, None) == RenderedEntries(b, None)
  {
    if a != [] {
      var n := |a| - 1;
      forall i | 0 <= i < n ensures SameEntry(a[..n][i], b[..n][i]) {
        assert SameEntry(a[i], b[i]);
      }
      RenderedAlike(a[..n], b[..n]);
      assert SameEntry(a[n], b[n]);
    }
  }

  lemma {:induction false} RenderedItemsAlike(a: seq<Value>, b: seq<Value>)
    requires |a| == |b| && forall i | 0 <= i < |a| :: Same(a[i], b[i])
    ensures RenderedItems(a, None) == RenderedItems(b, None)
  {
    if a != [] {
      var n := |a| - 1;
      RenderedItemsAlike(a[..n], b[..n]);
      assert Same(a[n], b[n]);
    }
  }

  /**
   Two documents the encoder accepts have the same bytes exactly if they are the same document once
   every UUID is the binary it is stored as.
   */
  lemma UniquelyDecodable(a: Doc, b: Doc)
    requires DocWithin(a, DEFAULT_LIMITS, 0) && EntriesCStrings(a.entries)
    requires DocWithin(b, DEFAULT_LIMITS, 0) && EntriesCStrings(b.entries)
    ensures EncodeDoc(a) == EncodeDoc(b) <==> RenderedEntries(a.entries, None) == RenderedEntries(b.entries, None)
  {
    if EncodeDoc(a) == EncodeDoc(b) {
      SameDocument(a.entries, b.entries, [], []);
    }
    SameEntries(a.entries, None);
    SameEntries(b.entries, None);
    if EncodeEntries(a.entries) == EncodeEntries(b.entries) {
      SameFrame(a.entries, b.entries);
    }
  }
}
