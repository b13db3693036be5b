/**
 The second pass of the codec's encoder: raw documents are built element by element, each append
 rewriting the frame, with guards of its own on size, depth, names and C strings.
 */
module BsonEncoder {
  import opened Machine
  import opened Bson
  import opened Charges
  import opened BsonCodec

  /** A value ready to be appended: its type byte and its payload. */
  datatype RawValue = RawValue(tag: byte, payload: seq<byte>)

  // ---------------------------------------------------------------- raw buffers

  function Element(name: Text, v: RawValue): seq<byte> {
    [v.tag] + EncodeCString(name) + v.payload
  }

  /** `RawDocumentBuf::append`: over the terminator, terminated again, and the length rewritten in place. */
  method Append(raw: seq<byte>, name: Text, v: RawValue, ghost elements: seq<byte>) returns (grown: seq<byte>)
    requires raw == Frame(elements)
    ensures grown == Frame(elements + Element(name, v)) && |grown| == |raw| + |Element(name, v)|
  {
    var body := raw[..|raw| - 1] + [v.tag] + Utf8(name) + [0] + v.payload + [0];
    grown := LittleEndian(|body|, 4) + body[4..];
    Reframed(raw, elements, Element(name, v), body);
  }

  lemma Reframed(raw: seq<byte>, elements: seq<byte>, element: seq<byte>, body: seq<byte>)
    requires raw == Frame(elements) && body == raw[..|raw| - 1] + element + [0]
    ensures |body| == |elements + element| + 5 && body[4..] == elements + element + [0]
  {
    assert raw[..|raw| - 1] == LittleEndian(|elements| + 5, 4) + elements;
  }

  // ---------------------------------------------------------------- the specification, element by element

  ghost function Raw(v: Value): RawValue {
    RawValue(TypeByte(v), EncodeValue(v))
  }

  lemma ElementLength(name: Text, v: Value)
    ensures |Element(name, Raw(v))| == |Utf8(name)| + 2 + ValueLen(v)
  {
    EncodedValueLength(v);
  }

  lemma IndexLength(i: nat)
    ensures |Utf8(DecimalText(i))| == |DecimalText(i)|
  {
    Utf8Ascii(DecimalText(i));
  }

  lemma Regroup(a: seq<byte>, b: seq<byte>, c: seq<byte>, d: seq<byte>)
    ensures a + b + c + d == a + (b + c + d)
  {
  }

  lemma EntriesStep(entries: seq<Entry>, i: nat)
    requires i < |entries|
    ensures EncodeEntries(entries[..i + 1])
            == EncodeEntries(entries[..i]) + Element(entries[i].name, Raw(entries[i].value))
  {
    var e := entries[i];
    assert entries[..i + 1][..i] == entries[..i];
    Regroup(EncodeEntries(entries[..i]), [TypeByte(e.value)], EncodeCString(e.name), EncodeValue(e.value));
  }

  lemma ItemsStep(items: seq<Value>, i: nat)
    requires i < |items|
    ensures EncodeItems(items[..i + 1]) == EncodeItems(items[..i]) + Element(DecimalText(i), Raw(items[i]))
  {
    assert items[..i + 1][..i] == items[..i];
    Regroup(EncodeItems(items[..i]), [TypeByte(items[i])], EncodeCString(DecimalText(i)), EncodeValue(items[i]));
  }

  // ---------------------------------------------------------------- the second pass

  /** Accepts what the first pass accepts, if regular expressions are C strings, with the format's bytes. */
  method EncodeRawDocument(doc: Doc, limits: Limits, depth: nat) returns (r: Result<seq<byte>, CodecError>)
    requires limits.Valid() && depth > 0
    ensures r.Ok? <==> DocWithin(doc, limits, depth - 1) && EntriesCStrings(doc.entries)
    ensures r.Ok? ==> r.value == EncodeDoc(doc)
    decreases doc, 1
  {
    if depth > limits.maxNestingDepth {
      return Err(NestingLimit);
    }
    var entries := doc.entries;
    var raw, names: set<Text> := Frame([]), {};
    for i := 0 to |entries|
      invariant Written(entries[..i], raw, names, limits, depth)
    {
      var grown := EncodeRawEntry(entries[i], raw, names, limits, depth, EncodeEntries(entries[..i]));
      if grown.Err? {
        if DocWithin(doc, limits, depth - 1) && EntriesCStrings(entries) {
          EntryMustFit(entries, i, |raw|, names, limits, depth);
        }
        return grown;
      }
      WrittenNext(entries, i, raw, names, limits, depth, grown.value);
      raw := grown.value;
      names := names + {entries[i].name};
    }
    assert entries[..|entries|] == entries;
    return Ok(raw);
  }

  /** The buffer and the names after some entries. */
  ghost predicate Written(entries: seq<Entry>, raw: seq<byte>, names: set<Text>, limits: Limits, depth: nat) {
    && raw == Frame(EncodeEntries(entries)) && |raw| == 5 + EntriesLen(entries) <= limits.maxDocumentBytes
    && EntriesNamed(entries) && names == NamesOf(entries) && EntriesCStrings(entries)
    && depth + EntriesHeight(entries) <= limits.maxNestingDepth
  }

  lemma WrittenNext(entries: seq<Entry>, i: nat, raw: seq<byte>, names: set<Text>, limits: Limits, depth: nat,
                    grown: seq<byte>)
    requires i < |entries| && Written(entries[..i], raw, names, limits, depth)
    requires EntryFits(entries[i], |raw|, names, limits, depth)
    requires grown == Frame(EncodeEntries(entries[..i]) + Element(entries[i].name, Raw(entries[i].value)))
    ensures Written(entries[..i + 1], grown, names + {entries[i].name}, limits, depth)
  {
    EntriesStep(entries, i);
    ElementLength(entries[i].name, entries[i].value);
    EntriesGrow(entries[..i + 1], i);
    assert entries[..i + 1][..i] == entries[..i];
  }

  /** The measures of some entries in terms of all but the last. */
  lemma EntriesGrow(entries: seq<Entry>, n: nat)
    requires |entries| == n + 1
    ensures EntriesLen(entries) == EntriesLen(entries[..n]) + |Utf8(entries[n].name)| + 2 + ValueLen(entries[n].value)
    ensures EntriesHeight(entries) == Max(EntriesHeight(entries[..n]), Height(entries[n].value))
    ensures NamesOf(entries) == NamesOf(entries[..n]) + {entries[n].name}
    ensures EntriesCStrings(entries) <==> EntriesCStrings(entries[..n]) && CStrings(entries[n].value)
    ensures EntriesNamed(entries) <==> && EntriesNamed(entries[..n]) && NulFree(entries[n].name)
                                       && entries[n].name !in NamesOf(entries[..n]) && WellNamed(entries[n].value)
  {
  }

  /** What one turn of the entry loop demands. */
  ghost predicate EntryFits(e: Entry, used: nat, names: set<Text>, limits: Limits, depth: nat) {
    && e.name !in names && NulFree(e.name) && WellNamed(e.value) && CStrings(e.value)
    && depth + Height(e.value) <= limits.maxNestingDepth
    && used + |Utf8(e.name)| + 2 + ValueLen(e.value) <= limits.maxDocumentBytes
  }

  lemma EntryMustFit(entries: seq<Entry>, i: nat, used: nat, names: set<Text>, limits: Limits, depth: nat)
    requires i < |entries| && used == 5 + EntriesLen(entries[..i]) && names == NamesOf(entries[..i])
    requires EntriesNamed(entries) && EntriesCStrings(entries) && 5 + EntriesLen(entries) <= limits.maxDocumentBytes
    requires depth + EntriesHeight(entries) <= limits.maxNestingDepth
    ensures EntryFits(entries[i], used, names, limits, depth)
  {
    EntryWithin(Layout(0, 0), entries, i);
    EntryNamed(entries, i);
    EntryCStrings(entries, i);
  }

  /** One turn of the entry loop. */
  method EncodeRawEntry(e: Entry, raw: seq<byte>, names: set<Text>, limits: Limits, depth: nat,
                        ghost elements: seq<byte>)
    returns (r: Result<seq<byte>, CodecError>)
    requires limits.Valid() && 0 < depth <= limits.maxNestingDepth && raw == Frame(elements)
    ensures r.Ok? <==> EntryFits(e, |raw|, names, limits, depth)
    ensures r.Ok? ==> r.value == Frame(elements + Element(e.name, Raw(e.value)))
    decreases e, 2
  {
    if e.name in names {
      return Err(DuplicateField);
    }
    if |Utf8(e.name)| > limits.maxDocumentBytes {
      return Err(Oversized);
    }
    if !NulFree(e.name) {
      return Err(InvalidName);
    }
    r := AppendValue(e.name, e.value, raw, limits, depth, elements);
  }

  /** What both loops end their turn with: the value, the append and the size guard. */
  method AppendValue(name: Text, v: Value, raw: seq<byte>, limits: Limits, depth: nat, ghost elements: seq<byte>)
    returns (r: Result<seq<byte>, CodecError>)
    requires limits.Valid() && 0 < depth <= limits.maxNestingDepth && raw == Frame(elements)
    ensures r.Ok? <==> && WellNamed(v) && CStrings(v) && depth + Height(v) <= limits.maxNestingDepth
                       && |raw| + |Utf8(name)| + 2 + ValueLen(v) <= limits.maxDocumentBytes
    ensures r.Ok? ==> r.value == Frame(elements + Element(name, Raw(v)))
    decreases v, 1
  {
    if ValueLen(v) <= limits.maxDocumentBytes {
      SmallPassesGuards(v, limits);
    }
    var value :- EncodeRawValue(v, limits, depth);
    ElementLength(name, v);
    var grown := Append(raw, name, value, elements);
    if |grown| > limits.maxDocumentBytes {
      return Err(Oversized);
    }
    return Ok(grown);
  }

  method EncodeRawArray(items: seq<Value>, limits: Limits, depth: nat) returns (r: Result<seq<byte>, CodecError>)
    requires limits.Valid() && depth > 0
    ensures r.Ok? <==> ItemsWithin(items, limits, depth) && ItemsCStrings(items)
    ensures r.Ok? ==> r.value == Frame(EncodeItems(items))
    decreases items, 1
  {
    if depth > limits.maxNestingDepth {
      return Err(NestingLimit);
    }
    var raw := Frame([]);
    for i := 0 to |items|
      invariant WrittenItems(items[..i], raw, limits, depth)
    {
      var grown := EncodeRawItem(items[i], i, raw, limits, depth, EncodeItems(items[..i]));
      if grown.Err? {
        if ItemsWithin(items, limits, depth) && ItemsCStrings(items) {
          ItemMustFit(items, i, |raw|, limits, depth);
        }
        return grown;
      }
      WrittenItemsNext(items, i, raw, limits, depth, grown.value);
      raw := grown.value;
    }
    assert items[..|items|] == items;
    return Ok(raw);
  }

  ghost predicate ItemsWithin(items: seq<Value>, limits: Limits, depth: nat) {
    && depth + ItemsHeight(items) <= limits.maxNestingDepth && ItemsNamed(items)
    && 5 + ItemsLen(items) <= limits.maxDocumentBytes
  }

  ghost predicate WrittenItems(items: seq<Value>, raw: seq<byte>, limits: Limits, depth: nat) {
    && raw == Frame(EncodeItems(items)) && |raw| == 5 + ItemsLen(items)
    && ItemsWithin(items, limits, depth) && ItemsCStrings(items)
  }

  lemma WrittenItemsNext(items: seq<Value>, i: nat, raw: seq<byte>, limits: Limits, depth: nat, grown: seq<byte>)
    requires i < |items| && WrittenItems(items[..i], raw, limits, depth) && ItemFits(items[i], i, |raw|, limits, depth)
    requires grown == Frame(EncodeItems(items[..i]) + Element(DecimalText(i), Raw(items[i])))
    ensures WrittenItems(items[..i + 1], grown, limits, depth)
  {
    ItemsStep(items, i);
    ElementLength(DecimalText(i), items[i]);
    IndexLength(i);
    ItemsGrow(items[..i + 1], i);
    assert items[..i + 1][..i] == items[..i];
  }

  lemma ItemsGrow(items: seq<Value>, n: nat)
    requires |items| == n + 1
    ensures ItemsLen(items) == ItemsLen(items[..n]) + |DecimalText(n)| + 2 + ValueLen(items[n])
    ensures ItemsHeight(items) == Max(ItemsHeight(items[..n]), Height(items[n]))
    ensures ItemsCStrings(items) <==> ItemsCStrings(items[..n]) && CStrings(items[n])
    ensures ItemsNamed(items) <==> ItemsNamed(items[..n]) && WellNamed(items[n])
  {
  }

  ghost predicate ItemFits(v: Value, i: nat, used: nat, limits: Limits, depth: nat) {
    && WellNamed(v) && CStrings(v) && depth + Height(v) <= limits.maxNestingDepth
    && used + |DecimalText(i)| + 2 + ValueLen(v) <= limits.maxDocumentBytes
  }

  lemma ItemMustFit(items: seq<Value>, i: nat, used: nat, limits: Limits, depth: nat)
    requires i < |items| && used == 5 + ItemsLen(items[..i])
    requires ItemsWithin(items, limits, depth) && ItemsCStrings(items)
    ensures ItemFits(items[i], i, used, limits, depth)
  {
    ItemWithin(Layout(0, 0), items, i);
    ItemNamed(items, i);
    ItemCStrings(items, i);
  }

  /** One turn of the item loop: the index is the name. */
  method EncodeRawItem(v: Value, i: nat, raw: seq<byte>, limits: Limits, depth: nat, ghost elements: seq<byte>)
    returns (r: Result<seq<byte>, CodecError>)
    requires limits.Valid() && 0 < depth <= limits.maxNestingDepth && raw == Frame(elements)
    ensures r.Ok? <==> ItemFits(v, i, |raw|, limits, depth)
    ensures r.Ok? ==> r.value == Frame(elements + Element(DecimalText(i), Raw(v)))
    decreases v, 2
  {
    IndexLength(i);
    r := AppendValue(DecimalText(i), v, raw, limits, depth, elements);
  }

  /** `ensure_length_encoded_string`. */
  method EnsureString(text: Text, limits: Limits) returns (ok: bool)
    ensures ok <==> |Utf8(text)| + 5 <= limits.maxDocumentBytes && |Utf8(text)| + 5 <= USIZE_MAX
  {
    var encodedLen := CheckedAdd(|Utf8(text)|, 5);
    if encodedLen.None? || encodedLen.value > limits.maxDocumentBytes {
      return false;
    }
    return |Utf8(text)| <= limits.maxDocumentBytes;
  }

  /** The size guards on the value alone. Values of fixed width have none: the append that follows bounds them. */
  ghost predicate GuardsPass(v: Value, limits: Limits) {
    match v
    case Str(text) => |Utf8(text)| + 5 <= limits.maxDocumentBytes
    case Document(doc) => DocLen(doc) <= limits.maxDocumentBytes
    case Array(items) => 5 + ItemsLen(items) <= limits.maxDocumentBytes
    case Binary(subtype, bytes) => (if subtype == 2 then 9 else 5) + |bytes| <= limits.maxDocumentBytes
    case Uuid(_, _) => 21 <= limits.maxDocumentBytes
    case Regex(pattern, options) =>
      |Utf8(pattern)| <= limits.maxDocumentBytes && |Utf8(options)| <= limits.maxDocumentBytes
    case JavaScript(code, scope) =>
      && |Utf8(code)| + 5 <= limits.maxDocumentBytes
      && (scope.Some? ==> DocLen(scope.value) <= limits.maxDocumentBytes)
    case _ => true
  }

  lemma SmallPassesGuards(v: Value, limits: Limits)
    requires ValueLen(v) <= limits.maxDocumentBytes
    ensures GuardsPass(v, limits)
  {
  }

  method EncodeRawValue(v: Value, limits: Limits, parentDepth: nat) returns (r: Result<RawValue, CodecError>)
    requires limits.Valid() && parentDepth <= limits.maxNestingDepth
    ensures r.Ok? <==> && WellNamed(v) && CStrings(v) && parentDepth + Height(v) <= limits.maxNestingDepth
                       && GuardsPass(v, limits)
    ensures r.Ok? ==> r.value == Raw(v)
    decreases v, 0
  {
    if v.Document? {
      var bytes :- EncodeRawDocument(v.doc, limits, parentDepth + 1);
      return Ok(RawValue(0x03, bytes));
    } else if v.Array? {
      var bytes :- EncodeRawArray(v.items, limits, parentDepth + 1);
      return Ok(RawValue(0x04, bytes));
    } else if v.JavaScript? {
      r := EncodeRawCode(v.code, v.scope, limits, parentDepth);
    } else if v.Binary? {
      r := EncodeRawBinary(v.subtype, v.bytes, limits);
    } else if v.Uuid? {
      r := EncodeRawBinary(v.rep.Subtype(), v.rep.Transform(v.uuid), limits);
    } else if v.Regex? {
      r := EncodeRawRegex(v.pattern, v.options, limits);
    } else if v.Str? {
      var ok := EnsureString(v.text, limits);
      return if ok then Ok(RawValue(0x02, EncodeString(v.text))) else Err(Oversized);
    } else {
      return Ok(FixedRaw(v));
    }
  }

  predicate FixedWidth(v: Value) {
    && !v.Document? && !v.Array? && !v.JavaScript? && !v.Binary? && !v.Uuid?
    && !v.Regex? && !v.Str?
  }

  /** The remaining branches: no guard, and a payload that depends on nothing but the value. */
  function FixedRaw(v: Value): (raw: RawValue)
    requires FixedWidth(v)
    ensures raw == Raw(v)
  {
    match v
    case Double(bits) => RawValue(0x01, LittleEndian(bits, 8))
    case ObjectId(oid) => RawValue(0x07, oid)
    case Boolean(truth) => RawValue(0x08, [if truth then 1 else 0])
    case DateTime(millis) => RawValue(0x09, LittleEndian(TwosComplement(millis, 0x1_0000_0000_0000_0000), 8))
    case Null => RawValue(0x0A, [])
    case Int32(n) => RawValue(0x10, LittleEndian(TwosComplement(n, 0x1_0000_0000), 4))
    case Timestamp(time, increment) => RawValue(0x11, LittleEndian(increment, 4) + LittleEndian(time, 4))
    case Int64(n) => RawValue(0x12, LittleEndian(TwosComplement(n, 0x1_0000_0000_0000_0000), 8))
    case Decimal128(bid) => RawValue(0x13, bid)
    case MinKey => RawValue(0xFF, [])
    case MaxKey => RawValue(0x7F, [])
  }

  /** `encode_binary`. */
  method EncodeRawBinary(subtype: byte, bytes: seq<byte>, limits: Limits) returns (r: Result<RawValue, CodecError>)
    requires limits.Valid()
    ensures r.Ok? <==> (if subtype == 2 then 9 else 5) + |bytes| <= limits.maxDocumentBytes
    ensures r.Ok? ==> r.value == RawValue(0x05, EncodeBinary(subtype, bytes))
  {
    var encodedLen := CheckedAdd(|bytes|, if subtype == 2 then 9 else 5);
    if encodedLen.None? || encodedLen.value > limits.maxDocumentBytes {
      return Err(Oversized);
    }
    return Ok(RawValue(0x05, EncodeBinary(subtype, bytes)));
  }

  method EncodeRawRegex(pattern: Text, options: Text, limits: Limits) returns (r: Result<RawValue, CodecError>)
    ensures r.Ok? <==> && |Utf8(pattern)| <= limits.maxDocumentBytes && |Utf8(options)| <= limits.maxDocumentBytes
                       && NulFree(pattern) && NulFree(options)
    ensures r.Ok? ==> r.value == RawValue(0x0B, EncodeCString(pattern) + EncodeCString(options))
  {
    if |Utf8(pattern)| > limits.maxDocumentBytes || |Utf8(options)| > limits.maxDocumentBytes {
      return Err(Oversized);
    }
    if !NulFree(pattern) || !NulFree(options) {
      return Err(InvalidRegex);
    }
    return Ok(RawValue(0x0B, EncodeCString(pattern) + EncodeCString(options)));
  }

  method EncodeRawCode(code: Text, scope: Option<Doc>, limits: Limits, parentDepth: nat)
    returns (r: Result<RawValue, CodecError>)
    requires limits.Valid() && parentDepth <= limits.maxNestingDepth
    ensures r.Ok? <==> && |Utf8(code)| + 5 <= limits.maxDocumentBytes
                       && (scope.Some? ==>
                             DocWithin(scope.value, limits, parentDepth) && EntriesCStrings(scope.value.entries))
    ensures r.Ok? ==> r.value == Raw(JavaScript(code, scope))
    decreases scope, 2
  {
    var ok := EnsureString(code, limits);
    if !ok {
      return Err(Oversized);
    }
    if scope.None? {
      return Ok(RawValue(0x0D, EncodeString(code)));
    }
    var bytes :- EncodeRawDocument(scope.value, limits, parentDepth + 1);
    var body := EncodeString(code) + bytes;
    return Ok(RawValue(0x0F, LittleEndian(|body| + 4, 4) + body));
  }

  /**
   `encode_document_with_options`: validated options, the preflight, then the raw document. The
   second pass refuses nothing the preflight let through, except a regular expression with a NUL,
   which the engine's constructor never makes.
   */
  method EncodeDocument(doc: Doc, limits: Limits) returns (r: Result<seq<byte>, CodecError>)
    ensures r.Ok? <==> limits.Valid() && DocWithin(doc, limits, 0) && EntriesCStrings(doc.entries)
    ensures r.Ok? ==> r.value == EncodeDoc(doc) && |r.value| <= limits.maxDocumentBytes
  {
    if !limits.Valid() {
      return Err(InvalidOptions);
    }
    var len :- EncodedDocumentLen(doc, limits, 1);
    EncodedDocLength(doc);
    r := EncodeRawDocument(doc, limits, 1);
  }
}
