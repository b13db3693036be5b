/**
 The first pass of the codec's encoder, with the default duplicate-rejecting policy: a size, depth
 and name preflight that materializes nothing.
 */
module BsonCodec {
  import opened Machine
  import opened Bson
  import opened Charges

  datatype CodecError = Oversized | NestingLimit | DuplicateField | InvalidName | InvalidRegex | InvalidOptions

  datatype Limits = Limits(maxDocumentBytes: nat, maxNestingDepth: nat, maxDecodedBytes: nat) {
    predicate Valid() {
      && 5 <= maxDocumentBytes <= MAX_DOCUMENT_BYTES
      && 1 <= maxNestingDepth <= MAX_NESTING_DEPTH
      && 1 <= maxDecodedBytes <= MAX_DECODED_BYTES
    }
  }

  const DEFAULT_LIMITS: Limits := Limits(MAX_DOCUMENT_BYTES, MAX_NESTING_DEPTH, MAX_DECODED_BYTES)

  function AddEncodedSize(current: nat, additional: nat, limits: Limits): Result<nat, CodecError> {
    var total := CheckedAdd(current, additional);
    if total.None? || total.value > limits.maxDocumentBytes then Err(Oversized) else Ok(total.value)
  }

  /** The whole value is within the limits, whatever order they are checked in. */
  ghost predicate ValueWithin(v: Value, limits: Limits, parentDepth: nat) {
    && parentDepth + Height(v) <= limits.maxNestingDepth && WellNamed(v)
    && ValueLen(v) <= limits.maxDocumentBytes
  }

  ghost predicate DocWithin(doc: Doc, limits: Limits, parentDepth: nat) {
    && parentDepth + DocHeight(doc) <= limits.maxNestingDepth && EntriesNamed(doc.entries)
    && DocLen(doc) <= limits.maxDocumentBytes
  }

  /** The preflight accepts a document exactly when it is within the limits, with its exact length. */
  method EncodedDocumentLen(doc: Doc, limits: Limits, depth: nat) returns (r: Result<nat, CodecError>)
    requires limits.Valid() && depth > 0
    ensures r.Ok? <==> DocWithin(doc, limits, depth - 1)
    ensures r.Ok? ==> r.value == DocLen(doc)
    decreases doc, 1
  {
    if depth > limits.maxNestingDepth {
      return Err(NestingLimit);
    }
    var entries := doc.entries;
    var encodedLen, names: set<Text> := 5, {};
    for i := 0 to |entries|
      invariant encodedLen == 5 + EntriesLen(entries[..i]) <= limits.maxDocumentBytes
      invariant EntriesNamed(entries[..i]) && names == NamesOf(entries[..i])
      invariant depth + EntriesHeight(entries[..i]) <= limits.maxNestingDepth
    {
      assert entries[..i + 1][..i] == entries[..i];
      var total := EncodedEntryLen(entries[i], encodedLen, names, limits, depth);
      if total.Err? {
        EntryWithin(Layout(0, 0), entries, i);
        if EntriesNamed(entries) {
          EntryNamed(entries, i);
        }
        return total;
      }
      encodedLen := total.value;
      names := names + {entries[i].name};
    }
    assert entries[..|entries|] == entries;
    return Ok(encodedLen);
  }

  /** One turn of the entry loop: the checks on the name, then the name and the value added on. */
  method EncodedEntryLen(entry: Entry, encodedLen: nat, names: set<Text>, limits: Limits, depth: nat)
    returns (r: Result<nat, CodecError>)
    requires limits.Valid() && 0 < depth <= limits.maxNestingDepth
    ensures r.Ok? <==> && entry.name !in names && NulFree(entry.name) && WellNamed(entry.value)
                       && depth + Height(entry.value) <= limits.maxNestingDepth
                       && encodedLen + |Utf8(entry.name)| + 2 + ValueLen(entry.value) <= limits.maxDocumentBytes
    ensures r.Ok? ==> r.value == encodedLen + |Utf8(entry.name)| + 2 + ValueLen(entry.value)
    decreases entry, 0
  {
    if entry.name in names {
      return Err(DuplicateField);
    }
    if !NulFree(entry.name) {
      return Err(InvalidName);
    }
    var total :- AddEncodedSize(encodedLen, |Utf8(entry.name)|, limits);
    total :- AddEncodedSize(total, 2, limits);
    var valueLen :- EncodedValueLen(entry.value, limits, depth);
    r := AddEncodedSize(total, valueLen, limits);
  }

  method EncodedArrayLen(items: seq<Value>, limits: Limits, depth: nat) returns (r: Result<nat, CodecError>)
    requires limits.Valid() && depth > 0
    ensures r.Ok? <==> && depth + ItemsHeight(items) <= limits.maxNestingDepth && ItemsNamed(items)
                       && 5 + ItemsLen(items) <= limits.maxDocumentBytes
    ensures r.Ok? ==> r.value == 5 + ItemsLen(items)
    decreases items, 1
  {
    if depth > limits.maxNestingDepth {
      return Err(NestingLimit);
    }
    var encodedLen := 5;
    for i := 0 to |items|
      invariant encodedLen == 5 + ItemsLen(items[..i]) <= limits.maxDocumentBytes
      invariant ItemsNamed(items[..i]) && depth + ItemsHeight(items[..i]) <= limits.maxNestingDepth
    {
      assert items[..i + 1][..i] == items[..i];
      var total := EncodedItemLen(items[i], i, encodedLen, limits, depth);
      if total.Err? {
        ItemWithin(Layout(0, 0), items, i);
        if ItemsNamed(items) {
          ItemNamed(items, i);
        }
        return total;
      }
      encodedLen := total.value;
    }
    assert items[..|items|] == items;
    return Ok(encodedLen);
  }

  /** One turn of the item loop: the index as a name, then the value. */
  method EncodedItemLen(item: Value, i: nat, encodedLen: nat, limits: Limits, depth: nat)
    returns (r: Result<nat, CodecError>)
    requires limits.Valid() && 0 < depth <= limits.maxNestingDepth
    ensures r.Ok? <==> && WellNamed(item) && depth + Height(item) <= limits.maxNestingDepth
                       && encodedLen + |DecimalText(i)| + 2 + ValueLen(item) <= limits.maxDocumentBytes
    ensures r.Ok? ==> r.value == encodedLen + |DecimalText(i)| + 2 + ValueLen(item)
    decreases item, 1
  {
    var total :- AddEncodedSize(encodedLen, |DecimalText(i)|, limits);
    total :- AddEncodedSize(total, 2, limits);
    var valueLen :- EncodedValueLen(item, limits, depth);
    r := AddEncodedSize(total, valueLen, limits);
  }

  method EncodedScopedCodeLen(code: Text, scope: Doc, limits: Limits, parentDepth: nat)
    returns (r: Result<nat, CodecError>)
    requires limits.Valid() && parentDepth <= limits.maxNestingDepth
    ensures r.Ok? <==> && DocWithin(scope, limits, parentDepth)
                       && 9 + |Utf8(code)| + DocLen(scope) <= limits.maxDocumentBytes
    ensures r.Ok? ==> r.value == 9 + |Utf8(code)| + DocLen(scope)
    decreases scope, 2
  {
    var codeLen :- AddEncodedSize(5, |Utf8(code)|, limits);
    var scopeLen :- EncodedDocumentLen(scope, limits, parentDepth + 1);
    var len :- AddEncodedSize(4, codeLen, limits);
    r := AddEncodedSize(len, scopeLen, limits);
  }

  method EncodedValueLen(v: Value, limits: Limits, parentDepth: nat) returns (r: Result<nat, CodecError>)
    requires limits.Valid() && parentDepth <= limits.maxNestingDepth
    ensures ValueWithin(v, limits, parentDepth) ==> r.Ok?
    ensures r.Ok? ==> r.value == ValueLen(v) && WellNamed(v) && parentDepth + Height(v) <= limits.maxNestingDepth
    decreases v, 0
  {
    match v
    case Str(text) =>
      r := AddEncodedSize(5, |Utf8(text)|, limits);
    case Document(doc) =>
      r := EncodedDocumentLen(doc, limits, parentDepth + 1);
    case Array(items) =>
      r := EncodedArrayLen(items, limits, parentDepth + 1);
    case Binary(subtype, bytes) =>
      r := AddEncodedSize(if subtype == 2 then 9 else 5, |bytes|, limits);
    case Regex(pattern, options) =>
      var len :- AddEncodedSize(2, |Utf8(pattern)|, limits);
      r := AddEncodedSize(len, |Utf8(options)|, limits);
    case JavaScript(code, None) =>
      r := AddEncodedSize(5, |Utf8(code)|, limits);
    case JavaScript(code, Some(scope)) =>
      r := EncodedScopedCodeLen(code, scope, limits, parentDepth);
    case Double(_) | DateTime(_) | Timestamp(_, _) | Int64(_) => return Ok(8);
    case Uuid(_, _) => return Ok(21);
    case ObjectId(_) => return Ok(12);
    case Boolean(_) => return Ok(1);
    case Null | MinKey | MaxKey => return Ok(0);
    case Int32(_) => return Ok(4);
    case Decimal128(_) => return Ok(16);
  }
}
