/**
 What the input converter charges: the retained-heap measure of a converted tree, the UTF-8
 preflight of a Python string and the digit count of an array index.
 */
module Charges {
  import opened Machine
  import opened Bson
  import opened BsonStructure
  import opened PythonObjects

  /** Sizes of the engine's `(String, BsonValue)` and `BsonValue` slots, fixed by the compiler. */
  datatype Layout = Layout(entryBytes: usize, valueBytes: usize)

  const STR_REF_BYTES: nat := 16

  datatype ConvertError =
    | TooDeep | Cycle | TooLarge | TooMuchHeap | BadText | TypeMismatch | InvalidValue | OutOfRange | Unsupported

  function HeapOf(layout: Layout, v: Value): nat
    decreases v, 0
  {
    match v
    case Str(text) => |Utf8(text)|
    case Document(doc) => EntriesHeap(layout, doc.entries)
    case Array(items) => SlotsHeap(layout, |items|) + ItemsHeap(layout, items)
    case Binary(_, bytes) => |bytes|
    case Regex(pattern, options) => |Utf8(pattern)| + |Utf8(options)|
    case JavaScript(code, None) => |Utf8(code)|
    case JavaScript(code, Some(scope)) => |Utf8(code)| + EntriesHeap(layout, scope.entries)
    case _ => 0
  }

  /** Two value slots per array item. */
  function SlotsHeap(layout: Layout, n: nat): nat {
    2 * (layout.valueBytes * n)
  }

  /** Saturation never lets through an array whose exact slot charge is over budget. */
  lemma SlotsSaturate(layout: Layout, n: nat, budget: nat)
    requires budget < USIZE_MAX
    ensures var charge := SaturatingMul(SaturatingMul(layout.valueBytes, n), 2);
            && (charge <= budget <==> SlotsHeap(layout, n) <= budget)
            && (charge <= budget ==> charge == SlotsHeap(layout, n))
  {
  }

  /** Two slots, eight string references of name index and two copies of the name per entry. */
  function EntryHeap(layout: Layout, name: PyText): nat {
    2 * layout.entryBytes + 8 * STR_REF_BYTES + 2 * |Utf8(name)|
  }

  function EntriesHeap(layout: Layout, entries: seq<Entry>): nat
    decreases entries, 0
  {
    if entries == [] then 0
    else
      var last := entries[|entries| - 1];
      EntriesHeap(layout, entries[..|entries| - 1]) + EntryHeap(layout, last.name) + HeapOf(layout, last.value)
  }

  function ItemsHeap(layout: Layout, items: seq<Value>): nat
    decreases items, 0
  {
    if items == [] then 0
    else ItemsHeap(layout, items[..|items| - 1]) + HeapOf(layout, items[|items| - 1])
  }

  // ---------------------------------------------------------------- what the charge measures

  /**
   Two slots and eight string references for every entry, two slots for every array item, every name
   twice and every text once.
   */
  function HeapWeights(layout: Layout): Weights {
    Weights(0, 0, 2 * layout.entryBytes + 8 * STR_REF_BYTES, 2 * layout.valueBytes, 2, 1, 0)
  }

  /** The charge is the weighted count of the contents. */
  lemma {:induction false} HeapOfContents(layout: Layout, v: Value, w: Weights)
    requires w == HeapWeights(layout)
    ensures HeapOf(layout, v) == Weigh(w, v)
    decreases v, 0
  {
    match v
    case Document(doc) => EntriesHeapOfContents(layout, doc.entries, w);
    case Array(items) => ItemsHeapOfContents(layout, items, w);
    case JavaScript(_, Some(scope)) => EntriesHeapOfContents(layout, scope.entries, w);
    case _ =>
  }

  lemma {:induction false} EntriesHeapOfContents(layout: Layout, entries: seq<Entry>, w: Weights)
    requires w == HeapWeights(layout)
    ensures EntriesHeap(layout, entries) == WeighEntries(w, entries)
    decreases entries, 0
  {
    if entries != [] {
      EntriesHeapOfContents(layout, entries[..|entries| - 1], w);
      HeapOfContents(layout, entries[|entries| - 1].value, w);
    }
  }

  lemma {:induction false} ItemsHeapOfContents(layout: Layout, items: seq<Value>, w: Weights)
    requires w == HeapWeights(layout)
    ensures SlotsHeap(layout, |items|) + ItemsHeap(layout, items) == WeighItems(w, items)
    decreases items, 0
  {
    if items != [] {
      ItemsHeapOfContents(layout, items[..|items| - 1], w);
      HeapOfContents(layout, items[|items| - 1], w);
      OneMoreSlot(layout, |items| - 1);
    }
  }

  lemma OneMoreSlot(layout: Layout, n: nat)
    ensures SlotsHeap(layout, n + 1) == SlotsHeap(layout, n) + 2 * layout.valueBytes
  {
  }

  lemma {:induction false} EntriesHeapMonotone(layout: Layout, entries: seq<Entry>, n: nat)
    requires n <= |entries|
    ensures EntriesHeap(layout, entries[..n]) <= EntriesHeap(layout, entries)
    decreases |entries| - n
  {
    if n == |entries| {
      assert entries[..n] == entries;
    } else {
      EntriesHeapMonotone(layout, entries, n + 1);
      assert entries[..n + 1][..n] == entries[..n];
    }
  }

  lemma {:induction false} ItemsHeapMonotone(layout: Layout, items: seq<Value>, n: nat)
    requires n <= |items|
    ensures ItemsHeap(layout, items[..n]) <= ItemsHeap(layout, items)
    decreases |items| - n
  {
    if n == |items| {
      assert items[..n] == items;
    } else {
      ItemsHeapMonotone(layout, items, n + 1);
      assert items[..n + 1][..n] == items[..n];
    }
  }

  /** The charges of the first entries and of the next one stay within the whole document's. */
  lemma EntryWithin(layout: Layout, entries: seq<Entry>, i: nat)
    requires i < |entries|
    ensures EntriesLen(entries[..i]) + |Utf8(entries[i].name)| + 2 + ValueLen(entries[i].value)
            <= EntriesLen(entries)
    ensures EntriesHeap(layout, entries[..i]) + EntryHeap(layout, entries[i].name) + HeapOf(layout, entries[i].value)
            <= EntriesHeap(layout, entries)
    ensures Height(entries[i].value) <= EntriesHeight(entries)
  {
    assert entries[..i + 1][..i] == entries[..i];
    EntriesLenMonotone(entries, i + 1);
    EntriesHeapMonotone(layout, entries, i + 1);
    EntriesHeightBound(entries, i);
  }

  lemma ItemWithin(layout: Layout, items: seq<Value>, i: nat)
    requires i < |items|
    ensures ItemsLen(items[..i]) + |DecimalText(i)| + 2 + ValueLen(items[i]) <= ItemsLen(items)
    ensures ItemsHeap(layout, items[..i]) + HeapOf(layout, items[i]) <= ItemsHeap(layout, items)
    ensures Height(items[i]) <= ItemsHeight(items)
  {
    assert items[..i + 1][..i] == items[..i];
    ItemsLenMonotone(items, i + 1);
    ItemsHeapMonotone(layout, items, i + 1);
    ItemsHeightBound(items, i);
  }

  /** `decimal_digits`: the length of an index's decimal name, by repeated division. */
  method DecimalDigits(n: nat) returns (digits: nat)
    ensures digits == |DecimalText(n)|
  {
    var value := n;
    digits := 1;
    while value >= 10
      invariant digits - 1 + |DecimalText(value)| == |DecimalText(n)|
    {
      value := value / 10;
      digits := digits + 1;
    }
  }

  const PREFLIGHT_CHUNK: nat := 64 * 1024

  /** Measuring chunk by chunk is measuring the whole string. */
  lemma ChunkStep(text: PyText, start: nat, end: nat)
    requires start <= end <= |text| && ValidText(text[..start])
    ensures |Utf8(text[..end])| == |Utf8(text[..start])| + |Utf8(text[start..end])|
    ensures |Utf8(text[..end])| <= |Utf8(text)|
    ensures ValidText(text[..end]) <==> ValidText(text[start..end])
    ensures ValidText(text) ==> ValidText(text[..end])
  {
    assert text[..end] == text[..start] + text[start..end];
    Utf8Concat(text[..start], text[start..end]);
    ValidConcat(text[..start], text[start..end]);
    assert text == text[..end] + text[end..];
    Utf8Concat(text[..end], text[end..]);
    ValidConcat(text[..end], text[end..]);
  }

  lemma ValidConcat(a: PyText, b: PyText)
    ensures ValidText(a + b) <==> ValidText(a) && ValidText(b)
  {
    if ValidText(a + b) {
      assert forall i | 0 <= i < |a| :: a[i] == (a + b)[i];
      assert forall i | 0 <= i < |b| :: b[i] == (a + b)[|a| + i];
    }
  }

  /**
   `preflight_string`: the exact UTF-8 length of a string that still fits both budgets, by the
   ASCII shortcut or in chunks, never encoding more than one chunk beyond the budgets.
   */
  method PreflightString(text: PyText, framing: nat, wireRemaining: usize, heapRemaining: usize)
    returns (r: Result<nat, ConvertError>)
    ensures r.Ok? <==> ValidText(text) && |Utf8(text)| + framing <= wireRemaining && |Utf8(text)| <= heapRemaining
    ensures r.Ok? ==> r.value == |Utf8(text)|
    ensures r.Err? ==> r.error in {BadText, TooLarge, TooMuchHeap}
    ensures r == Err(BadText) ==> !ValidText(text)
    ensures r == Err(TooLarge) ==> |Utf8(text)| + framing > wireRemaining
    ensures r == Err(TooMuchHeap) ==> |Utf8(text)| > heapRemaining
  {
    var characters := |text|;
    var framed := CheckedAdd(characters, framing);
    if framed.None? || framed.value > wireRemaining {
      return Err(TooLarge);
    }
    if characters > heapRemaining {
      return Err(TooMuchHeap);
    }
    if Ascii(text) {
      Utf8Ascii(text);
      return Ok(characters);
    }
    r := MeasureChunks(text, framing, wireRemaining, heapRemaining);
  }

  /** The chunk loop: lengths add up chunk by chunk, and a chunk that cannot be encoded or paid for ends it. */
  method MeasureChunks(text: PyText, framing: nat, wireRemaining: usize, heapRemaining: usize)
    returns (r: Result<nat, ConvertError>)
    requires framing <= wireRemaining
    ensures r.Ok? <==> ValidText(text) && |Utf8(text)| + framing <= wireRemaining && |Utf8(text)| <= heapRemaining
    ensures r.Ok? ==> r.value == |Utf8(text)|
    ensures r.Err? ==> r.error in {BadText, TooLarge, TooMuchHeap}
    ensures r == Err(BadText) ==> !ValidText(text)
    ensures r == Err(TooLarge) ==> |Utf8(text)| + framing > wireRemaining
    ensures r == Err(TooMuchHeap) ==> |Utf8(text)| > heapRemaining
  {
    var encoded, start, characters := 0, 0, |text|;
    while start < characters
      invariant start <= characters
      invariant ValidText(text[..start])
      invariant encoded == |Utf8(text[..start])|
      invariant encoded + framing <= wireRemaining && encoded <= heapRemaining
    {
      var end := if start + PREFLIGHT_CHUNK < characters then start + PREFLIGHT_CHUNK else characters;
      var chunk := text[start..end];
      ChunkStep(text, start, end);
      if !ValidText(chunk) {
        return Err(BadText);
      }
      var total := CheckedAdd(encoded, |Utf8(chunk)|);
      if total.None? {
        return Err(TooLarge);
      }
      encoded := total.value;
      var framedTotal := CheckedAdd(encoded, framing);
      if framedTotal.None? || framedTotal.value > wireRemaining {
        return Err(TooLarge);
      }
      if encoded > heapRemaining {
        return Err(TooMuchHeap);
      }
      start := end;
    }
    assert text[..start] == text;
    return Ok(encoded);
  }
}
