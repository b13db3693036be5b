/**
 What is in a BSON value, counted without regard to how the measures on values recurse: a weighted count
 of its contents, and how deep its containers are nested.
 */
module BsonStructure {
  import opened Machine
  import opened Bson

  /**
   What a count adds for every value, every document (a code scope is one), every entry, every array item,
   every byte of a name, every byte of a text (strings, binaries, patterns, options and code) and every
   digit of an array index.
   */
  datatype Weights = Weights(value: nat, document: nat, entry: nat, item: nat,
                             nameByte: nat, textByte: nat, digit: nat)

  function Weigh(w: Weights, v: Value): nat
    decreases v, 0
  {
    match v
    case Document(doc) => w.value + WeighDoc(w, doc)
    case Array(items) => w.value + WeighItems(w, items)
    case JavaScript(code, Some(scope)) => w.value + w.textByte * |Utf8(code)| + WeighDoc(w, scope)
    case _ => w.value + w.textByte * TextBytes(v)
  }

  function TextBytes(v: Value): nat {
    match v
    case Str(text) => |Utf8(text)|
    case Binary(_, bytes) => |bytes|
    case Regex(pattern, options) => |Utf8(pattern)| + |Utf8(options)|
    case JavaScript(code, _) => |Utf8(code)|
    case _ => 0
  }

  function WeighDoc(w: Weights, doc: Doc): nat
    decreases doc, 1
  {
    w.document + WeighEntries(w, doc.entries)
  }

  function WeighEntries(w: Weights, entries: seq<Entry>): nat
    decreases entries, 0
  {
    if entries == [] then 0
    else
      var last := entries[|entries| - 1];
      WeighEntries(w, entries[..|entries| - 1]) + w.entry + w.nameByte * |Utf8(last.name)| + Weigh(w, last.value)
  }

  function WeighItems(w: Weights, items: seq<Value>): nat
    decreases items, 0
  {
    if items == [] then 0
    else
      var n := |items| - 1;
      WeighItems(w, items[..n]) + w.item + w.digit * |DecimalText(n)| + Weigh(w, items[n])
  }

  /** How many values there are: the value itself and those inside it. */
  function ValuesIn(v: Value): nat
    decreases v, 0
  {
    match v
    case Document(doc) => 1 + ValuesInEntries(doc.entries)
    case Array(items) => 1 + ValuesInItems(items)
    case JavaScript(_, Some(scope)) => 1 + ValuesInEntries(scope.entries)
    case _ => 1
  }

  function ValuesInEntries(entries: seq<Entry>): nat
    decreases entries, 0
  {
    if entries == [] then 0
    else ValuesInEntries(entries[..|entries| - 1]) + ValuesIn(entries[|entries| - 1].value)
  }

  function ValuesInItems(items: seq<Value>): nat
    decreases items, 0
  {
    if items == [] then 0 else ValuesInItems(items[..|items| - 1]) + ValuesIn(items[|items| - 1])
  }

  /** Every value inside another is an entry's or an item: counting those and the value itself counts all. */
  lemma {:induction false} ValuesHavePlaces(v: Value, w: Weights)
    requires w == Weights(0, 0, 1, 1, 0, 0, 0)
    ensures ValuesIn(v) == 1 + Weigh(w, v)
    decreases v, 0
  {
    match v
    case Document(doc) => EntriesHavePlaces(doc.entries, w);
    case Array(items) => ItemsHavePlaces(items, w);
    case JavaScript(_, Some(scope)) => EntriesHavePlaces(scope.entries, w);
    case _ =>
  }

  lemma {:induction false} EntriesHavePlaces(entries: seq<Entry>, w: Weights)
    requires w == Weights(0, 0, 1, 1, 0, 0, 0)
    ensures ValuesInEntries(entries) == WeighEntries(w, entries)
    decreases entries, 0
  {
    if entries != [] {
      EntriesHavePlaces(entries[..|entries| - 1], w);
      ValuesHavePlaces(entries[|entries| - 1].value, w);
    }
  }

  lemma {:induction false} ItemsHavePlaces(items: seq<Value>, w: Weights)
    requires w == Weights(0, 0, 1, 1, 0, 0, 0)
    ensures ValuesInItems(items) == WeighItems(w, items)
    decreases items, 0
  {
    if items != [] {
      ItemsHavePlaces(items[..|items| - 1], w);
      ValuesHavePlaces(items[|items| - 1], w);
    }
  }

  // ---------------------------------------------------------------- the encoded length

  /**
   The least a document's contents take on the wire: its frame, a type byte and a terminator for every
   name or index, and every byte and digit. A value's own framing takes at most 21 bytes more.
   */
  const WIRE: Weights := Weights(0, 5, 2, 2, 1, 1, 1)
  const WIRE_AT_MOST: Weights := Weights(21, 5, 2, 2, 1, 1, 1)

  predicate Bounds(low: Weights, high: Weights) {
    low == WIRE && high == WIRE_AT_MOST
  }

  /** The encoding holds every name, text and index, and little else. */
  lemma LengthOfContents(v: Value)
    ensures Weigh(WIRE, v) <= |EncodeValue(v)| <= Weigh(WIRE_AT_MOST, v)
  {
    EncodedValueLength(v);
    ValueContents(v, WIRE, WIRE_AT_MOST);
  }

  lemma {:induction false} ValueContents(v: Value, low: Weights, high: Weights)
    requires Bounds(low, high)
    ensures Weigh(low, v) <= ValueLen(v) <= Weigh(high, v)
    decreases v, 0
  {
    match v
    case Document(doc) => DocContents(doc, low, high);
    case Array(items) => ItemsContents(items, low, high);
    case JavaScript(_, Some(scope)) => DocContents(scope, low, high);
    case _ =>
  }

  lemma {:induction false} DocContents(doc: Doc, low: Weights, high: Weights)
    requires Bounds(low, high)
    ensures WeighDoc(low, doc) <= DocLen(doc) <= WeighDoc(high, doc)
    decreases doc, 1
  {
    EntriesContents(doc.entries, low, high);
  }

  lemma {:induction false} EntriesContents(entries: seq<Entry>, low: Weights, high: Weights)
    requires Bounds(low, high)
    ensures WeighEntries(low, entries) <= EntriesLen(entries) <= WeighEntries(high, entries)
    decreases entries, 0
  {
    if entries != [] {
      EntriesContents(entries[..|entries| - 1], low, high);
      ValueContents(entries[|entries| - 1].value, low, high);
    }
  }

  lemma {:induction false} ItemsContents(items: seq<Value>, low: Weights, high: Weights)
    requires Bounds(low, high)
    ensures WeighItems(low, items) <= ItemsLen(items) <= WeighItems(high, items)
    decreases items, 0
  {
    if items != [] {
      ItemsContents(items[..|items| - 1], low, high);
      ValueContents(items[|items| - 1], low, high);
    }
  }

  // ---------------------------------------------------------------- nesting

  predicate IsContainer(v: Value) {
    v.Document? || v.Array? || (v.JavaScript? && v.scope.Some?)
  }

  function Children(v: Value): seq<Value> {
    match v
    case Document(doc) => ValuesOf(doc.entries)
    case Array(items) => items
    case JavaScript(_, Some(scope)) => ValuesOf(scope.entries)
    case _ => []
  }

  function ValuesOf(entries: seq<Entry>): seq<Value> {
    seq(|entries|, i requires 0 <= i < |entries| => entries[i].value)
  }

  /** Containers, each directly inside the one before. */
  predicate Nested(path: seq<Value>) {
    && (forall i | 0 <= i < |path| :: IsContainer(path[i]))
    && forall i | 0 < i < |path| :: path[i] in Children(path[i - 1])
  }

  lemma {:induction false} DeepestEntry(entries: seq<Entry>) returns (i: nat)
    requires EntriesHeight(entries) > 0
    ensures i < |entries| && Height(entries[i].value) == EntriesHeight(entries)
  {
    var n := |entries| - 1;
    if EntriesHeight(entries[..n]) == EntriesHeight(entries) {
      i := DeepestEntry(entries[..n]);
    } else {
      i := n;
    }
  }

  lemma {:induction false} DeepestItem(items: seq<Value>) returns (i: nat)
    requires ItemsHeight(items) > 0
    ensures i < |items| && Height(items[i]) == ItemsHeight(items)
  {
    var n := |items| - 1;
    if ItemsHeight(items[..n]) == ItemsHeight(items) {
      i := DeepestItem(items[..n]);
    } else {
      i := n;
    }
  }

  /** A child one level lower, if there is any below. */
  lemma DeepestChild(v: Value) returns (w: Value)
    requires Height(v) > 1
    ensures IsContainer(v) && w in Children(v) && Height(w) == Height(v) - 1 && w < v
  {
    match v
    case Document(doc) =>
      var i := DeepestEntry(doc.entries);
      w := doc.entries[i].value;
      assert ValuesOf(doc.entries)[i] == w;
    case Array(items) =>
      var i := DeepestItem(items);
      w := items[i];
    case JavaScript(_, Some(scope)) =>
      var i := DeepestEntry(scope.entries);
      w := scope.entries[i].value;
      assert ValuesOf(scope.entries)[i] == w;
  }

  lemma ChildIsLower(v: Value, w: Value)
    requires w in Children(v)
    ensures Height(w) < Height(v)
  {
    match v
    case Document(doc) =>
      var i :| 0 <= i < |doc.entries| && doc.entries[i].value == w;
      EntriesHeightBound(doc.entries, i);
    case Array(items) =>
      var i :| 0 <= i < |items| && items[i] == w;
      ItemsHeightBound(items, i);
    case JavaScript(_, Some(scope)) =>
      var i :| 0 <= i < |scope.entries| && scope.entries[i].value == w;
      EntriesHeightBound(scope.entries, i);
    case _ =>
  }

  /** Some containers are nested as deep as the height says. */
  lemma {:induction false} HeightIsReached(v: Value) returns (path: seq<Value>)
    ensures |path| == Height(v) && Nested(path) && (path != [] ==> path[0] == v)
    decreases v
  {
    if Height(v) <= 1 {
      path := if Height(v) == 0 then [] else [v];
    } else {
      var w := DeepestChild(v);
      var rest := HeightIsReached(w);
      path := [v] + rest;
    }
  }

  /** And none are nested deeper. */
  lemma {:induction false} HeightIsMost(path: seq<Value>)
    requires path != [] && Nested(path)
    ensures |path| <= Height(path[0])
    decreases |path|
  {
    if |path| > 1 {
      assert path[1..][0] == path[1];
      HeightIsMost(path[1..]);
      ChildIsLower(path[0], path[1]);
    }
  }
}
