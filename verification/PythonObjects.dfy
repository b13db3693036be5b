/**
 Python object graphs as the input converter sees them, and what it means for an object to
 read as a BSON tree. Objects live under identities, so sharing and cycles are expressible;
 `Reads` recurses on the finite BSON tree, so an object on a cycle reads as nothing.
 */
module PythonObjects {
  import opened Machine
  import opened Bson
  import opened PythonTime

  type Id = nat
  type PyText = seq<CodePoint>

  datatype Key = TextKey(text: PyText) | OtherKey
  datatype Field = Field(key: Key, item: Id)

  /** One constructor per branch of the converter's type dispatch, in dispatch order. */
  datatype Object =
    | NoneObject
    | BoolObject(truth: bool)
    | Int64Object(number: int)
    | IntObject(number: int)
    | FloatObject(bits: u64)
    | CodeObject(code: PyText, scope: Id)
    | BinaryObject(subtype: byte, payload: seq<byte>)
    | StrObject(text: PyText)
    | BytesObject(payload: seq<byte>)
    | DatetimeMsObject(number: int)
    | DatetimeObject(dt: Datetime)
    | UuidObject(uuid: Bytes16)
    | ObjectIdObject(oid: Bytes12)
    | Decimal128Object(bid: Bytes16)
    | RegexObject(pattern: Option<PyText>, flags: u32)
    | TimestampObject(time: u32, increment: u32)
    | MinKeyObject
    | MaxKeyObject
    | MappingObject(fields: seq<Field>)
    | SequenceObject(items: seq<Id>)
    | OtherObject

  type Graph = map<Id, Object>

  predicate ChildOf(o: Object, child: Id) {
    match o
    case MappingObject(fields) => exists i :: 0 <= i < |fields| && fields[i].item == child
    case SequenceObject(items) => child in items
    case CodeObject(_, scope) => child == scope
    case _ => false
  }

  /** Every object mentioned by an object of the graph is in the graph. */
  ghost predicate Closed(g: Graph) {
    forall id, child :: id in g && ChildOf(g[id], child) ==> child in g
  }

  predicate IsContainer(o: Object) {
    o.MappingObject? || o.SequenceObject?
  }

  // ---------------------------------------------------------------- leaves

  predicate ValidText(text: PyText) {
    forall i | 0 <= i < |text| :: text[i] < 0xD800 || 0xE000 <= text[i]
  }

  predicate KnownFlags(flags: u32) {
    flags % 2 == 0 && flags < 128
  }

  function FlagLetter(k: nat): Scalar {
    if k == 0 then 0x69 else if k == 1 then 0x6C else if k == 2 then 0x6D
    else if k == 3 then 0x73 else if k == 4 then 0x75 else 0x78
  }

  /** The letters of "ilmsux" whose flag is set, from letter `k` on; `bits` is the flags shifted to it. */
  function OptionsFrom(bits: nat, k: nat): (options: Text)
    requires k <= 6
    ensures |options| <= 6 - k && Ascii(options) && NulFree(options)
    decreases 6 - k
  {
    if k == 6 then []
    else if bits % 2 == 1 then [FlagLetter(k)] + OptionsFrom(bits / 2, k + 1)
    else OptionsFrom(bits / 2, k + 1)
  }

  function RegexOptions(flags: u32): Text {
    OptionsFrom(flags / 2, 0)
  }

  /** The BSON value of a non-container object, or `None` when the object is individually invalid. */
  function LeafValue(o: Object, rep: Option<UuidRepresentation>): Option<Value>
    requires !IsContainer(o) && !o.CodeObject?
  {
    match o
    case NoneObject => Some(Null)
    case BoolObject(truth) => Some(Boolean(truth))
    case Int64Object(n) => if FitsI64(n) then Some(Int64(n)) else None
    case IntObject(n) =>
      if FitsI32(n) then Some(Int32(n)) else if FitsI64(n) then Some(Int64(n)) else None
    case FloatObject(bits) => Some(Double(bits))
    case BinaryObject(subtype, payload) => Some(Binary(subtype, payload))
    case StrObject(text) => if ValidText(text) then Some(Str(text)) else None
    case BytesObject(payload) => Some(Binary(0, payload))
    case DatetimeMsObject(n) => if FitsI64(n) then Some(DateTime(n)) else None
    case DatetimeObject(dt) =>
      var millis := DatetimeMillis(dt);
      if millis.Ok? then Some(DateTime(millis.value)) else None
    case UuidObject(uuid) => if rep.Some? then Some(Uuid(uuid, rep.value)) else None
    case ObjectIdObject(oid) => Some(ObjectId(oid))
    case Decimal128Object(bid) => Some(Decimal128(bid))
    case RegexObject(pattern, flags) =>
      if pattern.Some? && ValidText(pattern.value) && NulFree(pattern.value) && KnownFlags(flags) then
        Some(Regex(pattern.value, RegexOptions(flags)))
      else None
    case TimestampObject(time, increment) => Some(Timestamp(time, increment))
    case MinKeyObject => Some(MinKey)
    case MaxKeyObject => Some(MaxKey)
    case OtherObject => None
  }

  // ---------------------------------------------------------------- reading a graph as a tree

  ghost predicate Reads(g: Graph, rep: Option<UuidRepresentation>, id: Id, v: Value)
    decreases v, 0
  {
    id in g &&
    match g[id]
    case MappingObject(fields) => v.Document? && ReadsFields(g, rep, fields, v.doc.entries)
    case SequenceObject(items) => v.Array? && ReadsItems(g, rep, items, v.items)
    case CodeObject(code, scope) =>
      v.JavaScript? && v.code == code && scope in g &&
      (if g[scope].NoneObject? then v.scope.None?
       else v.scope.Some? && g[scope].MappingObject? && ReadsFields(g, rep, g[scope].fields, v.scope.value.entries))
    case o => LeafValue(o, rep) == Some(v)
  }

  predicate Names(key: Key, name: Text) {
    key.TextKey? && key.text == name
  }

  /** Field by field, in iteration order: a string key and a value that reads as the entry's. */
  ghost predicate ReadsFields(g: Graph, rep: Option<UuidRepresentation>, fields: seq<Field>, entries: seq<Entry>)
    decreases entries, 0
  {
    |fields| == |entries| &&
    (entries != [] ==>
       var n := |entries| - 1;
       && ReadsFields(g, rep, fields[..n], entries[..n])
       && Names(fields[n].key, entries[n].name)
       && Reads(g, rep, fields[n].item, entries[n].value))
  }

  ghost predicate ReadsItems(g: Graph, rep: Option<UuidRepresentation>, ids: seq<Id>, items: seq<Value>)
    decreases items, 0
  {
    |ids| == |items| &&
    (items != [] ==>
       var n := |items| - 1;
       ReadsItems(g, rep, ids[..n], items[..n]) && Reads(g, rep, ids[n], items[n]))
  }

  lemma ReadsShape(g: Graph, rep: Option<UuidRepresentation>, id: Id, v: Value)
    requires Reads(g, rep, id, v)
    ensures g[id].MappingObject? ==> v.Document? && |v.doc.entries| == |g[id].fields|
    ensures g[id].SequenceObject? ==> v.Array? && |v.items| == |g[id].items|
  {
  }

  lemma {:induction false} ReadsField(
      g: Graph, rep: Option<UuidRepresentation>, fields: seq<Field>, entries: seq<Entry>, i: nat)
    requires ReadsFields(g, rep, fields, entries) && i < |entries|
    ensures Names(fields[i].key, entries[i].name) && Reads(g, rep, fields[i].item, entries[i].value)
  {
    var n := |entries| - 1;
    if i < n {
      ReadsField(g, rep, fields[..n], entries[..n], i);
    }
  }

  lemma {:induction false} ReadsItem(
      g: Graph, rep: Option<UuidRepresentation>, ids: seq<Id>, items: seq<Value>, i: nat)
    requires ReadsItems(g, rep, ids, items) && i < |items|
    ensures Reads(g, rep, ids[i], items[i])
  {
    var n := |items| - 1;
    if i < n {
      ReadsItem(g, rep, ids[..n], items[..n], i);
    }
  }

  lemma ReadsFieldsAppend(
      g: Graph, rep: Option<UuidRepresentation>, fields: seq<Field>, entries: seq<Entry>, e: Entry)
    requires |entries| < |fields| && ReadsFields(g, rep, fields[..|entries|], entries)
    requires Names(fields[|entries|].key, e.name) && Reads(g, rep, fields[|entries|].item, e.value)
    ensures ReadsFields(g, rep, fields[..|entries| + 1], entries + [e])
  {
    var n := |entries|;
    var f, all := fields[..n + 1], entries + [e];
    assert f[..n] == fields[..n] && all[..n] == entries;
    assert f[n] == fields[n] && all[n] == e;
  }

  lemma ReadsItemsAppend(
      g: Graph, rep: Option<UuidRepresentation>, ids: seq<Id>, items: seq<Value>, v: Value)
    requires |items| < |ids| && ReadsItems(g, rep, ids[..|items|], items) && Reads(g, rep, ids[|items|], v)
    ensures ReadsItems(g, rep, ids[..|items| + 1], items + [v])
  {
    var n := |items|;
    var f, all := ids[..n + 1], items + [v];
    assert f[..n] == ids[..n] && all[..n] == items;
    assert f[n] == ids[n] && all[n] == v;
  }

  lemma {:induction false} ReadsFieldsPrefix(
      g: Graph, rep: Option<UuidRepresentation>, fields: seq<Field>, entries: seq<Entry>, n: nat)
    requires ReadsFields(g, rep, fields, entries) && n <= |entries|
    ensures ReadsFields(g, rep, fields[..n], entries[..n])
  {
    var m := |entries| - 1;
    if n == |entries| {
      assert fields[..n] == fields && entries[..n] == entries;
    } else {
      ReadsFieldsPrefix(g, rep, fields[..m], entries[..m], n);
      assert fields[..m][..n] == fields[..n] && entries[..m][..n] == entries[..n];
    }
  }

  lemma {:induction false} ReadsItemsPrefix(
      g: Graph, rep: Option<UuidRepresentation>, ids: seq<Id>, items: seq<Value>, n: nat)
    requires ReadsItems(g, rep, ids, items) && n <= |items|
    ensures ReadsItems(g, rep, ids[..n], items[..n])
  {
    var m := |items| - 1;
    if n == |items| {
      assert ids[..n] == ids && items[..n] == items;
    } else {
      ReadsItemsPrefix(g, rep, ids[..m], items[..m], n);
      assert ids[..m][..n] == ids[..n] && items[..m][..n] == items[..n];
    }
  }

  /** What an object reads as can be written: no regular expression holds a NUL. */
  lemma {:induction false} ReadsCStrings(g: Graph, rep: Option<UuidRepresentation>, id: Id, v: Value)
    requires Reads(g, rep, id, v)
    ensures CStrings(v)
    decreases v, 0
  {
    var o := g[id];
    if o.MappingObject? {
      ReadsEntriesCStrings(g, rep, o.fields, v.doc.entries);
    } else if o.SequenceObject? {
      ReadsItemsCStrings(g, rep, o.items, v.items);
    } else if o.CodeObject? {
      if v.scope.Some? {
        ReadsEntriesCStrings(g, rep, g[o.scope].fields, v.scope.value.entries);
      }
    } else {
      LeafCStrings(o, rep);
    }
  }

  lemma LeafCStrings(o: Object, rep: Option<UuidRepresentation>)
    requires !IsContainer(o) && !o.CodeObject? && LeafValue(o, rep).Some?
    ensures CStrings(LeafValue(o, rep).value)
  {
  }

  lemma {:induction false} ReadsEntriesCStrings(
      g: Graph, rep: Option<UuidRepresentation>, fields: seq<Field>, entries: seq<Entry>)
    requires ReadsFields(g, rep, fields, entries)
    ensures EntriesCStrings(entries)
    decreases entries, 0
  {
    if entries != [] {
      var n := |entries| - 1;
      ReadsEntriesCStrings(g, rep, fields[..n], entries[..n]);
      ReadsCStrings(g, rep, fields[n].item, entries[n].value);
    }
  }

  lemma {:induction false} ReadsItemsCStrings(
      g: Graph, rep: Option<UuidRepresentation>, ids: seq<Id>, items: seq<Value>)
    requires ReadsItems(g, rep, ids, items)
    ensures ItemsCStrings(items)
    decreases items, 0
  {
    if items != [] {
      var n := |items| - 1;
      ReadsItemsCStrings(g, rep, ids[..n], items[..n]);
      ReadsCStrings(g, rep, ids[n], items[n]);
    }
  }

  /** An object reads as at most one tree. */
  lemma {:induction false} ReadsUnique(g: Graph, rep: Option<UuidRepresentation>, id: Id, v: Value, w: Value)
    requires Reads(g, rep, id, v) && Reads(g, rep, id, w)
    ensures v == w
    decreases v, 0
  {
    var o := g[id];
    if o.MappingObject? {
      ReadsFieldsUnique(g, rep, o.fields, v.doc.entries, w.doc.entries);
    } else if o.SequenceObject? {
      ReadsItemsUnique(g, rep, o.items, v.items, w.items);
    } else if o.CodeObject? {
      if v.scope.Some? {
        ReadsFieldsUnique(g, rep, g[o.scope].fields, v.scope.value.entries, w.scope.value.entries);
      }
    } else {
      assert LeafValue(o, rep) == Some(v) && LeafValue(o, rep) == Some(w);
    }
  }

  lemma {:induction false} ReadsFieldsUnique(
      g: Graph, rep: Option<UuidRepresentation>, fields: seq<Field>, a: seq<Entry>, b: seq<Entry>)
    requires ReadsFields(g, rep, fields, a) && ReadsFields(g, rep, fields, b)
    ensures a == b
    decreases a, 0
  {
    if a != [] {
      var n := |a| - 1;
      ReadsFieldsUnique(g, rep, fields[..n], a[..n], b[..n]);
      ReadsUnique(g, rep, fields[n].item, a[n].value, b[n].value);
      assert a == a[..n] + [a[n]] && b == b[..n] + [b[n]];
    }
  }

  lemma {:induction false} ReadsItemsUnique(
      g: Graph, rep: Option<UuidRepresentation>, ids: seq<Id>, a: seq<Value>, b: seq<Value>)
    requires ReadsItems(g, rep, ids, a) && ReadsItems(g, rep, ids, b)
    ensures a == b
    decreases a, 0
  {
    if a != [] {
      var n := |a| - 1;
      ReadsItemsUnique(g, rep, ids[..n], a[..n], b[..n]);
      ReadsUnique(g, rep, ids[n], a[n], b[n]);
      assert a == a[..n] + [a[n]] && b == b[..n] + [b[n]];
    }
  }

  // ---------------------------------------------------------------- tree size

  /** Nodes of a tree; every object an object mentions reads as a strictly smaller tree. */
  function TreeSize(v: Value): (n: nat)
    ensures n > 0
    decreases v, 0
  {
    match v
    case Document(doc) => DocSize(doc)
    case Array(items) => 1 + ItemsSize(items)
    case JavaScript(_, None) => 2
    case JavaScript(_, Some(scope)) => 1 + DocSize(scope)
    case _ => 1
  }

  function DocSize(doc: Doc): (n: nat)
    ensures n > 0
    decreases doc, 1
  {
    1 + EntriesSize(doc.entries)
  }

  function EntriesSize(entries: seq<Entry>): nat
    decreases entries, 0
  {
    if entries == [] then 0
    else EntriesSize(entries[..|entries| - 1]) + TreeSize(entries[|entries| - 1].value)
  }

  function ItemsSize(items: seq<Value>): nat
    decreases items, 0
  {
    if items == [] then 0 else ItemsSize(items[..|items| - 1]) + TreeSize(items[|items| - 1])
  }

  lemma {:induction false} EntrySizeBound(entries: seq<Entry>, i: nat)
    requires i < |entries|
    ensures TreeSize(entries[i].value) <= EntriesSize(entries)
  {
    if i < |entries| - 1 {
      EntrySizeBound(entries[..|entries| - 1], i);
    }
  }

  lemma {:induction false} ItemSizeBound(items: seq<Value>, i: nat)
    requires i < |items|
    ensures TreeSize(items[i]) <= ItemsSize(items)
  {
    if i < |items| - 1 {
      ItemSizeBound(items[..|items| - 1], i);
    }
  }

  /** A child of a readable object is readable, as a strictly smaller tree. */
  lemma ChildReads(g: Graph, rep: Option<UuidRepresentation>, id: Id, v: Value, child: Id) returns (w: Value)
    requires Reads(g, rep, id, v) && ChildOf(g[id], child)
    ensures Reads(g, rep, child, w) && TreeSize(w) < TreeSize(v)
  {
    match g[id]
    case MappingObject(fields) =>
      var i :| 0 <= i < |fields| && fields[i].item == child;
      ReadsField(g, rep, fields, v.doc.entries, i);
      EntrySizeBound(v.doc.entries, i);
      w := v.doc.entries[i].value;
    case SequenceObject(items) =>
      var i :| 0 <= i < |items| && items[i] == child;
      ReadsItem(g, rep, items, v.items, i);
      ItemSizeBound(v.items, i);
      w := v.items[i];
    case CodeObject(_, scope) =>
      w := if v.scope.None? then Null else Document(v.scope.value);
  }

  // ---------------------------------------------------------------- trails and cycles

  /** A walk along mentions, read from its end back to its start. */
  datatype Trail = Start | Step(before: Trail, id: Id)

  ghost predicate Walks(g: Graph, t: Trail) {
    t.Step? ==> t.id in g && Walks(g, t.before) && (t.before.Step? ==> ChildOf(g[t.before.id], t.id))
  }

  function On(t: Trail): set<Id> {
    match t
    case Start => {}
    case Step(before, id) => On(before) + {id}
  }

  /** The first object of a trail continued by `id`. */
  function First(t: Trail, id: Id): Id {
    match t
    case Start => id
    case Step(before, last) => First(before, last)
  }

  /** Mappings and sequences on a trail, the objects that count towards the depth. */
  function Containers(g: Graph, t: Trail): nat {
    match t
    case Start => 0
    case Step(before, id) => Containers(g, before) + (if id in g && IsContainer(g[id]) then 1 else 0)
  }

  /** Some walk from `root` meets an object it has already passed. */
  ghost predicate ReachesCycle(g: Graph, root: Id) {
    exists t, id :: Walks(g, Step(t, id)) && First(t, id) == root && id in On(t)
  }

  /** Every tree that one of the objects reads as is larger than `size`. */
  ghost predicate Above(g: Graph, rep: Option<UuidRepresentation>, ids: set<Id>, size: nat) {
    forall a, w :: a in ids && Reads(g, rep, a, w) ==> size < TreeSize(w)
  }

  /** A child is below everything its parent is below, and below its parent. */
  lemma ChildAbove(g: Graph, rep: Option<UuidRepresentation>, ids: set<Id>, id: Id, v: Value, child: Id, w: Value)
    requires Reads(g, rep, id, v) && ChildOf(g[id], child) && Reads(g, rep, child, w)
    requires Above(g, rep, ids, TreeSize(v))
    ensures Above(g, rep, ids + {id}, TreeSize(w))
  {
    var u := ChildReads(g, rep, id, v, child);
    ReadsUnique(g, rep, child, u, w);
    forall a, x | a in ids + {id} && Reads(g, rep, a, x) ensures TreeSize(w) < TreeSize(x) {
      if a == id {
        ReadsUnique(g, rep, id, v, x);
      }
    }
  }

  lemma {:induction false} ReadsAlong(g: Graph, rep: Option<UuidRepresentation>, t: Trail, id: Id, v: Value)
    returns (w: Value)
    requires Walks(g, Step(t, id)) && Reads(g, rep, First(t, id), v)
    ensures Reads(g, rep, id, w) && Above(g, rep, On(t), TreeSize(w))
    decreases t
  {
    if t.Start? {
      w := v;
    } else {
      var u := ReadsAlong(g, rep, t.before, t.id, v);
      w := ChildReads(g, rep, t.id, u, id);
      ChildAbove(g, rep, On(t.before), t.id, u, id, w);
    }
  }

  /** A readable object reaches no cycle, however much its parts are shared. */
  lemma ReadableIsAcyclic(g: Graph, rep: Option<UuidRepresentation>, root: Id, v: Value)
    requires Reads(g, rep, root, v)
    ensures !ReachesCycle(g, root)
  {
    forall t, id | Walks(g, Step(t, id)) && First(t, id) == root
      ensures id !in On(t)
    {
      var w := ReadsAlong(g, rep, t, id, v);
    }
  }
}
