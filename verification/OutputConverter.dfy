/** The output converter, which builds Python objects step by step, and the round trip through it. */
module OutputConverter {
  import opened Machine
  import opened Bson
  import opened PythonObjects
  import opened Charges
  import opened BsonCodec
  import opened BsonEncoder
  import opened DocumentInput
  import opened DocumentOutput

  // ---------------------------------------------------------------- graphs that grow

  /** Every object of `g` is the same object in `h`. */
  predicate Within(g: Graph, h: Graph) {
    forall id | id in g :: id in h && h[id] == g[id]
  }

  lemma {:induction false} ReadsWithin(g: Graph, h: Graph, rep: Option<UuidRepresentation>, id: Id, v: Value)
    requires Within(g, h) && Reads(g, rep, id, v)
    ensures Reads(h, rep, id, v)
    decreases v, 0
  {
    var o := g[id];
    if o.MappingObject? {
      ReadsFieldsWithin(g, h, rep, o.fields, v.doc.entries);
    } else if o.SequenceObject? {
      ReadsItemsWithin(g, h, rep, o.items, v.items);
    } else if o.CodeObject? {
      if v.scope.Some? {
        ReadsFieldsWithin(g, h, rep, g[o.scope].fields, v.scope.value.entries);
      }
    }
  }

  lemma {:induction false} ReadsFieldsWithin(
      g: Graph, h: Graph, rep: Option<UuidRepresentation>, fields: seq<Field>, entries: seq<Entry>)
    requires Within(g, h) && ReadsFields(g, rep, fields, entries)
    ensures ReadsFields(h, rep, fields, entries)
    decreases entries, 0
  {
    if entries != [] {
      var n := |entries| - 1;
      ReadsFieldsWithin(g, h, rep, fields[..n], entries[..n]);
      ReadsWithin(g, h, rep, fields[n].item, entries[n].value);
    }
  }

  lemma {:induction false} ReadsItemsWithin(
      g: Graph, h: Graph, rep: Option<UuidRepresentation>, ids: seq<Id>, items: seq<Value>)
    requires Within(g, h) && ReadsItems(g, rep, ids, items)
    ensures ReadsItems(h, rep, ids, items)
    decreases items, 0
  {
    if items != [] {
      var n := |items| - 1;
      ReadsItemsWithin(g, h, rep, ids[..n], items[..n]);
      ReadsWithin(g, h, rep, ids[n], items[n]);
    }
  }

  /** Assignment to a dictionary key: an existing key keeps its place, a new one goes last. */
  function SetItem(fields: seq<Field>, name: Text, item: Id): seq<Field> {
    if fields == [] then [Field(TextKey(name), item)]
    else if fields[0].key == TextKey(name) then [Field(TextKey(name), item)] + fields[1..]
    else [fields[0]] + SetItem(fields[1..], name, item)
  }

  lemma {:induction false} SetNewItem(fields: seq<Field>, name: Text, item: Id)
    requires forall i | 0 <= i < |fields| :: fields[i].key != TextKey(name)
    ensures SetItem(fields, name, item) == fields + [Field(TextKey(name), item)]
  {
    if fields != [] {
      SetNewItem(fields[1..], name, item);
      assert [fields[0]] + (fields[1..] + [Field(TextKey(name), item)]) == fields + [Field(TextKey(name), item)];
    }
  }

  /** Fields that read as some entries have the entries' names as keys. */
  lemma {:induction false} NewKey(
      g: Graph, rep: Option<UuidRepresentation>, fields: seq<Field>, entries: seq<Entry>, name: Text)
    requires ReadsFields(g, rep, fields, entries) && name !in NamesOf(entries)
    ensures forall i | 0 <= i < |fields| :: fields[i].key != TextKey(name)
  {
    if entries != [] {
      var n := |entries| - 1;
      NewKey(g, rep, fields[..n], entries[..n], name);
      forall i | 0 <= i < |fields| ensures fields[i].key != TextKey(name) {
        assert i < n ==> fields[..n][i] == fields[i];
      }
    }
  }

  /** Objects created while a container that is still being filled sits in the graph. */
  lemma Refill(before: Graph, parts: Graph, more: Graph, container: Id, was: Object, now: Object)
    requires container !in more
    ensures (before + parts[container := was] + more)[container := now] == before + (parts + more)[container := now]
  {
  }

  lemma MergeOne(before: Graph, inner: Graph, id: Id, o: Object)
    ensures (before + inner)[id := o] == before + inner[id := o]
  {
  }

  lemma MergeTwo(before: Graph, a: Id, p: Object, b: Id, q: Object)
    ensures before[a := p][b := q] == before + map[a := p][b := q]
  {
  }

  predicate Between(g: Graph, low: int, high: int) {
    forall id | id in g :: low <= id < high
  }

  /** Every object is its own view: what a client reads and shows again looks the same. */
  ghost predicate AllShown(g: Graph, rep: Option<UuidRepresentation>) {
    forall id | id in g :: Shown(g[id], rep) == g[id]
  }

  lemma ShownUnion(g: Graph, h: Graph, rep: Option<UuidRepresentation>)
    requires AllShown(g, rep) && AllShown(h, rep)
    ensures AllShown(g + h, rep)
  {
  }

  /** Objects created one after the other have different identities. */
  lemma Apart(id: Id, parts: Graph, more: Graph, middle: Id, high: Id)
    requires id < middle <= high && Between(parts, id + 1, middle) && Between(more, middle, high)
    ensures id !in more && parts.Keys !! more.Keys && Between(parts + more, id + 1, high)
  {
  }

  lemma ClosedUnion(g: Graph, h: Graph)
    requires Closed(g) && Closed(h) && g.Keys !! h.Keys
    ensures Closed(g + h) && Within(g, g + h) && Within(h, g + h)
  {
    forall id, child | id in g + h && ChildOf((g + h)[id], child) ensures child in g + h {
      if id in h {
        assert ChildOf(h[id], child);
      } else {
        assert ChildOf(g[id], child);
      }
    }
  }

  /** One more entry: its value's objects, and its key last in the dictionary. */
  lemma FieldAdded(parts: Graph, more: Graph, rep: Option<UuidRepresentation>, fields: seq<Field>,
                   entries: seq<Entry>, i: nat, child: Id)
    requires i < |entries| && Closed(parts) && Closed(more) && parts.Keys !! more.Keys
    requires ReadsFields(parts, rep, fields, RenderedEntries(entries[..i], rep))
    requires entries[i].name !in NamesOf(entries[..i]) && Reads(more, rep, child, Rendered(entries[i].value, rep))
    ensures Closed(parts + more)
    ensures var filled := SetItem(fields, entries[i].name, child);
            ReadsFields(parts + more, rep, filled, RenderedEntries(entries[..i + 1], rep))
  {
    var all, done := parts + more, RenderedEntries(entries[..i], rep);
    var name, value := entries[i].name, Rendered(entries[i].value, rep);
    ClosedUnion(parts, more);
    SameEntries(entries[..i], rep);
    NewKey(parts, rep, fields, done, name);
    SetNewItem(fields, name, child);
    ReadsFieldsWithin(parts, all, rep, fields, done);
    ReadsWithin(more, all, rep, child, value);
    AppendField(all, rep, fields, done, name, child, value);
    RenderedNext(entries, i, rep);
  }

  lemma AppendField(g: Graph, rep: Option<UuidRepresentation>, fields: seq<Field>, entries: seq<Entry>,
                    name: Text, child: Id, value: Value)
    requires ReadsFields(g, rep, fields, entries) && Reads(g, rep, child, value)
    ensures ReadsFields(g, rep, fields + [Field(TextKey(name), child)], entries + [Entry(name, value)])
  {
    var filled := fields + [Field(TextKey(name), child)];
    assert filled[..|entries|] == fields && filled[..|entries| + 1] == filled;
    ReadsFieldsAppend(g, rep, filled, entries, Entry(name, value));
  }

  lemma RenderedNext(entries: seq<Entry>, i: nat, rep: Option<UuidRepresentation>)
    requires i < |entries|
    ensures RenderedEntries(entries[..i + 1], rep)
            == RenderedEntries(entries[..i], rep) + [Entry(entries[i].name, Rendered(entries[i].value, rep))]
  {
    assert entries[..i + 1][..i] == entries[..i];
  }

  lemma RenderedItemsNext(items: seq<Value>, i: nat, rep: Option<UuidRepresentation>)
    requires i < |items|
    ensures RenderedItems(items[..i + 1], rep) == RenderedItems(items[..i], rep) + [Rendered(items[i], rep)]
  {
    assert items[..i + 1][..i] == items[..i];
  }

  lemma AppendItem(g: Graph, rep: Option<UuidRepresentation>, ids: seq<Id>, items: seq<Value>, child: Id, value: Value)
    requires ReadsItems(g, rep, ids, items) && Reads(g, rep, child, value)
    ensures ReadsItems(g, rep, ids + [child], items + [value])
  {
    var filled := ids + [child];
    assert filled[..|items|] == ids && filled[..|items| + 1] == filled;
    ReadsItemsAppend(g, rep, filled, items, value);
  }

  lemma ItemAdded(parts: Graph, more: Graph, rep: Option<UuidRepresentation>, ids: seq<Id>,
                  items: seq<Value>, i: nat, child: Id)
    requires i < |items| && Closed(parts) && Closed(more) && parts.Keys !! more.Keys
    requires ReadsItems(parts, rep, ids, RenderedItems(items[..i], rep))
    requires Reads(more, rep, child, Rendered(items[i], rep))
    ensures Closed(parts + more)
    ensures ReadsItems(parts + more, rep, ids + [child], RenderedItems(items[..i + 1], rep))
  {
    var all, done := parts + more, RenderedItems(items[..i], rep);
    ClosedUnion(parts, more);
    ReadsItemsWithin(parts, all, rep, ids, done);
    ReadsWithin(more, all, rep, child, Rendered(items[i], rep));
    AppendItem(all, rep, ids, done, child, Rendered(items[i], rep));
    RenderedItemsNext(items, i, rep);
  }

  /** A filled dictionary reads as the document of its entries. */
  lemma Filled(parts: Graph, rep: Option<UuidRepresentation>, id: Id, fields: seq<Field>, entries: seq<Entry>)
    requires id !in parts && Closed(parts) && ReadsFields(parts, rep, fields, entries)
    ensures Closed(parts[id := MappingObject(fields)])
    ensures Reads(parts[id := MappingObject(fields)], rep, id, Document(Doc(entries)))
  {
    var all := parts[id := MappingObject(fields)];
    ReadsFieldsWithin(parts, all, rep, fields, entries);
    forall k, child | k in all && ChildOf(all[k], child) ensures child in all {
      if k == id {
        var i :| 0 <= i < |fields| && fields[i].item == child;
        ReadsField(parts, rep, fields, entries, i);
      } else {
        assert ChildOf(parts[k], child);
      }
    }
  }

  lemma FilledList(parts: Graph, rep: Option<UuidRepresentation>, id: Id, ids: seq<Id>, items: seq<Value>)
    requires id !in parts && Closed(parts) && ReadsItems(parts, rep, ids, items)
    ensures Closed(parts[id := SequenceObject(ids)])
    ensures Reads(parts[id := SequenceObject(ids)], rep, id, Array(items))
  {
    var all := parts[id := SequenceObject(ids)];
    ReadsItemsWithin(parts, all, rep, ids, items);
    forall k, child | k in all && ChildOf(all[k], child) ensures child in all {
      if k == id {
        var i :| 0 <= i < |ids| && ids[i] == child;
        ReadsItem(parts, rep, ids, items, i);
      } else {
        assert ChildOf(parts[k], child);
      }
    }
  }

  lemma Scoped(inner: Graph, rep: Option<UuidRepresentation>, id: Id, code: Text, child: Id, scope: Doc)
    requires id !in inner && Closed(inner) && child in inner && inner[child].MappingObject?
    requires Reads(inner, rep, child, Document(scope))
    ensures Closed(inner[id := CodeObject(code, child)])
    ensures Reads(inner[id := CodeObject(code, child)], rep, id, JavaScript(code, Some(scope)))
  {
    var all := inner[id := CodeObject(code, child)];
    ReadsFieldsWithin(inner, all, rep, inner[child].fields, scope.entries);
    forall k, c | k in all && ChildOf(all[k], c) ensures c in all {
      if k != id {
        assert ChildOf(inner[k], c);
      }
    }
  }

  lemma Unscoped(rep: Option<UuidRepresentation>, id: Id, code: Text, child: Id)
    requires id != child
    ensures Closed(map[child := NoneObject][id := CodeObject(code, child)])
    ensures Reads(map[child := NoneObject][id := CodeObject(code, child)], rep, id, JavaScript(code, None))
  {
  }

  lemma {:induction false} BuiltEntry(entries: seq<Entry>, i: nat)
    requires BuiltEntries(entries) && i < |entries|
    ensures Built(entries[i].value)
  {
    if i < |entries| - 1 {
      BuiltEntry(entries[..|entries| - 1], i);
    }
  }

  lemma {:induction false} BuiltItem(items: seq<Value>, i: nat)
    requires BuiltItems(items) && i < |items|
    ensures Built(items[i])
  {
    if i < |items| - 1 {
      BuiltItem(items[..|items| - 1], i);
    }
  }

  // ---------------------------------------------------------------- the converter

  class OutputConverter {
    const rep: Option<UuidRepresentation>
    var graph: Graph
    var next: Id

    ghost predicate Valid()
      reads this
    {
      forall id | id in graph :: id < next
    }

    constructor (rep: Option<UuidRepresentation>)
      ensures Valid() && graph == map[] && this.rep == rep
    {
      this.rep := rep;
      graph, next := map[], 0;
    }

    /** What was there is still there; the new objects are `part`, under new identities. */
    ghost predicate Added(before: Graph, from: Id, part: Graph)
      reads this
    {
      && Valid() && from <= next && graph == before + part && Closed(part)
      && Between(part, from, next) && AllShown(part, rep)
    }

    /** A container under construction: its identity, its contents so far and the objects in them. */
    ghost predicate Filling(before: Graph, id: Id, container: Object, parts: Graph)
      reads this
    {
      && Valid() && id < next && graph == before + parts[id := container]
      && Closed(parts) && Between(parts, id + 1, next) && AllShown(parts, rep)
    }

    method Create(o: Object) returns (id: Id)
      requires Valid()
      modifies this
      ensures Valid() && id == old(next) && next == id + 1 && graph == old(graph)[id := o]
    {
      id := next;
      graph, next := graph[id := o], next + 1;
    }

    /** `value_unchecked`: new objects that read as the value. */
    method ConvertValue(v: Value) returns (id: Id, ghost part: Graph)
      requires Valid() && Built(v) && WellNamed(v)
      modifies this
      ensures Added(old(graph), old(next), part) && Reads(part, rep, id, Rendered(v, rep))
      decreases v, 0
    {
      if v.Document? {
        id, part := ConvertDocument(v.doc);
      } else if v.Array? {
        id, part := ConvertArray(v.items);
      } else if v.JavaScript? {
        id, part := ConvertCode(v.code, v.scope);
      } else {
        LeafRoundTrip(v, rep);
        ShownLeaf(v, rep);
        id := Create(LeafToPython(v, rep));
        part := map[id := LeafToPython(v, rep)];
      }
    }

    method ConvertCode(code: Text, scope: Option<Doc>) returns (id: Id, ghost part: Graph)
      requires Valid() && Built(JavaScript(code, scope)) && WellNamed(JavaScript(code, scope))
      modifies this
      ensures Added(old(graph), old(next), part) && Reads(part, rep, id, Rendered(JavaScript(code, scope), rep))
      decreases scope, 2
    {
      if scope.Some? {
        var child, inner := ConvertDocument(scope.value);
        id := Create(CodeObject(code, child));
        part := inner[id := CodeObject(code, child)];
        Scoped(inner, rep, id, code, child, Doc(RenderedEntries(scope.value.entries, rep)));
        MergeOne(old(graph), inner, id, CodeObject(code, child));
      } else {
        var child := Create(NoneObject);
        id := Create(CodeObject(code, child));
        part := map[child := NoneObject][id := CodeObject(code, child)];
        Unscoped(rep, id, code, child);
        MergeTwo(old(graph), child, NoneObject, id, CodeObject(code, child));
      }
    }

    /** `document_unchecked`: a dictionary is created empty and filled entry by entry. */
    method ConvertDocument(doc: Doc) returns (id: Id, ghost part: Graph)
      requires Valid() && BuiltEntries(doc.entries) && EntriesNamed(doc.entries)
      modifies this
      ensures Added(old(graph), old(next), part) && id in part && part[id].MappingObject?
      ensures Reads(part, rep, id, Document(Doc(RenderedEntries(doc.entries, rep))))
      decreases doc, 1
    {
      var entries, fields: seq<Field> := doc.entries, [];
      id := Create(MappingObject(fields));
      ghost var parts: Graph := map[];
      for i := 0 to |entries|
        invariant id == old(next) && Filling(old(graph), id, MappingObject(fields), parts)
        invariant ReadsFields(parts, rep, fields, RenderedEntries(entries[..i], rep))
      {
        EntryNamed(entries, i);
        BuiltEntry(entries, i);
        fields, parts := AddEntry(id, fields, entries, i, old(graph), parts);
      }
      assert entries[..|entries|] == entries;
      part := parts[id := MappingObject(fields)];
      Filled(parts, rep, id, fields, RenderedEntries(entries, rep));
    }

    /** One turn of the entry loop: the value's objects, then `set_item` on the dictionary. */
    method AddEntry(id: Id, fields: seq<Field>, entries: seq<Entry>, i: nat, ghost before: Graph, ghost parts: Graph)
      returns (filled: seq<Field>, ghost grown: Graph)
      requires i < |entries| && Filling(before, id, MappingObject(fields), parts)
      requires ReadsFields(parts, rep, fields, RenderedEntries(entries[..i], rep))
      requires entries[i].name !in NamesOf(entries[..i]) && Built(entries[i].value) && WellNamed(entries[i].value)
      modifies this
      ensures Filling(before, id, MappingObject(filled), grown)
      ensures ReadsFields(grown, rep, filled, RenderedEntries(entries[..i + 1], rep))
      decreases entries, 0
    {
      var middle := next;
      var child, more := ConvertValue(entries[i].value);
      Apart(id, parts, more, middle, next);
      filled := SetItem(fields, entries[i].name, child);
      FieldAdded(parts, more, rep, fields, entries, i, child);
      grown := Refilled(id, MappingObject(fields), MappingObject(filled), before, parts, more);
    }

    /** The container's contents are replaced after new objects have been created. */
    method Refilled(id: Id, was: Object, now: Object, ghost before: Graph, ghost parts: Graph, ghost more: Graph)
      returns (ghost grown: Graph)
      requires Valid() && id < next && graph == before + parts[id := was] + more && id !in more
      requires Closed(parts + more) && Between(parts + more, id + 1, next)
      requires AllShown(parts, rep) && AllShown(more, rep)
      modifies this`graph
      ensures grown == parts + more && Filling(before, id, now, grown)
    {
      Refill(before, parts, more, id, was, now);
      ShownUnion(parts, more, rep);
      graph := graph[id := now];
      grown := parts + more;
    }

    /** The list is created empty and appended to. */
    method ConvertArray(items: seq<Value>) returns (id: Id, ghost part: Graph)
      requires Valid() && BuiltItems(items) && ItemsNamed(items)
      modifies this
      ensures Added(old(graph), old(next), part) && Reads(part, rep, id, Array(RenderedItems(items, rep)))
      decreases items, 1
    {
      var ids: seq<Id> := [];
      id := Create(SequenceObject(ids));
      ghost var parts: Graph := map[];
      for i := 0 to |items|
        invariant id == old(next) && Filling(old(graph), id, SequenceObject(ids), parts)
        invariant ReadsItems(parts, rep, ids, RenderedItems(items[..i], rep))
      {
        ItemNamed(items, i);
        BuiltItem(items, i);
        ids, parts := AddItem(id, ids, items, i, old(graph), parts);
      }
      assert items[..|items|] == items;
      part := parts[id := SequenceObject(ids)];
      FilledList(parts, rep, id, ids, RenderedItems(items, rep));
    }

    /** One turn of the item loop: the item's objects, then `append` on the list. */
    method AddItem(id: Id, ids: seq<Id>, items: seq<Value>, i: nat, ghost before: Graph, ghost parts: Graph)
      returns (filled: seq<Id>, ghost grown: Graph)
      requires i < |items| && Filling(before, id, SequenceObject(ids), parts)
      requires ReadsItems(parts, rep, ids, RenderedItems(items[..i], rep))
      requires Built(items[i]) && WellNamed(items[i])
      modifies this
      ensures Filling(before, id, SequenceObject(filled), grown)
      ensures ReadsItems(grown, rep, filled, RenderedItems(items[..i + 1], rep))
      decreases items, 0
    {
      var middle := next;
      var child, more := ConvertValue(items[i]);
      Apart(id, parts, more, middle, next);
      filled := ids + [child];
      ItemAdded(parts, more, rep, ids, items, i, child);
      grown := Refilled(id, SequenceObject(ids), SequenceObject(filled), before, parts, more);
    }
  }

  /** `OutputConverter::document`: the codec's limits first, then the objects. */
  method DocumentToPython(doc: Doc, rep: Option<UuidRepresentation>) returns (r: Result<(Graph, Id), CodecError>)
    requires BuiltEntries(doc.entries)
    ensures r.Ok? <==> DocWithin(doc, DEFAULT_LIMITS, 0)
    ensures r.Ok? ==> Closed(r.value.0) && r.value.1 in r.value.0 && AllShown(r.value.0, rep)
    ensures r.Ok? ==> Reads(r.value.0, rep, r.value.1, Document(Doc(RenderedEntries(doc.entries, rep))))
  {
    BuiltEntriesCStrings(doc.entries);
    var bytes := EncodeDocument(doc, DEFAULT_LIMITS);
    if bytes.Err? {
      return Err(bytes.error);
    }
    var converter := new OutputConverter(rep);
    var id, part := converter.ConvertDocument(doc);
    assert map[] + part == part;
    return Ok((converter.graph, id));
  }

  /** The whole document, seen as a Python object, has the original's bytes, depth and names. */
  lemma RenderedDocument(doc: Doc, rep: Option<UuidRepresentation>)
    ensures var out := Doc(RenderedEntries(doc.entries, rep));
            && EncodeDoc(out) == EncodeDoc(doc) && DocHeight(out) == DocHeight(doc)
            && (EntriesNamed(out.entries) <==> EntriesNamed(doc.entries))
  {
    SameEntries(doc.entries, rep);
    SameFrame(RenderedEntries(doc.entries, rep), doc.entries);
  }

  /**
   Out to Python and back in. A document within the codec's limits comes back exactly if its objects
   fit the input converter's heap budget, and then with the same bytes: it is the document itself as
   the client's UUID representation shows it.
   */
  method RoundTrip(doc: Doc, rep: Option<UuidRepresentation>, layout: Layout)
    returns (r: Result<Option<Doc>, CodecError>)
    requires BuiltEntries(doc.entries)
    ensures r.Ok? <==> DocWithin(doc, DEFAULT_LIMITS, 0)
    ensures r.Ok? ==> (r.value.Some? <==> EntriesHeap(layout, RenderedEntries(doc.entries, rep)) <= MAX_DECODED_BYTES)
    ensures r.Ok? && r.value.Some? ==> r.value.value == Doc(RenderedEntries(doc.entries, rep))
    ensures r.Ok? && r.value.Some? ==> EncodeDoc(r.value.value) == EncodeDoc(doc)
  {
    var shown :- DocumentToPython(doc, rep);
    ghost var out := Doc(RenderedEntries(doc.entries, rep));
    RenderedDocument(doc, rep);
    EncodedDocLength(doc);
    var read, _, _ := ExtractDocument(shown.0, rep, layout, shown.1);
    if read.Err? {
      assert !Acceptable(shown.0, rep, layout, shown.1, out);
      return Ok(None);
    }
    ReadsUnique(shown.0, rep, shown.1, Document(out), Document(read.value));
    return Ok(Some(read.value));
  }

  // ---------------------------------------------------------------- a document that does not come back

  function Nulls(n: nat): (items: seq<Value>)
    ensures |items| == n && forall i | 0 <= i < n :: items[i] == Null
  {
    seq(n, _ => Null)
  }

  lemma {:induction false} DecimalDigitsBound(n: nat, digits: nat, bound: nat)
    requires digits > 0 && bound == Tens(digits) && n < bound
    ensures |DecimalText(n)| <= digits
    decreases digits
  {
    if n >= 10 {
      DecimalDigitsBound(n / 10, digits - 1, bound / 10);
    }
  }

  function Tens(k: nat): nat {
    if k == 0 then 1 else 10 * Tens(k - 1)
  }

  /** An array of nulls costs at most nine bytes an item on the wire and nothing but its slots in memory. */
  lemma {:induction false} NullsMeasured(layout: Layout, rep: Option<UuidRepresentation>, n: nat)
    requires n <= 10_000_000
    ensures ItemsLen(Nulls(n)) <= 9 * n && ItemsHeap(layout, Nulls(n)) == 0 && ItemsHeight(Nulls(n)) == 0
    ensures ItemsNamed(Nulls(n)) && BuiltItems(Nulls(n)) && RenderedItems(Nulls(n), rep) == Nulls(n)
  {
    if n > 0 {
      NullsMeasured(layout, rep, n - 1);
      assert Nulls(n)[..n - 1] == Nulls(n - 1);
      assert Nulls(n) == Nulls(n - 1) + [Null];
      assert Tens(7) == 10_000_000;
      DecimalDigitsBound(n - 1, 7, 10_000_000);
    }
  }

  /**
   Documents the codec encodes and Python shows, but the input converter refuses: one array of a
   million nulls. Thirty-two bytes a value are enough for that, whatever an entry takes.
   */
  lemma RoundTripCanFail(layout: Layout, rep: Option<UuidRepresentation>, n: nat)
    requires layout.valueBytes >= 32 && 1_048_577 <= n <= 1_800_000
    ensures var doc := Doc([Entry([0x61], Array(Nulls(n)))]);
            && BuiltEntries(doc.entries) && DocWithin(doc, DEFAULT_LIMITS, 0)
            && EntriesHeap(layout, RenderedEntries(doc.entries, rep)) > MAX_DECODED_BYTES
  {
    NullArray(layout, rep, n);
    Utf8Ascii([0x61]);
    Wrapped(layout, rep, [Entry([0x61], Array(Nulls(n)))]);
  }

  lemma NullArray(layout: Layout, rep: Option<UuidRepresentation>, n: nat)
    requires layout.valueBytes >= 32 && n <= 10_000_000
    ensures var v := Array(Nulls(n));
            && ValueLen(v) <= 5 + 9 * n && Height(v) == 1 && WellNamed(v) && Built(v)
            && Rendered(v, rep) == v && HeapOf(layout, v) >= 64 * n
  {
    NullsMeasured(layout, rep, n);
    Scaled(layout.valueBytes, n);
  }

  lemma Scaled(width: nat, n: nat)
    requires width >= 32
    ensures width * n >= 32 * n
  {
  }

  /** A document of one entry, with the size, depth and heap charge of its value. */
  lemma Wrapped(layout: Layout, rep: Option<UuidRepresentation>, entries: seq<Entry>)
    requires |entries| == 1 && NulFree(entries[0].name)
    requires WellNamed(entries[0].value) && Built(entries[0].value)
    requires Rendered(entries[0].value, rep) == entries[0].value
    requires |Utf8(entries[0].name)| + ValueLen(entries[0].value) + 7 <= MAX_DOCUMENT_BYTES
    requires Height(entries[0].value) < MAX_NESTING_DEPTH
    ensures BuiltEntries(entries) && DocWithin(Doc(entries), DEFAULT_LIMITS, 0)
    ensures EntriesHeap(layout, RenderedEntries(entries, rep)) >= HeapOf(layout, entries[0].value)
  {
    SingleEntry(layout, rep, entries);
    SingleEntry(layout, rep, RenderedEntries(entries, rep));
  }

  lemma SingleEntry(layout: Layout, rep: Option<UuidRepresentation>, entries: seq<Entry>)
    requires |entries| == 1
    ensures var name, value := entries[0].name, entries[0].value;
            && EntriesLen(entries) == |Utf8(name)| + 2 + ValueLen(value) && EntriesHeight(entries) == Height(value)
            && (EntriesNamed(entries) <==> NulFree(name) && WellNamed(value))
            && (BuiltEntries(entries) <==> Built(value))
            && RenderedEntries(entries, rep) == [Entry(name, Rendered(value, rep))]
            && EntriesHeap(layout, entries) == EntryHeap(layout, name) + HeapOf(layout, value)
  {
    assert entries[..0] == [];
  }
}
