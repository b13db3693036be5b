/**
 From Python to BSON and back to Python: the objects a client gets for a document it has handed in are
 those it handed in, one by one, up to the view of leaves.
 */
module PythonRoundTrip {
  import opened Machine
  import opened Bson
  import opened BsonBytes
  import opened PythonTime
  import opened PythonObjects
  import opened Charges
  import opened BsonCodec
  import opened DocumentInput
  import opened DocumentOutput
  import opened OutputConverter

  // ---------------------------------------------------------------- numbers

  /**
   An integer is taken exactly if 64 bits hold it, in four bytes exactly if 32 bits hold a plain one, and
   the bytes written for it read as that integer.
   */
  lemma IntegersKept(o: Object, rep: Option<UuidRepresentation>)
    requires o.IntObject? || o.Int64Object? || o.DatetimeMsObject?
    ensures LeafValue(o, rep).Some? <==> FitsI64(o.number)
    ensures LeafValue(o, rep).Some? ==>
              var bytes := EncodeValue(LeafValue(o, rep).value);
              && SignedWord(bytes) == o.number
              && |bytes| == (if o.IntObject? && FitsI32(o.number) then 4 else 8)
  {
    if LeafValue(o, rep).Some? {
      IntegerBytes(LeafValue(o, rep).value);
    }
  }

  /** Floats, booleans and timestamps keep their bits; a datetime keeps its UTC millisecond. */
  lemma WordsKept(o: Object, rep: Option<UuidRepresentation>)
    requires o.FloatObject? || o.BoolObject? || o.TimestampObject? || o.DatetimeObject?
    ensures LeafValue(o, rep).Some? <==> (o.DatetimeObject? ==> FitsI64(UtcMicros(o.dt) / 1000))
    ensures LeafValue(o, rep).Some? ==>
              var bytes := EncodeValue(LeafValue(o, rep).value);
              && (o.FloatObject? ==> FromLittleEndian(bytes) == o.bits)
              && (o.BoolObject? ==> FromLittleEndian(bytes) == if o.truth then 1 else 0)
              && (o.TimestampObject? ==> FromLittleEndian(bytes) == o.time * 0x1_0000_0000 + o.increment)
              && (o.DatetimeObject? ==> SignedWord(bytes) == UtcMicros(o.dt) / 1000)
  {
    if o.DatetimeObject? {
      DatetimeMillisExact(o.dt);
    }
    if LeafValue(o, rep).Some? {
      IntegerBytes(LeafValue(o, rep).value);
      WordBytes(LeafValue(o, rep).value);
    }
  }

  // ---------------------------------------------------------------- what is read can be shown

  lemma {:induction false} ReadsBuilt(g: Graph, rep: Option<UuidRepresentation>, id: Id, v: Value)
    requires Reads(g, rep, id, v)
    ensures Built(v)
    decreases v, 0
  {
    var o := g[id];
    if o.MappingObject? {
      ReadsEntriesBuilt(g, rep, o.fields, v.doc.entries);
    } else if o.SequenceObject? {
      ReadsItemsBuilt(g, rep, o.items, v.items);
    } else if o.CodeObject? {
      if v.scope.Some? {
        ReadsEntriesBuilt(g, rep, g[o.scope].fields, v.scope.value.entries);
      }
    } else {
      LeafShown(o, rep);
    }
  }

  lemma {:induction false} ReadsEntriesBuilt(
      g: Graph, rep: Option<UuidRepresentation>, fields: seq<Field>, entries: seq<Entry>)
    requires ReadsFields(g, rep, fields, entries)
    ensures BuiltEntries(entries)
    decreases entries, 0
  {
    if entries != [] {
      var n := |entries| - 1;
      ReadsEntriesBuilt(g, rep, fields[..n], entries[..n]);
      ReadsBuilt(g, rep, fields[n].item, entries[n].value);
    }
  }

  lemma {:induction false} ReadsItemsBuilt(
      g: Graph, rep: Option<UuidRepresentation>, ids: seq<Id>, items: seq<Value>)
    requires ReadsItems(g, rep, ids, items)
    ensures BuiltItems(items)
    decreases items, 0
  {
    if items != [] {
      var n := |items| - 1;
      ReadsItemsBuilt(g, rep, ids[..n], items[..n]);
      ReadsBuilt(g, rep, ids[n], items[n]);
    }
  }

  // ---------------------------------------------------------------- the same objects

  /**
   Object `b` of `h` shows object `a` of `g`, whose unfolding has the shape of `v`: containers of the same
   kind with the same keys in the same order and mirrored contents, and leaves that are the view.
   */
  ghost predicate Mirrors(g: Graph, a: Id, h: Graph, b: Id, rep: Option<UuidRepresentation>, v: Value)
    decreases v, 0
  {
    a in g && b in h &&
    match g[a]
    case MappingObject(fields) =>
      v.Document? && h[b].MappingObject? && MirrorsFields(g, fields, h, h[b].fields, rep, v.doc.entries)
    case SequenceObject(items) =>
      v.Array? && h[b].SequenceObject? && MirrorsItems(g, items, h, h[b].items, rep, v.items)
    case CodeObject(code, scope) =>
      && v.JavaScript? && h[b].CodeObject? && h[b].code == code && scope in g && h[b].scope in h
      && if g[scope].NoneObject? then h[h[b].scope].NoneObject?
         else && v.scope.Some? && g[scope].MappingObject? && h[h[b].scope].MappingObject?
              && MirrorsFields(g, g[scope].fields, h, h[h[b].scope].fields, rep, v.scope.value.entries)
    case o => h[b] == Shown(o, rep)
  }

  ghost predicate MirrorsFields(g: Graph, fields: seq<Field>, h: Graph, shown: seq<Field>,
                                rep: Option<UuidRepresentation>, entries: seq<Entry>)
    decreases entries, 0
  {
    |fields| == |shown| == |entries| &&
    (entries != [] ==>
       var n := |entries| - 1;
       && MirrorsFields(g, fields[..n], h, shown[..n], rep, entries[..n])
       && fields[n].key == shown[n].key
       && Mirrors(g, fields[n].item, h, shown[n].item, rep, entries[n].value))
  }

  ghost predicate MirrorsItems(g: Graph, ids: seq<Id>, h: Graph, shown: seq<Id>,
                               rep: Option<UuidRepresentation>, items: seq<Value>)
    decreases items, 0
  {
    |ids| == |shown| == |items| &&
    (items != [] ==>
       var n := |items| - 1;
       && MirrorsItems(g, ids[..n], h, shown[..n], rep, items[..n])
       && Mirrors(g, ids[n], h, shown[n], rep, items[n]))
  }

  lemma LeafMirrored(g: Graph, a: Id, h: Graph, b: Id, rep: Option<UuidRepresentation>, v: Value)
    requires AllShown(h, rep) && Reads(g, rep, a, v) && Reads(h, rep, b, Rendered(v, rep)) && IsLeaf(v)
    ensures h[b] == Shown(g[a], rep)
  {
    RenderedLeaf(v, rep);
    ReadsLeaf(g, a, rep, v);
    ReadsLeaf(h, b, rep, Rendered(v, rep));
  }

  lemma ReadsLeaf(g: Graph, id: Id, rep: Option<UuidRepresentation>, v: Value)
    requires Reads(g, rep, id, v) && IsLeaf(v)
    ensures LeafToPython(v, rep) == Shown(g[id], rep) && !IsContainer(g[id]) && !g[id].CodeObject?
  {
    LeafShown(g[id], rep);
  }

  /** Objects that show what an object reads as mirror that object. */
  lemma {:induction false} ShownMirrors(g: Graph, a: Id, h: Graph, b: Id, rep: Option<UuidRepresentation>, v: Value)
    requires AllShown(h, rep) && Reads(g, rep, a, v) && Reads(h, rep, b, Rendered(v, rep))
    ensures Mirrors(g, a, h, b, rep, v)
    decreases v, 0
  {
    if v.Document? {
      FieldsMirror(g, g[a].fields, h, h[b].fields, rep, v.doc.entries);
    } else if v.Array? {
      ItemsMirror(g, g[a].items, h, h[b].items, rep, v.items);
    } else if v.JavaScript? {
      if v.scope.Some? {
        FieldsMirror(g, g[g[a].scope].fields, h, h[h[b].scope].fields, rep, v.scope.value.entries);
      }
    } else {
      LeafMirrored(g, a, h, b, rep, v);
    }
  }

  lemma {:induction false} FieldsMirror(g: Graph, fields: seq<Field>, h: Graph, shown: seq<Field>,
                                        rep: Option<UuidRepresentation>, entries: seq<Entry>)
    requires AllShown(h, rep) && ReadsFields(g, rep, fields, entries)
    requires ReadsFields(h, rep, shown, RenderedEntries(entries, rep))
    ensures MirrorsFields(g, fields, h, shown, rep, entries)
    decreases entries, 0
  {
    if entries != [] {
      var n := |entries| - 1;
      assert RenderedEntries(entries, rep)[..n] == RenderedEntries(entries[..n], rep);
      FieldsMirror(g, fields[..n], h, shown[..n], rep, entries[..n]);
      ShownMirrors(g, fields[n].item, h, shown[n].item, rep, entries[n].value);
    }
  }

  lemma {:induction false} ItemsMirror(g: Graph, ids: seq<Id>, h: Graph, shown: seq<Id>,
                                       rep: Option<UuidRepresentation>, items: seq<Value>)
    requires AllShown(h, rep) && ReadsItems(g, rep, ids, items)
    requires ReadsItems(h, rep, shown, RenderedItems(items, rep))
    ensures MirrorsItems(g, ids, h, shown, rep, items)
    decreases items, 0
  {
    if items != [] {
      var n := |items| - 1;
      assert RenderedItems(items, rep)[..n] == RenderedItems(items[..n], rep);
      ItemsMirror(g, ids[..n], h, shown[..n], rep, items[..n]);
      ShownMirrors(g, ids[n], h, shown[n], rep, items[n]);
    }
  }

  /**
   In and back out. Every object that can be taken in at all can be shown again, and the new objects
   mirror the old ones.
   */
  method Echo(g: Graph, rep: Option<UuidRepresentation>, layout: Layout, root: Id)
    returns (r: Option<(Graph, Id)>, ghost doc: Doc)
    requires Closed(g) && root in g
    ensures r.Some? <==> exists d :: Acceptable(g, rep, layout, root, d)
    ensures r.Some? ==> Acceptable(g, rep, layout, root, doc)
    ensures r.Some? ==> Mirrors(g, root, r.value.0, r.value.1, rep, Document(doc))
  {
    var read, _, _ := ExtractDocument(g, rep, layout, root);
    if read.Err? {
      return None, Doc([]);
    }
    doc := read.value;
    ReadsBuilt(g, rep, root, Document(doc));
    EncodedDocLength(doc);
    var shown := DocumentToPython(read.value, rep);
    ShownMirrors(g, root, shown.value.0, shown.value.1, rep, Document(doc));
    return Some(shown.value), doc;
  }
}
