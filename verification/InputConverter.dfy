/**
 The Python-to-BSON input converter: a recursive walk over an object graph that may share and
 may be cyclic, with a wire budget, a heap budget, a depth limit and the set of active ancestors.
 */
module InputConverter {
  import opened Machine
  import opened Bson
  import opened PythonTime
  import opened PythonObjects
  import opened Charges

  /** Appending one entry extends every measure by that entry's share. */
  lemma AppendEntry(layout: Layout, entries: seq<Entry>, e: Entry)
    ensures EntriesLen(entries + [e]) == EntriesLen(entries) + |Utf8(e.name)| + 2 + ValueLen(e.value)
    ensures EntriesHeap(layout, entries + [e])
            == EntriesHeap(layout, entries) + EntryHeap(layout, e.name) + HeapOf(layout, e.value)
    ensures EntriesHeight(entries + [e]) == Max(EntriesHeight(entries), Height(e.value))
    ensures NamesOf(entries + [e]) == NamesOf(entries) + {e.name}
    ensures EntriesNamed(entries) && e.name !in NamesOf(entries) && NulFree(e.name) && WellNamed(e.value)
            ==> EntriesNamed(entries + [e])
  {
    assert (entries + [e])[..|entries|] == entries;
  }

  lemma AppendItem(layout: Layout, items: seq<Value>, v: Value)
    ensures ItemsLen(items + [v]) == ItemsLen(items) + |DecimalText(|items|)| + 2 + ValueLen(v)
    ensures ItemsHeap(layout, items + [v]) == ItemsHeap(layout, items) + HeapOf(layout, v)
    ensures ItemsHeight(items + [v]) == Max(ItemsHeight(items), Height(v))
    ensures ItemsNamed(items) && WellNamed(v) ==> ItemsNamed(items + [v])
  {
    assert (items + [v])[..|items|] == items;
  }

  /** The option letters of the set flag bits, pushed one by one in canonical order. */
  method CollectOptions(flags: u32) returns (options: Text)
    ensures options == RegexOptions(flags) && |options| <= 6 && Ascii(options)
  {
    options := [];
    var bits: nat, k: nat := flags / 2, 0;
    while k < 6
      invariant k <= 6 && options + OptionsFrom(bits, k) == RegexOptions(flags)
    {
      if bits % 2 == 1 {
        assert options + ([FlagLetter(k)] + OptionsFrom(bits / 2, k + 1))
            == (options + [FlagLetter(k)]) + OptionsFrom(bits / 2, k + 1);
        options := options + [FlagLetter(k)];
      }
      bits, k := bits / 2, k + 1;
    }
  }

  /** What a regular expression reads as, and what it costs. */
  lemma RegexLeaf(pattern: PyText, flags: u32, rep: Option<UuidRepresentation>, layout: Layout)
    ensures LeafValue(RegexObject(Some(pattern), flags), rep).Some?
            <==> ValidText(pattern) && NulFree(pattern) && KnownFlags(flags)
    ensures ValidText(pattern) && NulFree(pattern) && KnownFlags(flags) ==>
              var v := Regex(pattern, RegexOptions(flags));
              && LeafValue(RegexObject(Some(pattern), flags), rep) == Some(v)
              && ValueLen(v) == |Utf8(pattern)| + |RegexOptions(flags)| + 2
              && HeapOf(layout, v) == |Utf8(pattern)| + |RegexOptions(flags)|
  {
    if ValidText(pattern) && NulFree(pattern) && KnownFlags(flags) {
      var options := RegexOptions(flags);
      var v := Regex(pattern, options);
      Utf8Ascii(options);
      assert ValueLen(v) == 2 + |Utf8(pattern)| + |Utf8(options)|;
      assert HeapOf(layout, v) == |Utf8(pattern)| + |Utf8(options)|;
    }
  }

  type WireBudget = n: int | 0 <= n <= MAX_DOCUMENT_BYTES
  type HeapBudget = n: int | 0 <= n <= MAX_DECODED_BYTES

  class InputConverter {
    const graph: Graph
    const rep: Option<UuidRepresentation>
    const layout: Layout
    var wireRemaining: WireBudget
    var heapRemaining: HeapBudget
    var active: set<Id>
    ghost var valueCalls: nat

    constructor (graph: Graph, rep: Option<UuidRepresentation>, layout: Layout)
      ensures this.graph == graph && this.rep == rep && this.layout == layout
      ensures wireRemaining == MAX_DOCUMENT_BYTES && heapRemaining == MAX_DECODED_BYTES
      ensures active == {} && valueCalls == 0
    {
      this.graph, this.rep, this.layout := graph, rep, layout;
      wireRemaining, heapRemaining := MAX_DOCUMENT_BYTES, MAX_DECODED_BYTES;
      active, valueCalls := {}, 0;
    }

    // -------------------------------------------------------------- specification vocabulary

    /** Twice the `convert_value` calls made plus the wire bytes left: calls are paid for in bytes. */
    ghost function Spent(): int
      reads this
    {
      2 * valueCalls + wireRemaining
    }

    /** The active set is exactly the objects on the trail that leads to the call's object. */
    ghost predicate OnTrail(t: Trail, id: Id)
      reads this
    {
      Closed(graph) && Walks(graph, Step(t, id)) && active == On(t)
    }

    /** `id` reads as `v`, which is well named and fits below `depth` containers. */
    ghost predicate Converted(id: Id, v: Value, depth: nat) {
      Reads(graph, rep, id, v) && WellNamed(v) && depth + Height(v) <= MAX_NESTING_DEPTH
    }

    /** A tree that `id` must convert to: it also fits both budgets, and no ancestor is part of it. */
    ghost predicate Target(id: Id, v: Value, depth: nat, wire: nat, heap: nat, actives: set<Id>) {
      && Converted(id, v, depth)
      && ValueLen(v) <= wire && HeapOf(layout, v) <= heap && Above(graph, rep, actives, TreeSize(v))
    }

    /** One field that reads as `e`, with a fresh name and both charges affordable. */
    ghost predicate FieldFits(field: Field, e: Entry, names: set<Text>, depth: nat, wire: int, heap: int,
                              actives: set<Id>)
    {
      var wireLeft, heapLeft := wire - |Utf8(e.name)| - 2, heap - EntryHeap(layout, e.name);
      && Names(field.key, e.name) && NulFree(e.name) && e.name !in names
      && wireLeft >= 0 && heapLeft >= 0
      && Target(field.item, e.value, depth, wireLeft, heapLeft, actives)
    }

    /** A key that is no affordable name, or one already taken, leaves no entry for the field. */
    lemma KeyFailureIsFinal(field: Field, names: set<Text>, depth: nat, wire: int, heap: int, actives: set<Id>)
      requires !(&& field.key.TextKey? && ValidText(field.key.text) && NulFree(field.key.text)
                 && field.key.text !in names && |Utf8(field.key.text)| + 2 <= wire
                 && EntryHeap(layout, field.key.text) <= heap)
      ensures forall e :: !FieldFits(field, e, names, depth, wire, heap, actives)
    {
    }

    lemma ValueFailureIsFinal(field: Field, names: set<Text>, depth: nat, wire: int, heap: int, actives: set<Id>,
                              name: Text, wireLeft: nat, heapLeft: nat)
      requires Names(field.key, name)
      requires wireLeft == wire - |Utf8(name)| - 2 && heapLeft == heap - EntryHeap(layout, name)
      requires forall v :: !Target(field.item, v, depth, wireLeft, heapLeft, actives)
      ensures forall e :: !FieldFits(field, e, names, depth, wire, heap, actives)
    {
    }

    /** One item that reads as `w`, with the charge of its index affordable. */
    ghost predicate ItemFits(item: Id, w: Value, i: nat, depth: nat, wire: int, heap: int, actives: set<Id>) {
      var wireLeft := wire - |DecimalText(i)| - 2;
      wireLeft >= 0 && heap >= 0 && Target(item, w, depth, wireLeft, heap, actives)
    }

    /** A code object with a target has a text that fits. */
    lemma CodeTarget(id: Id, v: Value, depth: nat, wire: nat, heap: nat, actives: set<Id>)
      requires id in graph && graph[id].CodeObject? && Target(id, v, depth, wire, heap, actives)
      ensures ValidText(graph[id].code) && |Utf8(graph[id].code)| + 5 <= wire && |Utf8(graph[id].code)| <= heap
    {
      assert v.code == graph[id].code;
    }

    /** And when it has a scope, the scope has a target of what text and framing leave. */
    lemma ScopeTarget(id: Id, v: Value, depth: nat, wire: nat, heap: nat, actives: set<Id>,
                      wireNow: int, heapNow: int, activesNow: set<Id>)
      requires id in graph && graph[id].CodeObject? && Target(id, v, depth, wire, heap, actives)
      requires graph[id].scope in graph && !graph[graph[id].scope].NoneObject? && activesNow == actives + {id}
      requires wireNow == wire - 9 - |Utf8(graph[id].code)| && heapNow == heap - |Utf8(graph[id].code)|
      ensures wireNow >= 0 && heapNow >= 0 && v.JavaScript? && v.scope.Some?
      ensures Target(graph[id].scope, Document(v.scope.value), depth, wireNow, heapNow, activesNow)
    {
      var w := Document(v.scope.value);
      assert ValueLen(v) == 9 + |Utf8(v.code)| + ValueLen(w);
      assert Height(v) == Height(w) && HeapOf(layout, v) == |Utf8(v.code)| + HeapOf(layout, w);
      ChildAbove(graph, rep, actives, id, v, graph[id].scope, w);
    }

    lemma CodeFailureIsFinal(id: Id, depth: nat, wire: nat, heap: nat, actives: set<Id>)
      requires id in graph && graph[id].CodeObject?
      requires !(ValidText(graph[id].code) && |Utf8(graph[id].code)| + 5 <= wire && |Utf8(graph[id].code)| <= heap)
      ensures forall v :: !Target(id, v, depth, wire, heap, actives)
    {
      forall v | Target(id, v, depth, wire, heap, actives) ensures false {
        CodeTarget(id, v, depth, wire, heap, actives);
      }
    }

    lemma ScopeFailureIsFinal(id: Id, depth: nat, wire: nat, heap: nat, actives: set<Id>,
                              wireNow: int, heapNow: int, activesNow: set<Id>)
      requires id in graph && graph[id].CodeObject? && graph[id].scope in graph && !graph[graph[id].scope].NoneObject?
      requires activesNow == actives + {id}
      requires wireNow == wire - 9 - |Utf8(graph[id].code)| && heapNow == heap - |Utf8(graph[id].code)|
      requires wireNow >= 0 && heapNow >= 0 ==>
                 forall d :: !Target(graph[id].scope, Document(d), depth, wireNow, heapNow, activesNow)
      ensures forall v :: !Target(id, v, depth, wire, heap, actives)
    {
      forall v | Target(id, v, depth, wire, heap, actives) ensures false {
        ScopeTarget(id, v, depth, wire, heap, actives, wireNow, heapNow, activesNow);
      }
    }

    /** A code object converts with its text, and with its scope when it has one. */
    lemma CodeConverted(id: Id, code: Text, scope: Option<Doc>, depth: nat)
      requires id in graph && graph[id].CodeObject? && graph[id].code == code && depth <= MAX_NESTING_DEPTH
      requires graph[id].scope in graph
      requires scope.None? ==> graph[graph[id].scope].NoneObject?
      requires scope.Some? ==>
                 graph[graph[id].scope].MappingObject? && Converted(graph[id].scope, Document(scope.value), depth)
      ensures Converted(id, JavaScript(code, scope), depth)
      ensures scope.Some? ==> ValueLen(JavaScript(code, scope)) == 9 + |Utf8(code)| + ValueLen(Document(scope.value))
      ensures scope.Some? ==>
                HeapOf(layout, JavaScript(code, scope)) == |Utf8(code)| + HeapOf(layout, Document(scope.value))
    {
      if scope.Some? {
        assert Height(JavaScript(code, scope)) == Height(Document(scope.value));
      }
    }

    /** The first fields of a mapping, converted. */
    ghost predicate Prefix(fields: seq<Field>, entries: seq<Entry>, depth: nat) {
      && |entries| <= |fields| && ReadsFields(graph, rep, fields[..|entries|], entries)
      && EntriesNamed(entries) && depth + EntriesHeight(entries) <= MAX_NESTING_DEPTH
    }

    lemma PrefixStep(fields: seq<Field>, entries: seq<Entry>, depth: nat, e: Entry)
      requires Prefix(fields, entries, depth) && |entries| < |fields|
      requires Names(fields[|entries|].key, e.name) && Converted(fields[|entries|].item, e.value, depth)
      requires NulFree(e.name) && e.name !in NamesOf(entries)
      ensures Prefix(fields, entries + [e], depth)
    {
      AppendEntry(layout, entries, e);
      ReadsFieldsAppend(graph, rep, fields, entries, e);
    }

    lemma PrefixComplete(id: Id, entries: seq<Entry>, depth: nat)
      requires id in graph && graph[id].MappingObject? && depth > 0
      requires Prefix(graph[id].fields, entries, depth) && |entries| == |graph[id].fields|
      ensures Converted(id, Document(Doc(entries)), depth - 1)
      ensures ValueLen(Document(Doc(entries))) == 5 + EntriesLen(entries)
      ensures HeapOf(layout, Document(Doc(entries))) == EntriesHeap(layout, entries)
    {
      assert graph[id].fields[..|entries|] == graph[id].fields;
      assert Height(Document(Doc(entries))) == DocHeight(Doc(entries)) == 1 + EntriesHeight(entries);
      assert ValueLen(Document(Doc(entries))) == DocLen(Doc(entries));
    }

    /** After the first fields are converted, any target of the mapping makes the next field fit. */
    lemma FieldTarget(id: Id, v: Value, parentDepth: nat, wire: nat, heap: nat, actives: set<Id>, entries: seq<Entry>,
                      depth: nat, wireNow: int, heapNow: int, activesNow: set<Id>)
      returns (e: Entry)
      requires id in graph && graph[id].MappingObject? && Target(id, v, parentDepth, wire, heap, actives)
      requires Prefix(graph[id].fields, entries, depth) && |entries| < |graph[id].fields|
      requires depth == parentDepth + 1 && activesNow == actives + {id}
      requires wireNow == wire - 5 - EntriesLen(entries) && heapNow == heap - EntriesHeap(layout, entries)
      ensures FieldFits(graph[id].fields[|entries|], e, NamesOf(entries), depth, wireNow, heapNow, activesNow)
    {
      ReadsShape(graph, rep, id, v);
      var fields, all, i := graph[id].fields, v.doc.entries, |entries|;
      assert DocLen(v.doc) == ValueLen(v) && DocHeight(v.doc) == Height(v);
      assert entries == all[..i] by {
        ReadsFieldsPrefix(graph, rep, fields, all, i);
        ReadsFieldsUnique(graph, rep, fields[..i], entries, all[..i]);
      }
      EntryWithin(layout, all, i);
      EntryNamed(all, i);
      ReadsField(graph, rep, fields, all, i);
      ChildAbove(graph, rep, actives, id, v, fields[i].item, all[i].value);
      e := all[i];
    }

    /** When the next field fits nothing, the mapping has no target. */
    lemma FieldFailureIsFinal(id: Id, parentDepth: nat, wire: nat, heap: nat, actives: set<Id>, entries: seq<Entry>,
                              depth: nat, wireNow: int, heapNow: int, activesNow: set<Id>)
      requires id in graph && graph[id].MappingObject?
      requires Prefix(graph[id].fields, entries, depth) && |entries| < |graph[id].fields|
      requires depth == parentDepth + 1 && activesNow == actives + {id}
      requires wireNow == wire - 5 - EntriesLen(entries) && heapNow == heap - EntriesHeap(layout, entries)
      requires forall e ::
                 !FieldFits(graph[id].fields[|entries|], e, NamesOf(entries), depth, wireNow, heapNow, activesNow)
      ensures forall v :: !Target(id, v, parentDepth, wire, heap, actives)
    {
      forall v | Target(id, v, parentDepth, wire, heap, actives) ensures false {
        var e := FieldTarget(id, v, parentDepth, wire, heap, actives, entries, depth, wireNow, heapNow, activesNow);
      }
    }

    /** The first items of a sequence, converted. */
    ghost predicate ItemsPrefix(ids: seq<Id>, items: seq<Value>, depth: nat) {
      && |items| <= |ids| && ReadsItems(graph, rep, ids[..|items|], items)
      && ItemsNamed(items) && depth + ItemsHeight(items) <= MAX_NESTING_DEPTH
    }

    lemma ItemsPrefixStep(ids: seq<Id>, items: seq<Value>, depth: nat, v: Value)
      requires ItemsPrefix(ids, items, depth) && |items| < |ids| && Converted(ids[|items|], v, depth)
      ensures ItemsPrefix(ids, items + [v], depth)
      ensures ItemsLen(items + [v]) == ItemsLen(items) + |DecimalText(|items|)| + 2 + ValueLen(v)
      ensures ItemsHeap(layout, items + [v]) == ItemsHeap(layout, items) + HeapOf(layout, v)
    {
      AppendItem(layout, items, v);
      ReadsItemsAppend(graph, rep, ids, items, v);
    }

    lemma ItemsPrefixComplete(id: Id, items: seq<Value>, depth: nat)
      requires id in graph && graph[id].SequenceObject? && depth > 0
      requires ItemsPrefix(graph[id].items, items, depth) && |items| == |graph[id].items|
      ensures Converted(id, Array(items), depth - 1)
      ensures ValueLen(Array(items)) == 5 + ItemsLen(items)
      ensures HeapOf(layout, Array(items)) == SlotsHeap(layout, |items|) + ItemsHeap(layout, items)
    {
      assert graph[id].items[..|items|] == graph[id].items;
    }

    /** After the first items are converted, any target of the sequence makes the next item fit. */
    lemma ItemTarget(id: Id, v: Value, parentDepth: nat, wire: nat, heap: nat, actives: set<Id>, items: seq<Value>,
                     depth: nat, wireNow: int, heapNow: int, activesNow: set<Id>)
      returns (w: Value)
      requires id in graph && graph[id].SequenceObject? && Target(id, v, parentDepth, wire, heap, actives)
      requires ItemsPrefix(graph[id].items, items, depth) && |items| < |graph[id].items|
      requires depth == parentDepth + 1 && activesNow == actives + {id}
      requires wireNow == wire - 5 - ItemsLen(items)
      requires heapNow == heap - SlotsHeap(layout, |graph[id].items|) - ItemsHeap(layout, items)
      ensures ItemFits(graph[id].items[|items|], w, |items|, depth, wireNow, heapNow, activesNow)
    {
      ReadsShape(graph, rep, id, v);
      var ids, all, i := graph[id].items, v.items, |items|;
      assert items == all[..i] by {
        ReadsItemsPrefix(graph, rep, ids, all, i);
        ReadsItemsUnique(graph, rep, ids[..i], items, all[..i]);
      }
      ItemWithin(layout, all, i);
      ItemNamed(all, i);
      ReadsItem(graph, rep, ids, all, i);
      ChildAbove(graph, rep, actives, id, v, ids[i], all[i]);
      w := all[i];
    }

    /** When the next item fits nothing, the sequence has no target. */
    lemma ItemFailureIsFinal(id: Id, parentDepth: nat, wire: nat, heap: nat, actives: set<Id>, items: seq<Value>,
                             depth: nat, wireNow: int, heapNow: int, activesNow: set<Id>)
      requires id in graph && graph[id].SequenceObject?
      requires ItemsPrefix(graph[id].items, items, depth) && |items| < |graph[id].items|
      requires depth == parentDepth + 1 && activesNow == actives + {id}
      requires wireNow == wire - 5 - ItemsLen(items)
      requires heapNow == heap - SlotsHeap(layout, |graph[id].items|) - ItemsHeap(layout, items)
      requires forall w :: !ItemFits(graph[id].items[|items|], w, |items|, depth, wireNow, heapNow, activesNow)
      ensures forall v :: !Target(id, v, parentDepth, wire, heap, actives)
    {
      forall v | Target(id, v, parentDepth, wire, heap, actives) ensures false {
        var w := ItemTarget(id, v, parentDepth, wire, heap, actives, items, depth, wireNow, heapNow, activesNow);
      }
    }

    /** A sequence whose slots are over budget has no target. */
    lemma SlotsFailureIsFinal(id: Id, parentDepth: nat, wire: nat, heap: nat, actives: set<Id>)
      requires id in graph && graph[id].SequenceObject? && SlotsHeap(layout, |graph[id].items|) > heap
      ensures forall v :: !Target(id, v, parentDepth, wire, heap, actives)
    {
      forall v | Target(id, v, parentDepth, wire, heap, actives) ensures false {
        ReadsShape(graph, rep, id, v);
      }
    }

    // -------------------------------------------------------------- budget and ancestors

    method Wire(bytes: nat) returns (ok: bool)
      modifies `wireRemaining
      ensures ok <==> bytes <= old(wireRemaining)
      ensures wireRemaining == if ok then old(wireRemaining) - bytes else old(wireRemaining)
    {
      ok := bytes <= wireRemaining;
      if ok {
        wireRemaining := wireRemaining - bytes;
      }
    }

    method Heap(bytes: nat) returns (ok: bool)
      modifies `heapRemaining
      ensures ok <==> bytes <= old(heapRemaining)
      ensures heapRemaining == if ok then old(heapRemaining) - bytes else old(heapRemaining)
    {
      ok := bytes <= heapRemaining;
      if ok {
        heapRemaining := heapRemaining - bytes;
      }
    }

    method Enter(id: Id) returns (ok: bool)
      modifies `active
      ensures ok <==> id !in old(active)
      ensures active == old(active) + {id}
    {
      ok := id !in active;
      active := active + {id};
    }

    method Leave(id: Id)
      modifies `active
      ensures active == old(active) - {id}
    {
      active := active - {id};
    }

    // -------------------------------------------------------------- leaves

    /** A string payload: preflight, then the exact charges. */
    method ConvertString(text: PyText) returns (r: Result<Text, ConvertError>)
      modifies `wireRemaining, `heapRemaining
      ensures wireRemaining <= old(wireRemaining) && heapRemaining <= old(heapRemaining)
      ensures r.Ok? <==> ValidText(text) && |Utf8(text)| + 5 <= old(wireRemaining) && |Utf8(text)| <= old(heapRemaining)
      ensures r.Ok? ==> r.value == text && wireRemaining == old(wireRemaining) - |Utf8(text)| - 5
                        && heapRemaining == old(heapRemaining) - |Utf8(text)|
      ensures r.Err? ==> r.error != Cycle
    {
      var length :- PreflightString(text, 5, wireRemaining, heapRemaining);
      var ok := Wire(length + 5);
      if !ok {
        return Err(TooLarge);
      }
      ok := Heap(length);
      if !ok {
        return Err(TooMuchHeap);
      }
      return Ok(text);
    }

    method ConvertBinary(subtype: byte, payload: seq<byte>) returns (r: Result<Value, ConvertError>)
      modifies `wireRemaining, `heapRemaining
      ensures wireRemaining <= old(wireRemaining) && heapRemaining <= old(heapRemaining)
      ensures r.Ok? <==> ValueLen(Binary(subtype, payload)) <= old(wireRemaining) && |payload| <= old(heapRemaining)
      ensures r.Ok? ==> r.value == Binary(subtype, payload)
                        && wireRemaining == old(wireRemaining) - ValueLen(r.value)
                        && heapRemaining == old(heapRemaining) - |payload|
      ensures r.Err? ==> r.error != Cycle
    {
      var framing := if subtype == 2 then 9 else 5;
      var ok := Wire(|payload| + framing);
      if !ok {
        return Err(TooLarge);
      }
      ok := Heap(|payload|);
      if !ok {
        return Err(TooMuchHeap);
      }
      return Ok(Binary(subtype, payload));
    }

    method ConvertRegex(pattern: Option<PyText>, flags: u32) returns (r: Result<Value, ConvertError>)
      modifies `wireRemaining, `heapRemaining
      ensures wireRemaining <= old(wireRemaining) && heapRemaining <= old(heapRemaining)
      ensures LeafOutcome(RegexObject(pattern, flags), r, old(wireRemaining), old(heapRemaining))
    {
      if pattern.None? {
        return Err(TypeMismatch);
      }
      RegexLeaf(pattern.value, flags, rep, layout);
      var length :- PreflightString(pattern.value, 2, wireRemaining, heapRemaining);
      if !KnownFlags(flags) {
        return Err(InvalidValue);
      }
      var options := CollectOptions(flags);
      var ok := Wire(length + |options| + 2);
      if !ok {
        return Err(TooLarge);
      }
      ok := Heap(SaturatingAdd(length, |options|));
      if !ok {
        return Err(TooMuchHeap);
      }
      if !NulFree(pattern.value) {
        return Err(InvalidValue);
      }
      return Ok(Regex(pattern.value, options));
    }

    /** Exactly when a leaf converts, to what, and what it leaves of the budgets. */
    ghost predicate LeafOutcome(o: Object, r: Result<Value, ConvertError>, wire: nat, heap: nat)
      requires !IsContainer(o) && !o.CodeObject?
      reads this
    {
      var leaf := LeafValue(o, rep);
      && (r.Ok? <==> leaf.Some? && ValueLen(leaf.value) <= wire && HeapOf(layout, leaf.value) <= heap)
      && (r.Ok? ==> r.value == leaf.value
                    && wireRemaining == wire - ValueLen(r.value)
                    && heapRemaining == heap - HeapOf(layout, r.value))
      && (r.Err? ==> r.error != Cycle)
    }

    /** A fixed-width payload is charged before it is read. */
    method ConvertFixed(ghost o: Object, width: nat, value: Result<Value, ConvertError>)
      returns (r: Result<Value, ConvertError>)
      requires !IsContainer(o) && !o.CodeObject?
      requires value.Ok? ==> LeafValue(o, rep) == Some(value.value)
                             && ValueLen(value.value) == width && HeapOf(layout, value.value) == 0
      requires value.Err? ==> LeafValue(o, rep) == None && value.error != Cycle
      modifies `wireRemaining
      ensures wireRemaining <= old(wireRemaining)
      ensures LeafOutcome(o, r, old(wireRemaining), heapRemaining)
    {
      var ok := Wire(width);
      return if ok then value else Err(TooLarge);
    }

    /** The fixed-width branches of `convert_value` for `None`, numbers and times. */
    method ConvertNumber(o: Object) returns (r: Result<Value, ConvertError>)
      requires o.NoneObject? || o.BoolObject? || o.Int64Object? || o.IntObject? || o.FloatObject?
               || o.DatetimeMsObject? || o.DatetimeObject?
      modifies `wireRemaining
      ensures wireRemaining <= old(wireRemaining)
      ensures LeafOutcome(o, r, old(wireRemaining), heapRemaining)
    {
      match o
      case NoneObject => return Ok(Null);
      case BoolObject(truth) =>
        r := ConvertFixed(o, 1, Ok(Boolean(truth)));
      case Int64Object(n) =>
        r := ConvertFixed(o, 8, if FitsI64(n) then Ok(Int64(n)) else Err(OutOfRange));
      case IntObject(n) =>
        if FitsI32(n) {
          r := ConvertFixed(o, 4, Ok(Int32(n)));
        } else {
          r := ConvertFixed(o, 8, if FitsI64(n) then Ok(Int64(n)) else Err(OutOfRange));
        }
      case FloatObject(bits) =>
        r := ConvertFixed(o, 8, Ok(Double(bits)));
      case DatetimeMsObject(n) =>
        r := ConvertFixed(o, 8, if FitsI64(n) then Ok(DateTime(n)) else Err(OutOfRange));
      case DatetimeObject(dt) =>
        var millis := DatetimeMillis(dt);
        r := ConvertFixed(o, 8, if millis.Ok? then Ok(DateTime(millis.value)) else Err(OutOfRange));
    }

    /** The remaining fixed-width branches: identifiers, timestamps, the key bounds and the refusal. */
    method ConvertIdentifier(o: Object) returns (r: Result<Value, ConvertError>)
      requires o.UuidObject? || o.ObjectIdObject? || o.Decimal128Object? || o.TimestampObject?
               || o.MinKeyObject? || o.MaxKeyObject? || o.OtherObject?
      modifies `wireRemaining
      ensures wireRemaining <= old(wireRemaining)
      ensures LeafOutcome(o, r, old(wireRemaining), heapRemaining)
    {
      match o
      case UuidObject(uuid) =>
        if rep.None? {
          return Err(Unsupported);
        }
        r := ConvertFixed(o, 21, Ok(Uuid(uuid, rep.value)));
      case ObjectIdObject(oid) =>
        r := ConvertFixed(o, 12, Ok(ObjectId(oid)));
      case Decimal128Object(bid) =>
        r := ConvertFixed(o, 16, Ok(Decimal128(bid)));
      case TimestampObject(time, increment) =>
        r := ConvertFixed(o, 8, Ok(Timestamp(time, increment)));
      case MinKeyObject => return Ok(MinKey);
      case MaxKeyObject => return Ok(MaxKey);
      case OtherObject => return Err(TypeMismatch);
    }

    /** The leaf branches of `convert_value`. */
    method ConvertLeaf(o: Object) returns (r: Result<Value, ConvertError>)
      requires !IsContainer(o) && !o.CodeObject?
      modifies `wireRemaining, `heapRemaining
      ensures wireRemaining <= old(wireRemaining) && heapRemaining <= old(heapRemaining)
      ensures LeafOutcome(o, r, old(wireRemaining), old(heapRemaining))
    {
      if o.BinaryObject? {
        r := ConvertBinary(o.subtype, o.payload);
      } else if o.StrObject? {
        var converted := ConvertString(o.text);
        r := if converted.Ok? then Ok(Str(converted.value)) else Err(converted.error);
      } else if o.BytesObject? {
        r := ConvertBinary(0, o.payload);
      } else if o.RegexObject? {
        r := ConvertRegex(o.pattern, o.flags);
      } else if o.NoneObject? || o.BoolObject? || o.Int64Object? || o.IntObject? || o.FloatObject?
                || o.DatetimeMsObject? || o.DatetimeObject? {
        r := ConvertNumber(o);
      } else {
        r := ConvertIdentifier(o);
      }
    }

    // -------------------------------------------------------------- containers

    /** What every conversion keeps, whether or not it succeeds. */
    twostate predicate Kept()
      reads this
    {
      && wireRemaining <= old(wireRemaining) && heapRemaining <= old(heapRemaining)
      && old(valueCalls) <= valueCalls
    }

    /** A successful conversion to `v`: the exact charges, and the ancestors as they were. */
    twostate predicate Charged(v: Value)
      reads this
    {
      && wireRemaining == old(wireRemaining) - ValueLen(v)
      && heapRemaining == old(heapRemaining) - HeapOf(layout, v)
      && active == old(active)
    }

    method ConvertDocument(id: Id, depth: nat, ghost trail: Trail) returns (r: Result<Doc, ConvertError>)
      requires OnTrail(trail, id) && depth == Containers(graph, trail) + 1
      modifies this
      ensures Kept()
      ensures Spent() <= old(Spent()) - 5 || (Spent() <= old(Spent()) && valueCalls == old(valueCalls))
      ensures r.Ok? ==> graph[id].MappingObject? && Converted(id, Document(r.value), Containers(graph, trail))
      ensures r.Ok? ==> Charged(Document(r.value))
      ensures r.Err? ==> forall d ::
                !Target(id, Document(d), Containers(graph, trail), old(wireRemaining), old(heapRemaining), old(active))
      ensures r == Err(Cycle) ==> ReachesCycle(graph, First(trail, id))
      decreases graph.Keys - active, 2
    {
      ghost var wire := wireRemaining;
      assert forall d | Converted(id, Document(d), Containers(graph, trail)) ::
          Height(Document(d)) == DocHeight(d) > 0 && ValueLen(Document(d)) == DocLen(d) >= 5;
      if depth > MAX_NESTING_DEPTH {
        return Err(TooDeep);
      }
      if !graph[id].MappingObject? {
        return Err(TypeMismatch);
      }
      var ok := Enter(id);
      if !ok {
        assert Walks(graph, Step(trail, id)) && id in On(trail);
        return Err(Cycle);
      }
      ok := Wire(5);
      if !ok {
        return Err(TooLarge);
      }
      r := ConvertFields(id, depth, trail, wire);
      Leave(id);
    }

    /** The body of `convert_document`: the fields in iteration order. */
    method ConvertFields(id: Id, depth: nat, ghost trail: Trail, ghost wire: nat) returns (r: Result<Doc, ConvertError>)
      requires Closed(graph) && Walks(graph, Step(trail, id)) && active == On(Step(trail, id))
      requires graph[id].MappingObject? && depth == Containers(graph, trail) + 1 <= MAX_NESTING_DEPTH
      requires wire == wireRemaining + 5
      modifies this
      ensures Kept() && Spent() <= old(Spent())
      ensures r.Ok? ==> Converted(id, Document(r.value), Containers(graph, trail)) && active == old(active)
                        && wireRemaining == wire - ValueLen(Document(r.value))
                        && heapRemaining == old(heapRemaining) - HeapOf(layout, Document(r.value))
      ensures r.Err? ==> forall v :: !Target(id, v, Containers(graph, trail), wire, old(heapRemaining), On(trail))
      ensures r == Err(Cycle) ==> ReachesCycle(graph, First(trail, id))
      decreases graph.Keys - active, 5
    {
      var fields := graph[id].fields;
      var entries: seq<Entry>, names: set<Text> := [], {};
      for i := 0 to |fields|
        invariant Kept() && Spent() <= old(Spent()) && active == old(active)
        invariant |entries| == i && Prefix(fields, entries, depth) && names == NamesOf(entries)
        invariant wireRemaining == old(wireRemaining) - EntriesLen(entries)
        invariant heapRemaining == old(heapRemaining) - EntriesHeap(layout, entries)
      {
        ghost var wireNow, heapNow := wireRemaining, heapRemaining;
        var entry := ConvertField(id, i, depth, names, trail);
        if entry.Err? {
          FieldFailureIsFinal(id, Containers(graph, trail), wire, old(heapRemaining), On(trail), entries,
                              depth, wireNow, heapNow, old(active));
          return Err(entry.error);
        }
        PrefixStep(fields, entries, depth, entry.value);
        AppendEntry(layout, entries, entry.value);
        names := names + {entry.value.name};
        entries := entries + [entry.value];
      }
      PrefixComplete(id, entries, depth);
      return Ok(Doc(entries));
    }

    /** One turn of the field loop: the key, the duplicate test, then the value one level down. */
    method ConvertField(id: Id, i: nat, depth: nat, names: set<Text>, ghost trail: Trail)
      returns (r: Result<Entry, ConvertError>)
      requires Closed(graph) && Walks(graph, Step(trail, id)) && active == On(Step(trail, id))
      requires graph[id].MappingObject? && i < |graph[id].fields|
      requires depth == Containers(graph, trail) + 1 <= MAX_NESTING_DEPTH
      modifies this
      ensures Kept() && Spent() <= old(Spent())
      ensures r.Ok? ==> Names(graph[id].fields[i].key, r.value.name)
                        && Converted(graph[id].fields[i].item, r.value.value, depth)
                        && NulFree(r.value.name) && r.value.name !in names && active == old(active)
                        && wireRemaining == old(wireRemaining) - |Utf8(r.value.name)| - 2 - ValueLen(r.value.value)
                        && heapRemaining
                           == old(heapRemaining) - EntryHeap(layout, r.value.name) - HeapOf(layout, r.value.value)
      ensures r.Err? ==> forall e ::
                !FieldFits(graph[id].fields[i], e, names, depth, old(wireRemaining), old(heapRemaining), old(active))
      ensures r == Err(Cycle) ==> ReachesCycle(graph, First(trail, id))
      decreases graph.Keys - active, 4
    {
      var field := graph[id].fields[i];
      var key := ConvertKey(field.key);
      if key.Err? {
        KeyFailureIsFinal(field, names, depth, old(wireRemaining), old(heapRemaining), active);
        return Err(key.error);
      }
      if key.value in names {
        KeyFailureIsFinal(field, names, depth, old(wireRemaining), old(heapRemaining), active);
        return Err(InvalidValue);
      }
      assert ChildOf(graph[id], field.item);
      ghost var wireLeft, heapLeft, actives := wireRemaining, heapRemaining, active;
      var value := ConvertValue(field.item, depth, Step(trail, id));
      if value.Err? {
        ValueFailureIsFinal(field, names, depth, old(wireRemaining), old(heapRemaining), actives,
                            key.value, wireLeft, heapLeft);
        return Err(value.error);
      }
      return Ok(Entry(key.value, value.value));
    }

    /** A field name: a string that fits, with its charges made before it is copied or looked up. */
    method ConvertKey(key: Key) returns (r: Result<Text, ConvertError>)
      modifies `wireRemaining, `heapRemaining
      ensures wireRemaining <= old(wireRemaining) && heapRemaining <= old(heapRemaining)
      ensures r.Ok? <==> key.TextKey? && ValidText(key.text) && NulFree(key.text)
                         && |Utf8(key.text)| + 2 <= old(wireRemaining)
                         && EntryHeap(layout, key.text) <= old(heapRemaining)
      ensures r.Ok? ==> r.value == key.text && wireRemaining == old(wireRemaining) - |Utf8(r.value)| - 2
                        && heapRemaining == old(heapRemaining) - EntryHeap(layout, r.value)
      ensures r.Err? ==> r.error != Cycle
    {
      if !key.TextKey? {
        return Err(TypeMismatch);
      }
      var length :- PreflightString(key.text, 2, wireRemaining, heapRemaining);
      var ok := Wire(length + 2);
      if !ok {
        return Err(TooLarge);
      }
      ok := Heap(SaturatingAdd(
                   SaturatingAdd(SaturatingMul(layout.entryBytes, 2), SaturatingMul(STR_REF_BYTES, 8)),
                   SaturatingMul(length, 2)));
      if !ok {
        return Err(TooMuchHeap);
      }
      if !NulFree(key.text) {
        return Err(InvalidValue);
      }
      return Ok(key.text);
    }

    method ConvertArray(id: Id, depth: nat, ghost trail: Trail) returns (r: Result<seq<Value>, ConvertError>)
      requires OnTrail(trail, id) && graph[id].SequenceObject? && depth == Containers(graph, trail) + 1
      modifies this
      ensures Kept() && Spent() <= old(Spent())
      ensures r.Ok? ==> Converted(id, Array(r.value), Containers(graph, trail)) && Charged(Array(r.value))
      ensures r.Err? ==> forall v ::
                !Target(id, v, Containers(graph, trail), old(wireRemaining), old(heapRemaining), old(active))
      ensures r == Err(Cycle) ==> ReachesCycle(graph, First(trail, id))
      decreases graph.Keys - active, 2
    {
      ghost var wire := wireRemaining;
      assert forall v | Converted(id, v, Containers(graph, trail)) :: Height(v) > 0 && ValueLen(v) >= 5;
      if depth > MAX_NESTING_DEPTH {
        return Err(TooDeep);
      }
      var ok := Enter(id);
      if !ok {
        assert Walks(graph, Step(trail, id)) && id in On(trail);
        return Err(Cycle);
      }
      ok := Wire(5);
      if !ok {
        return Err(TooLarge);
      }
      r := ConvertItems(id, depth, trail, wire);
      Leave(id);
    }

    /** The body of `convert_array`: all slots charged up front, then the items in order. */
    method ConvertItems(id: Id, depth: nat, ghost trail: Trail, ghost wire: nat)
      returns (r: Result<seq<Value>, ConvertError>)
      requires Closed(graph) && Walks(graph, Step(trail, id)) && active == On(Step(trail, id))
      requires graph[id].SequenceObject? && depth == Containers(graph, trail) + 1 <= MAX_NESTING_DEPTH
      requires wire == wireRemaining + 5
      modifies this
      ensures Kept() && Spent() <= old(Spent())
      ensures r.Ok? ==> Converted(id, Array(r.value), Containers(graph, trail)) && active == old(active)
                        && wireRemaining == wire - ValueLen(Array(r.value))
                        && heapRemaining == old(heapRemaining) - HeapOf(layout, Array(r.value))
      ensures r.Err? ==> forall v :: !Target(id, v, Containers(graph, trail), wire, old(heapRemaining), On(trail))
      ensures r == Err(Cycle) ==> ReachesCycle(graph, First(trail, id))
      decreases graph.Keys - active, 5
    {
      var ids := graph[id].items;
      SlotsSaturate(layout, |ids|, heapRemaining);
      var ok := Heap(SaturatingMul(SaturatingMul(layout.valueBytes, |ids|), 2));
      if !ok {
        SlotsFailureIsFinal(id, Containers(graph, trail), wire, old(heapRemaining), On(trail));
        return Err(TooMuchHeap);
      }
      var items: seq<Value> := [];
      for i := 0 to |ids|
        invariant Kept() && Spent() <= old(Spent()) && active == old(active)
        invariant |items| == i && ItemsPrefix(ids, items, depth)
        invariant wireRemaining == old(wireRemaining) - ItemsLen(items)
        invariant heapRemaining == old(heapRemaining) - SlotsHeap(layout, |ids|) - ItemsHeap(layout, items)
      {
        ghost var wireNow, heapNow := wireRemaining, heapRemaining;
        var value := ConvertItem(id, i, depth, trail);
        if value.Err? {
          ItemFailureIsFinal(id, Containers(graph, trail), wire, old(heapRemaining), On(trail), items,
                             depth, wireNow, heapNow, old(active));
          return Err(value.error);
        }
        ItemsPrefixStep(ids, items, depth, value.value);
        items := items + [value.value];
      }
      ItemsPrefixComplete(id, items, depth);
      return Ok(items);
    }

    /** One turn of the item loop: the index as a name, then the value one level down. */
    method ConvertItem(id: Id, i: nat, depth: nat, ghost trail: Trail) returns (r: Result<Value, ConvertError>)
      requires Closed(graph) && Walks(graph, Step(trail, id)) && active == On(Step(trail, id))
      requires graph[id].SequenceObject? && i < |graph[id].items|
      requires depth == Containers(graph, trail) + 1 <= MAX_NESTING_DEPTH
      modifies this
      ensures Kept() && Spent() <= old(Spent())
      ensures r.Ok? ==> Converted(graph[id].items[i], r.value, depth) && active == old(active)
                        && wireRemaining == old(wireRemaining) - |DecimalText(i)| - 2 - ValueLen(r.value)
                        && heapRemaining == old(heapRemaining) - HeapOf(layout, r.value)
      ensures r.Err? ==> forall w ::
                !ItemFits(graph[id].items[i], w, i, depth, old(wireRemaining), old(heapRemaining), old(active))
      ensures r == Err(Cycle) ==> ReachesCycle(graph, First(trail, id))
      decreases graph.Keys - active, 4
    {
      var digits := DecimalDigits(i);
      var ok := Wire(SaturatingAdd(digits, 2));
      if !ok {
        return Err(TooLarge);
      }
      assert ChildOf(graph[id], graph[id].items[i]);
      r := ConvertValue(graph[id].items[i], depth, Step(trail, id));
    }

    method ConvertValue(id: Id, parentDepth: nat, ghost trail: Trail) returns (r: Result<Value, ConvertError>)
      requires OnTrail(trail, id) && parentDepth == Containers(graph, trail) <= MAX_NESTING_DEPTH
      modifies this
      ensures Kept() && Spent() <= old(Spent()) + 2
      ensures r.Ok? ==> Converted(id, r.value, parentDepth) && Charged(r.value)
      ensures r.Err? ==> forall v :: !Target(id, v, parentDepth, old(wireRemaining), old(heapRemaining), old(active))
      ensures r == Err(Cycle) ==> ReachesCycle(graph, First(trail, id))
      decreases graph.Keys - active, 3
    {
      valueCalls := valueCalls + 1;
      var o := graph[id];
      if o.CodeObject? {
        r := ConvertCode(id, parentDepth, trail);
      } else if o.MappingObject? {
        var doc := ConvertDocument(id, parentDepth + 1, trail);
        r := if doc.Ok? then Ok(Document(doc.value)) else Err(doc.error);
      } else if o.SequenceObject? {
        var items := ConvertArray(id, parentDepth + 1, trail);
        r := if items.Ok? then Ok(Array(items.value)) else Err(items.error);
      } else {
        r := ConvertLeaf(o);
      }
    }

    method ConvertCode(id: Id, parentDepth: nat, ghost trail: Trail) returns (r: Result<Value, ConvertError>)
      requires OnTrail(trail, id) && graph[id].CodeObject?
      requires parentDepth == Containers(graph, trail) <= MAX_NESTING_DEPTH
      modifies this
      ensures Kept() && Spent() <= old(Spent())
      ensures r.Ok? ==> Converted(id, r.value, parentDepth) && Charged(r.value)
      ensures r.Err? ==> forall v :: !Target(id, v, parentDepth, old(wireRemaining), old(heapRemaining), old(active))
      ensures r == Err(Cycle) ==> ReachesCycle(graph, First(trail, id))
      decreases graph.Keys - active, 2
    {
      var ok := Enter(id);
      if !ok {
        assert Walks(graph, Step(trail, id)) && id in On(trail);
        return Err(Cycle);
      }
      r := ConvertCodeBody(id, parentDepth, trail);
      Leave(id);
    }

    /** The body of `convert_code`: the source text, then four more bytes and the scope document. */
    method ConvertCodeBody(id: Id, parentDepth: nat, ghost trail: Trail) returns (r: Result<Value, ConvertError>)
      requires Closed(graph) && Walks(graph, Step(trail, id)) && active == On(Step(trail, id))
      requires graph[id].CodeObject? && parentDepth == Containers(graph, trail) <= MAX_NESTING_DEPTH
      modifies this
      ensures Kept() && Spent() <= old(Spent())
      ensures r.Ok? ==> Converted(id, r.value, parentDepth) && Charged(r.value)
      ensures r.Err? ==> forall v :: !Target(id, v, parentDepth, old(wireRemaining), old(heapRemaining), On(trail))
      ensures r == Err(Cycle) ==> ReachesCycle(graph, First(trail, id))
      decreases graph.Keys - active, 5
    {
      var scope := graph[id].scope;
      assert ChildOf(graph[id], scope);
      ghost var wire, heap := wireRemaining, heapRemaining;
      var code := ConvertString(graph[id].code);
      if code.Err? {
        CodeFailureIsFinal(id, parentDepth, wire, heap, On(trail));
        return Err(code.error);
      }
      if graph[scope].NoneObject? {
        CodeConverted(id, code.value, None, parentDepth);
        return Ok(JavaScript(code.value, None));
      }
      ghost var wireNow := wireRemaining - 4;
      var ok := Wire(4);
      if !ok {
        ScopeFailureIsFinal(id, parentDepth, wire, heap, On(trail), wireNow, heapRemaining, active);
        return Err(TooLarge);
      }
      ghost var heapNow := heapRemaining;
      var doc := ConvertDocument(scope, parentDepth + 1, Step(trail, id));
      if doc.Err? {
        ScopeFailureIsFinal(id, parentDepth, wire, heap, On(trail), wireNow, heapNow, old(active));
        return Err(doc.error);
      }
      CodeConverted(id, code.value, Some(doc.value), parentDepth);
      return Ok(JavaScript(code.value, Some(doc.value)));
    }
  }
}
