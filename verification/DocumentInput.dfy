/**
 The Python document entry point: convert the object graph, then hand the result to the codec.
 Its contract is the exact condition under which a Python object becomes a BSON document.
 */
module DocumentInput {
  import opened Machine
  import opened Bson
  import opened PythonObjects
  import opened Charges
  import opened InputConverter
  import opened BsonCodec
  import opened BsonEncoder

  /**
   `root` reads as the finite tree `d`, of depth at most 100, with distinct NUL-free names, an
   encoding of at most 16 MiB and a retained-heap charge of at most 64 MiB.
   */
  ghost predicate Acceptable(g: Graph, rep: Option<UuidRepresentation>, layout: Layout, root: Id, d: Doc) {
    && Reads(g, rep, root, Document(d)) && EntriesNamed(d.entries)
    && DocHeight(d) <= MAX_NESTING_DEPTH
    && |EncodeDoc(d)| <= MAX_DOCUMENT_BYTES
    && EntriesHeap(layout, d.entries) <= MAX_DECODED_BYTES
  }

  datatype InputError = ConversionFailed(error: ConvertError) | CodecRejected

  /**
   `InputConverter::document`. It succeeds exactly on acceptable graphs, with the one tree the
   graph reads as; the codec never rejects what conversion accepted; the wire budget left is the
   limit less the encoded length; and on every run, successful or not, `convert_value` is called
   at most (16 MiB - 5) / 2 times.
   */
  method ExtractDocument(g: Graph, rep: Option<UuidRepresentation>, layout: Layout, root: Id)
    returns (r: Result<Doc, InputError>, wireLeft: nat, ghost valueCalls: nat)
    requires Closed(g) && root in g
    ensures r.Ok? <==> exists d :: Acceptable(g, rep, layout, root, d)
    ensures r.Ok? ==> Acceptable(g, rep, layout, root, r.value)
    ensures r.Ok? ==> wireLeft == MAX_DOCUMENT_BYTES - |EncodeDoc(r.value)|
    ensures r.Err? ==> r.error.ConversionFailed?
    ensures 2 * valueCalls <= MAX_DOCUMENT_BYTES - 5
    ensures r == Err(ConversionFailed(Cycle)) ==> ReachesCycle(g, root)
    ensures ReachesCycle(g, root) ==> r.Err?
  {
    var converter := new InputConverter(g, rep, layout);
    var doc := converter.ConvertDocument(root, 1, Start);
    wireLeft, valueCalls := converter.wireRemaining, converter.valueCalls;
    if doc.Err? {
      forall d | Acceptable(g, rep, layout, root, d) ensures false {
        AcceptableIsTarget(converter, root, d);
      }
      return Err(ConversionFailed(doc.error)), wireLeft, valueCalls;
    }
    EncodedDocLength(doc.value);
    ReadableIsAcyclic(g, rep, root, Document(doc.value));
    var v := Document(doc.value);
    assert ValueLen(v) == DocLen(doc.value) && Height(v) == DocHeight(doc.value);
    assert Acceptable(g, rep, layout, root, doc.value);
    ReadsCStrings(g, rep, root, v);
    var bytes := EncodeDocument(doc.value, DEFAULT_LIMITS);
    r := if bytes.Ok? then Ok(doc.value) else Err(CodecRejected);
  }

  lemma AcceptableIsTarget(converter: InputConverter, root: Id, d: Doc)
    requires Acceptable(converter.graph, converter.rep, converter.layout, root, d)
    ensures converter.Target(root, Document(d), 0, MAX_DOCUMENT_BYTES, MAX_DECODED_BYTES, {})
  {
    EncodedDocLength(d);
    var v := Document(d);
    assert ValueLen(v) == DocLen(d) && Height(v) == DocHeight(d);
  }

  /** The document a graph converts to is unique. */
  lemma AcceptableUnique(g: Graph, rep: Option<UuidRepresentation>, layout: Layout, root: Id, d: Doc, e: Doc)
    requires Acceptable(g, rep, layout, root, d) && Acceptable(g, rep, layout, root, e)
    ensures d == e
  {
    ReadsUnique(g, rep, root, Document(d), Document(e));
  }
}
