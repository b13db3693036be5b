/**
 BSON documents as Python objects, and back: the output converter builds a fresh object graph, and
 the input converter reads that graph as a document with the same bytes.
 */
module DocumentOutput {
  import opened Machine
  import opened Bson
  import opened PythonTime
  import opened PythonObjects

  // ---------------------------------------------------------------- regular expression options

  /** The flag bits, from letter `k` on, that the Python constructor sets for an option string. */
  function BitsFrom(options: Text, k: nat): nat
    requires k <= 6
    decreases 6 - k
  {
    if k == 6 then 0 else (if FlagLetter(k) in options then 1 else 0) + 2 * BitsFrom(options, k + 1)
  }

  /** One more than the largest word of the flags from letter `k` on. */
  function WordBound(k: nat): nat {
    match k
    case 0 => 64 case 1 => 32 case 2 => 16 case 3 => 8 case 4 => 4 case 5 => 2 case _ => 1
  }

  lemma {:induction false} BitsBound(options: Text, k: nat)
    requires k <= 6
    ensures BitsFrom(options, k) < WordBound(k)
    decreases 6 - k
  {
    if k < 6 {
      BitsBound(options, k + 1);
    }
  }

  function RegexFlags(options: Text): (flags: u32)
    ensures KnownFlags(flags)
  {
    BitsBound(options, 0);
    2 * BitsFrom(options, 0)
  }

  /** Options as the engine keeps them: known letters in the order of "ilmsux", each at most once. */
  ghost predicate Canonical(options: Text) {
    exists bits: nat :: options == OptionsFrom(bits, 0)
  }

  /** Flag `j` is set in a word whose lowest bit is flag `k`. */
  predicate FlagSet(bits: nat, k: nat, j: nat)
    requires k <= j < 6
    decreases j - k
  {
    if k == j then bits % 2 == 1 else FlagSet(bits / 2, k + 1, j)
  }

  lemma {:induction false} LetterMeaning(bits: nat, k: nat, j: nat)
    requires k <= 6 && j < 6
    ensures FlagLetter(j) in OptionsFrom(bits, k) <==> k <= j && FlagSet(bits, k, j)
    decreases 6 - k
  {
    if k < 6 {
      LetterMeaning(bits / 2, k + 1, j);
      assert FlagLetter(k) == FlagLetter(j) <==> k == j;
      assert OptionsFrom(bits, k) == (if bits % 2 == 1 then [FlagLetter(k)] else []) + OptionsFrom(bits / 2, k + 1);
    }
  }

  predicate Agrees(options: Text, bits: nat, k: nat)
    requires k <= 6
  {
    forall j | k <= j < 6 :: FlagLetter(j) in options <==> FlagSet(bits, k, j)
  }

  lemma AgreesNext(options: Text, bits: nat, k: nat)
    requires k < 6 && Agrees(options, bits, k)
    ensures Agrees(options, bits / 2, k + 1) && (FlagLetter(k) in options <==> bits % 2 == 1)
  {
    assert FlagLetter(k) in options <==> FlagSet(bits, k, k);
  }

  lemma OptionsStep(word: nat, bits: nat, k: nat)
    requires k < 6 && word % 2 == bits % 2 && OptionsFrom(word / 2, k + 1) == OptionsFrom(bits / 2, k + 1)
    ensures OptionsFrom(word, k) == OptionsFrom(bits, k)
  {
  }

  /** A word that has the flags of an option string yields the same letters as the constructor's word. */
  lemma {:induction false} SameLetters(options: Text, bits: nat, k: nat)
    requires k <= 6 && Agrees(options, bits, k)
    ensures OptionsFrom(BitsFrom(options, k), k) == OptionsFrom(bits, k)
    decreases 6 - k
  {
    if k < 6 {
      AgreesNext(options, bits, k);
      SameLetters(options, bits / 2, k + 1);
      Halves(BitsFrom(options, k), BitsFrom(options, k + 1), FlagLetter(k) in options);
      OptionsStep(BitsFrom(options, k), bits, k);
    }
  }

  lemma Halves(word: nat, rest: nat, low: bool)
    requires word == (if low then 1 else 0) + 2 * rest
    ensures word / 2 == rest && (word % 2 == 1 <==> low)
  {
  }

  lemma LettersRoundTrip(options: Text, bits: nat, k: nat)
    requires k <= 6 && options == OptionsFrom(bits, k)
    ensures OptionsFrom(BitsFrom(options, k), k) == options
  {
    forall j | k <= j < 6 ensures FlagLetter(j) in options <==> FlagSet(bits, k, j) {
      LetterMeaning(bits, k, j);
    }
    SameLetters(options, bits, k);
  }

  /** The flags the constructor sets for canonical options spell the same options. */
  lemma CanonicalRoundTrip(options: Text)
    requires Canonical(options)
    ensures RegexOptions(RegexFlags(options)) == options
  {
    var bits: nat :| options == OptionsFrom(bits, 0);
    LettersRoundTrip(options, bits, 0);
    assert RegexFlags(options) / 2 == BitsFrom(options, 0);
  }

  predicate Ascending(options: Text) {
    forall i, j | 0 <= i < j < |options| :: options[i] < options[j]
  }

  /** Options as the engine keeps them are in alphabetical order, each letter at most once. */
  lemma CanonicalIsSorted(options: Text)
    requires Canonical(options)
    ensures Ascending(options)
  {
    var bits: nat :| options == OptionsFrom(bits, 0);
    OptionsSorted(options, bits, 0);
  }

  lemma {:induction false} OptionsSorted(options: Text, bits: nat, k: nat)
    requires k <= 6 && options == OptionsFrom(bits, k)
    ensures Ascending(options) && forall c | c in options :: k < 6 && FlagLetter(k) <= c
    decreases 6 - k
  {
    if k < 6 {
      var rest := OptionsFrom(bits / 2, k + 1);
      OptionsSorted(rest, bits / 2, k + 1);
      assert k < 5 ==> FlagLetter(k) < FlagLetter(k + 1);
      if bits % 2 == 1 {
        Prepended(FlagLetter(k), rest);
      }
    }
  }

  lemma Prepended(letter: Scalar, rest: Text)
    requires Ascending(rest) && forall c | c in rest :: letter < c
    ensures Ascending([letter] + rest)
  {
    assert forall j | 0 <= j < |rest| :: rest[j] in rest;
  }

  /** The bits of `re.IGNORECASE`, `LOCALE`, `MULTILINE`, `DOTALL`, `UNICODE` and `VERBOSE`. */
  function FlagBit(j: nat): (bit: nat)
    ensures bit > 0
  {
    match j case 0 => 2 case 1 => 4 case 2 => 8 case 3 => 16 case 4 => 32 case _ => 64
  }

  /** An option letter is there exactly if its flag is set in the word. */
  lemma FlagMeaning(flags: u32, options: Text, j: nat)
    requires j < 6 && options == RegexOptions(flags)
    ensures FlagLetter(j) in options <==> flags / FlagBit(j) % 2 == 1
  {
    LetterMeaning(flags / 2, 0, j);
    FlagSetMeaning(flags / 2, 0, j);
    ShiftedMeaning(flags, j);
  }

  function Shifted(bits: nat, n: nat): nat {
    if n == 0 then bits else Shifted(bits, n - 1) / 2
  }

  lemma {:induction false} ShiftedMeaning(flags: nat, j: nat)
    requires j < 6
    ensures Shifted(flags / 2, j) == flags / FlagBit(j)
  {
    if j > 0 {
      ShiftedMeaning(flags, j - 1);
    }
  }

  lemma {:induction false} ShiftedNext(bits: nat, n: nat)
    ensures Shifted(bits / 2, n) == Shifted(bits, n + 1)
  {
    if n > 0 {
      ShiftedNext(bits, n - 1);
    }
  }

  lemma {:induction false} FlagSetMeaning(bits: nat, k: nat, j: nat)
    requires k <= j < 6
    ensures FlagSet(bits, k, j) <==> Shifted(bits, j - k) % 2 == 1
    decreases j - k
  {
    if k < j {
      FlagSetMeaning(bits / 2, k + 1, j);
      ShiftedNext(bits, j - k - 1);
    }
  }

  /** The letters of a word are the word: no flag is lost or added. */
  lemma {:induction false} SameWord(options: Text, bits: nat, k: nat)
    requires k <= 6 && Agrees(options, bits, k) && bits < WordBound(k)
    ensures BitsFrom(options, k) == bits
    decreases 6 - k
  {
    if k < 6 {
      AgreesNext(options, bits, k);
      SameWord(options, bits / 2, k + 1);
    }
  }

  /** A known flag word comes back from the options it spells. */
  lemma FlagsRoundTrip(flags: u32)
    requires KnownFlags(flags)
    ensures RegexFlags(RegexOptions(flags)) == flags && Canonical(RegexOptions(flags))
  {
    var bits := flags / 2;
    forall j | 0 <= j < 6 ensures FlagLetter(j) in RegexOptions(flags) <==> FlagSet(bits, 0, j) {
      LetterMeaning(bits, 0, j);
    }
    SameWord(RegexOptions(flags), bits, 0);
  }

  // ---------------------------------------------------------------- the engine's regular expressions

  datatype RegexError = PatternHasNul | UnknownOption

  function LetterIndex(c: CodePoint): (index: Option<nat>)
    ensures index.Some? ==> index.value < 6 && c == FlagLetter(index.value)
    ensures index.None? ==> forall j | 0 <= j < 6 :: c != FlagLetter(j)
  {
    if c == 0x69 then Some(0) else if c == 0x6C then Some(1) else if c == 0x6D then Some(2)
    else if c == 0x73 then Some(3) else if c == 0x75 then Some(4) else if c == 0x78 then Some(5)
    else None
  }

  /**
   `BsonRegex::new`: the letters are noted in any order and number, and come out in the order of
   "ilmsux". A byte of a longer UTF-8 sequence is no letter, so code points decide like bytes.
   */
  method NewRegex(pattern: Text, options: Text) returns (r: Result<Value, RegexError>)
    ensures r.Ok? <==> NulFree(pattern) && forall c | c in options :: LetterIndex(c).Some?
    ensures r.Ok? ==> r.value.Regex? && r.value.pattern == pattern && Built(r.value)
    ensures r.Ok? ==> forall c :: c in r.value.options <==> c in options
  {
    if 0 in pattern {
      return Err(PatternHasNul);
    }
    var flags := new bool[6](_ => false);
    for i := 0 to |options|
      invariant forall j | 0 <= j < 6 :: flags[j] <==> FlagLetter(j) in options[..i]
      invariant forall c | c in options[..i] :: LetterIndex(c).Some?
    {
      var index := LetterIndex(options[i]);
      if index.None? {
        return Err(UnknownOption);
      }
      flags[index.value] := true;
    }
    assert options[..|options|] == options;
    var letters := CollectLetters(flags, options);
    SameLetterSet(options);
    return Ok(Regex(pattern, letters));
  }

  /** The letters whose flag is set, in order. */
  method CollectLetters(flags: array<bool>, ghost options: Text) returns (letters: Text)
    requires flags.Length == 6 && forall j | 0 <= j < 6 :: flags[j] <==> FlagLetter(j) in options
    ensures letters == Ordered(options, 0)
  {
    letters := [];
    ghost var all := Ordered(options, 0);
    for k := 0 to 6
      invariant letters + Ordered(options, k) == all
    {
      OrderedStep(options, k);
      Shift(letters, if flags[k] then [FlagLetter(k)] else [], Ordered(options, k + 1));
      if flags[k] {
        letters := letters + [FlagLetter(k)];
      }
    }
  }

  lemma Shift(a: Text, b: Text, c: Text)
    ensures a + (b + c) == (a + b) + c && a + [] == a
  {
  }

  /** The option letters from letter `k` on, in order. */
  function Ordered(options: Text, k: nat): Text
    requires k <= 6
  {
    OptionsFrom(BitsFrom(options, k), k)
  }

  lemma OrderedStep(options: Text, k: nat)
    requires k < 6
    ensures Ordered(options, k) == (if FlagLetter(k) in options then [FlagLetter(k)] else []) + Ordered(options, k + 1)
  {
    Halves(BitsFrom(options, k), BitsFrom(options, k + 1), FlagLetter(k) in options);
  }

  lemma {:induction false} OrderedHas(options: Text, k: nat, c: CodePoint)
    requires k <= 6
    ensures c in Ordered(options, k) <==> c in options && LetterIndex(c).Some? && LetterIndex(c).value >= k
    decreases 6 - k
  {
    if k < 6 {
      OrderedHas(options, k + 1, c);
      OrderedStep(options, k);
      assert FlagLetter(k) == c <==> LetterIndex(c) == Some(k);
    }
  }

  lemma SameLetterSet(options: Text)
    requires forall c | c in options :: LetterIndex(c).Some?
    ensures Canonical(Ordered(options, 0)) && forall c :: c in Ordered(options, 0) <==> c in options
  {
    forall c: CodePoint ensures c in Ordered(options, 0) <==> c in options && LetterIndex(c).Some? {
      OrderedHas(options, 0, c);
    }
  }

  // ---------------------------------------------------------------- what a value comes back as

  /** Values whose parts passed the engine's own constructors. */
  ghost predicate Built(v: Value)
    decreases v, 0
  {
    match v
    case Document(doc) => BuiltEntries(doc.entries)
    case Array(items) => BuiltItems(items)
    case JavaScript(_, Some(scope)) => BuiltEntries(scope.entries)
    case Regex(pattern, options) => NulFree(pattern) && Canonical(options)
    case _ => true
  }

  ghost predicate BuiltEntries(entries: seq<Entry>)
    decreases entries, 0
  {
    entries != [] ==> BuiltEntries(entries[..|entries| - 1]) && Built(entries[|entries| - 1].value)
  }

  ghost predicate BuiltItems(items: seq<Value>)
    decreases items, 0
  {
    items != [] ==> BuiltItems(items[..|items| - 1]) && Built(items[|items| - 1])
  }

  lemma {:induction false} BuiltCStrings(v: Value)
    requires Built(v)
    ensures CStrings(v)
    decreases v, 0
  {
    match v
    case Document(doc) => BuiltEntriesCStrings(doc.entries);
    case Array(items) => BuiltItemsCStrings(items);
    case JavaScript(_, Some(scope)) => BuiltEntriesCStrings(scope.entries);
    case _ =>
  }

  lemma {:induction false} BuiltEntriesCStrings(entries: seq<Entry>)
    requires BuiltEntries(entries)
    ensures EntriesCStrings(entries)
    decreases entries, 0
  {
    if entries != [] {
      BuiltEntriesCStrings(entries[..|entries| - 1]);
      BuiltCStrings(entries[|entries| - 1].value);
    }
  }

  lemma {:induction false} BuiltItemsCStrings(items: seq<Value>)
    requires BuiltItems(items)
    ensures ItemsCStrings(items)
    decreases items, 0
  {
    if items != [] {
      BuiltItemsCStrings(items[..|items| - 1]);
      BuiltCStrings(items[|items| - 1]);
    }
  }

  /** A binary that fits the client's UUID representation is shown as a UUID. */
  function RenderedBinary(subtype: byte, bytes: seq<byte>, rep: Option<UuidRepresentation>): Value {
    if subtype != 0 && rep.Some? && subtype == rep.value.Subtype() && |bytes| == 16
    then Uuid(rep.value.Transform(bytes), rep.value)
    else Binary(subtype, bytes)
  }

  function Rendered(v: Value, rep: Option<UuidRepresentation>): Value
    decreases v, 0
  {
    match v
    case Document(doc) => Document(Doc(RenderedEntries(doc.entries, rep)))
    case Array(items) => Array(RenderedItems(items, rep))
    case JavaScript(code, Some(scope)) => JavaScript(code, Some(Doc(RenderedEntries(scope.entries, rep))))
    case Binary(subtype, bytes) => RenderedBinary(subtype, bytes, rep)
    case Uuid(uuid, own) => RenderedBinary(own.Subtype(), own.Transform(uuid), rep)
    case _ => v
  }

  function RenderedEntries(entries: seq<Entry>, rep: Option<UuidRepresentation>): (out: seq<Entry>)
    ensures |out| == |entries|
    decreases entries, 0
  {
    if entries == [] then []
    else
      var last := entries[|entries| - 1];
      RenderedEntries(entries[..|entries| - 1], rep) + [Entry(last.name, Rendered(last.value, rep))]
  }

  function RenderedItems(items: seq<Value>, rep: Option<UuidRepresentation>): (out: seq<Value>)
    ensures |out| == |items|
    decreases items, 0
  {
    if items == [] then [] else RenderedItems(items[..|items| - 1], rep) + [Rendered(items[|items| - 1], rep)]
  }

  /** Same type byte, bytes, depth and naming. */
  predicate Alike(v: Value, w: Value) {
    && EncodeValue(v) == EncodeValue(w) && TypeByte(v) == TypeByte(w)
    && Height(v) == Height(w) && (WellNamed(v) <==> WellNamed(w))
  }

  lemma {:induction false} SameBytes(v: Value, rep: Option<UuidRepresentation>)
    ensures Alike(Rendered(v, rep), v)
    decreases v, 0
  {
    if v.Document? {
      SameEntries(v.doc.entries, rep);
      SameFrame(RenderedEntries(v.doc.entries, rep), v.doc.entries);
      AlikeDocuments(Doc(RenderedEntries(v.doc.entries, rep)), v.doc);
    } else if v.Array? {
      SameItems(v.items, rep);
      AlikeArrays(Rendered(v, rep), v);
    } else if v.JavaScript? && v.scope.Some? {
      SameEntries(v.scope.value.entries, rep);
      SameFrame(RenderedEntries(v.scope.value.entries, rep), v.scope.value.entries);
      AlikeDocuments(Doc(RenderedEntries(v.scope.value.entries, rep)), v.scope.value);
    } else if v.Binary? {
      SameBinary(v.subtype, v.bytes, rep);
    } else if v.Uuid? {
      SameBinary(v.rep.Subtype(), v.rep.Transform(v.uuid), rep);
    }
  }

  lemma SameFrame(a: seq<Entry>, b: seq<Entry>)
    requires EncodeEntries(a) == EncodeEntries(b)
    ensures EncodeDoc(Doc(a)) == EncodeDoc(Doc(b))
  {
  }

  lemma AlikeDocuments(a: Doc, b: Doc)
    requires EncodeDoc(a) == EncodeDoc(b) && DocHeight(a) == DocHeight(b)
    requires EntriesNamed(a.entries) <==> EntriesNamed(b.entries)
    ensures Alike(Document(a), Document(b))
    ensures forall code :: Alike(JavaScript(code, Some(a)), JavaScript(code, Some(b)))
  {
  }

  lemma AlikeArrays(v: Value, w: Value)
    requires v.Array? && w.Array? && EncodeItems(v.items) == EncodeItems(w.items)
    requires ItemsHeight(v.items) == ItemsHeight(w.items) && (ItemsNamed(v.items) <==> ItemsNamed(w.items))
    ensures Alike(v, w)
  {
    SameArrayBytes(v.items, w.items);
  }

  lemma SameArrayBytes(a: seq<Value>, b: seq<Value>)
    requires EncodeItems(a) == EncodeItems(b)
    ensures EncodeValue(Array(a)) == EncodeValue(Array(b))
  {
  }

  lemma SameBinary(subtype: byte, bytes: seq<byte>, rep: Option<UuidRepresentation>)
    ensures EncodeValue(RenderedBinary(subtype, bytes, rep)) == EncodeBinary(subtype, bytes)
    ensures TypeByte(RenderedBinary(subtype, bytes, rep)) == 0x05 && Height(RenderedBinary(subtype, bytes, rep)) == 0
    ensures WellNamed(RenderedBinary(subtype, bytes, rep))
  {
    if RenderedBinary(subtype, bytes, rep).Uuid? {
      TransformInvolutive(rep.value, bytes);
    }
  }

  /** The same of entry lists: bytes, depth, names and naming. */
  predicate AlikeEntries(a: seq<Entry>, b: seq<Entry>) {
    && EncodeEntries(a) == EncodeEntries(b) && EntriesHeight(a) == EntriesHeight(b)
    && NamesOf(a) == NamesOf(b) && (EntriesNamed(a) <==> EntriesNamed(b))
  }

  lemma {:induction false} SameEntries(entries: seq<Entry>, rep: Option<UuidRepresentation>)
    ensures AlikeEntries(RenderedEntries(entries, rep), entries)
    decreases entries, 0
  {
    if entries != [] {
      var n := |entries| - 1;
      var out := RenderedEntries(entries, rep);
      SameEntries(entries[..n], rep);
      SameBytes(entries[n].value, rep);
      assert out[..n] == RenderedEntries(entries[..n], rep);
      SameEntryBytes(out, entries, n);
      SameEntryHeight(out, entries, n);
      SameEntryNames(out, entries, n);
    }
  }

  lemma SameEntryBytes(a: seq<Entry>, b: seq<Entry>, n: nat)
    requires |a| == |b| == n + 1 && a[n].name == b[n].name && Alike(a[n].value, b[n].value)
    requires EncodeEntries(a[..n]) == EncodeEntries(b[..n])
    ensures EncodeEntries(a) == EncodeEntries(b)
  {
  }

  lemma SameEntryHeight(a: seq<Entry>, b: seq<Entry>, n: nat)
    requires |a| == |b| == n + 1 && Alike(a[n].value, b[n].value) && EntriesHeight(a[..n]) == EntriesHeight(b[..n])
    ensures EntriesHeight(a) == EntriesHeight(b)
  {
  }

  lemma SameEntryNames(a: seq<Entry>, b: seq<Entry>, n: nat)
    requires |a| == |b| == n + 1 && a[n].name == b[n].name && Alike(a[n].value, b[n].value)
    requires NamesOf(a[..n]) == NamesOf(b[..n]) && (EntriesNamed(a[..n]) <==> EntriesNamed(b[..n]))
    ensures NamesOf(a) == NamesOf(b) && (EntriesNamed(a) <==> EntriesNamed(b))
  {
  }

  predicate AlikeItems(a: seq<Value>, b: seq<Value>) {
    && EncodeItems(a) == EncodeItems(b) && ItemsHeight(a) == ItemsHeight(b)
    && (ItemsNamed(a) <==> ItemsNamed(b))
  }

  lemma {:induction false} SameItems(items: seq<Value>, rep: Option<UuidRepresentation>)
    ensures AlikeItems(RenderedItems(items, rep), items)
    decreases items, 0
  {
    if items != [] {
      var n := |items| - 1;
      var out := RenderedItems(items, rep);
      SameItems(items[..n], rep);
      SameBytes(items[n], rep);
      assert out[..n] == RenderedItems(items[..n], rep);
      SameItemBytes(out, items, n);
      SameItemMeasures(out, items, n);
    }
  }

  lemma SameItemBytes(a: seq<Value>, b: seq<Value>, n: nat)
    requires |a| == |b| == n + 1 && Alike(a[n], b[n]) && EncodeItems(a[..n]) == EncodeItems(b[..n])
    ensures EncodeItems(a) == EncodeItems(b)
  {
  }

  lemma SameItemMeasures(a: seq<Value>, b: seq<Value>, n: nat)
    requires |a| == |b| == n + 1 && Alike(a[n], b[n])
    requires ItemsHeight(a[..n]) == ItemsHeight(b[..n]) && (ItemsNamed(a[..n]) <==> ItemsNamed(b[..n]))
    ensures ItemsHeight(a) == ItemsHeight(b) && (ItemsNamed(a) <==> ItemsNamed(b))
  {
  }

  // ---------------------------------------------------------------- leaves

  predicate IsLeaf(v: Value) {
    !v.Document? && !v.Array? && !v.JavaScript?
  }

  function BinaryToPython(subtype: byte, bytes: seq<byte>, rep: Option<UuidRepresentation>): Object {
    if subtype == 0 then BytesObject(bytes)
    else if rep.Some? && subtype == rep.value.Subtype() && |bytes| == 16 then UuidObject(rep.value.Transform(bytes))
    else BinaryObject(subtype, bytes)
  }

  function LeafToPython(v: Value, rep: Option<UuidRepresentation>): Object
    requires IsLeaf(v)
  {
    match v
    case Double(bits) => FloatObject(bits)
    case Str(text) => StrObject(text)
    case Binary(subtype, bytes) => BinaryToPython(subtype, bytes, rep)
    case Uuid(uuid, own) => BinaryToPython(own.Subtype(), own.Transform(uuid), rep)
    case ObjectId(oid) => ObjectIdObject(oid)
    case Boolean(truth) => BoolObject(truth)
    case DateTime(millis) => TimeToPython(millis)
    case Null => NoneObject
    case Regex(pattern, options) => RegexObject(Some(pattern), RegexFlags(options))
    case Int32(n) => IntObject(n)
    case Timestamp(time, increment) => TimestampObject(time, increment)
    case Int64(n) => Int64Object(n)
    case Decimal128(bid) => Decimal128Object(bid)
    case MinKey => MinKeyObject
    case MaxKey => MaxKeyObject
  }

  lemma BinaryRoundTrip(subtype: byte, bytes: seq<byte>, rep: Option<UuidRepresentation>)
    ensures LeafValue(BinaryToPython(subtype, bytes, rep), rep) == Some(RenderedBinary(subtype, bytes, rep))
  {
  }

  function TimeToPython(millis: i64): (o: Object)
    ensures o.DatetimeObject? || o.DatetimeMsObject?
  {
    var instant := DatetimeToPython(millis);
    if instant.Aware? then DatetimeObject(instant.dt) else DatetimeMsObject(instant.millis)
  }

  lemma TimeRoundTrip(millis: i64, rep: Option<UuidRepresentation>)
    ensures LeafValue(TimeToPython(millis), rep) == Some(DateTime(millis))
  {
    MillisRoundTrip(millis);
  }

  lemma RegexRoundTrip(pattern: Text, options: Text, rep: Option<UuidRepresentation>)
    requires NulFree(pattern) && Canonical(options)
    ensures LeafValue(RegexObject(Some(pattern), RegexFlags(options)), rep) == Some(Regex(pattern, options))
  {
    CanonicalRoundTrip(options);
    RegexReads(pattern, RegexFlags(options), options, rep);
  }

  lemma RegexReads(pattern: Text, flags: u32, options: Text, rep: Option<UuidRepresentation>)
    requires NulFree(pattern) && KnownFlags(flags) && RegexOptions(flags) == options
    ensures LeafValue(RegexObject(Some(pattern), flags), rep) == Some(Regex(pattern, options))
  {
    assert ValidText(pattern);
  }

  /** A leaf object reads back as the leaf it was made from, up to the view of UUIDs. */
  lemma LeafRoundTrip(v: Value, rep: Option<UuidRepresentation>)
    requires IsLeaf(v) && Built(v)
    ensures !IsContainer(LeafToPython(v, rep)) && !LeafToPython(v, rep).CodeObject?
    ensures LeafValue(LeafToPython(v, rep), rep) == Some(Rendered(v, rep))
  {
    if v.DateTime? {
      TimeRoundTrip(v.millis, rep);
    } else if v.Regex? {
      RegexRoundTrip(v.pattern, v.options, rep);
    } else if v.Binary? {
      BinaryRoundTrip(v.subtype, v.bytes, rep);
    } else if v.Uuid? {
      BinaryRoundTrip(v.rep.Subtype(), v.rep.Transform(v.uuid), rep);
    }
  }

  // ---------------------------------------------------------------- in and back out

  /**
   An object as the client sees it again. Most come back as they were; a wide integer comes back as the
   64-bit type, a binary of subtype 0 as bytes, one that fits the client's UUID representation as a UUID,
   and a time as the UTC datetime of its millisecond, or as `DatetimeMS` outside years 1 to 9999.
   */
  function Shown(o: Object, rep: Option<UuidRepresentation>): Object {
    match o
    case IntObject(n) => if FitsI32(n) then o else Int64Object(n)
    case BinaryObject(subtype, payload) =>
      if subtype == 0 then BytesObject(payload)
      else if rep.Some? && subtype == rep.value.Subtype() && |payload| == 16
      then UuidObject(rep.value.Transform(payload))
      else o
    case DatetimeMsObject(n) => if FitsI64(n) then TimeToPython(n) else o
    case DatetimeObject(dt) =>
      var millis := UtcMicros(dt) / 1000;
      if FitsI64(millis) then TimeToPython(millis) else o
    case _ => o
  }

  lemma UuidShown(uuid: Bytes16, rep: UuidRepresentation)
    ensures LeafToPython(Uuid(uuid, rep), Some(rep)) == UuidObject(uuid)
  {
    TransformInvolutive(rep, uuid);
  }

  /** What a leaf object reads as is shown as that object again, up to the view. */
  lemma LeafShown(o: Object, rep: Option<UuidRepresentation>)
    requires !IsContainer(o) && !o.CodeObject? && LeafValue(o, rep).Some?
    ensures var v := LeafValue(o, rep).value; IsLeaf(v) && Built(v) && LeafToPython(v, rep) == Shown(o, rep)
  {
    if o.DatetimeObject? {
      DatetimeReads(o.dt, rep);
    } else if o.RegexObject? {
      RegexShown(o.pattern.value, o.flags, rep);
    } else if o.UuidObject? {
      UuidShown(o.uuid, rep.value);
    }
  }

  lemma DatetimeReads(dt: Datetime, rep: Option<UuidRepresentation>)
    ensures var millis := UtcMicros(dt) / 1000;
            LeafValue(DatetimeObject(dt), rep) == if FitsI64(millis) then Some(DateTime(millis)) else None
  {
    DatetimeMillisExact(dt);
  }

  lemma RegexShown(pattern: PyText, flags: u32, rep: Option<UuidRepresentation>)
    requires LeafValue(RegexObject(Some(pattern), flags), rep).Some?
    ensures var v := LeafValue(RegexObject(Some(pattern), flags), rep).value;
            v.Regex? && Built(v) && LeafToPython(v, rep) == RegexObject(Some(pattern), flags)
  {
    FlagsRoundTrip(flags);
  }

  lemma TimeShown(millis: i64, rep: Option<UuidRepresentation>)
    ensures Shown(TimeToPython(millis), rep) == TimeToPython(millis)
  {
    DatetimeToPythonExact(millis);
  }

  /** A view changes nothing about whether an object can be read. */
  lemma SameReadable(o: Object, rep: Option<UuidRepresentation>)
    requires !IsContainer(o) && !o.CodeObject?
    ensures !IsContainer(Shown(o, rep)) && !Shown(o, rep).CodeObject?
    ensures LeafValue(o, rep).Some? <==> LeafValue(Shown(o, rep), rep).Some?
  {
    if o.DatetimeObject? {
      DatetimeMillisExact(o.dt);
      var millis := UtcMicros(o.dt) / 1000;
      if FitsI64(millis) {
        TimeRoundTrip(millis, rep);
      }
    } else if o.DatetimeMsObject? && FitsI64(o.number) {
      TimeRoundTrip(o.number, rep);
    }
  }

  /** A leaf object can be read exactly if some leaf value is shown as its view. */
  lemma LeafReadable(o: Object, rep: Option<UuidRepresentation>)
    requires !IsContainer(o) && !o.CodeObject?
    ensures LeafValue(o, rep).Some? <==> exists v :: IsLeaf(v) && Built(v) && LeafToPython(v, rep) == Shown(o, rep)
  {
    if LeafValue(o, rep).Some? {
      LeafShown(o, rep);
    }
    if v :| IsLeaf(v) && Built(v) && LeafToPython(v, rep) == Shown(o, rep) {
      LeafRoundTrip(v, rep);
      SameReadable(o, rep);
    }
  }

  lemma RenderedLeaf(v: Value, rep: Option<UuidRepresentation>)
    requires IsLeaf(v)
    ensures IsLeaf(Rendered(v, rep)) && LeafToPython(Rendered(v, rep), rep) == LeafToPython(v, rep)
  {
    if v.Binary? && Rendered(v, rep).Uuid? {
      TransformInvolutive(rep.value, v.bytes);
    } else if v.Uuid? && Rendered(v, rep).Uuid? {
      TransformInvolutive(rep.value, v.rep.Transform(v.uuid));
    }
  }

  /** The objects made for leaves are their own view. */
  lemma ShownLeaf(v: Value, rep: Option<UuidRepresentation>)
    requires IsLeaf(v) && Built(v)
    ensures Shown(LeafToPython(v, rep), rep) == LeafToPython(v, rep)
  {
    LeafRoundTrip(v, rep);
    LeafShown(LeafToPython(v, rep), rep);
    RenderedLeaf(v, rep);
  }
}
