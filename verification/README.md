# BriskDB: a verified model of its hard core

BriskDB is an embedded database with SQL and document frontends and Python bindings. This project
models the parts of it whose correctness is not visible from any single function, and proves what
they promise for every input, every run and every interleaving.

* **Documents from Python and back.** An object graph, possibly shared or cyclic, becomes a BSON tree
  under a wire budget, a heap budget and a depth limit. Conversion succeeds exactly on the graphs that
  unfold to a tree within the limits, its budget ends at exactly the limit less the encoded length, and
  it makes at most (16 MiB - 5) / 2 value conversions. In the other direction a BSON document
  becomes fresh Python objects that read back as a document with the same bytes. And what a client hands
  in comes back out as the same objects, one by one, up to the view of leaves.
* **The codec's two encoding passes and the retained-memory meter.** Early-abort traversals with machine
  arithmetic that accept exactly what plain recursive measures accept. The measures themselves are weighted
  counts of what is in a document, and the bytes read as the numbers, lengths and types they stand for. The second encoding pass, which
  appends and re-frames, refuses nothing the first let through and yields the specified bytes, from which
  the document can be told.
* **Remote SQLite scans.** The server's frame builder, the wire format, and the C cursor that validates
  and walks a frame. A frame is accepted exactly if it encodes one table, and a scan returns the
  engine's values losslessly or is refused.
* **Contention backoff.** A budget object over time, whole runs of it, and many budgets that share one
  pair of counters.
* **Listener lifecycle.** `serve`, managed-listener start, listener `close` and `Database.close` as atomic
  steps of any number of threads, with their four levels of locks and their weak registries. Every outcome a
  call reports has its cause in the run, and every cause its outcome.
* **Catalog.** Binary-search lookups against a plain scan, and the compare-and-swap publication of the
  schema generation.
* **Authorization policies**, with what scopes cover and how they are nested, and the **parity gate**, whose
  verdict is stated over the executions in the result files.

Every file is one module. `Machine` holds machine integers and little-endian words, `Bson` the values, the
byte format of the BSON specification 1.1 and the measures on values, `PythonObjects` the object graphs.
Code that updates state is modelled by classes and methods with loops, pure code by functions. Two
protocols, the lifecycle and the generation, are state machines over their atomic steps.

Where the model makes a choice:

* Sizes of Rust structs (`size_of`) are parameters (`Layout`), as are clock readings, random numbers, the
  outcome of bind and close calls, and the cancellation check of the memory meter.
* Durations are natural numbers of nanoseconds. Saturation and integer widths are written out where the
  code has them.
* A Python object is an abstract node with fixed contents. A call into Python that fails of itself is not
  modelled.
* The retained-memory meter and the converter work on a 64-bit `usize`.
* With full jitter a refused backoff request can be followed by a granted one. `JitterCanRecover` gives
  such a run, and `RefusedForever` the exact condition under which a refusal is final.
* The role limit counts repeated roles, so a list can be refused where the same roles without repetition
  are not: `RepeatedRoleIsRefused` gives the input, `RepetitionOnlyCounts` the exact condition.
* A document within the codec's limits may still be too large for the input converter's heap budget once
  it has been turned into Python objects. `RoundTripCanFail` gives such documents, and `RoundTrip` states the
  exact condition.

## Model

| member | source | states |
|---|---|---|
| DocumentInput.ExtractDocument | python/src/bson.rs:283-287 | An object becomes a document exactly if it unfolds to a finite tree of depth at most 100 with distinct NUL-free names, encoded length at most 16 MiB and heap charge at most 64 MiB; the wire budget left is the limit less the length of the encoding; the codec never refuses what conversion accepted; at most (16 MiB - 5) / 2 value conversions happen on any run; a cycle error means a reachable cycle, and a reachable cycle is never accepted |
| DocumentInput.AcceptableUnique | python/src/bson.rs:283-352 | The document an object graph converts to is unique |
| PythonRoundTrip.Echo | python/src/bson.rs:283-352 | In and back out: exactly the objects that can be taken in are shown again, and the new objects mirror the old ones, containers of the same kind with the same keys in the same order and leaves up to their view |
| PythonRoundTrip.ShownMirrors | python/src/bson.rs:845-923 | Objects that show what an object reads as mirror that object, however it shares or nests |
| DocumentOutput.LeafShown | python/src/bson.rs:386-550 | What a leaf object reads as is shown as that object again, up to the view: a wide integer as the 64-bit type, subtype 0 as bytes, a binary that fits the UUID representation as a UUID, a time as its UTC millisecond |
| DocumentOutput.LeafReadable | python/src/bson.rs:386-550 | A leaf object can be read exactly if some leaf value is shown as its view |
| PythonRoundTrip.IntegersKept | python/src/bson.rs:398-416 | An integer is taken exactly if 64 bits hold it, in four bytes exactly if it is a plain one that 32 bits hold, and its bytes read as the integer |
| PythonRoundTrip.WordsKept | python/src/bson.rs:386-550 | Floats, booleans and timestamps keep their bits on the wire, and a datetime its UTC millisecond |
| PythonRoundTrip.ReadsBuilt | python/src/bson.rs:601-644 | What an object reads as satisfies the engine's own constructors |
| DocumentOutput.FlagsRoundTrip | python/src/bson.rs:610-630 | A known flag word comes back from the options it spells |
| DocumentOutput.FlagMeaning | python/src/bson.rs:617-628 | An option letter is there exactly if its bit is set in the flag word |
| DocumentOutput.CanonicalIsSorted | src/document/value.rs:344-373 | Options as the engine keeps them are in alphabetical order without repetition |
| PythonObjects.ReadsUnique | python/src/bson.rs:386-550 | An object reads as at most one BSON tree |
| PythonObjects.ReadableIsAcyclic | python/src/bson.rs:289-298 | An object that reads as a tree cannot reach a cycle |
| PythonObjects.ReadsAlong | python/src/bson.rs:289-298 | Along every path from an object that reads as a tree, each object reads as a strictly smaller tree |
| InputConverter.InputConverter.ConvertDocument | python/src/bson.rs:289-352 | Success yields the tree the mapping reads as and charges exactly its wire and heap cost; failure means no tree fits the budgets, depth and active set at entry; the active set is exactly the objects on the path from the root |
| InputConverter.InputConverter.ConvertFields | python/src/bson.rs:301-352 | The field loop keeps a converted prefix with its exact charge, and a field that fails rules out every tree for the mapping |
| InputConverter.InputConverter.ConvertField | python/src/bson.rs:299-343 | One turn: a distinct NUL-free name and a converted value, at least two wire bytes before the value call |
| InputConverter.InputConverter.ConvertKey | python/src/bson.rs:307-330 | A key is accepted exactly if it is a valid NUL-free string that fits both budgets |
| InputConverter.InputConverter.ConvertArray | python/src/bson.rs:354-384 | The same for sequences, with the decimal digits of every index and the saturating slot charge |
| InputConverter.InputConverter.ConvertItems | python/src/bson.rs:361-384 | The item loop keeps a converted prefix with its exact charge |
| InputConverter.InputConverter.ConvertItem | python/src/bson.rs:361-378 | One turn: index digits and framing charged before the value call |
| InputConverter.InputConverter.ConvertValue | python/src/bson.rs:386-550 | The type dispatch: exact value, exact charge, and failure only if no tree fits |
| InputConverter.InputConverter.ConvertCode | python/src/bson.rs:646-681 | Code with or without scope, the object entered and left around its scope |
| InputConverter.InputConverter.ConvertCodeBody | python/src/bson.rs:650-681 | Code text and scope are charged exactly, and every failure is final |
| InputConverter.InputConverter.ConvertLeaf | python/src/bson.rs:386-550 | A leaf converts exactly if it is individually valid and fits, with its exact charge |
| InputConverter.InputConverter.ConvertNumber | python/src/bson.rs:386-550 | The same for `None`, booleans, integers, floats and datetimes, where the width depends on the value; `IntegersKept` and `WordsKept` say what the values are |
| InputConverter.InputConverter.ConvertIdentifier | python/src/bson.rs:386-550 | The same for UUIDs, object identifiers, decimals, timestamps and the two keys; an unknown type never converts |
| InputConverter.InputConverter.ConvertFixed | python/src/bson.rs:249-255 | A value of fixed width costs its width and no heap, or is refused |
| InputConverter.InputConverter.ConvertString | python/src/bson.rs:552-568 | Exact UTF-8 length charged to both budgets, or refused |
| InputConverter.InputConverter.ConvertBinary | python/src/bson.rs:570-599 | Binary subtypes with the doubled length of subtype 2 |
| InputConverter.InputConverter.ConvertRegex | python/src/bson.rs:601-644 | Pattern and canonical option letters, exact charge or refusal |
| InputConverter.CollectOptions | python/src/bson.rs:601-644 | The loop over the flag letters yields exactly the options of the flag word |
| InputConverter.InputConverter.Wire | python/src/bson.rs:249-255 | A charge succeeds exactly if it fits and is taken in full or not at all |
| InputConverter.InputConverter.Heap | python/src/bson.rs:257-263 | The same for the heap budget |
| InputConverter.InputConverter.Enter | python/src/bson.rs:792-798 | Entering succeeds exactly for an object that is not active |
| InputConverter.InputConverter.Leave | python/src/bson.rs:800-802 | Leaving removes the object from the active set |
| InputConverter.InputConverter.FieldFailureIsFinal | python/src/bson.rs:299-343 | If the next field fits no entry, the mapping reads as no tree within the budgets at entry |
| InputConverter.InputConverter.KeyFailureIsFinal | python/src/bson.rs:307-330 | A key that is no affordable name, or one already taken, leaves no entry for the field |
| InputConverter.InputConverter.ItemFailureIsFinal | python/src/bson.rs:361-378 | If the next item fits no value, the sequence reads as no tree within the budgets at entry |
| InputConverter.InputConverter.ScopeFailureIsFinal | python/src/bson.rs:650-681 | If the scope converts to no document, the code object reads as no tree within the budgets at entry |
| InputConverter.InputConverter.SlotsFailureIsFinal | python/src/bson.rs:354-384 | A slot charge beyond the heap budget rules out every tree |
| Charges.PreflightString | python/src/bson.rs:724-790 | The ASCII fast path and the 65536-character chunk loop return exactly the UTF-8 length, exactly if the text is valid and fits; each error has its reason |
| Charges.MeasureChunks | python/src/bson.rs:747-789 | Chunk by chunk, exactly the length of the whole text, exactly if it is valid and fits |
| Charges.DecimalDigits | python/src/bson.rs:1024-1031 | The division loop counts the digits of the decimal numeral |
| Charges.SlotsSaturate | python/src/bson.rs:354-384 | The saturating slot charge decides like the exact product |
| Charges.HeapOfContents | python/src/bson.rs:299-384 | The heap charge is a weighted count of the contents: per entry two slots and eight string references, per array item two slots, every name twice and every text once |
| PythonTime.DatetimeMillisFloors | python/src/bson.rs:683-714 | No 128-bit step overflows, and the result is the floor of the UTC instant in milliseconds |
| PythonTime.DatetimeMillisExact | python/src/bson.rs:683-714 | For any attributes the result is the floor of the instant if 64 bits hold it, and an error otherwise |
| PythonTime.DatetimeMillisMonotone | python/src/bson.rs:683-714 | Later instants never come out earlier, and equal instants under different offsets come out equal |
| PythonTime.DatetimeToPythonExact | python/src/bson.rs:942-970 | The Python datetime is the exact instant, in UTC, and exists exactly for years 1 to 9999 |
| PythonTime.MillisRoundTrip | python/src/bson.rs:942-970 | Out to Python and back is the identity on every 64-bit millisecond |
| PythonTime.InstantRoundTrip | python/src/bson.rs:683-714 | In and back out is the same UTC instant less its sub-millisecond part |
| BsonCodec.EncodedDocumentLen | src/document/codec.rs:452-484 | The preflight accepts a document exactly if it is within the size, depth and name limits, with the length of its encoding |
| BsonCodec.EncodedEntryLen | src/document/codec.rs:462-482 | One turn of the entry loop accepts exactly the entries that fit |
| BsonCodec.EncodedArrayLen | src/document/codec.rs:486-508 | The same for arrays, index names included |
| BsonCodec.EncodedValueLen | src/document/codec.rs:510-556 | Exact length of every accepted value; every value within the limits is accepted |
| BsonCodec.EncodedScopedCodeLen | src/document/codec.rs:510-556 | Code with scope is accepted exactly if code, scope and framing fit together |
| BsonEncoder.EncodeDocument | src/document/codec.rs:197-205 | The two passes succeed exactly on valid limits, a document within them and regular expressions without a NUL, and the bytes built element by element are those of the BSON specification |
| BsonEncoder.EncodeRawDocument | src/document/codec.rs:427-450 | With its own depth, duplicate, name and size guards the second pass accepts exactly the documents within the limits whose regular expressions are C strings, so it refuses nothing the preflight let through of what the engine can build |
| BsonEncoder.EncodeRawEntry | src/document/codec.rs:436-448 | One turn of the entry loop accepts exactly the entries that fit and appends their element |
| BsonEncoder.EncodeRawArray | src/document/codec.rs:573-588 | The same for arrays, with the index as the name |
| BsonEncoder.EncodeRawItem | src/document/codec.rs:582-585 | One turn of the item loop |
| BsonEncoder.AppendValue | src/document/codec.rs:445-447 | Value, append and size guard, accepted exactly if the grown buffer stays within the limit |
| BsonEncoder.Append | src/document/codec.rs:446 | Appending over the terminator and rewriting the length turns the frame of some elements into the frame of one more |
| BsonEncoder.EncodeRawValue | src/document/codec.rs:590-657 | A value becomes its type byte and payload exactly if its names, regular expressions, depth and own size guards allow; values of fixed width have no guard of their own and are bounded by the append that follows |
| BsonEncoder.EncodeRawCode | src/document/codec.rs:630-644 | Code is accepted exactly if its text fits and its scope is accepted, with the length of the whole in front |
| BsonEncoder.EncodeRawBinary | src/document/codec.rs:659-677 | A binary is accepted exactly if payload and framing fit |
| BsonEncoder.EncodeRawRegex | src/document/codec.rs:618-629 | A regular expression is accepted exactly if both parts fit and hold no NUL |
| BsonEncoder.EnsureString | src/document/codec.rs:679-693 | A string is accepted exactly if its five framing bytes fit with it, machine overflow included |
| PythonObjects.ReadsCStrings | python/src/bson.rs:601-644 | No regular expression that an object reads as holds a NUL |
| DocumentOutput.BuiltCStrings | src/document/value.rs:344-373 | No regular expression that the engine's constructor made holds a NUL |
| Bson.EntriesNamedMeaning | src/document/codec.rs:461-473 | The incremental name check means that names are pairwise distinct and free of NULs, at every level |
| Bson.EncodedValueLength | src/document/codec.rs:510-556 | The added-up length of a value is the length of its bytes |
| Bson.EncodedDocLength | src/document/codec.rs:452-484 | The added-up length of a document is the length of its bytes |
| BsonStructure.LengthOfContents | src/document/codec.rs:510-556 | The encoding holds every name, text and index digit, two bytes for each and five for each document, and at most 21 bytes more for each value |
| BsonStructure.ValuesHavePlaces | src/document/codec.rs:452-508 | Every value inside another is an entry's or an array item |
| BsonStructure.HeightIsReached | src/document/codec.rs:452-556 | Some containers are nested as deep as the height says |
| BsonStructure.HeightIsMost | src/document/codec.rs:452-556 | And none are nested deeper |
| BsonBytes.IntegerBytes | src/document/codec.rs:590-657 | The bytes of integers and datetimes read as the number in two's complement, least significant byte first |
| BsonBytes.WordBytes | src/document/codec.rs:590-657 | The bytes of a float are its bits, of a boolean 1 or 0, of a timestamp the seconds above the increment |
| BsonBytes.VerbatimBytes | src/document/codec.rs:590-657 | Object identifiers and decimals are written as they are, nulls and keys as nothing |
| BsonBytes.TypeByteMeaning | src/document/codec.rs:590-657 | The type byte tells the type |
| BsonBytes.DocumentCountsItself | src/document/codec.rs:427-450 | A document begins with its length and ends with a zero byte |
| BsonBytes.ArrayCountsItself | src/document/codec.rs:573-588 | The same for arrays |
| BsonBytes.StringCountsItself | src/document/codec.rs:590-657 | A string begins with the length of its UTF-8 bytes and terminator |
| BsonBytes.BinaryCountsItself | src/document/codec.rs:659-677 | Length, subtype and payload of a binary, with the second length of subtype 2 |
| BsonBytes.UuidBytes | src/document/value.rs:555-569 | A UUID is a sixteen-byte binary of subtype 4 in the standard representation and 3 in the older ones |
| BsonBytes.RegexBytes | src/document/codec.rs:618-629 | Pattern and options, each ended by a zero byte |
| BsonBytes.CodeCountsItself | src/document/codec.rs:630-644 | Code with a scope begins with the length of the whole |
| BsonBytes.DecimalTextReads | src/document/codec.rs:573-588 | The name of an array item reads as its index and has no leading zero |
| BsonBytes.HelloWorld | src/document/codec.rs:197-205 | The first example of the BSON specification, byte for byte |
| Bson.TransformInvolutive | src/document/value.rs:562-587 | Each UUID byte order transformation is its own inverse |
| Bson.TransformMeaning | src/document/value.rs:571-587 | The Java representation stores both halves of a UUID little-endian, the C# one its first three fields, the others nothing |
| BsonUnique.UniquelyDecodable | src/document/codec.rs:261-301 | Two documents the encoder accepts have the same bytes exactly if they are the same document once every UUID is the binary it is stored as |
| BsonUnique.SameValue | src/document/codec.rs:329-425 | A value of known type is determined by the bytes in front, and so is where it ends |
| BsonUnique.SameEntriesFrom | src/document/codec.rs:261-301 | Elements up to the terminator are determined one by one, and so is where the document ends |
| BsonUnique.SameItemsFrom | src/document/codec.rs:303-327 | The same for arrays |
| BsonUnique.SameCString | src/document/codec.rs:274-276 | A name or pattern without a NUL is determined by the bytes up to the first zero |
| BsonUnique.SameText | src/document/codec.rs:846-859 | A text is determined by its UTF-8 bytes |
| OutputConverter.RoundTrip | python/src/bson.rs:824-923 | Out to Python and back in: a document within the codec's limits returns exactly if its objects fit the heap budget, and then it is the same document as the client's UUID representation shows it, with the same bytes |
| OutputConverter.RoundTripCanFail | python/src/bson.rs:354-384 | Documents that do not return: an array of about a million nulls is within the codec's limits, and its slots alone exceed the heap budget |
| OutputConverter.DocumentToPython | python/src/bson.rs:824-828 | Succeeds exactly within the codec's limits, with a closed object graph that reads as the document and in which every object is its own view |
| OutputConverter.OutputConverter.ConvertDocument | python/src/bson.rs:837-843 | Filling a dictionary entry by entry leaves all earlier objects alone and ends with objects that read as the document |
| OutputConverter.OutputConverter.ConvertValue | python/src/bson.rs:845-923 | New objects under new identities that read as the value |
| OutputConverter.OutputConverter.ConvertArray | python/src/bson.rs:852-858 | The same for lists |
| OutputConverter.OutputConverter.ConvertCode | python/src/bson.rs:875-889 | The same for code, with the scope as a mapping or `None` |
| OutputConverter.OutputConverter.AddEntry | python/src/bson.rs:839-841 | One turn of the entry loop: the value's objects are created, then the key is set on the dictionary |
| OutputConverter.OutputConverter.AddItem | python/src/bson.rs:853-855 | One turn of the item loop: the item's objects are created, then appended to the list |
| OutputConverter.SetNewItem | python/src/bson.rs:839-841 | Setting a key the dictionary does not have puts it last |
| OutputConverter.RenderedDocument | python/src/bson.rs:824-843 | The whole document keeps its bytes, depth and names |
| OutputConverter.ReadsWithin | python/src/bson.rs:837-858 | Creating further objects does not change what an object reads as |
| DocumentOutput.SameBytes | python/src/bson.rs:925-940 | A value shown under the client's UUID representation keeps its type byte, bytes, depth and names |
| DocumentOutput.LeafRoundTrip | python/src/bson.rs:845-940 | A leaf object reads back as the leaf it was made from, up to the view of UUIDs |
| DocumentOutput.TimeRoundTrip | python/src/bson.rs:942-970 | A BSON datetime shown as a Python object reads back as the same millisecond |
| DocumentOutput.SameBinary | python/src/bson.rs:925-940 | A binary shown as a UUID encodes to the same bytes |
| DocumentOutput.CanonicalRoundTrip | python/src/bson.rs:869-874 | The option string of a canonical regular expression survives the conversion to a Python flag word and back |
| DocumentOutput.NewRegex | src/document/value.rs:344-373 | The constructor accepts exactly patterns without a NUL and known option letters, keeps the set of letters and puts them in canonical order |
| DocumentOutput.CollectLetters | src/document/value.rs:367-371 | The letters whose flag is set, in order |
| RetainedMemory.DocumentBytes | src/document/memory.rs:7-15 | With a check that never fails the result is the plain size if it is within the maximum and a limit error otherwise; a failing check is reported at its first failure; a result comes after exactly one check per value, and there are at most maximum / 128 + 1 checks |
| RetainedMemory.ValueBytes | src/document/memory.rs:17-25 | The same for one value, whose own check comes before any charge |
| RetainedMemory.RetainedContents | src/document/memory.rs:40-85 | The plain size is 128 for every value and every document, and one for every byte of a name, string, binary, pattern, option or code |
| RetainedMemory.RetainedAgainstEncoding | src/document/memory.rs:40-85 | A document retains at least the bytes of its encoding, array indexes aside, and at most 64 times as many |
| RetainedMemory.TextRetained | src/document/memory.rs:63-82 | A text retains its overhead and exactly the bytes its encoding holds besides the framing |
| RetainedMemory.Add | src/document/memory.rs:27-38 | An amount is charged exactly if the total stays within the maximum, machine overflow included |
| RetainedMemory.ChargeDocument | src/document/memory.rs:40-52 | The accumulator ends at the plain size, or the traversal stopped for the right reason |
| RetainedMemory.ChargeEntry | src/document/memory.rs:47-50 | One turn of the entry loop: the name, then the value |
| RetainedMemory.ChargeValue | src/document/memory.rs:54-85 | The same for one value, with one check before it |
| RetainedMemory.ChargePayload | src/document/memory.rs:62-85 | The part of a value beyond its fixed overhead, by type |
| RetainedMemory.Open | src/document/memory.rs:60-61 | Every value begins with one check and then its overhead |
| RetainedMemory.ChargeRegex | src/document/memory.rs:72-75 | Pattern, then options |
| RetainedMemory.ChargeCode | src/document/memory.rs:76-82 | Code text, then its scope if there is one |
| RetainedMemory.ChargeItems | src/document/memory.rs:65-70 | The array loop stops at the first item that does not fit |
| RemoteFrame.ReadCellExact | python/src/remote_sqlite.c:147-160 | Reading a cell accepts exactly the encodings of cells, and yields the encoded cell |
| RemoteFrame.ReadFrameExact | python/src/remote_sqlite.c:162-216 | Reading a frame accepts exactly the encodings of tables for the declared columns and at most 4096 rows, with no byte left over |
| RemoteFrame.ReadRowsEncodes | python/src/remote_sqlite.c:195-210 | Rows that can be read are the encoding of a table |
| RemoteFrame.ReadRowsDecodes | python/src/remote_sqlite.c:195-210 | The encoding of a table can be read, and reads as that table |
| RemoteFrame.Read32Exact | python/src/remote_sqlite.c:32-35 | A little-endian word is read exactly from the bytes that encode it |
| RemoteFrame.Read64Exact | python/src/remote_sqlite.c:37-39 | The same for 64 bits |
| RemoteFrame.Read32Bytes | python/src/remote_sqlite.c:32-35 | The 32-bit word is its four bytes, each shifted by eight bits more than the one before |
| RemoteFrame.Read64Halves | python/src/remote_sqlite.c:37-39 | The 64-bit word is its two 32-bit halves, low word first |
| RemoteCursor.Scan | python/src/remote_sqlite.c:147-258 | `filter`, `column`, `next`, `eof` together succeed exactly on a blob of at most 8 MiB that encodes a table, and return that table |
| RemoteCursor.ScanRows | python/src/remote_sqlite.c:218-258 | Row by row until the end, the whole table in order |
| RemoteCursor.Cursor.SkipTable | python/src/remote_sqlite.c:195-210 | The validation loops accept exactly the stated number of whole rows |
| RemoteCursor.Cursor.Filter | python/src/remote_sqlite.c:162-216 | Accepts exactly one whole frame; on refusal the cursor is empty |
| RemoteCursor.Cursor.Next | python/src/remote_sqlite.c:218-228 | Never fails after an accepted frame and advances by one row until the end |
| RemoteCursor.Cursor.Eof | python/src/remote_sqlite.c:230-233 | True exactly behind the last row |
| RemoteCursor.Cursor.Column | python/src/remote_sqlite.c:235-258 | Any column of the current row, in any order, is the table's cell; misuse is refused |
| RemoteCursor.SkipCell | python/src/remote_sqlite.c:147-160 | Skips exactly the bytes of one well-formed cell |
| RemoteCursor.SkipRow | python/src/remote_sqlite.c:218-228 | Cell by cell over exactly one row |
| RemoteCursor.DecodeCell | python/src/remote_sqlite.c:235-258 | Decodes the cell at an offset |
| RemoteServer.AppendValue | src/protocol/sqlite_remote.rs:394-436 | A value is appended exactly if SQLite can hold it losslessly and the frame stays within 8 MiB |
| RemoteServer.AppendRow | src/protocol/sqlite_remote.rs:387-389 | The value loop appends the encoding of the lossless row, or refuses exactly if there is none that fits |
| RemoteServer.LosslessDetermines | src/protocol/sqlite_remote.rs:394-419 | Among values of one type the cell sent determines the value |
| RemoteServer.LosslessMeaning | src/protocol/sqlite_remote.rs:394-419 | The cell sent is the one that stands for the value: the same integer, with 1 and 0 for truth values, the same float bits unless NaN, the same bytes; a value no cell stands for is not sent |
| RemoteServer.AppendTable | src/protocol/sqlite_remote.rs:386-390 | The row loop appends the encoding of the lossless table, or refuses exactly if there is none that fits |
| RemoteServer.BuildFrame | src/protocol/sqlite_remote.rs:377-392 | A reply is built exactly within the column, row and byte limits for a lossless table, and is its frame; within the limits and with lossless values throughout, only the frame's length can refuse it |
| RemoteServer.RemoteScan | src/protocol/sqlite_remote.rs:377-436 | From the engine's rows through the wire to the host's rows: refused, or every cell returned in place, standing for the engine's value |
| RemoteServer.CellsOfMeaning | src/protocol/sqlite_remote.rs:394-426 | The cells of a row are the lossless cell of each value, or there are none |
| RemoteServer.TableOfDefined | src/protocol/sqlite_remote.rs:386-426 | A table has a lossless form exactly if every one of its values has one |
| Contention.NewPolicy | src/core/contention.rs:52-87 | A policy is accepted exactly for whole milliseconds within a day in order, multiplier 1 to 1024 and 1 to 1000000 retries |
| Contention.CapBounds | src/core/contention.rs:160-192 | The delay before jitter is always a whole number of milliseconds between the first and the largest delay, and growing it never overflows |
| Contention.CapGrows | src/core/contention.rs:187-190 | Capped growth step by step equals min(largest, first * multiplier^k) |
| Contention.ContentionBudget.constructor | src/core/contention.rs:147-158 | A new budget is unstarted with the first delay |
| Contention.ContentionBudget.NextDelay | src/core/contention.rs:160-192 | The new state, the exact grant condition, the delay that the cap, the jitter and the random number determine, its bounds and its end before the deadline, and the two counters |
| Contention.ContentionBudget.HasExpired | src/core/contention.rs:194-202 | Expired exactly if started and past the limit, recorded once |
| Contention.ExpiredMeaning | src/core/contention.rs:194-202 | Expired exactly if started and no time remains |
| Contention.JitterDraws | src/core/contention.rs:170-176 | Full jitter draws every whole millisecond up to the cap, each by exactly one residue of the random number |
| Contention.ContentionBudget.RecordExhaustion | src/core/contention.rs:204-216 | Only the first exhaustion is counted |
| Contention.ContentionMetrics.Scheduled | src/core/contention/statistics.rs:62-64 | The counter saturates |
| Contention.ContentionMetrics.Exhausted | src/core/contention/statistics.rs:66-68 | The counter saturates |
| ContentionRuns.EveryGrant | src/core/contention.rs:160-192 | In every run the k-th sleep is between 1 ms and the k-th cap, equal to it without jitter, ends before first contention plus the limit, and there are at most the maximum number of retries |
| ContentionRuns.SleepsFitTheDeadline | src/core/contention.rs:160-192 | If callers sleep as told, all sleeps of a run together stay below the elapsed limit |
| ContentionRuns.ExhaustedIffRefused | src/core/contention.rs:160-216 | The exhaustion flag is set exactly if some call of the run was refused |
| ContentionRuns.ExpiryIsFinal | src/core/contention.rs:194-202 | With a clock that does not go back, expiry is permanent and every later request is refused |
| ContentionRuns.RefusalIsFinal | src/core/contention.rs:160-192 | Without jitter, after the first refusal every later request is refused |
| ContentionRuns.RefusedExactlyAtLimits | src/core/contention.rs:160-192 | Without jitter a request is refused exactly if all retries were granted or its sleep would end at or after the deadline |
| ContentionRuns.StartIsFirstAsk | src/core/contention.rs:161 | The elapsed limit counts from the first request of the run |
| ContentionRuns.JitteredRefusal | src/core/contention.rs:160-192 | From the budget a refused request leaves behind, nothing is ever granted again exactly if the retries are used up, there is no jitter or at most one millisecond is left |
| ContentionRuns.RefusedForever | src/core/contention.rs:160-192 | A refused request is followed by refusals in every continuation in order of time exactly if all retries were granted, there is no jitter, or the deadline fixed by the first request is at most a millisecond off |
| ContentionRuns.NeverGrantsIffSpent | src/core/contention.rs:160-192 | A started budget has given its last grant exactly if no retry is left or even the shortest sleep would reach the limit |
| ContentionRuns.JitterCanRecover | src/core/contention.rs:160-192 | A run in which a refused request is followed by a granted one |
| ContentionRuns.CountersAreExact | src/core/contention.rs:160-216 | For every interleaving of budgets the counters are the retries granted and the budgets exhausted, saturated |
| ContentionRuns.BudgetsAreIndependent | src/core/contention.rs:126-158 | No budget is affected by calls to another |
| LifecycleClose.CloseIsComplete | python/src/lib.rs:1113-1151 | When `Database.close` has ended, a live handle holds a server only if it is a managed listener whose close, by this very call, failed; the call then reports a failure |
| LifecycleOutcomes.FailureHasCause | python/src/lib.rs:1135-1150 | A call has noted a failure, or ends with one, exactly if a close it made has failed: of a plain or managed listener, or of the engine at the end of `Database.close` |
| LifecycleOutcomes.RefusalHasCause | python/src/lib.rs:1048-1121 | A start is refused exactly if it found the database taken or its bind failed; a close reports an already closed database exactly if it found the database taken |
| LifecycleOutcomes.HandleCloseIsComplete | python/src/mongo_client.rs:21-31 | When a handle's own `close` has ended, the handle holds a server only if it is managed and the call reports a failure |
| LifecycleExample.FailedClose | python/src/mongo_client.rs:21-31 | A run in which the close of a managed listener fails: `Database.close` ends with a failure, and the live handle still holds its server |
| LifecycleClose.OneCloseTakesTheDatabase | python/src/lib.rs:1113-1121 | At most one close call takes the database, and none reports a closed database before it is taken |
| LifecycleClose.NothingStartsAfterClose | python/src/lib.rs:1048-1101 | Once the database is taken no listener is started or registered |
| LifecycleClose.ServeDelivers | python/src/lib.rs:1090-1101 | A start returns a handle whose listener is registered and holds its server while the database is open |
| LifecycleClose.RegistrationPrunes | python/src/lib.rs:1095-1097 | A registration leaves no dead entry in its registry |
| LifecycleClose.ManagedCloseFirst | python/src/lib.rs:1135-1144 | `Database.close` turns to a plain listener only when no managed one is left |
| LifecycleClose.EveryServerIsTakenOnce | python/src/lib.rs:82-91 | A server leaves its slot at most once and never has two closers |
| LifecycleClose.NoDeadlock | python/src/mongo_client.rs:79-108 | While a call is unfinished some call can make a step |
| LifecycleClose.LockOrder | python/src/lib.rs:1116-1134 | Every lock is acquired in one order: database, plain registry, managed registry, slot |
| LifecycleClose.StepsRunOut | python/src/lib.rs:1113-1144 | Every step brings all calls together closer to their end |
| LifecycleClose.CallsFinish | python/src/lib.rs:1048-1151 | From every state the calls under way can be finished, whatever bind and close answer |
| LifecycleClose.InvariantNext | python/src/lib.rs:1048-1151 | Mutual exclusion, ownership, slots, counts and registration are kept by every step |
| LifecycleClose.ListedNext | python/src/lib.rs:1090-1099 | While the database is open every live listener is registered or its start is under way |
| LifecycleClose.PrivateNext | python/src/lib.rs:1082-1101 | While a start is under way its listener holds the server and nobody else refers to it |
| LifecycleClose.CollectedAt | python/src/lib.rs:1121-1144 | The owner keeps every live listener that holds a server in its hands until its own close of it has failed |
| LifecycleClose.FailureIsReported | python/src/lib.rs:1135-1150 | A close call that failed on a managed listener reports a failure from then on |
| LifecycleClose.TakenFinds | python/src/lib.rs:1050-1056 | When the database is taken every live listener is registered |
| LifecycleClose.AliveBefore | python/src/lib.rs:1121-1132 | A listener without references never comes back to life |
| LifecycleSafety.ExclusiveNext | python/src/lib.rs:74-100 | No lock has two holders |
| LifecycleSafety.OwnedNext | python/src/lib.rs:1113-1121 | The database is open or has exactly one owner, and no start is under way without it |
| LifecycleSafety.ClosersNext | python/src/mongo_client.rs:21-31 | A server being closed has left its slot exactly if it is plain, and has one closer |
| LifecycleSafety.CountedNext | python/src/lib.rs:82-91 | A slot is emptied once and stays empty |
| LifecycleSafety.KnownNext | python/src/lib.rs:1090-1101 | Handles, registries and threads refer to started listeners only |
| CatalogLookup.TableByName | src/core/catalog.rs:704-717 | An error exactly for a malformed name; otherwise exactly what a scan would find |
| CatalogLookup.TableIn | src/core/catalog.rs:710-716 | Binary search by database and name returns what a scan would |
| CatalogLookup.DatabaseById | src/core/catalog.rs:690-695 | Binary search returns what a scan would |
| CatalogLookup.GlobalIndexById | src/core/catalog.rs:682-687 | Binary search returns what a scan would |
| CatalogLookup.DatabaseByName | src/core/catalog.rs:698-701 | An error exactly for a malformed name; otherwise the first match |
| CatalogLookup.DefaultDatabase | src/core/catalog.rs:661-664 | The default database is always found, under its name |
| CatalogLookup.BinarySearch | src/core/catalog.rs:682-717 | Finds an equal row exactly if there is one |
| CatalogLookup.TablesSorted | src/core/catalog.rs:579-582 | Rows whose neighbours are in order are in order throughout |
| CatalogLookup.TablesSortedMeaning | src/core/catalog.rs:579-582 | Tables are sorted by database and, within one, by name in lexicographic order |
| CatalogLookup.CompareStringsMeaning | src/core/catalog.rs:579-582 | A name is less exactly if it ends or has the smaller character at the first difference |
| CatalogLookup.IdentifierRule | src/core/catalog.rs:829-844 | An identifier is 1 to 63 lower-case letters, digits and underscores without a leading digit, and no reserved name |
| CatalogLookup.ReservedNames | src/core/catalog.rs:840-843 | The reserved prefixes are refused whatever follows |
| CatalogLookup.FirstMatchMeaning | src/core/catalog.rs:698-701 | The scan finds the first row that qualifies, or there is none |
| CatalogLookup.CompareStringsTransitive | src/core/catalog.rs:579-582 | The name order is transitive |
| SchemaGeneration.Catalog.Publish | src/core/catalog.rs:629-658 | Succeeds exactly if the step is by one and the target is current on return; a step from the current generation is installed; an error changes nothing and says what was observed |
| SchemaGeneration.Catalog.CompareExchange | src/core/catalog.rs:643-648 | The target replaces the expected value, or the observed value is returned and nothing changes |
| SchemaGeneration.InstalledOnce | src/core/catalog.rs:629-658 | Under every interleaving each generation reached was installed by exactly one publication |
| SchemaGeneration.StepsByOne | src/core/catalog.rs:629-658 | The generation moves only by one, by its own publication |
| SchemaGeneration.MovesExactly | src/core/catalog.rs:629-658 | The generation moves exactly at a publication from the current generation to its successor |
| SchemaGeneration.LoadsNeverDecrease | src/core/catalog.rs:619-621 | What readers observe never decreases |
| SchemaGeneration.GenerationCounts | src/core/catalog.rs:629-658 | The generation is the first one plus the number of installations, and never wraps |
| Authorization.PrivilegeIsUseful | src/core/authorization.rs:386-391 | A grant is accepted exactly if some constructible resource of the action's kind is covered |
| Authorization.GrantableActions | src/core/authorization.rs:134-162 | Which actions can be granted on which scopes |
| Authorization.ScopesAreIsolated | src/core/authorization.rs:335-355 | A scope covers nothing outside its domain, its database or its realm, and the server by name only |
| Authorization.ScopesAreNested | src/core/authorization.rs:335-355 | Collections lie in their database, databases in their domain, realms in all realms; one resource lies in a database exactly if it is in it |
| Authorization.WholeDatabaseCovers | src/core/authorization.rs:338-341 | A database scope covers the database and its objects in its own domain, and nothing else |
| Authorization.AllDatabasesCovers | src/core/authorization.rs:342 | All databases are the domain and what is in some database of it |
| Authorization.WholeDatabaseIsPart | src/core/authorization.rs:338-342 | A database is exactly the part of all databases with its name |
| Authorization.NonSystemIsPart | src/core/authorization.rs:344-351 | The non-system collections are exactly the objects of the document database outside `system.*`, and outside `replset.*` in `local` |
| Authorization.ExactIsLeast | src/core/authorization.rs:337 | A resource is covered exactly if its own scope is contained |
| Authorization.GrantsAreIsolated | src/core/authorization.rs:471-477 | What is allowed was granted for this very action, in the resource's own domain, database and realm |
| Authorization.OneDatabaseOnly | src/core/authorization.rs:471-477 | A policy for one database of one domain allows nothing outside it |
| Authorization.ActionsAreIndependent | src/core/authorization.rs:471-477 | Grants for other actions make no difference |
| Authorization.WiderPolicyAllows | src/core/authorization.rs:471-477 | A policy whose grants lie within another's allows no more |
| Authorization.WholeDatabaseAllows | src/core/authorization.rs:471-477 | What a grant for a whole database allows, without reference to scopes |
| Authorization.NamespaceFits | src/core/authorization.rs:199-215 | The full name of an object, dot included, takes at most 255 bytes |
| Authorization.Combine | src/core/authorization.rs:448-464 | Fails exactly beyond 64 roles or 256 distinct grants, and otherwise is the union |
| Authorization.Merge | src/core/authorization.rs:454-461 | Adding one role grant by grant, in any order, fails exactly if the union is too large |
| Authorization.CombinedAllows | src/core/authorization.rs:471-477 | A combined policy allows a request exactly if some role does |
| Authorization.OrderIsIrrelevant | src/core/authorization.rs:446-464 | Permuted roles have the same outcome, success or error |
| Authorization.RepetitionOnlyCounts | src/core/authorization.rs:446-464 | Lists of the same roles have the same outcome exactly if both or neither exceed the role limit, or the grants are too many anyway |
| Authorization.RepeatedRoleIsRefused | src/core/authorization.rs:450-453 | One copy of a role is accepted, sixty-five copies are refused |
| Authorization.NewPolicy | src/core/authorization.rs:435-444 | Fails exactly beyond 256 inputs, duplicates included |
| Authorization.AuthorizeAll | src/core/authorization.rs:489-505 | Succeeds exactly for 1 to 256 requirements that are all allowed; the limit error comes only after 256 allowed ones |
| Parity.CompareResults | scripts/mongo_parity.py:2657-2787 | Raises exactly on a repeated cell, a missing or an incomplete reference; otherwise passes exactly if every required target has results, every expected cell of every other target has the reference's outcome and fingerprint or is on the allow-list with both, and every accountable entry is for a cell that deviates; reference-only exactly if there are no other results |
| Parity.CompareTargets | scripts/mongo_parity.py:2708-2769 | The excused differing cells of all targets, and failure exactly if one is not excused |
| Parity.CompareTarget | scripts/mongo_parity.py:2711-2739 | The same for one target |
| Parity.Judge | scripts/mongo_parity.py:2684-2787 | The status is failed exactly if the comparison is not clean, and reference-only exactly for a lone reference |
| Parity.BuildAllowList | scripts/mongo_parity.py:2688-2691 | A later entry for a cell replaces an earlier one |
| Parity.Collect | scripts/mongo_parity.py:2666-2668 | All executions of all result files in order |
| Parity.FindStale | scripts/mongo_parity.py:2770-2778 | An accountable entry that was not observed is stale |
| Parity.Group | scripts/mongo_parity.py:2669-2678 | Every execution is filed under its target and key; fails exactly on a repeated cell |
| Parity.VerdictMeaning | scripts/mongo_parity.py:2684-2787 | No missing target, no unexcused difference and no stale entry together are the set equality of differing cells and accountable entries |
| Parity.CleanMeaning | scripts/mongo_parity.py:2684-2787 | The set equality on filed cells is the statement over the executions themselves |
| Parity.ExcusedMeaning | scripts/mongo_parity.py:2719-2735 | A cell differs exactly if outcome or fingerprint do, and is excused exactly if the entry that counts records both executions |
| Parity.AllowListHas | scripts/mongo_parity.py:2688-2691 | The entry that counts for a cell is the last one for it |
| Parity.CompleteMeaning | scripts/mongo_parity.py:2679-2687 | The filed reference is complete exactly if it has executions for exactly the expected keys |
| Parity.FlattenJoins | scripts/mongo_parity.py:2666-2668 | Result files are joined one after the other |

## Left out

- Mutexes and reference counts of the listener lifecycle as objects: threads, locks and references are steps on one state value, so lock poisoning is not captured, and a walk over a registry is one step.
- Calls into Python, their exceptions and the global interpreter lock: objects are abstract nodes with fixed contents.
- The decoder itself, with its heap budget, and BSON comparison, matching, updates and aggregation: of decoding only its uniqueness is stated.
- The `bson` crate's serialization of single values: a leaf's payload is the one the BSON specification prescribes.
- Duplicate-keeping codec options: only the default policy, which rejects repeated names, is modelled.
- Contention logging and the waited-time counter: they do not influence any decision.
- Fine-grained interleaving inside one backoff call: calls on budgets are atomic steps, as the lock around a budget makes them.
- Operations that only read the database slot: they take one lock and change nothing.
- The early `begin_close` signal on drop: it wakes the server's tasks and moves no ownership.
- Panics between taking the database and clearing the registries.
- HTTP transport, schema fencing and statement preparation around a remote scan.
- SQLite's own treatment of values: a cell with the bits of a NaN, which the server never sends, would be shown as NULL.
- Encryption, routing, migration and the query planner.
- The text of error messages, except that the cursor's error text is bounded.
- Infinite input iterators of the policy constructors: inputs are finite sequences, and no more than the limit of them matters.
- The human-readable parity report: only the verdict is modelled.
