# swift-bson document core, modelled in Dafny

This project models the document layer of swift-bson, a small BSON library
for Swift built on NIO's `ByteBuffer`. It covers:

- the `BSON` value enum (strings, Int32, Int64 and nested documents) and its
  accessors and literal initialisers;
- the `BSONType` tags;
- the per-type `encode(key:data:)` writers and `init(from:)` readers;
- `Document`: a buffer of encoded elements behind a 4-byte length prefix,
  plus the set of its keys;
- `DocumentIterator`;
- the `Sequence` members of `Document`.

The model has two layers.

- **Pure layer.** `Wire.Serialize` gives the bytes the library writes.
  `Wire.Step` and `Wire.Scan` give what the iterator reads back, branch for
  branch, including the places where the library crashes (`Trap`).
  `Entries` gives the meaning of every document operation as a function on
  the sequence of `(key, value)` entries.
- **Imperative layer.** `ByteBuffer`, `DocumentIterator` and `Document` are
  classes. Their methods update the buffer step by step as the Swift code
  does, and each method is proved against the pure layer. A `Document`'s
  invariant `Valid()` says three things:
  - its written bytes are exactly `Serialize(entries)`;
  - the entries have unique keys and can be read back;
  - `keySet` is the set of their keys.

Main results:

- **Round trip.** The bytes of any well-formed document iterate back to
  exactly its entries (`Wire.ScanSerialize`). So `init(fromBSON:)` on
  `rawBSON` rebuilds the document (`Document.RawBSON`).
- **Setter.** It removes the old entry and appends the new one. Afterwards
  the key maps to the new value, appears once and is last, and every other
  key keeps its value (`Entries.SetSeqLookup`).
- **Getter.** It returns the value of the first entry with that key
  (`Document.Get`, `Document.First`).
- **Sequence members.** `filter`, `drop(while:)`, `prefix(while:)`,
  `mapValues` and `values` return what their entry functions say. Prefix
  and drop split a document (`Entries.PrefixDropSplit`).

Strings are written the library's own way: the bytes, a NUL, an Int32
length, the bytes again and a NUL. The reader skips the second copy. This
is not the layout of the BSON specification, but the library agrees with
itself and the model follows it.

Integers are big-endian two's complement, which is NIO's default.

## Model

| member | source | states |
|---|---|---|
| Bytes.Int32RoundTrip | Sources/SwiftBSON/BSONValue.swift:75-94 | the 4 bytes written for an Int32 read back as the same Int32 |
| Bytes.Int64RoundTrip | Sources/SwiftBSON/BSONValue.swift:103-123 | the 8 bytes written for an Int64 read back as the same Int64 |
| Bson.RawValue | Sources/SwiftBSON/BSONValue.swift:5-51 | each declared type's tag byte maps back to that type |
| Bson.TypeFromRaw | Sources/SwiftBSON/BSONValue.swift:5-51 | `BSONType(rawValue:)` is nil exactly for the bytes no case declares |
| Bson.StringValue | Sources/SwiftBSON/BSON.swift:72-77 | `stringValue` is non-nil exactly on `.string`, and then is its payload |
| Bson.Int32Value | Sources/SwiftBSON/BSON.swift:80-85 | `int32Value` is non-nil exactly on `.int32`, and then is its payload |
| Bson.Int64Value | Sources/SwiftBSON/BSON.swift:88-93 | `int64Value` is non-nil exactly on `.int64`, and then is its payload |
| Bson.DocumentValue | Sources/SwiftBSON/BSON.swift:96-101 | `documentValue` is non-nil exactly on `.document`, and then is its payload |
| Bson.TypeOf | Sources/SwiftBSON/BSON.swift:111-126 | `bsonType` is the tag of the case, and always one the iterator's typeMap can read |
| Bson.InTypeMap | Sources/SwiftBSON/DocumentIterator.swift:61-66 | `typeMap` has a reader for every declared type except Double and Bool |
| Bson.TypeMapCoversValues | Sources/SwiftBSON/DocumentIterator.swift:61-66 | typeMap has a reader for exactly the types a `BSON` value can have |
| Bson.FromInt | Sources/SwiftBSON/BSON.swift:130-136 | `init(_ int:)` gives `.int32` on a 4-byte Int and `.int64` on an 8-byte Int, with the same number |
| Bson.IntegerLiteral | Sources/SwiftBSON/BSON.swift:146-152 | `init(integerLiteral:)` gives `.int32` where the native Int is 4 bytes wide and `.int64` where it is 8, holding the literal's number |
| Bson.IntegerLiteralOn64Bit | Sources/SwiftBSON/BSON.swift:146-152 | on a 64-bit platform a literal reads back through `int64Value` and not through `int32Value` |
| Bson.StringLiteral | Sources/SwiftBSON/BSON.swift:140-144 | `init(stringLiteral:)` reads back through `stringValue` |
| Entries.KeysOf | Sources/SwiftBSON/Document.swift:6 | the key set holds exactly the keys of the entries |
| Entries.Lookup | Sources/SwiftBSON/Document.swift:59-65 | the lookup finds a value exactly for a key of the document, and that value belongs to an entry with that key |
| Entries.LookupFirst | Sources/SwiftBSON/Document.swift:64 | `first(where:)` on a key returns the value of the first entry with that key |
| Entries.FilterSeq | Sources/SwiftBSON/Document.swift:51-57 | `filter` keeps only entries that satisfy the predicate, and never more entries than there were |
| Entries.FilterAppend | Sources/SwiftBSON/Document.swift:53-54 | one more iterated element is kept exactly when it satisfies the predicate |
| Entries.FilterUnique | Sources/SwiftBSON/Document.swift:51-57 | filtering keeps keys unique and adds no key |
| Entries.KeysOfAppend | Sources/SwiftBSON/Document.swift:78 | appending entries adds exactly their keys |
| Entries.UniqueKeysCount | Sources/SwiftBSON/Document.swift:104-106 | with unique keys, `count` (the number of keys) is the number of entries |
| Entries.RemoveKey | Sources/SwiftBSON/Document.swift:68 | `filter { $0.key != key }` leaves no entry with that key and never more entries than there were |
| Entries.RemoveKeyAsFilter | Sources/SwiftBSON/Document.swift:68 | `filter { $0.key != key }` removes exactly the entries with that key |
| Entries.RemoveKeyLookup | Sources/SwiftBSON/Document.swift:66-71 | after removing a key it is absent and every other key keeps its value |
| Entries.RemoveAbsentKey | Sources/SwiftBSON/Document.swift:72-74 | removing a key that is not there changes nothing |
| Entries.RemoveKeyTwice | Sources/SwiftBSON/Document.swift:66-71 | setting nil twice is setting nil once |
| Entries.RemoveKeyUnique | Sources/SwiftBSON/Document.swift:73 | removing a key keeps keys unique |
| Entries.SetSeq | Sources/SwiftBSON/Document.swift:72-78 | after `d[k] = v` the entry for k is last and no earlier entry has key k |
| Entries.SetSeqLookup | Sources/SwiftBSON/Document.swift:66-79 | after `d[k] = v`, k maps to v, keys stay unique, the new entry is last and every other key keeps its value |
| Entries.SetSeqKeys | Sources/SwiftBSON/Document.swift:72-78 | after `d[k] = v` the keys are the old keys plus k, each once |
| Entries.LookupAppend | Sources/SwiftBSON/Document.swift:75-78 | appending an entry for another key does not change a lookup |
| Entries.SetAllUnique | Sources/SwiftBSON/Document.swift:18-28 | setting pairs one by one, duplicates included, leaves every key at most once |
| Entries.SetAllKeys | Sources/SwiftBSON/Document.swift:18-28 | setting pairs one by one leaves exactly the keys of the pairs |
| Entries.SetAllDistinct | Sources/SwiftBSON/Document.swift:18-28 | setting distinct pairs in order on an empty document lists them in order |
| Entries.ValuesOf | Sources/SwiftBSON/Document+Sequence.swift:12-17 | `values` has one value per entry, in entry order |
| Entries.MapValuesSeq | Sources/SwiftBSON/Document+Sequence.swift:102-108 | `mapValues` keeps every key in place and applies the transform to its value |
| Entries.DropWhileSeq | Sources/SwiftBSON/Document+Sequence.swift:41-58 | what `drop(while:)` keeps is a suffix; every entry before it satisfies the predicate and its first entry does not |
| Entries.PrefixWhileSeq | Sources/SwiftBSON/Document+Sequence.swift:72-79 | what `prefix(while:)` keeps is a prefix whose entries all satisfy the predicate, followed by the end or by an entry that does not |
| Entries.LeadingRun | Sources/SwiftBSON/Document+Sequence.swift:41-79 | the dropped/kept run is the longest leading run that satisfies the predicate |
| Entries.PrefixDropSplit | Sources/SwiftBSON/Document+Sequence.swift:41-79 | `prefix(while:)` and `drop(while:)` together give the document back; the prefix satisfies the predicate and the rest starts with an element that does not |
| Entries.LeadingRunAppend | Sources/SwiftBSON/Document+Sequence.swift:72-79 | how the leading run grows when one element is added |
| Wire.EmptyRaw | Sources/SwiftBSON/Document.swift:12-16 | `Document()` writes 4 bytes (the Int32 4) |
| Wire.Serialize | Sources/SwiftBSON/BSONValue.swift:75-85 | the bytes [0, writerIndex) are 4 bytes of prefix and then the elements; the prefix reads back as 4 with no elements and as writerIndex + 1 otherwise |
| Wire.PayloadLayout | Sources/SwiftBSON/BSONValue.swift:75-147 | each `encode(key:data:)` writes after the key an integer's bytes that read back as the integer, or a string's bytes, NUL, length + 1 and the bytes again with a NUL |
| Wire.EntryParts | Sources/SwiftBSON/BSONValue.swift:132-135 | an element is the tag byte, the key bytes, a NUL and the payload, in that order |
| Wire.BodySize | Sources/SwiftBSON/Document.swift:75-77 | the appended elements are empty exactly when there are none, and take at least two bytes each |
| Wire.Patched | Sources/SwiftBSON/BSONValue.swift:83 | patching the prefix changes only bytes 0..4 |
| Wire.NulAt | Sources/SwiftBSON/Document.swift:170-175 | `getString`'s scan stops at the first NUL at or after the reader, or finds none |
| Wire.NulAtFirst | Sources/SwiftBSON/Document.swift:170-175 | the NUL it stops at is the first one |
| Wire.CString | Sources/SwiftBSON/Document.swift:170-179 | a string read moves the cursor just past its NUL |
| Wire.CStringOfTerminated | Sources/SwiftBSON/Document.swift:170-179 | a key written before a NUL is read back whole |
| Wire.DecodePayload | Sources/SwiftBSON/BSONValue.swift:87-157 | every reader leaves the cursor inside the written bytes |
| Wire.DecodeWrittenPayload | Sources/SwiftBSON/BSONValue.swift:87-157 | each reader selected by a value's tag reads the written payload back as that value and moves past it |
| Wire.Step | Sources/SwiftBSON/DocumentIterator.swift:31-46 | one `nextOrError` call that yields an element moves the cursor forward |
| Wire.StepEntry | Sources/SwiftBSON/DocumentIterator.swift:31-46 | one encoded element is read back by one call |
| Wire.ScanBounds | Sources/SwiftBSON/DocumentIterator.swift:22-46 | a full walk stops inside the buffer and yields at most one entry per byte it reads |
| Wire.ScanItem | Sources/SwiftBSON/DocumentIterator.swift:22-46 | iteration goes on exactly where the previous element ended |
| Wire.ScanBody | Sources/SwiftBSON/DocumentIterator.swift:22-46 | iterating an encoded body yields its entries in order and stops at its end |
| Wire.ScanSerialize | Sources/SwiftBSON/DocumentIterator.swift:16-46 | the bytes of a well-formed document iterate, from offset 4, to exactly its entries |
| Wire.AppendSerialize | Sources/SwiftBSON/BSONValue.swift:75-85 | appending an element and patching the prefix with writerIndex + 1 gives the bytes of the longer document |
| Wire.FilterWellFormed | Sources/SwiftBSON/Document.swift:51-57 | what `filter` keeps from a well-formed document is well-formed |
| Wire.NestedDocumentEncodable | Sources/SwiftBSON/Document.swift:135-163 | a non-empty document nests and is read back by `init(from:)` |
| Wire.EmptyNestedDocumentTraps | Sources/SwiftBSON/Document.swift:150-163 | an empty nested document is sliced to 3 bytes and iterating its parent crashes |
| Buffer.ByteBuffer.GetString | Sources/SwiftBSON/Document.swift:170-179 | `getString` returns the bytes before the first readable NUL and moves past it; None is the force-unwrap crash |
| Codec.EncodeInt32 | Sources/SwiftBSON/BSONValue.swift:75-85 | the buffer afterwards holds the old bytes plus tag, key, NUL and Int32, with the prefix patched |
| Codec.EncodeInt64 | Sources/SwiftBSON/BSONValue.swift:103-114 | the buffer afterwards holds the old bytes plus tag, key, NUL and Int64, with the prefix patched |
| Codec.EncodeString | Sources/SwiftBSON/BSONValue.swift:132-147 | the buffer afterwards holds the old bytes plus tag, key, NUL and the string payload, with the prefix patched |
| Codec.EncodeDocument | Sources/SwiftBSON/Document.swift:135-148 | the buffer afterwards holds the old bytes plus tag, key, NUL and the nested bytes, with the prefix patched |
| Codec.EncodeValue | Sources/SwiftBSON/Document.swift:75 | `value.bsonValue.encode` appends that value's element and patches the prefix |
| Codec.DecodeInt32 | Sources/SwiftBSON/BSONValue.swift:87-94 | the Int32 reader gives the value and cursor of the pure reader (0 and no move when fewer than 4 bytes remain) |
| Codec.DecodeInt64 | Sources/SwiftBSON/BSONValue.swift:116-123 | the Int64 reader gives the value and cursor of the pure reader |
| Codec.DecodeString | Sources/SwiftBSON/BSONValue.swift:149-157 | the String reader agrees with the pure reader, crash included |
| Codec.DecodeDocument | Sources/SwiftBSON/Document.swift:150-163 | the Document reader agrees with the pure reader: the empty document on a short or bad length, the crash when the slice cannot be iterated |
| Codec.DecodeValue | Sources/SwiftBSON/DocumentIterator.swift:41-44 | `swiftType.init(from:)` dispatches to the reader of the tag |
| Iteration.DocumentIterator.Over | Sources/SwiftBSON/DocumentIterator.swift:16-20 | a fresh iterator has a copy of the document's bytes and its reader at 4 |
| Iteration.DocumentIterator.Next | Sources/SwiftBSON/DocumentIterator.swift:22-46 | one call yields, ends or crashes exactly as one step of the pure reader, and moves the cursor as it does |
| Iteration.DocumentIterator.Advance | Sources/SwiftBSON/DocumentIterator.swift:22-46 | over well-formed bytes a call never crashes, ends exactly after the last entry and otherwise yields the next entry |
| Iteration.WalkStart | Sources/SwiftBSON/DocumentIterator.swift:16-20 | a fresh iterator over a document's bytes has all its entries ahead |
| Iteration.StepAhead | Sources/SwiftBSON/DocumentIterator.swift:22-46 | a step over bytes that iterate to some entries yields the first of them or ends when there are none |
| Iteration.WalkNext | Sources/SwiftBSON/DocumentIterator.swift:22-46 | after a yielding call the remaining entries are still ahead |
| Documents.Document.constructor | Sources/SwiftBSON/Document.swift:12-16 | `init()` is a valid document with no entries |
| Documents.Document.FromBSON | Sources/SwiftBSON/Document.swift:36-42 | the bytes are copied and the key set is rebuilt; the document iterates to what the bytes iterate to |
| Documents.Document.FromPairs | Sources/SwiftBSON/Document.swift:18-28 | setting distinct pairs in order gives a document of exactly those pairs, in order |
| Documents.Document.Append | Sources/SwiftBSON/Document.swift:75-78 | the setter's append branch adds the entry last and its key to the key set |
| Documents.Document.Filter | Sources/SwiftBSON/Document.swift:51-57 | `filter` returns a new document of exactly the entries that satisfy the predicate, in order |
| Documents.Document.Set | Sources/SwiftBSON/Document.swift:66-79 | setting nil removes the key; setting a value removes its old entry and appends the new one |
| Documents.Document.First | Sources/SwiftBSON/Document.swift:64 | walking the iterator finds the value of the first entry with the key, or nil |
| Documents.Document.Get | Sources/SwiftBSON/Document.swift:59-65 | the getter is the lookup, and is non-nil exactly for keys in `keySet` |
| Documents.Document.GetOr | Sources/SwiftBSON/Document.swift:82-84 | the default subscript is the stored value, or the default when the key is absent |
| Documents.Document.HasKey | Sources/SwiftBSON/Document.swift:96-98 | `hasKey` holds exactly for the keys of the entries, i.e. when the getter is non-nil |
| Documents.Document.Keys | Sources/SwiftBSON/Document.swift:100-102 | `keys` lists every key of the document exactly once |
| Documents.Document.Count | Sources/SwiftBSON/Document.swift:104-106 | `count` is the number of entries |
| Documents.Document.RawBSON | Sources/SwiftBSON/Document.swift:108-110 | `rawBSON` is canonical and iterates back to exactly the document's entries |
| Documents.FilterBuffer | Sources/SwiftBSON/Document.swift:51-57 | the `filter` loop over bytes that iterate to some entries keeps those that satisfy the predicate |
| Documents.FilterRest | Sources/SwiftBSON/Document.swift:53-55 | the rest of the loop keeps the satisfying entries among the rest |
| Documents.FilterTurn | Sources/SwiftBSON/Document.swift:53-54 | one turn keeps the next entry exactly when it satisfies the predicate |
| Documents.CollectKeys | Sources/SwiftBSON/Document.swift:39-40 | `forEach { keySet.insert($0.0) }` collects exactly the keys the bytes iterate to |
| Documents.DictionaryLiteral | Sources/SwiftBSON/BSON.swift:154-158 | a dictionary literal is a `.document` holding the pairs in order; a non-empty one can be nested |
| Documents.AppendWellFormed | Sources/SwiftBSON/Document.swift:75-78 | appending an entry with a new key keeps the document well-formed and patches the prefix correctly |
| Documents.PairStep | Sources/SwiftBSON/Document.swift:24-26 | setting the next of distinct pairs appends it |
| Documents.SameBytesSameEntries | Sources/SwiftBSON/Document.swift:123-128 | two documents have the same bytes exactly when they have the same entries |
| DocumentSequence.IsEmpty | Sources/SwiftBSON/Document+Sequence.swift:10 | `isEmpty` holds exactly when there are no entries |
| DocumentSequence.Values | Sources/SwiftBSON/Document+Sequence.swift:12-17 | `values` is every value, in order |
| DocumentSequence.ValuesBuffer | Sources/SwiftBSON/Document+Sequence.swift:13-15 | the `forEach` loop collects every value, in order |
| DocumentSequence.DropWhile | Sources/SwiftBSON/Document+Sequence.swift:41-58 | `drop(while:)` returns the entries after the longest leading run that satisfies the predicate |
| DocumentSequence.DropWhileBuffer | Sources/SwiftBSON/Document+Sequence.swift:44-57 | the filter with the dropping closure keeps every entry from the first that fails the predicate |
| DocumentSequence.DropRun | Sources/SwiftBSON/Document+Sequence.swift:46-53 | while dropping, the closure stops at the first entry that fails the predicate |
| DocumentSequence.PrefixWhile | Sources/SwiftBSON/Document+Sequence.swift:72-79 | `prefix(while:)` returns the longest leading run that satisfies the predicate |
| DocumentSequence.PrefixWhileBuffer | Sources/SwiftBSON/Document+Sequence.swift:72-79 | the same over bytes that iterate to some entries |
| DocumentSequence.PrefixWhileInto | Sources/SwiftBSON/Document+Sequence.swift:74-77 | the loop sets elements until the first that fails the predicate |
| DocumentSequence.MapValues | Sources/SwiftBSON/Document+Sequence.swift:102-108 | `mapValues` returns every key in order with the transformed value |
| DocumentSequence.MapValuesBuffer | Sources/SwiftBSON/Document+Sequence.swift:102-108 | the same over bytes that iterate to some entries |
| DocumentSequence.MapValuesInto | Sources/SwiftBSON/Document+Sequence.swift:104-106 | the loop sets every key to the transformed value |
| DocumentSequence.MapValuesTurn | Sources/SwiftBSON/Document+Sequence.swift:105 | one turn sets the next key to the transformed value |
| DocumentSequence.DropFirstAsWritten | Sources/SwiftBSON/Document+Sequence.swift:19-28 | as written, `dropFirst` traps for a negative count and calls itself for every positive count |
| DocumentSequence.DropLastAsWritten | Sources/SwiftBSON/Document+Sequence.swift:30-39 | as written, `dropLast` traps for a negative count and calls itself for every positive count |
| DocumentSequence.PrefixAsWritten | Sources/SwiftBSON/Document+Sequence.swift:60-70 | as written, `prefix` calls itself exactly when 0 < n < count |
| DocumentSequence.SuffixAsWritten | Sources/SwiftBSON/Document+Sequence.swift:81-92 | as written, `suffix` calls itself exactly when 0 < n < count |
| DocumentSequence.CutsAgreeWhereTheyReturn | Sources/SwiftBSON/Document+Sequence.swift:19-92 | where the four members return, they return what the `Sequence` operations promise |
| DocumentSequence.CutsDiverge | Sources/SwiftBSON/Document+Sequence.swift:19-92 | with a count of 1 on one- and two-key documents none of the four returns |
| DocumentSequence.Slice | Sources/SwiftBSON/Document+Sequence.swift:19-92 | the entries between two positions, set in order on a new document |
| DocumentSequence.SliceBuffer | Sources/SwiftBSON/Document+Sequence.swift:19-92 | the same over bytes that iterate to some entries |
| DocumentSequence.Skip | Sources/SwiftBSON/Document+Sequence.swift:19-28 | iterating past entries without using them leaves the rest ahead |
| DocumentSequence.CopyStep | Sources/SwiftBSON/Document+Sequence.swift:76 | one turn of a copying loop appends the next entry |
| DocumentSequence.SetAt | Sources/SwiftBSON/Document+Sequence.swift:76 | setting the next entry of a run appends it |
| DocumentSequence.CopyUntil | Sources/SwiftBSON/Document+Sequence.swift:19-92 | copying up to a position appends exactly the entries before it |
| DocumentSequence.CopyRest | Sources/SwiftBSON/Document+Sequence.swift:45-57 | copying to the end appends exactly the remaining entries |
| DocumentSequence.DropFirst | Sources/SwiftBSON/Document+Sequence.swift:19-28 | corrected `dropFirst`: all entries but the first n |
| DocumentSequence.DropLast | Sources/SwiftBSON/Document+Sequence.swift:30-39 | corrected `dropLast`: all entries but the last n |
| DocumentSequence.Prefix | Sources/SwiftBSON/Document+Sequence.swift:60-70 | corrected `prefix`: the first n entries, or all of them |
| DocumentSequence.Suffix | Sources/SwiftBSON/Document+Sequence.swift:81-92 | corrected `suffix`: the last n entries, or all of them |

## Findings

| source | as written | input that shows it | evidently intended | confidence | as-written member | corrected member |
|---|---|---|---|---|---|---|
| Sources/SwiftBSON/Document+Sequence.swift:19-28 | `dropFirst(n)` returns `self.dropFirst(n)` for every n > 0 | any document, n = 1 | the document without its first n elements | high, not executed | DocumentSequence.DropFirstAsWritten | DocumentSequence.DropFirst |
| Sources/SwiftBSON/Document+Sequence.swift:30-39 | `dropLast(n)` returns `self.dropLast(n)` for every n > 0 | any document, n = 1 | the document without its last n elements | high, not executed | DocumentSequence.DropLastAsWritten | DocumentSequence.DropLast |
| Sources/SwiftBSON/Document+Sequence.swift:60-70 | `prefix(n)` returns `self.prefix(n)` when 0 < n < count | a two-key document, n = 1 | the first n elements | high, not executed | DocumentSequence.PrefixAsWritten | DocumentSequence.Prefix |
| Sources/SwiftBSON/Document+Sequence.swift:81-92 | `suffix(n)` returns `self.suffix(n)` when 0 < n < count | a two-key document, n = 1 | the last n elements | high, not executed | DocumentSequence.SuffixAsWritten | DocumentSequence.Suffix |

The as-written functions model each member's switch and name the recursive
call `CallsItself`. A call with the same arguments never returns.
`CutsDiverge` gives the inputs. `CutsAgreeWhereTheyReturn` shows that the
branches that do return agree with the corrected members. The corrected
members copy the intended run of entries into a new document, and their
contracts state that run.

## Left out

- `split(maxSplits:omittingEmptySubsequences:whereSeparator:)` (Sources/SwiftBSON/Document+Sequence.swift:94-100): it calls itself with the same arguments on every input, so it never returns. No member models it, and no intended result is pinned down by the source.
- Documents.Document.Set: requires a NUL-free key and an encodable value. A key with a NUL is read back cut short. An empty nested document (`Wire.EmptyNestedDocumentTraps`) makes every later iteration of the parent crash. The contract covers only the values the library can read back.
- Documents.Document.Set: requires `Room`: the new length prefix must fit an Int32. Beyond that, `Int32(writerIndex + 1)` traps.
- Documents.Document.Append: the same two requirements as the setter.
- Documents.Document.FromBSON: requires canonical bytes, i.e. bytes that iterate without crashing and are exactly the encoding of their entries. Arbitrary bytes can make the library crash or build a document whose key set disagrees with its bytes. The model does not describe such documents.
- Documents.Document.FromPairs: requires distinct keys (duplicates are a `fatalError` in the source) and readable values, as for the setter.
- Documents.DictionaryLiteral: requires the same as `FromPairs`.
- DocumentSequence.MapValues: requires the transformed entries to be readable values, as for the setter.
- Documents.Document.Keys: states only which keys appear, each once. `Set.map` gives them in the set's own order, which the source leaves unspecified.
- DocumentSequence.DropFirst, DocumentSequence.DropLast, DocumentSequence.Prefix, DocumentSequence.Suffix: take a `nat`. A negative count is a `fatalError` in the source, which the as-written functions model.
- Bson.FromInt: the width of the native `Int` (`MemoryLayout<Int>.size`) is a parameter, 4 or 8.
- The throwing closures of `filter`, `drop(while:)`, `prefix(while:)` and `mapValues` are total functions here. Errors thrown through `rethrows` are not modelled.
- `drop(while:)` keeps its `drop` flag inside the filter closure. The model runs the same iteration in two phases, before and after the flag flips, with the same outcome.
- Keys and strings are byte sequences. UTF-8 validation and the conversion between `String` and bytes are not modelled.
- `Document.filter` builds its result through the setter. Because the iterated keys are distinct, the model uses the setter's append branch directly.
- Copying a `Document` value is not modelled. In Swift, `var doc2 = doc1` followed by `doc2["b"] = 2` leaves `doc1` unchanged (value semantics over a copy-on-write buffer). In the model every operation that builds a document allocates a fresh `data` buffer, so two `Document` objects never share `data`, but there is no operation that copies one `Document` into another.
- NIO's `ByteBuffer` is modelled only as far as the library uses it. Capacity growth, slicing by reference and copy-on-write are left out. `ByteBuffer` is not part of this model beyond that.
- `Codable` conformances, `Hashable`/`Equatable` (beyond `Documents.SameBytesSameEntries`), `printBytes`, the hex helpers, `dynamicMember` subscripts and `allBSONTypes` are left out. They are printing, hashing, or forwarding to the subscripts already modelled.
- `Double` and `Bool` tags are declared but have no reader in typeMap. The model keeps the tags, and the iterator ends on them as the source does.
