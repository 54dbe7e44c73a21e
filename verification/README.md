# A model of the migration tools' document and concurrency code

This project models three parts of a Go library of MongoDB migration tools and proves what they promise.

**Documents as bytes.** BSON documents are trees (`Bson`, over `Bytes`) with a serialiser and the driver's element reader. Go
slices are windows of shared arrays (`GoSlices`), so two slices of one buffer alias. On top of these:

- editing one path of a document in place (`EditSpec`, `EditProofs`, `Edit`), with the laws that tie edits to reads
  (`PathLaws`);
- sorting all fields recursively in place (`SortSpec`, `SortLaws`, `Elements`, `SortBytes`, `SortFields`), and
  when that panics (`SortPanics`);
- iterating, unmarshalling and marshalling (`RawElements`, `GoValues`, `Unmarshal`, `MarshalSpec`, `Marshal`), what the
  unmarshaller accepts (`Accepts`), which bytes make the driver's reader panic under all of these (`PrefixPanics`), and when
  unmarshalling and marshalling undo each other (`RoundTrip`);
- comparing index specs: modernising old keys (`Modernize`, `ModernizeLaws`), typing options (`SpecTypes`), normalising a
  key through aliasing slices of the spec being edited (`Numbers`, `KeyVisits`, `KeyNormalizer`, `KeyAliasing`), the whole
  preparation (`Prepare`, `PreparedForm`), and the verdict by way of Go maps (`MapDecoder`, `DeepEqual`, `Compare`) with its
  laws (`CompareLaws`, `CompareBlindness`) and the specs that break them (`CompareWitnesses`).

What such calls do to values is also said without the functions that do it: what the bytes of integers and doubles stand for
(`NumberLaws`), what normalising does to a key's numbers (`KeyNumbers`), what becomes of option and legacy values
(`OptionNumbers`), which options are meant (`OptionNames`), and which paths read the same in two documents that compare equal
(`SameReadings`), from which `VerdictMeaning` says what each verdict on two specs means.

`Results` holds the three ways such a call can end: well, with an error, or in a panic.

Each byte algorithm has three forms: a function on bytes that is total, malformed input and panics included; a method
that refines it on a shared buffer; and a function on trees that it agrees with on every well-formed document. The method
carries the source's loops and updates, the lemmas carry the meaning.

**A bounded queue.** `RingBuf` is the ring buffer. `BoundedQueue` is the queue's worker as a state machine whose steps are
single writes, selects and outside events; `QueueRuns` states what holds over all runs, `QueueCancellation` what a select
offers and that a cancellation ends the worker, `QueueOverflow` where the numbers stop meaning what they say, and
`QueueWorker` is the worker itself, each of whose runs is a run of the machine.

**A concurrent maximum and an expiring log.** `AtomicMax` is the compare-and-swap loop under any interleaving, with a log of
calls in the order they take effect; `MaxOwnership` says whose call each entry is, `MaxRuns` states the properties and
`MaxUpdate` is the loop as a loop. `History` is the log that drops expired entries.

## Where a promise fails, and when it holds

- The driver's element reader adds an element's fixed part to its length prefix in an int32. A prefix close to 2^31 wraps
  around, passes the bounds test and makes the slice expression panic: `PrefixPanics.HugeStringPanics` gives twelve bytes on
  which iterating, unmarshalling, splitting and editing all panic. `PrefixPanics.OverflowIs` says which elements do that,
  `PrefixPanics.IterationPanics` and `GoValues.PanicsOnlyInReader` when iterating and unmarshalling meet one.
- Sorting panics on documents that other bytes follow (`SortPanics.TrailingBytesPanic`, and thirteen bytes in
  `SortPanics.LongPanics`). On any buffer, `SortPanics.SortSucceedsIff` says when it succeeds and `SortPanics.SortPanicsIff`
  when it panics.
- The key normaliser edits fields by name, and an edit reaches the first field of a name. Without a conversion hidden behind
  an earlier key field of its name it meets its promise. With one, a convertible key never ends up normalised. An error is
  still certain when every hidden conversion after some field without an int32 form hits a value of four bytes
  (`KeyNormalizer.NormalizeTypesInKey`). Otherwise it can be lost, the refused field being overwritten
  (`KeyAliasing.ErrorIsLost`) or lying where an edit has vacated the buffer (`KeyAliasing.ErrorIsSkipped`).
  `KeyVisits.NormalizingRefinesTree` says on the tree what happens as long as no slice is read across field boundaries.
- Converting `expireAfterSeconds` and `bits` keeps int32 values uncompared and lets negative numbers through, although the
  comments there speak of bounded values. `SpecTypes.BoundIsKeptIff` says which stored values end up in range, and
  `SpecTypes.OutOfBoundsIsKept` gives 1000 bits and a time to live of -5.
- Comparing reads a spec twice: a streaming decoder goes by the inner length of old binary values, lookups go by the outer
  one. Where the two disagree "no difference" is neither symmetric nor transitive: `CompareLaws.SymmetricIff` and
  `CompareLaws.TransitiveIff` give the exact conditions on any bytes, `CompareWitnesses.NotSymmetric` and
  `CompareWitnesses.NotTransitive` the inputs. On well-formed specs whose old binaries are honest it is both.
- A NaN makes a spec differ from itself (`CompareLaws.ReflexiveIff`, `CompareWitnesses.NaNDiffers`).
- Marshalling checks the names of scalars for NULs but not those of embedded documents and arrays, and its size limit is
  that of a uint32 while the reader's is that of an int32. `RoundTrip.MarshalThenUnmarshal` gives the exact condition.
- Unmarshalling forgets the last byte of a text, the value of a boolean byte above 1, the outer length of an old binary, the
  order of regex options, the names of array elements, and the outer length of code with scope, whose scope it takes without
  reading. `RoundTrip.UnmarshalThenMarshal` gives the exact condition, `RoundTrip.CodeEndIsLost` a payload.
- The queue's byte total wraps around when the limits leave no room in an int64 for one more item
  (`QueueOverflow.TotalIsSoundIffRoomy`), and the queue then exceeds its byte limit when that can happen with a slot still
  free (`QueueOverflow.LimitHoldsIffRoomy` is the exact condition, `QueueOverflow.LimitCanBeIgnored` gives the runs). Nothing
  is lost or reordered even then.
- The queue's statistics are called a snapshot but are two reads, between which the worker moves on. They can show no items
  and some bytes as soon as one item has a size (`QueueOverflow.StatsAgreeIff`).
- With a negative time to live the log's `Add` counts an entry that has already expired, except with the least int64, which
  is its own negation (`History.PruningIsUnobservable`).

## Model

| member | source | states |
|---|---|---|
| Bson.ReadElementOfSer | vendor/go.mongodb.org/mongo-driver/v2/x/bsonx/bsoncore/bsoncore.go:102-121 | Reading a serialised element that any bytes follow gives back its exact length, type, name and value bytes. |
| Bson.FixedWidths | vendor/go.mongodb.org/mongo-driver/v2/x/bsonx/bsoncore/bsoncore.go:648-690 | How many bytes make a value of each type of one size, by the BSON specification. |
| Bson.CountedWidths | vendor/go.mongodb.org/mongo-driver/v2/x/bsonx/bsoncore/bsoncore.go:648-690 | What the length in front of a text, binary, DB pointer or code with scope counts: a value is well formed exactly when it is that many bytes. |
| Bson.SerDocInjective | bsontools/canonical.go:12-16 | Two well-formed documents with the same bytes are the same document, so a claim about bytes is a claim about the tree. |
| GoSlices.Append | bsontools/edit.go:213-217 | Appends in place while the capacity lasts and into a new array otherwise; the bytes before stay, and so does everything outside the capacity. |
| GoSlices.Replace | bsontools/edit.go:158-170 | A replaced range shifts what follows; in place while it fits, with what it vacates cleared and nothing outside the capacity touched. |
| GoSlices.Delete | bsontools/edit.go:152-156 | Deleting a range closes the gap in the same array and clears what it vacates. |
| GoSlices.PutUint32 | bsontools/edit.go:139-144 | Overwrites the first four bytes with the little-endian number and nothing else. |
| EditSpec.ScanFinds | bsontools/edit.go:89-102 | Scanning a serialised document, whatever follows it, stops at the first element of the name, or finds none exactly when there is none. |
| EditProofs.EditRefinesTree | bsontools/edit.go:70-218 | On every well-formed document followed by any bytes, for every pointer and replacement, the byte edit yields the bytes of the edited tree followed by the same bytes; it misses, names the scalar in the way, or overflows in exactly the cases the tree and the new size say. |
| EditProofs.LeafRefines | bsontools/edit.go:114-126 | Splicing one element out of or into a document and repairing its header is the tree edit of that element. |
| EditProofs.RejoinRefines | bsontools/edit.go:172-218 | Putting an edited embedded document back behind its element's header repairs the enclosing header by the difference of the two lengths. |
| Edit.ReplaceInRaw | bsontools/edit.go:57-59 | On any bytes, the shared buffer ends up with the bytes the specification gives, or the call errs or panics where it says; unless the new size overflows, a call that does not edit has changed no byte of the backing array. |
| Edit.RemoveFromRaw | bsontools/edit.go:66-68 | As for replacing, with the element removed. |
| Edit.EditMatchingElement | bsontools/edit.go:83-150 | The scanning loop finds what the specification's scan finds and edits there, or reports the offset of the element that does not parse, or on which the reader panics. |
| Edit.RecurseIntoSubDoc | bsontools/edit.go:172-218 | Edits the buffer from the embedded document on, trailing siblings included, and reports by how much its length header grew. |
| PathLaws.LookupRefinesTree | bsontools/raw.go:13-27 | Reading a path in the bytes reads it in the tree, whatever follows the document. |
| PathLaws.EditFollowsLookup | bsontools/edit.go:49-58 | An edit succeeds, misses or is blocked exactly where reading the same pointer finds a value, nothing, or a scalar in the way. |
| PathLaws.TooDeepNamesTheScalar | bsontools/edit.go:172-203 | A too-deep error names a proper prefix of the given pointer, and that prefix leads to a scalar of the type it reports. |
| PathLaws.ReplaceThenRead | bsontools/edit.go:49-59 | After a replacement the pointer reads the new value. |
| PathLaws.ReplaceByItself | bsontools/edit.go:49-59 | Writing back the value already there changes nothing. |
| PathLaws.LastEditWins | bsontools/edit.go:57-68 | Editing twice at one pointer is the second edit alone; removing what was replaced is removing. |
| PathLaws.EditLeavesOthers | bsontools/edit.go:70-81 | An edit leaves what every diverging pointer reads, at any depth and with repeated names. |
| PathLaws.EditsCommute | bsontools/edit.go:57-68 | Successful edits at diverging pointers give the same document in either order. |
| PathLaws.ReplaceOnBytes | bsontools/edit.go:57-59 | After a replacement that worked, the edited bytes read the new value at the pointer and what they read before at every diverging one. |
| PathLaws.RemoveOnBytes | bsontools/edit.go:66-68 | After a removal diverging pointers read the same bytes as before. |
| PathLaws.EditTwiceOnBytes | bsontools/edit.go:57-68 | The second of two edits at one pointer decides every byte. |
| SortSpec.OrderIsStable | bsontools/canonical.go:55-58 | The order used is the stable one by `Bytes.Leq`: each index once, no name before a smaller one, and equal names in their original order. |
| Bytes.LeqIsLexicographic | bsontools/canonical.go:55-58 | Names are compared as sequences of bytes: one comes before another exactly when it is a prefix of it or has the smaller byte where they first differ. |
| SortSpec.AscendingMeans | bsontools/canonical.go:55-58 | Of any two fields in any such order the earlier name is a prefix of the later or has the smaller byte at the first difference, and equal names keep their order. |
| SortSpec.StableOrderIsUnique | bsontools/canonical.go:55-58 | There is no other such order, so any correct stable sort gives the same bytes. |
| SortSpec.SortKeepsSize | bsontools/canonical.go:60-81 | Sorting at every depth keeps the serialised size, so every length header stays as it is. |
| SortSpec.SortElsKeepsWf | bsontools/canonical.go:12-16 | A sorted document is well formed again. |
| SortLaws.SortedAndStable | bsontools/canonical.go:55-58 | Of any two sorted fields the earlier name is a prefix of the later or has the smaller byte where they first differ, and the fields of each name, repeated or not, keep their order. |
| SortLaws.SortElsTwice | bsontools/canonical.go:12-16 | Sorting a second time changes nothing, at any depth. |
| SortLaws.SortIsCanonical | bsontools/canonical.go:28-84 | Two values with distinct names in every document sort to the same value exactly when they differ by field order alone, at any depth, array order kept. |
| SortLaws.SortedBytesAreCanonical | bsontools/canonical.go:12-16 | Sorted buffers hold equal bytes exactly when the documents, names distinct, differ by field order alone. |
| SortFields.Sort | bsontools/canonical.go:14-16 | On any buffer the outcome and the bytes that the byte specification gives, errors and panics included, which for a well-formed document are the bytes of the tree sorted as `SortLaws.SortedAndStable` says; no byte outside the slice changes. |
| SortFields.SortInPlace | bsontools/canonical.go:18-87 | The recursive step on any buffer, for documents and for arrays, which keep their order. |
| SortFields.SortInsides | bsontools/canonical.go:89-112 | Each nested document is sorted through an aliasing slice of the same buffer while its siblings stay; the first failure ends it. |
| SortFields.Rearrange | bsontools/canonical.go:40-84 | The scratch buffer holds exactly the elements in name order and replaces them between header and terminator; the size assertion fails exactly when the element windows do not add up to that space. |
| SortBytes.ScratchSize | bsontools/canonical.go:68-81 | The scratch buffer is as long as all the elements together, whatever order sorting puts them in. |
| SortBytes.ScratchIsSorted | bsontools/canonical.go:68-81 | For a well-formed document the scratch buffer is the sorted elements, so its size is the expected one. |
| SortBytes.SortRefinesTree | bsontools/canonical.go:14-87 | The bytes of a well-formed document are sorted without failing, into the bytes of the sorted tree. |
| SortPanics.SortSucceedsIff | bsontools/canonical.go:18-87 | Sorting any buffer succeeds exactly when all elements parse, at every depth, and those of every document fill it between header and terminator. |
| SortPanics.SortPanicsIff | bsontools/canonical.go:18-87 | Sorting any buffer panics exactly when, past elements that sort, some nested buffer makes the reader panic or is a document whose elements, sorting inside, do not fill it. |
| SortPanics.TrailingBytesPanic | bsontools/canonical.go:60-79 | Every document with a field panics when anything follows it in the buffer. |
| SortPanics.LongPanics | bsontools/canonical.go:60-79 | Thirteen bytes on which sorting panics. |
| Elements.ParseElements | bsontools/canonical.go:19-22 | The loop that splits a document into element windows gives what the specification gives on any bytes, error or panic included. |
| Elements.ElementsOfSer | bsontools/canonical.go:19-22 | The windows of a serialised document are exactly its elements, in order. |
| RawElements.Iterate | bsontools/raw.go:58-142 | The iterator yields elements and then ends: well, with one error, or in the reader's panic, as specified for all bytes. |
| RawElements.CountRawElements | bsontools/raw.go:30-42 | Counts the yielded elements, reports the error, or panics with the reader. |
| RawElements.MustStopAfterError | bsontools/raw.go:56-64 | For any consumer, the iterator's own panic comes exactly when there is an error and the consumer goes on through every yield and past it. |
| RawElements.Partition | bsontools/raw.go:111-142 | On any bytes the yielded slices are a prefix of the document's body, and when iterating ends well they join up to exactly that body. |
| RawElements.YieldsOfSer | bsontools/raw.go:58-142 | A serialised document is iterated without error, element by element. |
| GoValues.PanicsOnlyInReader | bsontools/unmarshal.go:10-138 | On any bytes unmarshalling panics exactly when, behind some route of nested documents past fields that decode, iterating panics; so the switch's unknown-type panic and the second pass's are never reached. |
| PrefixPanics.OverflowIs | vendor/go.mongodb.org/mongo-driver/v2/x/bsonx/bsoncore/bsoncore.go:648-676 | An element overflows exactly when its type has a length prefix and the prefix exceeds the largest int32 less the fixed part. |
| PrefixPanics.IterationPanics | bsontools/raw.go:58-142 | On any bytes iterating panics exactly when the header is in order and the element behind those yielded overflows. |
| PrefixPanics.HugeStringPanics | vendor/go.mongodb.org/mongo-driver/v2/x/bsonx/bsoncore/bsoncore.go:102-121 | One twelve-byte document makes iterating, counting, unmarshalling, splitting and editing panic. |
| GoValues.UnmarshalOfSer | bsontools/unmarshal.go:10-48 | Unmarshalling a serialised document reads its tree, recursively. |
| Unmarshal.UnmarshalFields | bsontools/unmarshal.go:10-48 | On any bytes the two passes agree: the second meets no error or panic of the iterator that the first did not, and reads as many fields as the first counted. |
| Unmarshal.UnmarshalArray | bsontools/unmarshal.go:51-78 | The same for arrays: the values, in order, without their names. |
| Unmarshal.UnmarshalValue | bsontools/unmarshal.go:81-138 | The type switch, recursing into strictly shorter buffers, with the errors and the panics of those. |
| Accepts.AcceptsExactlyDocuments | bsontools/unmarshal.go:10-48 | A nonempty buffer unmarshals exactly when it is the bytes of a well-formed document whose scalars decode, code with scope included. |
| Marshal.MarshalD | bsontools/marshal.go:19-43 | Appends to any buffer exactly the bytes of the document, keeping what was there, precisely when every scalar's name and every regex is free of NULs, every scope is a document that can be copied, and the size fits a uint32. |
| Marshal.MarshalA | bsontools/marshal.go:46-72 | The same for arrays, the name of each element being the decimal numeral of its index. |
| MarshalSpec.NumeralIsItoa | bsontools/marshal.go:46-72 | A byte string is the name of element n exactly when it consists of digits, has no leading zero unless it is "0", and its digits read as n. |
| MarshalSpec.OptionsAreSorted | bsontools/marshal.go:75-164 | A regex is written with the same options as often, in ascending order. |
| Marshal.MarshalEl | bsontools/marshal.go:75-164 | Appends one element; names of embedded documents are not checked for NULs, and a scope of type bson.Raw is copied element by element. |
| Marshal.CloseDocument | bsontools/marshal.go:33-42 | Terminates a document and patches the placeholder with the length of everything since it. |
| MarshalSpec.FieldsReadBack | bsontools/marshal.go:75-164 | Values whose names and regexes hold no NUL, and whose scopes can be copied, serialise to a well-formed document that reads back as them, up to normalisation. |
| RoundTrip.MarshalThenUnmarshal | bsontools/marshal.go:15-43 | Marshalling and unmarshalling gives the value back, with null as nil, times as date-times, regex options sorted and scopes cut to their document, exactly when the size fits an int32 and no name anywhere holds a NUL. |
| RoundTrip.UnmarshalThenMarshal | bsontools/unmarshal.go:9-48 | What a document unmarshals to can be marshalled again and gives the same bytes exactly when the scalars have canonical form, code with scope included, and the names in arrays are the decimal numerals from zero on. |
| RoundTrip.CodeEndIsLost | bsontools/marshal.go:132-138 | Code with scope whose code does not end in NUL is accepted and written back with one. |
| KeyNormalizer.NormalizeKeyEl | mongotools/index/compare.go:197-248 | What an element slice's current bytes ask for is done: kept, refused, or the first key field of that name replaced by an int32; which of them, by type and number, is in `KeyNumbers.NormalByNumber`. |
| KeyNormalizer.NormalizeEach | mongotools/index/compare.go:187-192 | On any bytes the loop over aliasing slices does what the visit on bytes says, each slice read where it lies after the edits before it, unless an edit has made the buffer longer than it was. |
| KeyVisits.FieldStaysPut | mongotools/index/compare.go:183-192 | A field's bytes lie where they lay while the fields before it keep their sizes. |
| KeyVisits.VisitRefinesTree | mongotools/index/compare.go:187-192 | From any stage of the loop on, where each conversion that is met hits the field itself, a four-byte value, its neighbour, or a value that shrinks past what lies between, visiting slices does what visiting the fields of the tree does: the same error or the same key. |
| KeyVisits.NormalizingRefinesTree | mongotools/index/compare.go:172-248 | For a well-formed spec of that kind the whole call: an error exactly when the tree visit meets a refused field, or the spec with the key that it makes. |
| KeyVisits.TreeVisitClear | mongotools/index/compare.go:187-192 | Fields none of whose conversions are hidden: an error exactly when one of them is refused, or each normalised, whatever was edited before. |
| KeyNormalizer.NormalizeTypesInKey | mongotools/index/compare.go:172-195 | On any bytes the visit's outcome. For a well-formed spec: without hidden conversions the key with every field normalised in place and nothing else changed but lengths, or an error exactly when a field has no int32 form; with one, a convertible key is not normalised, and an error is certain when the hidden conversions after a refused field all hit values of four bytes. What that means for the key's numbers is in `KeyNumbers.NormalizingByNumber`. |
| KeyNumbers.NormalByNumber | mongotools/index/compare.go:197-248 | A value is refused exactly when it is an int64 outside int32 or a double that is NaN, infinite or has its integer part outside int32; it is converted exactly when it is an int64 or double equal to an int32, and to that int32. |
| KeyNumbers.NormalizingKeepsNumbers | mongotools/index/compare.go:197-248 | Every field of a normalised key stands for the number it stood for; it ends as an int32 exactly when it was one or an int64 or double equal to some int32; every other field has its old bytes. |
| KeyNumbers.ConvertibleByNumber | mongotools/index/compare.go:172-195 | A key can be normalised exactly when it has no int64 outside int32 and no double that is NaN, infinite or has its integer part outside int32. |
| KeyNumbers.NormalizingByNumber | mongotools/index/compare.go:172-248 | The whole call on the bytes of a well-formed spec none of whose conversions is hidden: an error exactly when some number in the key is refused, or the spec with the same numbers in its key, as int32 wherever one can hold them, and nothing else changed but lengths. |
| KeyNumbers.DoublesConvert | mongotools/index/compare.go:215-240 | The double of every int32 becomes that int32, and one half stays as it is. |
| NumberLaws.DoubleOfInteger | mongotools/index/compare.go:215-240 | The binary64 form of every integer of at most 53 bits, built from sign, exponent and fraction, stands for that integer. |
| NumberLaws.NumberOfInt64 | mongotools/index/compare.go:205-240 | The eight little-endian bytes of every int64 stand for it. |
| NumberLaws.ZeroDoubleIff | mongotools/index/legacy.go:134-137 | A double is zero exactly when all its bits but the sign are. |
| KeyAliasing.TwinTakesOver | mongotools/index/compare.go:183-248 | In a key with nothing else hidden: when a field of at least four bytes is followed by a convertible one of its name, it ends up with that one's int32 whatever it held, and the call fails exactly when a field before the two is refused. |
| KeyAliasing.ErrorIsLost | mongotools/index/compare.go:183-248 | A key whose first field has no int32 form and whose call still ends well, that field overwritten. |
| KeyAliasing.ErrorIsSkipped | mongotools/index/compare.go:183-248 | A key whose refused field lies, after an edit has shortened the buffer, in vacated space, and whose call ends well. |
| Modernize.ModernizeSpec | mongotools/index/legacy.go:31-75 | The buffer ends up with the specified bytes; without a change it is returned untouched. |
| Modernize.GetModernizedKeySpec | mongotools/index/legacy.go:77-110 | The loop rewrites the key's fields in order and reports whether it rewrote any. |
| ModernizeLaws.ModernizeRefinesTree | mongotools/index/legacy.go:31-156 | On a well-formed spec the bytes follow the tree: version 2 as is, version 1 with legacy values replaced, other versions and missing keys refused, and a panic for a string whose length header is zero. |
| ModernizeLaws.ModernizeTwice | mongotools/index/legacy.go:31-75 | A second application returns the same bytes and reports no change. |
| ModernizeLaws.ModernizeIsPositional | mongotools/index/legacy.go:77-110 | A change keeps the key's names, order and count, repeated names included, turns exactly the legacy values into int32 1, and leaves every other option's bytes. |
| OptionNumbers.LegacyMeans | mongotools/index/legacy.go:134-156 | By type and bytes, which key values are legacy: zeros of every numeric type, decimals by their coefficient, the empty string, and everything that is neither number nor string. |
| SpecTypes.Convert | mongotools/index/compare.go:360-446 | Converts one option in place as specified: kept, replaced, or refused. |
| SpecTypes.ConvertRefinesTree | mongotools/index/compare.go:360-446 | On a well-formed spec a conversion is the replacement of that option's first occurrence, and the spec stays well formed. |
| SpecTypes.BoundIsKeptIff | mongotools/index/compare.go:338-411 | An integer option that passes ends up between 0 and its bound exactly when it was stored as an int32 in that range or as a wider number above -1. |
| OptionNumbers.IntOption | mongotools/index/compare.go:360-411 | An integer option stays if it is an int32, becomes the int32 that cuts its number toward zero if it is an int64 or double up to the bound, and is refused exactly when it is no number, above the bound, or without an int32 part. |
| OptionNumbers.BoolOption | mongotools/index/compare.go:413-446 | `sparse` stays if it is a bool, becomes false exactly when it is a number whose bytes are those of a zero, true for every other number, and is refused exactly when it is neither number nor bool. |
| OptionNames.OptionsAreListed | mongotools/index/compare.go:19-41 | Which options are ignored, compared in order and converted, spelled out as text, with their bounds. |
| SpecTypes.OutOfBoundsIsKept | mongotools/index/compare.go:338-372 | 1000 bits and a time to live of -5 pass unchanged. |
| SpecTypes.WithoutKeepsWf | mongotools/index/compare.go:157-162 | Ignoring an option removes its first occurrence, or changes nothing. |
| Prepare.RemovalOrderIsFree | mongotools/index/compare.go:157-162 | Removing distinct names gives one result whatever order the set is iterated in. |
| Prepare.PrepareSpec | mongotools/index/compare.go:146-170 | On any bytes and for every iteration order of the ignored options, the whole preparation of a buffer gives what the byte specification gives, errors and panics included, unless normalising the key makes the buffer longer than it was. |
| Prepare.PrepareRefinesTree | mongotools/index/compare.go:146-170 | On a well-formed spec whose key hides no conversion, preparing the bytes is preparing the tree, whatever the iteration order. |
| Prepare.PrepareOrderIsFree | mongotools/index/compare.go:157-162 | On any well-formed spec, hidden conversions or not, the prepared bytes do not depend on the iteration order of the ignored options. |
| PreparedForm.PreparedIsWf | mongotools/index/compare.go:146-170 | What preparing leaves of a well-formed spec, hidden conversions or not, is a well-formed spec with a key, and no old binary lies that did not before. |
| Prepare.NormalizedFits | mongotools/index/compare.go:172-195 | Normalising a key never makes the spec too long. |
| MapDecoder.DecodeOfSer | mongotools/index/bson.go:18-36 | Of a well-formed document whose old binaries are honest, whatever follows it, the streaming decoder reads the tree, or refuses what the tree decoder refuses: names of 4096 bytes, booleans above 1, texts without a final NUL, code with scope whose lengths do not add up. |
| MapDecoder.ValAgain | vendor/go.mongodb.org/mongo-driver/v2/bson/value_reader.go:388-482 | What the decoder makes of a value depends only on the bytes it consumes. |
| DeepEqual.SameReflexive | mongotools/index/bson.go:18-36 | Deep equality of decoded values, documents as maps and scopes in order, holds of a value with itself exactly when no NaN in it counts. |
| DeepEqual.SameSymmetric | mongotools/index/bson.go:18-36 | Deep equality is symmetric. |
| DeepEqual.SameTransitive | mongotools/index/bson.go:18-36 | Deep equality is transitive. |
| DeepEqual.OnlyLookupsCount | mongotools/index/bson.go:13-36 | Deep equality of documents depends only on what each name last leads to, not on field order. |
| SameReadings.ScalarDecodes | mongotools/index/bson.go:18-36 | A well-formed scalar other than code with scope decodes exactly when a text is not empty and ends in NUL, a boolean is 0 or 1 and the halves of a regex are short; and what it decodes to. |
| SameReadings.DecodesIff | mongotools/index/bson.go:18-36 | A document without code with scope decodes exactly when its names are short and all its scalars do. |
| SameReadings.DecodedSame | mongotools/index/bson.go:18-36 | Documents with distinct names that decode to deeply equal values have, field by field and item by item, the same types and bytes, or equal numbers, and the other way round if they hold no code with scope. |
| SameReadings.SameWalks | mongotools/index/bson.go:18-36 | Every path, by names through documents and indexes through arrays, then leads nowhere in both, to documents in both, to arrays in both, or to scalars of one type with the same bytes or equal numbers. |
| SameReadings.AlikeIsSame | mongotools/index/bson.go:18-36 | If every path does, the documents are the same field by field and item by item. |
| SameReadings.OrderKeepsSame | mongotools/index/bson.go:13-36 | Documents without NaN that differ by field order alone are the same field by field. |
| VerdictMeaning.CodesAlike | mongotools/index/bson.go:18-36 | Code with scope compares equal exactly when the texts are equal, whatever byte ends them, and the scopes have the same names in the same order with values that read alike. |
| Compare.GetOrderDifferOpts | mongotools/index/compare.go:251-294 | The loop collects the order-sensitive options whose type or bytes differ. |
| Compare.CompareRefinesTree | mongotools/index/compare.go:97-144 | On prepared buffers that start with well-formed documents whose old binaries are honest, the verdict is the one on the trees, whatever bytes follow them. |
| Compare.DescribeSpecDifferences | mongotools/index/compare.go:83-144 | Works on clones, so neither buffer changes even if they share bytes, and gives the specified verdict on any bytes, unless normalising a key makes its buffer longer than it was. What that verdict means is in `VerdictMeaning.VerdictMeans`. |
| Compare.VerdictRefinesTree | mongotools/index/compare.go:83-144 | On well-formed specs whose keys hide no conversion and whose old binaries are honest that verdict is the one on the trees, whatever the iteration orders. |
| VerdictMeaning.VerdictMeans | mongotools/index/compare.go:83-144 | The verdict on the bytes of two well-formed specs with distinct names, honest old binaries and no code with scope: a failure or crash while preparing, a failure to decode, a difference exactly when some path reads differently in the prepared specs, and otherwise exactly those of `key` and `partialFilterExpression` that have other bytes. |
| VerdictMeaning.NoDiffReadsAlike | mongotools/index/compare.go:83-144 | "No difference" between well-formed specs with distinct names and honest old binaries implies that every path reads the same in both once prepared. |
| VerdictMeaning.NoDiffKeepsScalars | mongotools/index/compare.go:83-144 | On the prepared bytes: a pointer through documents to a scalar in the one leads in the other to a scalar of its type with the same bytes, or an equal number. |
| VerdictMeaning.OrderIsNoDifference | mongotools/index/bson.go:11-36 | Comparing documents that decode, hold no NaN and differ by field order alone, at any depth, finds nothing but the order-sensitive options whose bytes differ. |
| VerdictMeaning.PreparingDerives | mongotools/index/compare.go:146-170 | Every option of a prepared spec is one of the spec's options, as it was, or an int32 or bool, or a document of the same names in which some fields have become int32. |
| CompareLaws.ReflexiveIff | mongotools/index/compare.go:83-144 | Any bytes have no difference from themselves exactly when they can be prepared and decoded, no NaN counts, and the ordered options can be looked up. |
| CompareLaws.SymmetricIff | mongotools/index/compare.go:83-144 | On any bytes without a difference, the same holds the other way round exactly when the second spec's ordered options can be looked up. |
| CompareLaws.TransitiveIff | mongotools/index/compare.go:83-144 | On any bytes, two steps without a difference make one exactly when the ordered options not found in the middle spec do not differ in the outer two. |
| CompareLaws.NoDiffKeepsBytes | mongotools/index/compare.go:20-27 | On any bytes "no difference" implies equal bytes of every ordered option found in both prepared buffers. |
| CompareLaws.NoDiffReflexive | mongotools/index/compare.go:83-144 | A well-formed spec with honest old binaries has no difference from itself exactly when it can be prepared and decoded and no NaN in it counts. |
| CompareLaws.NoDiffSymmetric | mongotools/index/compare.go:83-144 | On such specs, hidden conversions or not, "no difference" is symmetric. |
| CompareLaws.NoDiffTransitive | mongotools/index/compare.go:83-144 | On such specs "no difference" is transitive, even if the middle spec's ignored options are iterated differently. |
| CompareLaws.NoDiffKeepsOrder | mongotools/index/compare.go:20-27 | On such specs "no difference" implies byte-equal prepared `key` and `partialFilterExpression`, absence included. |
| CompareBlindness.BlindToOrderAndIgnored | mongotools/index/compare.go:29-41 | The verdict on the bytes, on either side, does not depend on the order of a spec's options, on `ns` or `background`, or on version 1 against 2 when nothing is modernised. |
| CompareWitnesses.NotTransitive | mongotools/index/compare.go:83-144 | Three well-formed specs on which "no difference" is not transitive, the middle one with an old binary that hides a filter. |
| CompareWitnesses.NotSymmetric | mongotools/index/compare.go:97-144 | Two prepared buffers with no difference one way round and an error the other. |
| CompareWitnesses.NaNDiffers | mongotools/index/bson.go:11-17 | A spec that differs from itself. |
| CompareWitnesses.NaNOptionDiffers | mongotools/index/bson.go:11-17 | Any spec with distinct names is not without difference from itself if an option that preparing leaves alone counts a NaN. |
| RingBuf.RingBuf.Push | ringbuf/ringbuf.go:45-54 | Appends the item through any number of wrap-arounds, keeping tail behind the live items and every other slot zero; fails exactly when full. |
| RingBuf.RingBuf.Peek | ringbuf/ringbuf.go:60-67 | The oldest item; fails exactly when empty. |
| RingBuf.RingBuf.Pop | ringbuf/ringbuf.go:74-84 | Drops the oldest item and clears its slot; fails exactly when empty. |
| RingBuf.RingBuf.constructor | ringbuf/ringbuf.go:22-27 | An empty buffer of the given capacity with every slot zero. |
| RingBuf.New | ringbuf/ringbuf.go:22-27 | Refuses a capacity that is not positive. |
| BoundedQueue.InvKept | synctools/bounded_queue.go:108-218 | Every single write of push and pop, every branch of every select, and every outside event keep the queue's invariant, for any limits: slots, order, and the byte total modulo 2^64. |
| BoundedQueue.KeptByPushMem | synctools/bounded_queue.go:207-211 | Adding an item's size keeps the byte total equal to the buffered sizes modulo 2^64. |
| BoundedQueue.LimitKept | synctools/bounded_queue.go:117-218 | While the limits leave room for one more item, every event keeps the soft byte limit and the byte total does not wrap. |
| BoundedQueue.SoftKept | synctools/bounded_queue.go:139-179 | Every event keeps the soft byte limit, provided that a receiving worker reads a total that has not wrapped. |
| QueueRuns.CountHolds | synctools/bounded_queue.go:37-45 | For any limits, the count is within its limit between any two writes. |
| QueueRuns.SoftLimitHolds | synctools/bounded_queue.go:37-45 | While what fits beside a free slot, or up to the byte limit and one item more, fits an int64: between any two writes all buffered items but the newest sum to less than the byte limit. |
| QueueRuns.TotalHolds | synctools/bounded_queue.go:96-103 | While the limits leave room for one more item: the observed byte total is at most the buffered sizes, equal to them between operations, and zero whenever the count is. |
| QueueRuns.FifoHolds | synctools/bounded_queue.go:108-218 | For any limits, received is sent followed by buffered in every run, cancelled or not, so the output is a prefix of the input; the ring buffer's assertions never fire. |
| QueueRuns.EveryEventCounts | synctools/bounded_queue.go:108-192 | Every event lowers a bound on the events to come, whichever branch a select takes. |
| QueueRuns.RunsEnd | synctools/bounded_queue.go:108-113 | A run on n items has at most 20n + 16 events. |
| QueueRuns.NeverStuck | synctools/bounded_queue.go:117-192 | With a reader that keeps reading, the worker can move unless it has ended or waits, with an empty buffer, for a producer that is silent and has not closed. |
| QueueRuns.CleanShutdown | synctools/bounded_queue.go:108-192 | For any limits, a worker that ends without cancellation has received and sent the whole input, left count and byte total at zero and every slot cleared, and closed the output. |
| QueueRuns.ClosedLast | synctools/bounded_queue.go:108-113 | Nothing is sent once the output is closed. |
| QueueCancellation.CancelledMoves | synctools/bounded_queue.go:108-192 | In every state reached after a cancellation, unless the worker has ended, it can step or leave by itself. |
| QueueCancellation.CancellationEnds | synctools/bounded_queue.go:108-192 | From every such state at most seven steps of the worker's own, with no reader, producer or close, end it with the output closed and nothing more sent or received. |
| QueueCancellation.TopOffers | synctools/bounded_queue.go:117-179 | The select the worker goes to offers to receive exactly when both limits leave room, to notice the close likewise, to send exactly when anything is buffered, and to leave exactly when cancelled. |
| QueueCancellation.FlushOffers | synctools/bounded_queue.go:181-192 | The flush offers to send and, when cancelled, to leave, as long as anything is buffered, never to receive, and ends otherwise. |
| QueueCancellation.CloseIsNoticed | synctools/bounded_queue.go:124-179 | A close that is noticed ends the worker when nothing is buffered and starts the flush otherwise. |
| QueueOverflow.TotalIsSoundIffRoomy | synctools/bounded_queue.go:206-211 | For items of any size up to a bound, the int64 byte total stays non-negative in every run exactly when the limits leave room for one more item. |
| QueueOverflow.NegativeTotalIgnoresLimit | synctools/bounded_queue.go:134-162 | Whenever the total is negative with a slot free, the worker goes to the select that receives, although what it buffers is at least 2^63 bytes. |
| QueueOverflow.LimitCanBeIgnored | synctools/bounded_queue.go:134-211 | Whenever what fits beside a free slot, or up to the byte limit and one item more, exceeds an int64, some run has the worker receive while it buffers at least 2^63 bytes. |
| QueueOverflow.LimitHoldsIffRoomy | synctools/bounded_queue.go:37-45 | For items of any size up to a bound, the byte limit holds for all buffered items but the newest, in every run, exactly when what fits beside a free slot, or up to the byte limit and one item more, fits an int64. |
| QueueOverflow.StatsAgreeIff | synctools/bounded_queue.go:96-103 | With the count read in one state and the byte total in a later one, no items implies no bytes in every run exactly when every item has size 0. |
| QueueWorker.Worker.ProcessItems | synctools/bounded_queue.go:117-122 | One turn of the loop extends the recorded run by events of the state machine, each branch of a select being one that the machine offers, cancellation included, and lowers the bound on what is left. |
| QueueWorker.Worker.EnabledIsOffered | synctools/bounded_queue.go:124-192 | The branches of a select that are ready for the worker are exactly those that the state machine offers. |
| QueueWorker.Worker.ReceiveOrSendNormal | synctools/bounded_queue.go:164-179 | Any ready branch of the three-way select, the close noticed here leading to the flush loop. |
| QueueWorker.Worker.FlushRemaining | synctools/bounded_queue.go:181-192 | Drains the buffer, or leaves on cancellation. |
| QueueWorker.Worker.Push | synctools/bounded_queue.go:206-211 | Keeps the ring buffer's contents and the byte total in step with the state machine; a negative size stops the worker. |
| QueueWorker.Worker.Pop | synctools/bounded_queue.go:214-218 | Subtracts the stored size and drops the oldest item, again in step. |
| QueueWorker.Worker.Run | synctools/bounded_queue.go:108-113 | For any limits: ends; what it did is a run of the state machine, to which `QueueCancellation.CancellationEnds` applies, and without a cancellation or a negative size everything was delivered and the buffer is empty. |
| AtomicMax.InvKept | synctools/max.go:34-53 | Every load, comparison and compare-and-swap of every goroutine keeps the invariant that ties the pointer to the log of calls. |
| MaxRuns.ReachedOwned | synctools/max.go:34-63 | In every reachable state each log entry belongs to exactly one finished or running call, no call has two, and every call was begun. |
| MaxRuns.Linearizable | synctools/max.go:34-63 | For any number of goroutines: the calls have a legal sequential order in which every finished call has an entry of its own with its result, every entry belongs to a call that was begun, and a call that ended before another began comes first, the other finished or still running. |
| MaxRuns.ReturnsPrevious | synctools/max.go:34-53 | Each call returns the value held just before it took effect. |
| MaxRuns.FailedSwapMeansRaised | synctools/max.go:43-52 | A compare-and-swap fails only because the maximum was strictly raised since the load. |
| MaxRuns.HeldIsFirstMax | synctools/max.go:34-43 | A sequence of updates leaves the earliest of the greatest values. |
| MaxRuns.StoredIsEarliestMax | synctools/max.go:34-63 | The stored value is the initial value or the argument of an update that was begun, dominates every finished update, and is the earliest of ties. |
| MaxRuns.NeverDecreases | synctools/max.go:34-53 | Over any further steps the stored value does not decrease. |
| MaxRuns.NeverBlocked | synctools/max.go:34-53 | A goroutine inside a call always has a next step. |
| MaxUpdate.Tracker.Update | synctools/max.go:34-53 | The retry loop, with other calls breaking in between its atomic operations, adds exactly one entry to theirs, whose result is what was held just before, and tries at most once more than others broke in. |
| MaxUpdate.Tracker.Get | synctools/max.go:57-63 | Adds exactly one entry to those of the others, with the value held then. |
| History.History.Get | history/history.go:47-55 | The entries ever added that have not expired, in order, for any time to live. |
| History.History.Add | history/history.go:59-70 | Counts the unexpired entries and the new one; that is the count an unpruned log gives exactly when the time to live is not negative, or the least int64. |
| History.History.GetFirstValidIdx | history/history.go:73-86 | The first index that has not expired, all earlier ones having expired. |
| History.SuffixIsFresh | history/history.go:72-90 | In an ascending log, skipping to the first unexpired entry leaves exactly the unexpired ones. |
| History.PruningIsUnobservable | history/history.go:47-90 | Over every run of additions and readings on a clock that does not go back, dropping expired entries changes no answer, exactly when the time to live is not negative, or the least int64. |

## Left out

- Bson.ValueLength: wraps the length around as the driver's int32 does and then takes any wrapped length for a panic; behind
  a name of nearly 2^31 bytes a wrapped length could still end inside the buffer.
- Edit.ReplaceInRaw: takes the replacement by value; a replacement whose bytes lie in the edited buffer is not modelled.
- EditSpec.EditError: keeps the kind of each failure and what a too-deep error names, not the wording of messages.
- GoValues.ScalarValue: times are whole milliseconds, text is bytes without a Unicode check.
- MarshalSpec.SortOptions: sorts bytes, which is the source's order of characters for ASCII options.
- Marshal.MarshalEl: other Go types, which fall back to the driver's reflection, are not modelled, scopes that are not bson.Raw
  among them, nor is sharing between a value and the buffer.
- Numbers.NumberOf: an int64 is taken exactly; rounding it to a float64 does not change how it compares with the bounds
  used.
- KeyNormalizer.NormalizeTypesInKey: once a hidden conversion has made the buffer longer than it was, what the slices show
  depends on its spare capacity; only that a convertible key does not end up normalised, and that late refusals err, is
  stated of those runs. Where a slice is read across field boundaries the outcome is exact on bytes and not restated on trees.
- Modernize.PutKey: the driver's marshalling of the new key is the concatenation of its fields.
- Prepare.PrepareSpec: says nothing of runs in which normalising the key makes the buffer longer than it was, and relates
  bytes to one prepared tree where the key hides no conversion.
- Compare.CompareRaw: the JSON patch and the description of a difference are left out.
- MapDecoder.Decode: leaves out buffers of nearly 2^31 bytes, where the sum of the lengths in code with scope would leave int32.
- CompareLaws.SymmetricIff: takes each spec's ignored options in one order on both occasions, as do the other laws on any
  bytes; on malformed bytes the prepared buffer may depend on it, on well-formed ones it does not.
- CompareBlindness.BlindToOrderAndIgnored: is about specs without repeated options, hidden key conversions or lying old
  binaries, whose modernised form fits an int32.
- VerdictMeaning.VerdictMeans: is about specs with distinct names at every depth and without code with scope; on others
  "no difference" is characterised by `CompareLaws`, and code with scope by `VerdictMeaning.CodesAlike`.
- VerdictMeaning.NoDiffReadsAlike: of code with scope it keeps the text of the code; the scope is in `VerdictMeaning.CodesAlike`.
- CompareLaws.NoDiffReflexive: its condition is on the prepared spec; `CompareWitnesses.NaNOptionDiffers` gives one on the
  input, in one direction.
- QueueWorker.Worker.Await: a producer with nothing left to send closes its channel sooner or later; how long a select blocks
  and which goroutine runs are not modelled.
- QueueWorker.Worker.Run: a negative size, which ends the whole process, stops the worker without the deferred close.
- RingBuf.RingBuf: the atomics behind `count` are in `BoundedQueue`, where its writes are separate steps.
- AtomicMax.Apply: a cell is allocated in the step that swaps it in, since nobody else sees it before.
- MaxUpdate.Tracker.Update: the other goroutines make finitely many updates.
- History.History: each call is one step under its lock, and times are unbounded integers.
- Rates and sums over logs, string formatting, time conversion by float64, connection strings, record identifiers, raw value
  helpers one type at a time, and the packages around processes, hardware and Git.
