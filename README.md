# CSC201_Project1 record store, modelled in Dafny

The store keeps fixed-size records (an int key followed by data bytes) in a
primary file that is read and written in 256-byte pages. It also keeps an
index file of 8-byte (key, offset) entries derived from the primary file.

What the model covers:

- `model.RFile`:
  - the page-by-page search `searchFile`, with `isInPage` and `isInRecord`;
  - index extraction: `split` and `extractInts`;
  - the buffered index writer `putInts`;
  - the index page unpacker `readPage`;
  - `sort`;
  - the two binary searches over the index file, `binarySearch` on byte
    offsets and `binarySearch2` on pages, with `binarySearchList` and
    `inRange`;
  - reuse of an open index file by `instantiateRFile`.
- `modelTesting.DataGenerator`:
  - the constructor's argument checks and `RECORDS_IN_PAGE`;
  - the page-packing routine `fillFile`;
  - the list accessors `getRecord`, `setRecord` and `removeRecord`.
- `model.DataClassConfiguration`: the page, key and record sizes.

Modules:

| file | module | contents |
|---|---|---|
| java_runtime.dfy | `JavaRuntime` | bytes and 32-bit ints; the exceptions; `Arrays.copyOfRange`, `Arrays.fill`, `System.arraycopy`, `String.getBytes(US_ASCII)`, and `RandomAccessFile.read`/`write` on a file held as a byte sequence |
| utils.dfy | `Utils` | the int/byte conversions of `utils.Utils` as an abstract `Codec`, plus two concrete codecs shown to satisfy its laws |
| configuration.dfy | `Configuration` | `DataClassConfiguration` |
| index_layout.dfy | `IndexLayout` | `FIndex`; the byte layout of index pages; what `readPage`, `putInts` and `sort` compute |
| page_scan.dfy | `PageScan` | what `isInRecord`, `isInPage` and `extractInts` compute on a page, and what `split` collects over a file |
| rfile.dfy | `RFileModel` | the functions behind `binarySearchList`, `inRange` and the two binary searches; the class `RFile` |
| data_generator.dfy | `DataGeneratorModel` | `fillFile` as a step function; the class `DataGenerator` |

`RFile` and `DataGenerator` are classes because the source updates their
fields in place:

- A file's contents are the field `bytes`.
- The page buffers are `array<byte>`.
- The lists `keyIndex` and `recordList` are `seq` fields.

Each loop of the source is a method with a loop invariant. That method is
proved against a function that states what the loop computes. The
properties listed below are proved as lemmas about those functions.

The `utils.Utils` conversions are not part of this model. They appear as a
`Codec` value with these laws (`IsIntCodec`):

- decoding an encoded int gives it back;
- four zero bytes decode to 0, and only they do.

No byte order is assumed. `Utils.BigEndianIsIntCodec` and
`Utils.LittleEndianIsIntCodec` show that both byte orders satisfy the laws.

Where the code and its documentation disagree, the model follows the code:

- The index file is opened with the PRIMARY file's record size (RFile.java,
  lines 161, 197 and 274, passing `recordSize`), not with the 8-byte entry
  size.
- `binarySearch` moves `mid` up by `mid % 8` (RFile.java:168-169). That does
  not align it to an entry: `RFileModel.AdjustMidAligns` shows the result is
  aligned exactly when `mid % 4 == 0`.
- `binarySearch2` has a branch that leaves `pos` and `EOF` unchanged: the
  page is not empty, `binarySearchList` reports no match on it, and the key
  is neither above its last key nor below its first, nor strictly inside
  them. Such a page can only be
  out of order. From that branch the loop repeats the same iteration
  forever, so the model reports `Diverges` there. `RFileModel.Search2Ends`
  proves this cannot happen when every page the loop can read, at ANY byte
  offset (including offsets inside an entry), unpacks ascending. A sorted
  index does not by itself meet that condition, so this is no termination
  guarantee for sorted indexes.
- `fillFile` writes a page only after record `i` has been copied into slot
  `i % RECORDS_IN_PAGE`. So record `RECORDS_IN_PAGE` overwrites record 0;
  see Findings.

## Model

| member | source | states |
|---|---|---|
| Configuration.NewConfiguration | src/model/DataClassConfiguration.java:20-23 | DATA_SIZE is the argument unchanged, with no validation; RECORD_SIZE is DATA_SIZE + 4 unless the int sum wraps, in which case it is negative |
| Configuration.RecordsPerPageFit | src/modelTesting/DataGenerator.java:62 | PAGE_SIZE / (dataBytes + Integer.BYTES) records fit in a page and one more would not; none fit exactly when dataBytes exceeds 252 |
| JavaRuntime.CopyOfRange | src/model/RFile.java:129 | copyOfRange gives the requested length; positions past the source's end read 0 |
| JavaRuntime.ReadInto | src/model/RFile.java:109 | read(b) at an offset fills the prefix of b with the available file bytes and leaves the rest of b as it was |
| JavaRuntime.WriteAt | src/model/RFile.java:308 | write(b) replaces the bytes at the offset, grows the file when needed, and keeps the bytes before and after |
| JavaRuntime.Ascii | src/modelTesting/DataGenerator.java:125 | getBytes(US_ASCII) gives one byte per character, '?' for any character outside ASCII |
| IndexLayout.DecodeEntryBytes | src/model/RFile.java:357-360 | decoding the 8 bytes putInts writes for an entry gives back the same (key, index) |
| IndexLayout.PageEntriesAt | src/model/RFile.java:357-361 | readPage's slot at pos contributes FIndex(key, index) when its key is non-zero and nothing when it is 0, then the scan continues 8 bytes on |
| IndexLayout.IndexEntriesNonZero | src/model/RFile.java:358 | no entry read from the index has key 0 |
| IndexLayout.PutIntsImageShape | src/model/RFile.java:299-316 | putInts writes 256 * (n / 32 + 1) bytes, and entry j sits at byte 8 * j as its key then its index |
| IndexLayout.PutIntsLastPage | src/model/RFile.java:306-315 | with a multiple of 32 entries, the last page written is all zeros (or the buffer as it was, when there are no entries) |
| IndexLayout.UnpackPutInts | src/model/RFile.java:299-316 | reading back what putInts writes from a zeroed buffer gives the entries with non-zero keys, in order |
| IndexLayout.UnpackDenseIndex | src/model/RFile.java:331-337 | reading every page of an index written from non-zero keys gives the entries back exactly |
| IndexLayout.IndexEntriesAll | src/model/RFile.java:331-337 | sort's page loop over a whole number of pages reads the same entries as one readPage over the whole file |
| IndexLayout.SortByKey | src/model/RFile.java:339 | Collections.sort keeps the entries as a multiset |
| IndexLayout.SortByKeyAscending | src/model/RFile.java:339 | the sorted list is ascending by key |
| IndexLayout.SortByKeyOfAscending | src/model/RFile.java:339 | sorting a list that is already ascending leaves it unchanged |
| IndexLayout.SortByKeyStable | src/model/RFile.java:339 | the sort is stable: for each key, the entries with that key keep their order |
| IndexLayout.SortImageOfDense | src/model/RFile.java:324-341 | sort rewrites a dense index file as the dense file of the sorted entries, at the same size |
| IndexLayout.SortDenseIndex | src/model/RFile.java:324-341 | after sort, reading the index back gives the same multiset of entries, ascending by key |
| IndexLayout.SortTwiceIsSortOnce | src/model/RFile.java:324-341 | for an index file no longer than the image the first sort writes (at most 256 * (n / 32 + 1) bytes for its n entries), and sorting from a zeroed page buffer, a second sort leaves the file as the first sort left it |
| PageScan.IsInRecord | src/model/RFile.java:128-131 | true exactly when the record's first 4 bytes, zero-padded past its end, decode to the key |
| PageScan.IsInRecordOfEncoded | src/model/RFile.java:128-131 | a record that starts with an encoded key k matches exactly the key k |
| PageScan.KeyFromPageHasKey | src/model/RFile.java:141-148 | isInPage's loop succeeds exactly when some record at a multiple of recordSize below the page length holds the key |
| PageScan.PageHasWrittenKey | src/model/RFile.java:141-148 | a page that stores the key's bytes at a record boundary makes isInPage true |
| PageScan.FreshPageIsCopy | src/model/RFile.java:108-109 | searchFile's zeroed-then-read page k is bytes 256k..256k+256 of the file, zero-padded past its end |
| PageScan.SlotCountIsQuotient | src/model/RFile.java:377 | extractInts visits page.length / recordSize slots |
| PageScan.SlotStartIs | src/model/RFile.java:377-382 | the scan's j-th step from byte pos reaches byte pos + j * recordSize |
| PageScan.RecordsFromAt | src/model/RFile.java:377-382 | slot j of extractInts' scan lies inside the page and is the key at its start byte paired with that offset plus fileIndex |
| PageScan.SplitEntriesOfPages | src/model/RFile.java:278-283 | split's page loop over whole pages collects each page's records, in file order, at the pages' offsets |
| PageScan.ExtractedPointsAtKeys | src/model/RFile.java:373-384 | every entry extractInts adds for a page of the file names an offset whose 4 bytes decode to the entry's key |
| PageScan.SplitThenSort | src/model/RFile.java:268-341 | on a primary file of whole 256-byte pages (fewer than 2^31 bytes, record size at least 4), when no index file exists yet and the page buffer is zeroed (as a fresh RFile leaves it), the index split writes is the dense image of its entries, sorting it gives the dense image of the entries in key order, and a second sort changes nothing |
| PageScan.SplitEntriesSound | src/model/RFile.java:268-287 | on a primary file of whole 256-byte pages (fewer than 2^31 bytes, record size at least 4), every entry split collects has a non-zero key that its offset holds in the primary file |
| PageScan.SplitEntriesComplete | src/model/RFile.java:268-287 | on a primary file of whole 256-byte pages (fewer than 2^31 bytes, record size at least 4), every record slot of every page whose key is non-zero is among the entries split collects, at its byte offset |
| RFileModel.ListProbe | src/model/RFile.java:244-260 | the loop returns 0 or 1, and returns 1 only when the key occurs in the window |
| RFileModel.ListProbeAscending | src/model/RFile.java:249-257 | on an ascending list whose key can only occur inside the window, the loop returns 1 exactly when the key occurs |
| RFileModel.ListProbeDecides | src/model/RFile.java:244-260 | binarySearchList returns 1 exactly when the key occurs in an ascending keyIndex |
| RFileModel.InRange | src/model/RFile.java:233-235 | inRange throws IndexOutOfBounds exactly on an empty keyIndex |
| RFileModel.InRangeBetween | src/model/RFile.java:233-235 | on a non-empty ascending list, inRange holds exactly when the key lies strictly between the first and last keys |
| RFileModel.AdjustMid | src/model/RFile.java:168-169 | the adjustment moves mid up by at most 7 |
| RFileModel.AdjustMidAligns | src/model/RFile.java:166-169 | the adjusted mid is a multiple of 8 exactly when mid is a multiple of 4 |
| RFileModel.AdjustMidUnaligned | src/model/RFile.java:166-169 | illustration of RFileModel.AdjustMidAligns: mid 10 becomes 12, which is not on an 8-byte entry boundary |
| RFileModel.Search1 | src/model/RFile.java:165-181 | binarySearch's loop makes at least one access |
| RFileModel.Search1Hit | src/model/RFile.java:171-176 | one-step unfolding of binarySearch's loop (the step its loop proof uses): a probe that reads the key ends the search with that probe counted |
| RFileModel.Search1Next | src/model/RFile.java:175-180 | one-step unfolding of binarySearch's loop (the step its loop proof uses): a probe that misses moves pos to mid + 8 or EOF to mid - 8 and continues from there, or ends when the window is empty |
| RFileModel.Search1Logarithmic | src/model/RFile.java:165-181 | binarySearch makes at most floor(log2(EOF - pos + 1)) + 1 accesses, so the loop always ends |
| RFileModel.PageReader | src/model/RFile.java:201-208 | there is one unpacked page for every offset from 0 to the file length |
| RFileModel.Search2 | src/model/RFile.java:200-221 | the last page read lies between pos and EOF, and a finished search counts at least one access |
| RFileModel.Search2Here | src/model/RFile.java:210-219 | one-step unfolding of binarySearch2's loop (the step its loop proof uses): an empty page or a page holding the key ends the search; on a page the key is neither above nor below, the search ends when the key lies strictly inside and loops forever otherwise |
| RFileModel.Search2Next | src/model/RFile.java:214-217 | one-step unfolding of binarySearch2's loop (the step its loop proof uses): a key above the page moves pos to mid + 256, a key below it moves EOF to mid - 256, and the search continues from there |
| RFileModel.Search2Ends | src/model/RFile.java:200-221 | when the page read at every byte offset of the index file (including offsets inside an entry) unpacks ascending, binarySearch2 never loops forever |
| RFileModel.Search2Logarithmic | src/model/RFile.java:200-221 | a finished binarySearch2 makes at most floor(log2(EOF - pos + 1)) + 1 accesses |
| RFileModel.RFile.constructor | src/model/RFile.java:53-59 | a new RFile over the given contents, with an empty keyIndex and no index file |
| RFileModel.RFile.InstantiateRFile | src/model/RFile.java:83-85 | returns the open index file when there is one, else a new RFile with the same record size over the index file's contents |
| RFileModel.RFile.IsInPage | src/model/RFile.java:141-148 | returns true exactly when some record of the page holds the key |
| RFileModel.RFile.SearchFile | src/model/RFile.java:101-119 | returns the 1-based number of the first page holding the key, or the page count when none does; 0 exactly for an empty file |
| RFileModel.RFile.ReadPage | src/model/RFile.java:353-364 | throws NullPointer on a null page; else appends the page's non-zero entries, in slot order, to keyIndex without clearing it, and returns keyIndex |
| RFileModel.RFile.ExtractInts | src/model/RFile.java:373-384 | throws NullPointer on a null page; else appends (key, offset + fileIndex) for every non-zero record key, in slot order, and returns keyIndex |
| RFileModel.RFile.PutInts | src/model/RFile.java:299-316 | throws NullPointer without an index file; else writes the putInts image of keyIndex from offset 0, empties keyIndex and zeroes the buffer |
| RFileModel.RFile.PackPages | src/model/RFile.java:303-313 | putInts's loop empties keyIndex, writes the first 32 * (n / 32) entries as whole pages from offset 0 and leaves the rest packed at the head of the buffer |
| RFileModel.RFile.BinarySearchList | src/model/RFile.java:244-260 | returns 1 only when the key is in keyIndex, and exactly then when keyIndex is ascending |
| RFileModel.RFile.BinarySearch | src/model/RFile.java:156-184 | opens or reuses the index file and returns the access count of the search functions, from a zeroed key buffer |
| RFileModel.RFile.ReadProbe | src/model/RFile.java:201-208 | the buffer is the page read at mid after zeroing, and keyIndex is exactly its unpacked entries |
| RFileModel.RFile.SearchPages | src/model/RFile.java:198-224 | returns the outcome of the paged search; buffer and keyIndex hold the last page read |
| RFileModel.RFile.Decide | src/model/RFile.java:210-219 | after unpacking the page at mid: stops (empty page, hit, in range, or the endless case) with exactly the paged search's outcome, or moves pos up or EOF down by a page and the search from there is the same search |
| RFileModel.RFile.BinarySearch2 | src/model/RFile.java:194-225 | opens or reuses the index file and returns the paged search's outcome, or Diverges where the source loops forever |
| RFileModel.RFile.ExtractPages | src/model/RFile.java:276-283 | keyIndex becomes the entries split collects from every page of the primary file |
| RFileModel.RFile.Split | src/model/RFile.java:268-287 | the index file is rewritten from offset 0 with the putInts image of the collected entries; keyIndex is left empty and the buffer zeroed; returns the index file |
| RFileModel.RFile.ReadPages | src/model/RFile.java:331-337 | keyIndex becomes the non-zero entries of every page of the index file |
| RFileModel.RFile.Sort | src/model/RFile.java:324-341 | throws NullPointer without an index file; else the index file becomes the sort image, with keyIndex empty and the buffer zeroed |
| DataGeneratorModel.RecordsInPage | src/modelTesting/DataGenerator.java:62 | RECORDS_IN_PAGE is the integer quotient 256 / (dataBytes + 4) |
| DataGeneratorModel.SlotOffset | src/modelTesting/DataGenerator.java:127-128 | slot (i % R) * (dataBytes + 4) holds a whole record inside the page |
| DataGeneratorModel.PutContents | src/modelTesting/DataGenerator.java:125-126 | bb.put copies the data over the front of the backing array, and the data reads back from there |
| DataGeneratorModel.SlotContents | src/modelTesting/DataGenerator.java:127-128 | the two copies put the key's 4 bytes at the slot offset and the ByteBuffer's bytes after them, and keep the rest of the buffer |
| DataGeneratorModel.StepAsWritten | src/modelTesting/DataGenerator.java:124-133 | one-step unfolding of fillFile's loop (the step its loop proof uses): the loop body's statements (put, two copies, then the write when slot 0 is reached after record 0) perform one packing step |
| DataGeneratorModel.FillNext | src/modelTesting/DataGenerator.java:123-134 | one-step unfolding of fillFile's loop (the step its loop proof uses): a record that packs without an exception moves the run on to the next record |
| DataGeneratorModel.FillKeepsPages | src/modelTesting/DataGenerator.java:130-133 | a run only appends pages and never rewrites one already written |
| DataGeneratorModel.PagesStep | src/modelTesting/DataGenerator.java:130 | the count of pages written in the loop grows at record i exactly when i % R == 0 and i != 0, and after record i it is i / R |
| DataGeneratorModel.FillPageCount | src/modelTesting/DataGenerator.java:123-134 | a completed loop over n records writes floor((n - 1) / R) pages, none for n = 0 |
| DataGeneratorModel.NoPageBeforeR | src/modelTesting/DataGenerator.java:130-133 | records 1 to R - 1 write no page |
| DataGeneratorModel.PageAtR | src/modelTesting/DataGenerator.java:127-133 | record R goes to slot 0 and is written out at once, so the page starts with record R's key |
| DataGeneratorModel.SlotZeroUntilR | src/modelTesting/DataGenerator.java:123-134 | from any record in 1..R with no page written yet, a completed loop's first page starts with record R's key |
| DataGeneratorModel.FirstSlotOverwritten | src/modelTesting/DataGenerator.java:123-137 | with more than R records, slot 0 of the first page holds record R's key, which is not record 0's when their encodings differ |
| DataGeneratorModel.FifthRecordTakesFirstSlot | src/modelTesting/DataGenerator.java:123-137 | with 60 data bytes R is 4, and the first page of 5 records starts with the fifth record's key, not the first's |
| DataGeneratorModel.PackInOrder | src/modelTesting/DataGenerator.java:127-133 | writing the page before the copy puts record i in slot i % R of page i / R and keeps the records before it |
| DataGeneratorModel.FlushFirstPlacement | src/modelTesting/DataGenerator.java:123-137 | with the page written before the copy, a completed run keeps every record in slot i % R of page i / R |
| DataGeneratorModel.FlushFirstPlacesAll | src/modelTesting/DataGenerator.java:123-137 | from the start, a completed flush-first run writes floor((n - 1) / R) pages in the loop and holds every record in slot i % R of page i / R |
| DataGeneratorModel.InsertAt | src/modelTesting/DataGenerator.java:187 | List.add(index, x) puts x at index and shifts the elements from index on up by one |
| DataGeneratorModel.RemoveAt | src/modelTesting/DataGenerator.java:208 | List.remove(index) drops that element and shifts the later ones down by one |
| DataGeneratorModel.RemoveInsert | src/modelTesting/DataGenerator.java:183-209 | removing at the index just inserted at gives the list back |
| DataGeneratorModel.InsertRemove | src/modelTesting/DataGenerator.java:183-209 | inserting the removed element back at its index gives the list back |
| DataGeneratorModel.DataGenerator.constructor | src/modelTesting/DataGenerator.java:61-66 | stores the arguments, RECORDS_IN_PAGE, the configuration, a primary file with record size dataBytes + 4, and an empty list |
| DataGeneratorModel.DataGenerator.Create | src/modelTesting/DataGenerator.java:54-67 | throws IllegalArgument exactly when dataBytes or numOfRecords is negative; otherwise builds the generator |
| DataGeneratorModel.DataGenerator.GetRecord | src/modelTesting/DataGenerator.java:169-174 | succeeds exactly when 0 <= index < numOfRecords and the list has that element, and returns it; otherwise throws IndexOutOfBounds |
| DataGeneratorModel.DataGenerator.SetRecord | src/modelTesting/DataGenerator.java:183-188 | succeeds exactly when 0 <= index <= size and inserts the record there; otherwise throws IndexOutOfBounds and leaves the list unchanged |
| DataGeneratorModel.DataGenerator.RemoveRecord | src/modelTesting/DataGenerator.java:204-209 | succeeds exactly when 0 <= index < size and removes that element; otherwise throws IndexOutOfBounds and leaves the list unchanged |
| DataGeneratorModel.DataGenerator.PutRecord | src/modelTesting/DataGenerator.java:124-128 | the ByteBuffer and the page buffer after bb.put and the two copies into a slot |
| DataGeneratorModel.DataGenerator.FillStep | src/modelTesting/DataGenerator.java:123-134 | one turn of the loop performs the packing step, or raises its exception, and writes the page at the end of the file's written part |
| DataGeneratorModel.DataGenerator.FillFile | src/modelTesting/DataGenerator.java:118-140 | a completed run writes the loop's pages then the buffer from offset 0, zeroes the buffer, empties the list and returns 0; an exception keeps the pages already written, the buffer and the list |

`DataGeneratorModel.DataGenerator.FillFile` models `fillFile` as written,
that is, `Fill` with `flushFirst` false. The corrected packing is `Fill`
with `flushFirst` true, and the Findings row states what is proved about
each.

## Left out

- PageScan.SplitEntriesSound: soundness (and PageScan.SplitEntriesComplete, PageScan.SplitThenSort) is promised only for a primary file of whole 256-byte pages. split reads into one `page` array it never clears, so a short last read leaves the previous page's bytes behind the new ones, and split collects entries from those stale bytes with offsets past the end of the file. Example: a 260-byte file with record size 8 and key 7 at offset 8: split also collects (7, 264), and offset 264 is not in the file. fillFile writes whole 256-byte buffers from offset 0, so a primary file it writes over an empty file, or over a file of whole pages, meets the condition.

- IndexLayout.SortTwiceIsSortOnce: idempotence is promised only for an index file no longer than the image the first sort writes. putInts overwrites the file from offset 0 and never truncates it, so pages past the sorted image keep their stale entries, and a second sort reads them again. Example: a 512-byte index whose page 0 holds keys 5 and 3 and whose page 1 holds key 9. The first sort writes [3, 5, 9] into page 0 and leaves page 1 as it was; the second sort then reads [3, 5, 9, 9]. PageScan.SplitThenSort shows that the index split writes when no index file exists yet meets the condition.

- File names, modes, `File`, `IOException`, and the `RandomAccessFile` handle
  itself. A file is its contents. The file pointer is implicit: every read
  in the core follows a seek to a known offset, and every write sequence
  starts from offset 0.
- `close()`, the getters and setters of `RFile`, `DataGenerator` and `Record`,
  and `instantiateRAF`: they hold no logic beyond handing out fields.
- `DataGenerator.generateRecords` and `RandomString`: their record lists are
  random. `fillFile` takes any list.
- `TestGenerator`, `App` and `TestStructure`: they time and print runs on
  threads.
- `utils.Utils` is not part of this model. Its conversions are the abstract
  `Codec`, and its `compare` is the order on int keys.
- `DataGenerator.instantiateDCC` and `instantiateRFile`: both run only from
  the constructor, when their fields are still null, so the model builds the
  configuration and the primary file directly.
- `fillFile` calls `getRecord(i)` twice per turn; the model calls it once,
  because both calls see the same list and throw in the same cases.
- RFileModel.RFile.constructor: requires recordSize >= 1. With a record size
  of 0, `isInPage` never advances; with a negative one, `copyOfRange` throws.
- RFileModel.RFile.SearchFile: requires a file of at most 0x7FFF_FF00 bytes,
  so that the int `pos` cannot wrap around.
- RFileModel.RFile.ExtractPages: requires a file of at most 0x7FFF_FF00
  bytes, for the same reason.
- RFileModel.RFile.Split: requires a file of at most 0x7FFF_FF00 bytes, for
  the same reason. It also requires an empty keyIndex, in place of the Java
  `assert`, which the JVM skips unless assertions are enabled.
- RFileModel.RFile.ReadPages: requires an index file of at most 0x7FFF_FF00
  bytes, for the same reason.
- RFileModel.RFile.Sort: requires an index file of at most 0x7FFF_FF00
  bytes, for the same reason. It requires an empty keyIndex in place of the
  Java `assert`.
- RFileModel.RFile.BinarySearch: requires an index file shorter than
  0x4000_0000 bytes, so that `pos + EOF` cannot wrap around.
- RFileModel.RFile.BinarySearch2: requires an index file shorter than
  0x4000_0000 bytes, for the same reason.
- RFileModel.RFile.SearchPages: requires an index file shorter than
  0x4000_0000 bytes, for the same reason.
- DataGeneratorModel.DataGenerator.Create: requires dataBytes <=
  0x7FFF_FFFB. Past that, `dataBytes + 4` wraps to a negative record size,
  which the primary file's model does not accept.
- DataGeneratorModel.DataGenerator.constructor: requires dataBytes <=
  0x7FFF_FFFB, for the same reason.
- RFileModel.RFile.BinarySearch2: the source's endless loop appears as the
  outcome `Diverges`; the model does not run forever.
- ByteBuffer: only its backing array is modelled. `clear()` rewinds without
  zeroing, so a record whose data is shorter than dataBytes carries the
  previous record's tail bytes; the model keeps those bytes.

## Findings

| source | as written | input that shows it | evidently intended | confidence | as-written member | corrected member |
|---|---|---|---|---|---|---|
| src/modelTesting/DataGenerator.java:127-133 | the buffer is written and zeroed after record i has been copied into slot i % RECORDS_IN_PAGE, when that slot is 0 and i != 0; so record RECORDS_IN_PAGE overwrites record 0 in slot 0 of the first page, and each later page starts with the record that should have begun the next one | dataBytes = 60 (RECORDS_IN_PAGE = 4) and 5 records with different keys: slot 0 of the first page written holds the fifth record's key, not the first's | write the full page before copying the record that starts a new page, so that record i sits in slot i % RECORDS_IN_PAGE of page i / RECORDS_IN_PAGE | not executed | DataGeneratorModel.FirstSlotOverwritten | DataGeneratorModel.FlushFirstPlacesAll |
