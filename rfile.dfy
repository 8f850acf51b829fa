/**
 * model.RFile: a primary file of fixed-size records read in 256-byte pages,
 * with a derived index file of (key, offset) entries. The file behind each
 * RandomAccessFile is the byte sequence `bytes`; the page buffer is a
 * 256-byte array; the pending list keyIndex is a sequence drained from the
 * front. The scans and searches are stated against the functions of
 * PageScan and IndexLayout and the search functions below.
 */
module RFileModel {
  import opened JavaRuntime
  import opened Utils
  import opened IndexLayout
  import opened PageScan

  // ---------------------------------------------------------------------------
  // RFile.binarySearchList and RFile.inRange.

  /**
   * The rest of binarySearchList's loop on the window [left, right]: 1 when
   * it meets the key, else 0.
   */
  function ListProbe(s: seq<FIndex>, key: int32, left: int, right: int): (r: int)
    requires 0 <= left && right < |s|
    ensures r == 0 || r == 1
    ensures r == 1 ==> exists i :: left <= i <= right && s[i].key == key
    decreases right - left + 1
  {
    if left > right then 0
    else
      var mid := (left + right) / 2;
      if s[mid].key == key then 1
      else if s[mid].key < key then ListProbe(s, key, mid + 1, right)
      else ListProbe(s, key, left, mid - 1)
  }

  /** On an ascending list, a window outside of which the key does not occur decides it. */
  lemma {:induction false} ListProbeAscending(s: seq<FIndex>, key: int32, left: int, right: int)
    requires 0 <= left && right < |s| && AscendingByKey(s)
    requires forall i :: 0 <= i < |s| && !(left <= i <= right) ==> s[i].key != key
    ensures ListProbe(s, key, left, right) == 1 <==> HasKey(s, key)
    decreases right - left + 1
  {
    if left <= right {
      var mid := (left + right) / 2;
      if s[mid].key < key {
        forall i | 0 <= i < |s| && !(mid + 1 <= i <= right)
          ensures s[i].key != key
        {
          if i <= mid {
            assert s[i].key <= s[mid].key;
          }
        }
        ListProbeAscending(s, key, mid + 1, right);
      } else if s[mid].key > key {
        forall i | 0 <= i < |s| && !(left <= i <= mid - 1)
          ensures s[i].key != key
        {
          if i >= mid {
            assert s[mid].key <= s[i].key;
          }
        }
        ListProbeAscending(s, key, left, mid - 1);
      }
    }
  }

  /** binarySearchList answers 1 exactly when an ascending list holds the key. */
  lemma ListProbeDecides(s: seq<FIndex>, key: int32)
    ensures AscendingByKey(s) ==> (ListProbe(s, key, 0, |s| - 1) == 1 <==> HasKey(s, key))
  {
    if AscendingByKey(s) {
      ListProbeAscending(s, key, 0, |s| - 1);
    }
  }

  /** RFile.inRange: the first key is below the key and the last above; get(0) throws on an empty list. */
  function InRange(s: seq<FIndex>, key: int32): (r: Result<bool>)
    ensures s == [] <==> r == Err(IndexOutOfBounds)
  {
    if s == [] then Err(IndexOutOfBounds)
    else Ok(s[0].key < key && s[|s| - 1].key > key)
  }

  /** On an ascending list, inRange holds exactly when some key lies below the key and some above. */
  lemma InRangeBetween(s: seq<FIndex>, key: int32)
    requires AscendingByKey(s) && s != []
    ensures InRange(s, key) == Ok(true) <==>
      exists i, j :: 0 <= i < |s| && 0 <= j < |s| && s[i].key < key < s[j].key
  {
    if exists i, j :: 0 <= i < |s| && 0 <= j < |s| && s[i].key < key < s[j].key {
      var i, j :| 0 <= i < |s| && 0 <= j < |s| && s[i].key < key < s[j].key;
      assert s[0].key <= s[i].key && s[j].key <= s[|s| - 1].key;
    }
  }

  // ---------------------------------------------------------------------------
  // RFile.binarySearch: a binary search over byte offsets of the index file.

  /** binarySearch's adjustment of mid: it adds mid % 8 when mid is not a multiple of 8. */
  function AdjustMid(m: nat): (r: nat)
    ensures m <= r <= m + 7
  {
    if m % 8 != 0 then m + m % 8 else m
  }

  lemma ModEight(a: int, q: int, r: int)
    requires a == 8 * q + r && 0 <= r < 8
    ensures a % 8 == r
  {
  }

  lemma ModFour(a: int, q: int, r: int)
    requires a == 4 * q + r && 0 <= r < 4
    ensures a % 4 == r
  {
  }

  /** The adjustment lands on an entry boundary exactly when mid is a multiple of 4. */
  lemma AdjustMidAligns(m: nat)
    ensures AdjustMid(m) % 8 == 0 <==> m % 4 == 0
  {
    var q, r := m / 8, m % 8;
    if r < 4 {
      ModFour(m, 2 * q, r);
    } else {
      ModFour(m, 2 * q + 1, r - 4);
    }
    if r != 0 {
      if r < 4 {
        ModEight(m + r, q, 2 * r);
      } else {
        ModEight(m + r, q + 1, 2 * r - 8);
      }
    }
  }

  /** An unaligned case: mid 10 moves to 12, the middle of the entry at 8. */
  lemma AdjustMidUnaligned()
    ensures AdjustMid(10) == 12 && AdjustMid(10) % 8 == 4
  {
  }

  /**
   * The number of accesses binarySearch's loop makes from (pos, eof) after
   * acc accesses, when keyBytes holds `kb`: every probe reads 4 bytes into
   * keyBytes, which is never cleared, so a read past the end leaves the
   * previous key in place.
   */
  function Search1(c: Codec, file: seq<byte>, key: int32, kb: seq<byte>, pos: int, eof: int, acc: nat): (n: nat)
    requires 0 <= pos <= eof
    ensures n >= acc + 1
    decreases eof - pos
  {
    var mid := AdjustMid((pos + eof) / 2);
    var kb' := ReadInto(kb, file, mid);
    var k := c.toInt(kb');
    if k == key then acc + 1
    else if k < key then
      if mid + 8 <= eof then Search1(c, file, key, kb', mid + 8, eof, acc + 1) else acc + 1
    else
      if pos <= mid - 8 then Search1(c, file, key, kb', pos, mid - 8, acc + 1) else acc + 1
  }

  /** floor(log2(h)) for h >= 1. */
  function Log2(h: nat): nat
    requires h >= 1
  {
    if h == 1 then 1 - 1 else 1 + Log2(h / 2)
  }

  lemma {:induction false} Log2Monotone(a: nat, b: nat)
    requires 1 <= a <= b
    ensures Log2(a) <= Log2(b)
    decreases b
  {
    if a > 1 {
      Log2Monotone(a / 2, b / 2);
    }
  }

  /** A probe of binarySearch lands in the window, and the window left on either side is at most half of it. */
  lemma ProbeHalves(pos: int, eof: int)
    requires 0 <= pos <= eof
    ensures var mid := AdjustMid((pos + eof) / 2);
      && pos <= mid
      && (mid + 8 <= eof ==> 1 <= eof - mid - 7 <= (eof - pos + 1) / 2)
      && (pos <= mid - 8 ==> 1 <= mid - 7 - pos <= (eof - pos + 1) / 2)
  {
  }

  /** A window binarySearch moves to after a probe is at most half as wide, so its log2 is one less. */
  lemma Search1Shrinks(pos: int, eof: int, mid: nat, pos': int, eof': int)
    requires 0 <= pos <= eof && mid == AdjustMid((pos + eof) / 2)
    requires (pos' == mid + 8 && eof' == eof) || (pos' == pos && eof' == mid - 8)
    requires pos' <= eof'
    ensures Log2(eof' - pos' + 1) + 1 <= Log2(eof - pos + 1)
  {
    ProbeHalves(pos, eof);
    Log2Monotone(eof' - pos' + 1, (eof - pos + 1) / 2);
  }

  /** binarySearch makes at most floor(log2(eof - pos + 1)) + 1 accesses: each probe halves the window. */
  lemma {:induction false} Search1Logarithmic(c: Codec, file: seq<byte>, key: int32, kb: seq<byte>, pos: int, eof: int, acc: nat)
    requires 0 <= pos <= eof
    ensures Search1(c, file, key, kb, pos, eof, acc) <= acc + Log2(eof - pos + 1) + 1
    decreases eof - pos
  {
    var mid := AdjustMid((pos + eof) / 2);
    var kb' := ReadInto(kb, file, mid);
    if c.toInt(kb') == key {
      Search1Hit(c, file, key, kb, pos, eof, acc, mid, kb');
    } else {
      var pos', eof' := if c.toInt(kb') < key then mid + 8 else pos, if c.toInt(kb') < key then eof else mid - 8;
      Search1Next(c, file, key, kb, pos, eof, acc, mid, kb', pos', eof', acc + 1);
      if pos' <= eof' {
        Search1Logarithmic(c, file, key, kb', pos', eof', acc + 1);
        Search1Shrinks(pos, eof, mid, pos', eof');
      }
    }
  }

  /** A probe of binarySearch's loop that meets the key ends it. */
  lemma Search1Hit(c: Codec, file: seq<byte>, key: int32, kb: seq<byte>, pos: int, eof: int, acc: nat, mid: nat, kb': seq<byte>)
    requires 0 <= pos <= eof && mid == AdjustMid((pos + eof) / 2) && kb' == ReadInto(kb, file, mid)
    requires c.toInt(kb') == key
    ensures Search1(c, file, key, kb, pos, eof, acc) == acc + 1
  {
  }

  /** One probe of binarySearch's loop, stated on the state before and after it. */
  lemma Search1Next(c: Codec, file: seq<byte>, key: int32, kb: seq<byte>, pos: int, eof: int, acc: nat,
                    mid: nat, kb': seq<byte>, pos': int, eof': int, acc': nat)
    requires 0 <= pos <= eof && mid == AdjustMid((pos + eof) / 2) && kb' == ReadInto(kb, file, mid) && acc' == acc + 1
    requires c.toInt(kb') != key
    requires if c.toInt(kb') < key then pos' == mid + 8 && eof' == eof else pos' == pos && eof' == mid - 8
    ensures 0 <= pos'
    ensures pos' <= eof' ==> Search1(c, file, key, kb, pos, eof, acc) == Search1(c, file, key, kb', pos', eof', acc')
    ensures pos' > eof' ==> Search1(c, file, key, kb, pos, eof, acc) == acc'
  {
    var n := Search1(c, file, key, kb, pos, eof, acc);
    if c.toInt(kb') < key {
      assert n == if mid + 8 <= eof then Search1(c, file, key, kb', mid + 8, eof, acc + 1) else acc + 1;
    } else {
      assert n == if pos <= mid - 8 then Search1(c, file, key, kb', pos, mid - 8, acc + 1) else acc + 1;
    }
  }

  // ---------------------------------------------------------------------------
  // RFile.binarySearch2: a binary search over pages of the index file.

  /**
   * How binarySearch2 ends: after a number of accesses, or never, when an
   * iteration leaves pos and EOF as they were and the next one repeats it.
   */
  datatype SearchOutcome = Accesses(count: nat) | Diverges

  /** The outcome of binarySearch2's loop and the offset of the last page it read. */
  datatype PagedSearch = PagedSearch(outcome: SearchOutcome, lastMid: int)

  /** The entries binarySearch2 unpacks from the page it reads at offset mid (the buffer is zeroed first). */
  function PageAt(c: Codec, file: seq<byte>, mid: nat): seq<FIndex>
  {
    PageEntries(c, ReadInto(Zeros(256), file, mid))
  }

  /** The page reader of an index file: at every offset up to its length, the entries of the page read there. */
  function PageReader(c: Codec, file: seq<byte>): (pages: seq<seq<FIndex>>)
    ensures |pages| == |file| + 1
  {
    seq(|file| + 1, (mid: int) requires 0 <= mid => PageAt(c, file, mid))
  }

  /**
   * binarySearch2's loop from (pos, eof) after acc accesses, where
   * pages[mid] is what readPage unpacks from the page read at offset mid.
   */
  function Search2(pages: seq<seq<FIndex>>, key: int32, pos: int, eof: int, acc: nat): (r: PagedSearch)
    requires 0 <= pos <= eof < |pages|
    ensures pos <= r.lastMid <= eof
    ensures r.outcome.Accesses? ==> r.outcome.count >= acc + 1
    decreases eof - pos
  {
    var mid := (pos + eof) / 2;
    var s := pages[mid];
    if s == [] || ListProbe(s, key, 0, |s| - 1) == 1 then PagedSearch(Accesses(acc + 1), mid)
    else if s[|s| - 1].key < key then
      if mid + 256 <= eof then Search2(pages, key, mid + 256, eof, acc + 1) else PagedSearch(Accesses(acc + 1), mid)
    else if s[0].key > key then
      if pos <= mid - 256 then Search2(pages, key, pos, mid - 256, acc + 1) else PagedSearch(Accesses(acc + 1), mid)
    else if InRange(s, key) == Ok(true) then PagedSearch(Accesses(acc + 1), mid)
    else PagedSearch(Diverges, mid)
  }

  /** When every page binarySearch2 can read unpacks ascending, it always ends. */
  lemma {:induction false} Search2Ends(pages: seq<seq<FIndex>>, key: int32, pos: int, eof: int, acc: nat)
    requires 0 <= pos <= eof < |pages|
    requires forall mid :: 0 <= mid < |pages| ==> AscendingByKey(pages[mid])
    ensures Search2(pages, key, pos, eof, acc).outcome.Accesses?
    decreases eof - pos
  {
    var mid := (pos + eof) / 2;
    var s := pages[mid];
    if s != [] && ListProbe(s, key, 0, |s| - 1) != 1 {
      if s[|s| - 1].key < key {
        if mid + 256 <= eof {
          Search2Ends(pages, key, mid + 256, eof, acc + 1);
        }
      } else if s[0].key > key {
        if pos <= mid - 256 {
          Search2Ends(pages, key, pos, mid - 256, acc + 1);
        }
      } else {
        ListProbeDecides(s, key);
        assert s[0].key != key && s[|s| - 1].key != key;
      }
    }
  }

  /** A window binarySearch2 moves to after a probe is at most half as wide, so its log2 is one less. */
  lemma Search2Shrinks(pos: int, eof: int, mid: int, pos': int, eof': int)
    requires 0 <= pos <= eof && mid == (pos + eof) / 2
    requires (pos' == mid + 256 && eof' == eof) || (pos' == pos && eof' == mid - 256)
    requires pos' <= eof'
    ensures Log2(eof' - pos' + 1) + 1 <= Log2(eof - pos + 1)
  {
    assert 1 <= eof' - pos' + 1 <= (eof - pos + 1) / 2;
    Log2Monotone(eof' - pos' + 1, (eof - pos + 1) / 2);
  }

  /** binarySearch2 makes at most floor(log2(eof - pos + 1)) + 1 accesses when it ends. */
  lemma {:induction false} Search2Logarithmic(pages: seq<seq<FIndex>>, key: int32, pos: int, eof: int, acc: nat)
    requires 0 <= pos <= eof < |pages|
    ensures Search2(pages, key, pos, eof, acc).outcome.Accesses? ==>
      Search2(pages, key, pos, eof, acc).outcome.count <= acc + Log2(eof - pos + 1) + 1
    decreases eof - pos
  {
    var mid := (pos + eof) / 2;
    var s := pages[mid];
    Search2Here(pages, key, pos, eof, acc, mid, s);
    if s != [] && ListProbe(s, key, 0, |s| - 1) != 1 && (s[|s| - 1].key < key || s[0].key > key) {
      var pos', eof' := if s[|s| - 1].key < key then mid + 256 else pos, if s[|s| - 1].key < key then eof else mid - 256;
      Search2Next(pages, key, pos, eof, acc, mid, s, pos', eof', acc + 1);
      if pos' <= eof' {
        Search2Logarithmic(pages, key, pos', eof', acc + 1);
        Search2Shrinks(pos, eof, mid, pos', eof');
      }
    }
  }

  /** A probe of binarySearch2's loop that ends it, at the page s read at mid. */
  lemma Search2Here(pages: seq<seq<FIndex>>, key: int32, pos: int, eof: int, acc: nat, mid: nat, s: seq<FIndex>)
    requires 0 <= pos <= eof < |pages| && mid == (pos + eof) / 2 && s == pages[mid]
    ensures s == [] || ListProbe(s, key, 0, |s| - 1) == 1 ==>
      Search2(pages, key, pos, eof, acc) == PagedSearch(Accesses(acc + 1), mid)
    ensures s != [] && ListProbe(s, key, 0, |s| - 1) != 1 && !(s[|s| - 1].key < key) && !(s[0].key > key) ==>
      Search2(pages, key, pos, eof, acc) ==
        PagedSearch(if s[0].key < key && s[|s| - 1].key > key then Accesses(acc + 1) else Diverges, mid)
  {
  }

  /** A probe of binarySearch2's loop that moves pos or EOF, stated on the state before and after it. */
  lemma Search2Next(pages: seq<seq<FIndex>>, key: int32, pos: int, eof: int, acc: nat,
                    mid: nat, s: seq<FIndex>, pos': int, eof': int, acc': nat)
    requires 0 <= pos <= eof < |pages| && mid == (pos + eof) / 2 && s == pages[mid] && acc' == acc + 1
    requires s != [] && ListProbe(s, key, 0, |s| - 1) != 1
    requires if s[|s| - 1].key < key then pos' == mid + 256 && eof' == eof
      else s[0].key > key && pos' == pos && eof' == mid - 256
    ensures 0 <= pos'
    ensures pos' <= eof' ==> Search2(pages, key, pos, eof, acc) == Search2(pages, key, pos', eof', acc')
    ensures pos' > eof' ==> Search2(pages, key, pos, eof, acc) == PagedSearch(Accesses(acc'), mid)
  {
  }

  // ---------------------------------------------------------------------------
  // The class.

  class RFile {
    /** utils.Utils's int <-> byte conversion, shared by a file and its index. */
    const codec: Codec
    const recordSize: int
    /** The contents of the file behind raf. */
    var bytes: seq<byte>
    var indexFile: RFile?
    /** The page buffer putInts packs into and binarySearch2 reads into. */
    const buffer: array<byte>
    /** The pending (key, offset) list. */
    var keyIndex: seq<FIndex>

    ghost predicate Valid()
      reads this, indexFile
    {
      && buffer.Length == 256
      && recordSize >= 1
      && (indexFile != null ==> indexFile != this && indexFile.codec == codec && indexFile.recordSize == recordSize)
    }

    /** The index file, when there is one, as a set for frame expressions. */
    ghost function IndexFileSet(): set<RFile>
      reads this
    {
      if indexFile == null then {} else {indexFile}
    }

    /** RFile(filename, mode, recordSize) over a file holding `contents`. */
    constructor (codec: Codec, recordSize: int, contents: seq<byte>)
      requires recordSize >= 1
      ensures Valid() && fresh(buffer)
      ensures this.codec == codec && this.recordSize == recordSize && bytes == contents
      ensures indexFile == null && keyIndex == [] && buffer[..] == Zeros(256)
    {
      this.codec := codec;
      this.recordSize := recordSize;
      bytes := contents;
      indexFile := null;
      buffer := new byte[256](_ => 0);
      keyIndex := [];
    }

    /**
     * RFile.instantiateRFile: the index file already open, or a new RFile
     * with this file's record size over the index file's contents on disk.
     */
    method InstantiateRFile(existing: seq<byte>) returns (r: RFile)
      requires Valid()
      ensures indexFile != null ==> r == indexFile
      ensures indexFile == null ==> fresh(r) && fresh(r.buffer) && r.bytes == existing && r.indexFile == null && r.keyIndex == []
      ensures r != this && r.codec == codec && r.recordSize == recordSize
    {
      if indexFile == null {
        r := new RFile(codec, recordSize, existing);
      } else {
        r := indexFile;
      }
    }

    /** RFile.isInPage: whether a record at a multiple of recordSize below the page length holds the key. */
    method IsInPage(key: int32, page: array<byte>) returns (found: bool)
      requires Valid()
      ensures found == PageHasKey(codec, recordSize, key, page[..])
    {
      KeyFromPageHasKey(codec, recordSize, key, page[..]);
      var pos := 0;
      ghost var i: nat := 0;
      while pos < page.Length
        invariant pos == i * recordSize
        invariant KeyFrom(codec, recordSize, key, page[..], i) == KeyFrom(codec, recordSize, key, page[..], 0)
        decreases page.Length - pos
      {
        var rec := CopyOfRange(page[..], pos, pos + recordSize);
        if IsInRecord(codec, key, rec) {
          return true;
        }
        assert (i + 1) * recordSize == pos + recordSize;
        pos := pos + recordSize;
        i := i + 1;
      }
      return false;
    }

    /**
     * RFile.searchFile: reads zeroed pages from offset 0 and returns the
     * number of the first page holding the key, or the number of pages when
     * none does.
     */
    method SearchFile(key: int32) returns (diskAccesses: int)
      requires Valid() && |bytes| <= 0x7FFF_FF00
      ensures 0 <= diskAccesses <= NumPages(|bytes|)
      ensures diskAccesses == 0 <==> |bytes| == 0
      ensures forall k :: 0 <= k < diskAccesses - 1 ==> !PageHasKey(codec, recordSize, key, FreshPage(bytes, k))
      ensures diskAccesses < NumPages(|bytes|) ==> PageHasKey(codec, recordSize, key, FreshPage(bytes, diskAccesses - 1))
    {
      diskAccesses := 0;
      var pos := 0;
      var page := new byte[256](_ => 0);
      while pos < |bytes|
        invariant pos == 256 * diskAccesses && diskAccesses <= NumPages(|bytes|)
        invariant forall k :: 0 <= k < diskAccesses ==> !PageHasKey(codec, recordSize, key, FreshPage(bytes, k))
        decreases |bytes| - pos
      {
        Clear(page);
        ReadAt(page, bytes, pos);
        diskAccesses := diskAccesses + 1;
        var found := IsInPage(key, page);
        if found {
          return;
        }
        pos := pos + 256;
      }
    }

    /** RFile.readPage: appends the entries of the page's non-empty 8-byte slots. */
    method ReadPage(page: array?<byte>) returns (r: Result<seq<FIndex>>)
      modifies this`keyIndex
      ensures page == null ==> r == Err(NullPointer) && keyIndex == old(keyIndex)
      ensures page != null ==> keyIndex == old(keyIndex) + PageEntries(codec, page[..]) && r == Ok(keyIndex)
    {
      if page == null {
        return Err(NullPointer);
      }
      var p := page[..];
      ghost var goal := old(keyIndex) + PageEntries(codec, p);
      var pos: nat := 0;
      var i := 0;
      while i < page.Length / 8
        invariant pos == 8 * i && i <= page.Length / 8
        invariant keyIndex + PageEntries(codec, p[pos..]) == goal
      {
        ghost var prev, pos0 := keyIndex, pos;
        var key := codec.toInt(CopyOfRange(p, pos, pos + 4));
        if key != 0 {
          keyIndex := keyIndex + [FIndex(key, codec.toInt(CopyOfRange(p, pos + 4, pos + 8)))];
        }
        pos := pos + 8;
        i := i + 1;
        ReadStep(codec, p, pos0, prev, pos, keyIndex, goal);
      }
      assert PageEntries(codec, p[pos..]) == [];
      return Ok(keyIndex);
    }

    /**
     * RFile.extractInts: appends, for every whole record of the page with a
     * non-zero key, that key and the record's offset pos + fileIndex.
     */
    method ExtractInts(page: array?<byte>, fileIndex: int32) returns (r: Result<seq<FIndex>>)
      requires Valid()
      modifies this`keyIndex
      ensures page == null ==> r == Err(NullPointer) && keyIndex == old(keyIndex)
      ensures page != null ==> keyIndex == old(keyIndex) + Extracted(codec, recordSize, page[..], fileIndex) && r == Ok(keyIndex)
    {
      if page == null {
        return Err(NullPointer);
      }
      var w := recordSize;
      var p := page[..];
      var n := page.Length / w;
      SlotCountIsQuotient(|p|, w);
      ghost var goal := old(keyIndex) + Extracted(codec, w, p, fileIndex);
      var pos: nat := 0;
      var i := 0;
      ghost var m: int := n;
      ghost var rem: int := |p|;
      while i < n
        invariant 0 <= i <= n && m == n - i && pos <= |p| && rem == |p| - pos && 0 <= m <= SlotCount(rem, w)
        invariant keyIndex + NonZero(RecordsFrom(codec, w, p, fileIndex, pos, m)) == goal
      {
        ghost var prev, pos0, m0, rem0 := keyIndex, pos, m, rem;
        var key := SlotKey(codec, p, pos);
        keyIndex := if key != 0 then keyIndex + [FIndex(key, Wrap32(pos + fileIndex))] else keyIndex;
        pos := pos + w;
        i := i + 1;
        m := m - 1;
        rem := rem - w;
        ExtractStep(codec, w, p, fileIndex, pos0, m0, rem0, prev, pos, m, rem, keyIndex, goal);
      }
      return Ok(keyIndex);
    }

    /**
     * RFile.putInts: packs the pending entries into the page buffer, writing
     * each full page to the index file from offset 0 and zeroing the buffer,
     * then writes the buffer once more; throws when there is no index file.
     */
    method PutInts() returns (r: Result<()>)
      requires Valid()
      modifies this`keyIndex, buffer, IndexFileSet()`bytes
      ensures old(indexFile) == null ==> r == Err(NullPointer) && keyIndex == old(keyIndex) && buffer[..] == old(buffer[..])
      ensures old(indexFile) != null ==>
        && r == Ok(()) && keyIndex == [] && buffer[..] == Zeros(256)
        && indexFile.bytes == WriteAt(old(indexFile.bytes), 0, PutIntsImage(codec, old(buffer[..]), old(keyIndex)))
    {
      if indexFile == null {
        return Err(NullPointer);
      }
      var idx := indexFile;
      ghost var s := keyIndex;
      ghost var b0 := buffer[..];
      ghost var f0 := idx.bytes;
      var wpos := PackPages(idx);
      ghost var bytes0 := idx.bytes;
      idx.bytes := WriteAt(idx.bytes, wpos, buffer[..]);
      PackDone(codec, b0, f0, s, |s|, 32 * (|s| / 32), buffer[..], bytes0, idx.bytes, wpos);
      Clear(buffer);
      return Ok(());
    }

    /**
     * putInts's loop: packs the pending entries into the page buffer and
     * writes each page that fills to idx; returns where the last, partial
     * page goes.
     */
    method PackPages(idx: RFile) returns (wpos: nat)
      requires buffer.Length == 256
      modifies this`keyIndex, buffer, idx`bytes
      ensures keyIndex == []
      ensures var s, lo := old(keyIndex), 32 * (|old(keyIndex)| / 32);
        && lo <= |s|
        && buffer[..] == Encoded(codec, s[lo..|s|]) + PendingTail(old(buffer[..]), |s|)
        && wpos == 8 * lo == |Encoded(codec, s[..lo])|
        && idx.bytes == WriteAt(old(idx.bytes), 0, Encoded(codec, s[..lo]))
    {
      ghost var s := keyIndex;
      ghost var b0 := buffer[..];
      ghost var f0 := idx.bytes;
      ghost var i: nat := 0;
      ghost var lo: nat := 0;
      var index := 0;
      wpos := 0;
      while keyIndex != []
        invariant i <= |s| && keyIndex == s[i..]
        invariant lo == 32 * (i / 32) && index == 8 * (i % 32)
        invariant buffer[..] == Encoded(codec, s[lo..i]) + PendingTail(b0, i)
        invariant wpos == 8 * lo == |Encoded(codec, s[..lo])|
        invariant idx.bytes == WriteAt(f0, 0, Encoded(codec, s[..lo]))
        decreases |keyIndex|
      {
        var e := keyIndex[0];
        ghost var i0, lo0, at, before := i, lo, index, buffer[..];
        var src := IntsToBytes(codec, e.key, e.index);
        CopyInto(buffer, index, src);
        index := index + 8;
        i := i + 1;
        if 256 - index < 8 {
          index := 0;
          ghost var full, bytes0, wpos0 := buffer[..], idx.bytes, wpos;
          idx.bytes := WriteAt(idx.bytes, wpos, buffer[..]);
          wpos := wpos + 256;
          lo := lo + 32;
          Clear(buffer);
          PackFlush(codec, b0, f0, s, i0, i, lo0, lo, at, src, before, full, bytes0, idx.bytes, wpos0, wpos);
        } else {
          PackNext(codec, b0, s, i0, i, lo, at, src, before, buffer[..]);
        }
        keyIndex := keyIndex[1..];
      }
      assert i == |s|;
    }

    /** RFile.binarySearchList: 1 when the binary search of keyIndex meets the key, else 0. */
    method BinarySearchList(key: int32) returns (r: int)
      ensures r == ListProbe(keyIndex, key, 0, |keyIndex| - 1)
      ensures r == 1 ==> HasKey(keyIndex, key)
      ensures AscendingByKey(keyIndex) ==> (r == 1 <==> HasKey(keyIndex, key))
    {
      var left := 0;
      var right := |keyIndex| - 1;
      while left <= right
        invariant 0 <= left && right < |keyIndex|
        invariant ListProbe(keyIndex, key, left, right) == ListProbe(keyIndex, key, 0, |keyIndex| - 1)
        decreases right - left + 1
      {
        var mid := (left + right) / 2;
        if keyIndex[mid].key == key {
          r := 1;
          return;
        } else if keyIndex[mid].key < key {
          left := mid + 1;
        } else {
          right := mid - 1;
        }
      }
      r := 0;
      ListProbeDecides(keyIndex, key);
    }

    /** The contents of the index file as instantiateRFile finds it: the open one's, else `existing` on disk. */
    ghost function IndexContents(existing: seq<byte>): seq<byte>
      reads this, indexFile
    {
      if indexFile == null then existing else indexFile.bytes
    }

    /**
     * RFile.binarySearch: a binary search over the index file's byte offsets,
     * reading 4 key bytes per probe into an array it never clears; returns
     * the number of probes.
     */
    method BinarySearch(key: int32, existing: seq<byte>) returns (diskAccesses: int)
      requires Valid() && |IndexContents(existing)| < 0x4000_0000
      modifies this`indexFile
      ensures old(indexFile) != null ==> indexFile == old(indexFile)
      ensures old(indexFile) == null ==> fresh(indexFile) && indexFile.bytes == existing && indexFile.keyIndex == []
      ensures Valid() && indexFile != null
      ensures diskAccesses == Search1(codec, indexFile.bytes, key, Zeros(4), 0, |indexFile.bytes|, 0)
    {
      var idx := InstantiateRFile(existing);
      indexFile := idx;
      var keyBytes := new byte[4](_ => 0);
      var eof := |idx.bytes|;
      var pos := 0;
      diskAccesses := 0;
      ghost var f, ik := idx.bytes, idx.keyIndex;
      assert keyBytes[..] == Zeros(4);
      ghost var total := Search1(codec, f, key, Zeros(4), pos, eof, diskAccesses);
      while pos <= eof
        invariant keyBytes.Length == 4 && 0 <= pos && diskAccesses >= 0
        invariant indexFile == idx && idx.bytes == f && idx.keyIndex == ik
        invariant pos <= eof ==> total == Search1(codec, idx.bytes, key, keyBytes[..], pos, eof, diskAccesses)
        invariant pos > eof ==> total == diskAccesses
        decreases eof - pos
      {
        ghost var kb0, pos0, eof0, acc0 := keyBytes[..], pos, eof, diskAccesses;
        var mid := (pos + eof) / 2;
        if mid % 8 != 0 {
          mid := mid + mid % 8;
        }
        ReadAt(keyBytes, idx.bytes, mid);
        diskAccesses := diskAccesses + 1;
        var k := codec.toInt(keyBytes[..]);
        if k == key {
          Search1Hit(codec, f, key, kb0, pos0, eof0, acc0, mid, keyBytes[..]);
          return;
        } else if k < key {
          pos := mid + 8;
        } else {
          eof := mid - 8;
        }
        Search1Next(codec, idx.bytes, key, kb0, pos0, eof0, acc0, mid, keyBytes[..], pos, eof, diskAccesses);
      }
    }

    /** binarySearch2's probe: zeroes the buffer, reads the page at mid into it and unpacks it into an empty keyIndex. */
    method ReadProbe(file: seq<byte>, mid: nat)
      requires buffer.Length == 256 && mid <= |file|
      modifies this`keyIndex, buffer
      ensures buffer[..] == ReadInto(Zeros(256), file, mid) && keyIndex == PageEntries(codec, buffer[..])
      ensures keyIndex == PageReader(codec, file)[mid]
    {
      Clear(buffer);
      keyIndex := [];
      ReadAt(buffer, file, mid);
      var _ := ReadPage(buffer);
    }

    /**
     * binarySearch2's loop over the index file's contents: each probe zeroes
     * the buffer, reads the page at the middle offset into it and unpacks it
     * into keyIndex. Returns Diverges where the source loops forever.
     */
    method SearchPages(file: seq<byte>, key: int32) returns (r: SearchOutcome)
      requires buffer.Length == 256 && |file| < 0x4000_0000
      modifies this`keyIndex, buffer
      ensures var res := Search2(PageReader(codec, file), key, 0, |file|, 0);
        && r == res.outcome
        && buffer[..] == ReadInto(Zeros(256), file, res.lastMid)
        && keyIndex == PageEntries(codec, buffer[..])
    {
      ghost var pages := PageReader(codec, file);
      var eof := |file|;
      var pos := 0;
      var diskAccesses := 0;
      ghost var total := Search2(pages, key, pos, eof, diskAccesses);
      ghost var lastMid: nat := 0;
      while pos <= eof
        invariant 0 <= pos && eof < |pages| && diskAccesses >= 0
        invariant pos <= eof ==> total == Search2(pages, key, pos, eof, diskAccesses)
        invariant pos > eof ==> total == PagedSearch(Accesses(diskAccesses), lastMid)
        invariant pos > eof ==> buffer[..] == ReadInto(Zeros(256), file, lastMid) && keyIndex == PageEntries(codec, buffer[..])
        decreases eof - pos
      {
        var mid := (pos + eof) / 2;
        ReadProbe(file, mid);
        var stop, outcome, pos', eof' := Decide(pages, key, pos, eof, diskAccesses, mid);
        diskAccesses := diskAccesses + 1;
        lastMid := mid;
        if stop {
          return outcome;
        }
        pos, eof := pos', eof';
      }
      return Accesses(diskAccesses);
    }

    /**
     * What one pass of binarySearch2's loop from (pos, eof) after acc
     * accesses does with the page it has just unpacked from mid: either
     * stop with the outcome or move pos or EOF past that page.
     */
    method Decide(ghost pages: seq<seq<FIndex>>, key: int32, pos: int, eof: int, acc: nat, mid: nat)
      returns (stop: bool, outcome: SearchOutcome, pos': int, eof': int)
      requires 0 <= pos <= eof < |pages| && mid == (pos + eof) / 2 && keyIndex == pages[mid]
      ensures stop ==> Search2(pages, key, pos, eof, acc) == PagedSearch(outcome, mid)
      ensures !stop ==> 0 <= pos' && ((pos' == mid + 256 && eof' == eof) || (pos' == pos && eof' == mid - 256))
      ensures !stop && pos' <= eof' ==> Search2(pages, key, pos, eof, acc) == Search2(pages, key, pos', eof', acc + 1)
      ensures !stop && pos' > eof' ==> Search2(pages, key, pos, eof, acc) == PagedSearch(Accesses(acc + 1), mid)
    {
      var s := keyIndex;
      stop, outcome, pos', eof' := true, Accesses(acc + 1), pos, eof;
      Search2Here(pages, key, pos, eof, acc, mid, s);
      if s == [] {
        return;
      }
      var found := BinarySearchList(key);
      if found == 1 {
      } else if s[|s| - 1].key < key {
        stop, pos' := false, mid + 256;
        Search2Next(pages, key, pos, eof, acc, mid, s, pos', eof', acc + 1);
      } else if s[0].key > key {
        stop, eof' := false, mid - 256;
        Search2Next(pages, key, pos, eof, acc, mid, s, pos', eof', acc + 1);
      } else if InRange(s, key) != Ok(true) {
        outcome := Diverges;
      }
    }

    /**
     * RFile.binarySearch2: opens the index file and binary-searches its
     * pages for key.
     */
    method BinarySearch2(key: int32, existing: seq<byte>) returns (r: SearchOutcome)
      requires Valid() && |IndexContents(existing)| < 0x4000_0000
      modifies this`indexFile, this`keyIndex, buffer
      ensures old(indexFile) != null ==> indexFile == old(indexFile)
      ensures old(indexFile) == null ==> fresh(indexFile) && indexFile.bytes == existing && indexFile.keyIndex == []
      ensures Valid() && indexFile != null
      ensures var res := Search2(PageReader(codec, indexFile.bytes), key, 0, |indexFile.bytes|, 0);
        && r == res.outcome
        && buffer[..] == ReadInto(Zeros(256), indexFile.bytes, res.lastMid)
        && keyIndex == PageEntries(codec, buffer[..])
    {
      var idx := InstantiateRFile(existing);
      indexFile := idx;
      r := SearchPages(idx.bytes, key);
    }

    /**
     * split's page loop: reads `file` page by page into one array it never
     * clears and collects the entries of each page's records, at the page's
     * offset, into an empty keyIndex.
     */
    method ExtractPages(file: seq<byte>)
      requires Valid() && keyIndex == [] && |file| <= 0x7FFF_FF00
      modifies this`keyIndex
      ensures keyIndex == SplitEntries(codec, recordSize, file, NumPages(|file|))
    {
      var page := new byte[256](_ => 0);
      var pos := 0;
      ghost var k: nat := 0;
      while pos < |file|
        invariant pos == 256 * k && pos <= |file| + 255
        invariant page[..] == PageBefore(file, k)
        invariant keyIndex == SplitEntries(codec, recordSize, file, k)
        decreases |file| - pos
      {
        ghost var k0, prev, acc := k, page[..], keyIndex;
        ReadAt(page, file, pos);
        var _ := ExtractInts(page, pos);
        pos := pos + 256;
        k := k + 1;
        ReusedPageNext(file, k0, k, prev, page[..]);
        SplitEntriesNext(codec, recordSize, file, k0, k, page[..], acc, keyIndex);
      }
      NumPagesOf(|file|, k);
    }

    /**
     * RFile.split: collects the entries of every record of the primary file,
     * page by page, and packs them into the index file with putInts; returns
     * the index file.
     */
    method Split(existing: seq<byte>) returns (r: RFile)
      requires Valid() && keyIndex == [] && |bytes| <= 0x7FFF_FF00
      modifies this`indexFile, this`keyIndex, buffer, IndexFileSet()`bytes
      ensures old(indexFile) != null ==> indexFile == old(indexFile)
      ensures old(indexFile) == null ==> fresh(indexFile) && indexFile.keyIndex == []
      ensures Valid() && r == indexFile && keyIndex == [] && buffer[..] == Zeros(256)
      ensures r.bytes == WriteAt(old(IndexContents(existing)), 0,
        PutIntsImage(codec, old(buffer[..]), SplitEntries(codec, recordSize, bytes, NumPages(|bytes|))))
    {
      var idx := InstantiateRFile(existing);
      indexFile := idx;
      ExtractPages(bytes);
      var _ := PutInts();
      return idx;
    }

    /**
     * sort's page loop: reads `file` page by page into one array it never
     * clears and unpacks each page into an empty keyIndex.
     */
    method ReadPages(file: seq<byte>)
      requires keyIndex == [] && |file| <= 0x7FFF_FF00
      modifies this`keyIndex
      ensures keyIndex == IndexEntries(codec, file, NumPages(|file|))
    {
      var page := new byte[256](_ => 0);
      var pos := 0;
      ghost var k: nat := 0;
      while pos < |file|
        invariant pos == 256 * k && pos <= |file| + 255
        invariant page[..] == PageBefore(file, k)
        invariant keyIndex == IndexEntries(codec, file, k)
        decreases |file| - pos
      {
        ghost var k0, prev, acc := k, page[..], keyIndex;
        ReadAt(page, file, pos);
        var _ := ReadPage(page);
        pos := pos + 256;
        k := k + 1;
        ReusedPageNext(file, k0, k, prev, page[..]);
        IndexEntriesNext(codec, file, k0, k, page[..], acc, keyIndex);
      }
      NumPagesOf(|file|, k);
    }

    /**
     * RFile.sort: unpacks every page of the index file into keyIndex, sorts
     * it by key and packs it back with putInts; throws when there is no
     * index file.
     */
    method Sort() returns (r: Result<()>)
      requires Valid() && keyIndex == []
      requires indexFile != null ==> |indexFile.bytes| <= 0x7FFF_FF00
      modifies this`keyIndex, buffer, IndexFileSet()`bytes
      ensures old(indexFile) == null ==> r == Err(NullPointer) && keyIndex == [] && buffer[..] == old(buffer[..])
      ensures old(indexFile) != null ==>
        && r == Ok(()) && keyIndex == [] && buffer[..] == Zeros(256)
        && indexFile.bytes == SortImage(codec, old(buffer[..]), old(indexFile.bytes))
    {
      if indexFile == null {
        return Err(NullPointer);
      }
      ReadPages(indexFile.bytes);
      keyIndex := SortByKey(keyIndex);
      r := PutInts();
    }
  }
}
