/**
 * What the scans of the primary file look at: the key a record starts with
 * (RFile.isInRecord), whether a page holds a record with a given key
 * (RFile.isInPage, records at every multiple of the record size below the
 * page length), the pages RFile.searchFile reads, and the (key, offset)
 * entries RFile.extractInts and RFile.split collect for the index.
 */
module PageScan {
  import opened JavaRuntime
  import opened Utils
  import opened IndexLayout

  /** The key a record starts with: its first 4 bytes, zero-padded by Arrays.copyOfRange. */
  function RecordKey(c: Codec, rec: seq<byte>): int32
  {
    c.toInt(CopyOfRange(rec, 0, 4))
  }

  /** RFile.isInRecord. */
  function IsInRecord(c: Codec, key: int32, rec: seq<byte>): (r: bool)
    ensures |rec| >= 4 ==> (r <==> c.toInt(rec[..4]) == key)
    ensures |rec| < 4 ==> (r <==> c.toInt(rec + Zeros(4 - |rec|)) == key)
  {
    assert |rec| >= 4 ==> CopyOfRange(rec, 0, 4) == rec[..4];
    assert |rec| < 4 ==> CopyOfRange(rec, 0, 4) == rec + Zeros(4 - |rec|);
    key == RecordKey(c, rec)
  }

  /** A record written as its key's bytes followed by its data holds exactly that key. */
  lemma IsInRecordOfEncoded(c: Codec, key: int32, k: int32, data: seq<byte>)
    requires IsIntCodec(c)
    ensures IsInRecord(c, key, c.toBytes(k) + data) <==> k == key
  {
    assert (c.toBytes(k) + data)[..4] == c.toBytes(k);
  }

  /** Record number j of a page: Arrays.copyOfRange(page, j * w, j * w + w). */
  function RecordAt(page: seq<byte>, w: nat, j: nat): (r: seq<byte>)
    requires j * w <= |page|
    ensures |r| == w
  {
    CopyOfRange(page, j * w, j * w + w)
  }

  /**
   * The condition of RFile.isInPage: some record starting at a multiple of
   * the record size below the page length holds the key (a last record
   * running past the end of the page reads zeros there).
   */
  ghost predicate PageHasKey(c: Codec, w: nat, key: int32, page: seq<byte>)
  {
    exists j: nat :: j * w < |page| && IsInRecord(c, key, RecordAt(page, w, j))
  }

  /** Whether some record from number i onwards holds the key: the rest of isInPage's loop. */
  ghost function KeyFrom(c: Codec, w: nat, key: int32, page: seq<byte>, i: nat): bool
    requires w >= 1
    decreases |page| - i * w
  {
    if i * w >= |page| then false
    else
      assert (i + 1) * w == i * w + w;
      IsInRecord(c, key, RecordAt(page, w, i)) || KeyFrom(c, w, key, page, i + 1)
  }

  lemma {:induction false} KeyFromExists(c: Codec, w: nat, key: int32, page: seq<byte>, i: nat)
    requires w >= 1
    ensures KeyFrom(c, w, key, page, i) <==>
      exists j: nat :: i <= j && j * w < |page| && IsInRecord(c, key, RecordAt(page, w, j))
    decreases |page| - i * w
  {
    if i * w < |page| {
      assert (i + 1) * w == i * w + w;
      KeyFromExists(c, w, key, page, i + 1);
      if KeyFrom(c, w, key, page, i + 1) {
        var j: nat :| i + 1 <= j && j * w < |page| && IsInRecord(c, key, RecordAt(page, w, j));
        assert i <= j;
      }
    } else {
      forall j: nat | i <= j
        ensures j * w >= |page|
      {
        assert j * w >= i * w;
      }
    }
  }

  /** isInPage's loop decides PageHasKey. */
  lemma KeyFromPageHasKey(c: Codec, w: nat, key: int32, page: seq<byte>)
    requires w >= 1
    ensures KeyFrom(c, w, key, page, 0) <==> PageHasKey(c, w, key, page)
  {
    KeyFromExists(c, w, key, page, 0);
  }

  /** A record written at slot j of a page makes the page hold its key. */
  lemma PageHasWrittenKey(c: Codec, w: nat, key: int32, page: seq<byte>, j: nat)
    requires IsIntCodec(c) && w >= 4 && j * w + w <= |page|
    requires page[j * w..j * w + 4] == c.toBytes(key)
    ensures PageHasKey(c, w, key, page)
  {
    var rec := RecordAt(page, w, j);
    assert rec[..4] == page[j * w..j * w + 4];
  }

  // ---------------------------------------------------------------------------
  // The pages RFile.searchFile reads.

  /** Page k as searchFile reads it: the page array is zeroed before each read. */
  function FreshPage(file: seq<byte>, k: nat): (r: seq<byte>)
    ensures |r| == 256
  {
    ReadInto(Zeros(256), file, 256 * k)
  }

  /** A fresh page is the file's bytes from 256 * k, zero past the end of the file. */
  lemma FreshPageIsCopy(file: seq<byte>, k: nat)
    requires 256 * k <= |file|
    ensures FreshPage(file, k) == CopyOfRange(file, 256 * k, 256 * k + 256)
  {
  }

  // ---------------------------------------------------------------------------
  // The entries RFile.extractInts and RFile.split collect.

  /** A slice of a slice is a slice of the whole. */
  lemma SliceOfSlice(s: seq<byte>, a: nat, b: nat, i: nat, j: nat)
    requires a <= b <= |s| && i <= j <= b - a
    ensures s[a..b][i..j] == s[a + i..a + j]
  {
    assert forall t | 0 <= t < j - i :: s[a..b][i..j][t] == s[a + i + t];
  }

  lemma MulNonNegative(a: nat, b: nat)
    ensures a * b >= 0
  {
  }

  /** How many whole records of w bytes fit in len bytes: len / w, counted by subtraction. */
  function SlotCount(len: nat, w: nat): nat
    requires w >= 1
    decreases len
  {
    if len < w then 0 else 1 + SlotCount(len - w, w)
  }

  lemma {:induction false} SlotCountIsQuotient(len: nat, w: nat)
    requires w >= 1
    ensures SlotCount(len, w) == len / w
    decreases len
  {
    if len >= w {
      SlotCountIsQuotient(len - w, w);
      var q, r := (len - w) / w, (len - w) % w;
      assert len == (q + 1) * w + r && 0 <= r < w;
      DivUnique(len, w, q + 1, r);
    }
  }

  lemma MulAtLeast(d: int, w: int)
    requires w >= 1
    ensures d >= 1 ==> d * w >= w
    ensures d <= -1 ==> d * w <= -w
  {
    if d >= 1 {
      MulNonNegative(d - 1, w);
      assert d * w == (d - 1) * w + w;
    } else if d <= -1 {
      MulNonNegative(-d - 1, w);
      assert -d * w == (-d - 1) * w + w;
    }
  }

  lemma DivUnique(a: nat, w: nat, q: int, r: int)
    requires w >= 1 && a == q * w + r && 0 <= r < w
    ensures a / w == q
  {
    var q', r' := a / w, a % w;
    assert a == q' * w + r' && 0 <= r' < w;
    assert (q - q') * w == r' - r;
    MulAtLeast(q - q', w);
  }

  /** The key extractInts reads at byte pos of a page, zero-padded past its end. */
  function SlotKey(c: Codec, page: seq<byte>, pos: nat): int32
    requires pos <= |page|
  {
    c.toInt(CopyOfRange(page, pos, pos + 4))
  }

  /**
   * The entries for the n records starting at byte pos of a page read at
   * file offset base, zero keys included: the record at byte q gives its key
   * and the int sum q + base.
   */
  function RecordsFrom(c: Codec, w: nat, page: seq<byte>, base: int, pos: nat, n: nat): (r: seq<FIndex>)
    requires w >= 1 && pos <= |page| && n <= SlotCount(|page| - pos, w)
    ensures |r| == n
  {
    seq(n, j requires 0 <= j < n =>
      SlotStartFits(w, |page|, pos, n, j);
      FIndex(SlotKey(c, page, SlotStart(pos, w, j)), Wrap32(SlotStart(pos, w, j) + base)))
  }

  /** The byte where record j starts when records of w bytes start at pos: pos + j * w, by repeated addition. */
  function SlotStart(pos: nat, w: nat, j: nat): nat
    decreases j
  {
    if j == 0 then pos else SlotStart(pos + w, w, j - 1)
  }

  lemma {:induction false} SlotStartIs(pos: nat, w: nat, j: nat)
    decreases j
    ensures SlotStart(pos, w, j) == pos + j * w
  {
    if j > 0 {
      SlotStartIs(pos + w, w, j - 1);
      MulSucc(j, w);
    }
  }

  /** Record j of n records of w bytes from byte pos ends inside the page. */
  lemma {:induction false} SlotStartFits(w: nat, len: nat, pos: nat, n: nat, j: nat)
    requires w >= 1 && pos <= len && n <= SlotCount(len - pos, w) && j < n
    ensures SlotStart(pos, w, j) + w <= len
    decreases j
  {
    assert len - pos >= w;
    if j > 0 {
      assert SlotCount(len - pos, w) == 1 + SlotCount(len - (pos + w), w);
      SlotStartFits(w, len, pos + w, n - 1, j - 1);
    }
  }

  /** Record j of those from byte pos starts at byte SlotStart(pos, w, j), inside the page. */
  lemma RecordsFromAt(c: Codec, w: nat, page: seq<byte>, base: int, pos: nat, n: nat, j: nat)
    requires w >= 1 && pos <= |page| && n <= SlotCount(|page| - pos, w) && j < n
    ensures SlotStart(pos, w, j) + w <= |page|
    ensures RecordsFrom(c, w, page, base, pos, n)[j] ==
      FIndex(SlotKey(c, page, SlotStart(pos, w, j)), Wrap32(SlotStart(pos, w, j) + base))
  {
    SlotStartFits(w, |page|, pos, n, j);
  }

  lemma MulSucc(j: int, w: int)
    ensures (j - 1) * w + w == j * w
  {
  }

  lemma SlotStep(rem: nat, w: nat, m: nat, rem': int, m': int)
    requires w >= 1 && 0 < m <= SlotCount(rem, w) && rem' == rem - w && m' == m - 1
    ensures 0 <= rem' && 0 <= m' && m' <= SlotCount(rem', w)
  {
  }

  /** The first of m records from byte pos contributes its entry when its key is not 0. */
  lemma RecordsFromFirst(c: Codec, w: nat, page: seq<byte>, base: int, pos: nat, m: nat, pos': nat, m': nat)
    requires w >= 1 && pos' == pos + w && pos' <= |page| && m' == m - 1 && m' <= SlotCount(|page| - pos', w)
    ensures var k := SlotKey(c, page, pos);
      NonZero(RecordsFrom(c, w, page, base, pos, m)) ==
        (if k != 0 then [FIndex(k, Wrap32(pos + base))] else []) + NonZero(RecordsFrom(c, w, page, base, pos', m'))
  {
    var t := RecordsFrom(c, w, page, base, pos, m);
    RecordsFromTail(c, w, page, base, pos, m, pos', m');
    assert t[0] == FIndex(SlotKey(c, page, pos), Wrap32(pos + base));
  }

  /** The records from byte pos after the first are those from the next record. */
  lemma RecordsFromTail(c: Codec, w: nat, page: seq<byte>, base: int, pos: nat, m: nat, pos': nat, m': nat)
    requires w >= 1 && pos' == pos + w && pos' <= |page| && m' == m - 1 && m' <= SlotCount(|page| - pos', w)
    ensures m <= SlotCount(|page| - pos, w)
    ensures RecordsFrom(c, w, page, base, pos, m)[1..] == RecordsFrom(c, w, page, base, pos', m')
  {
    assert SlotCount(|page| - pos, w) == 1 + SlotCount(|page| - pos', w);
    var t := RecordsFrom(c, w, page, base, pos, m);
    var u := RecordsFrom(c, w, page, base, pos', m');
    forall i | 0 <= i < m'
      ensures t[1 + i] == u[i]
    {
      assert SlotStart(pos, w, i + 1) == SlotStart(pos', w, i);
    }
  }

  /**
   * extractInts's step from the record at byte pos, with m records and rem
   * bytes left, to the next one: the record adds its entry to what was
   * collected when its key is not 0, and the records after it remain.
   */
  lemma ExtractStep(c: Codec, w: nat, page: seq<byte>, base: int, pos: nat, m: nat, rem: int, acc: seq<FIndex>,
                    pos': nat, m': int, rem': int, acc': seq<FIndex>, goal: seq<FIndex>)
    requires w >= 1 && pos <= |page| && rem == |page| - pos && 0 < m <= SlotCount(rem, w)
    requires acc + NonZero(RecordsFrom(c, w, page, base, pos, m)) == goal
    requires pos' == pos + w && m' == m - 1 && rem' == rem - w
    requires acc' == if SlotKey(c, page, pos) != 0 then acc + [FIndex(SlotKey(c, page, pos), Wrap32(pos + base))] else acc
    ensures pos' <= |page| && rem' == |page| - pos' && 0 <= m' <= SlotCount(|page| - pos', w)
    ensures acc' + NonZero(RecordsFrom(c, w, page, base, pos', m')) == goal
  {
    SlotStep(rem, w, m, rem', m');
    RecordsFromFirst(c, w, page, base, pos, m, pos', m');
    var k := SlotKey(c, page, pos);
    var x := if k != 0 then [FIndex(k, Wrap32(pos + base))] else [];
    assert acc' == acc + x;
    AppendShift(acc, x, NonZero(RecordsFrom(c, w, page, base, pos', m')));
  }

  /** What RFile.extractInts appends for a page read at offset base: the records with a non-zero key. */
  function Extracted(c: Codec, w: nat, page: seq<byte>, base: int): seq<FIndex>
    requires w >= 1
  {
    NonZero(RecordsFrom(c, w, page, base, 0, SlotCount(|page|, w)))
  }

  /** The entries RFile.split collects from the first k pages of the primary file. */
  function SplitEntries(c: Codec, w: nat, file: seq<byte>, k: nat): seq<FIndex>
    requires w >= 1
  {
    if k == 0 then []
    else SplitEntries(c, w, file, k - 1) + Extracted(c, w, ReusedPage(file, k - 1), 256 * (k - 1))
  }

  /** split's page loop step: the entries of the page just read follow those of the pages before. */
  lemma SplitEntriesNext(c: Codec, w: nat, file: seq<byte>, k: nat, k': nat, page: seq<byte>, acc: seq<FIndex>, acc': seq<FIndex>)
    requires w >= 1 && k' == k + 1 && page == ReusedPage(file, k)
    requires acc == SplitEntries(c, w, file, k) && acc' == acc + Extracted(c, w, page, 256 * k)
    ensures acc' == SplitEntries(c, w, file, k')
  {
  }

  /** An index entry that names the offset of a record of `file` holding its key. */
  ghost predicate PointsAtKey(c: Codec, file: seq<byte>, e: FIndex)
  {
    0 <= e.index && e.index + 4 <= |file| && c.toInt(file[e.index..e.index + 4]) == e.key
  }

  lemma NonZeroMember(s: seq<FIndex>, e: FIndex)
    ensures e in NonZero(s) <==> e in s && e.key != 0
  {
    if s != [] {
      NonZeroMember(s[1..], e);
      assert s == [s[0]] + s[1..];
    }
  }

  /** The entry read at byte pos < 252 of whole page k names a record of the file holding its key. */
  lemma SlotPointsAtKey(c: Codec, file: seq<byte>, k: nat, pos: nat)
    requires pos + 4 <= 256 && 256 * k + 256 <= |file| < 0x8000_0000
    ensures var page := file[256 * k..256 * k + 256];
      PointsAtKey(c, file, FIndex(SlotKey(c, page, pos), Wrap32(pos + 256 * k)))
  {
    var page := file[256 * k..256 * k + 256];
    assert CopyOfRange(page, pos, pos + 4) == page[pos..pos + 4];
    assert page[pos..pos + 4] == file[256 * k + pos..256 * k + pos + 4];
  }

  /** Every entry collected from a whole page of the file names a record holding its key. */
  lemma ExtractedPointsAtKeys(c: Codec, w: nat, file: seq<byte>, k: nat)
    requires 4 <= w && 256 * k + 256 <= |file| < 0x8000_0000
    ensures forall e :: e in Extracted(c, w, file[256 * k..256 * k + 256], 256 * k) ==> PointsAtKey(c, file, e)
  {
    var page := file[256 * k..256 * k + 256];
    var n := SlotCount(256, w);
    var slots := RecordsFrom(c, w, page, 256 * k, 0, n);
    forall e | e in Extracted(c, w, page, 256 * k)
      ensures PointsAtKey(c, file, e)
    {
      NonZeroMember(slots, e);
      var j :| 0 <= j < |slots| && slots[j] == e;
      RecordPointsAtKey(c, w, file, k, j);
    }
  }

  /** Record j of whole page k of a file names a record holding its key. */
  lemma RecordPointsAtKey(c: Codec, w: nat, file: seq<byte>, k: nat, j: nat)
    requires 4 <= w && 256 * k + 256 <= |file| < 0x8000_0000 && j < SlotCount(256, w)
    ensures PointsAtKey(c, file, RecordsFrom(c, w, file[256 * k..256 * k + 256], 256 * k, 0, SlotCount(256, w))[j])
  {
    var page := file[256 * k..256 * k + 256];
    RecordsFromAt(c, w, page, 256 * k, 0, SlotCount(256, w), j);
    SlotPointsAtKey(c, file, k, SlotStart(0, w, j));
  }

  /** A non-zero key at a record offset of a whole page of the file has its entry collected. */
  lemma ExtractedHasKeys(c: Codec, w: nat, file: seq<byte>, k: nat, j: nat)
    requires 4 <= w && 256 * k + 256 <= |file| < 0x8000_0000 && j < 256 / w
    ensures j * w + 4 <= 256
    ensures var off := 256 * k + j * w;
      var key := c.toInt(file[off..off + 4]);
      key != 0 ==> FIndex(key, off) in Extracted(c, w, file[256 * k..256 * k + 256], 256 * k)
  {
    var page := file[256 * k..256 * k + 256];
    var n := SlotCount(256, w);
    SlotCountIsQuotient(256, w);
    RecordsFromAt(c, w, page, 256 * k, 0, n, j);
    SlotStartIs(0, w, j);
    var q := j * w;
    assert q + w <= 256;
    var off := 256 * k + q;
    var slots := RecordsFrom(c, w, page, 256 * k, 0, n);
    SliceOfSlice(file, 256 * k, 256 * k + 256, q, q + 4);
    assert CopyOfRange(page, q, q + 4) == page[q..q + 4];
    assert slots[j] == FIndex(c.toInt(file[off..off + 4]), off);
    NonZeroMember(slots, slots[j]);
  }

  /** The entries of the first k whole pages of a file, each page taken as it stands in the file. */
  function SplitOfPages(c: Codec, w: nat, file: seq<byte>, k: nat): seq<FIndex>
    requires 1 <= w && 256 * k <= |file|
  {
    if k == 0 then []
    else SplitOfPages(c, w, file, k - 1) + Extracted(c, w, file[256 * (k - 1)..256 * k], 256 * (k - 1))
  }

  lemma SplitPagesStep(c: Codec, w: nat, file: seq<byte>, k: nat)
    requires 1 <= w && 0 < k && 256 * k <= |file|
    requires SplitEntries(c, w, file, k - 1) == SplitOfPages(c, w, file, k - 1)
    ensures SplitEntries(c, w, file, k) == SplitOfPages(c, w, file, k)
  {
    var base := 256 * (k - 1);
    FullReusedPage(file, k - 1);
    assert Extracted(c, w, ReusedPage(file, k - 1), base) == Extracted(c, w, file[base..256 * k], base);
  }

  /** Over whole pages, split's reused page array always holds the page just read. */
  lemma {:induction false} SplitEntriesOfPages(c: Codec, w: nat, file: seq<byte>, k: nat)
    requires 1 <= w && 256 * k <= |file|
    ensures SplitEntries(c, w, file, k) == SplitOfPages(c, w, file, k)
  {
    if k > 0 {
      SplitEntriesOfPages(c, w, file, k - 1);
      SplitPagesStep(c, w, file, k);
    }
  }

  lemma {:induction false} SplitOfPagesSound(c: Codec, w: nat, file: seq<byte>, k: nat)
    requires 4 <= w && 256 * k <= |file| < 0x8000_0000
    ensures AllKeysNonZero(SplitOfPages(c, w, file, k))
    ensures forall e :: e in SplitOfPages(c, w, file, k) ==> PointsAtKey(c, file, e)
  {
    if k > 0 {
      SplitOfPagesSound(c, w, file, k - 1);
      ExtractedPointsAtKeys(c, w, file, k - 1);
    }
  }

  /**
   * Split's index is sound on a file of whole pages: every entry has a
   * non-zero key and names the offset of a record holding that key.
   */
  lemma SplitEntriesSound(c: Codec, w: nat, file: seq<byte>)
    requires 4 <= w && |file| % 256 == 0 && |file| < 0x8000_0000
    ensures AllKeysNonZero(SplitEntries(c, w, file, NumPages(|file|)))
    ensures forall e :: e in SplitEntries(c, w, file, NumPages(|file|)) ==> PointsAtKey(c, file, e)
  {
    var k := |file| / 256;
    assert NumPages(|file|) == k;
    SplitEntriesOfPages(c, w, file, k);
    SplitOfPagesSound(c, w, file, k);
  }

  /** The entries collected from whole page p are among those of the first k pages. */
  lemma {:induction false} SplitOfPagesHasPage(c: Codec, w: nat, file: seq<byte>, k: nat, p: nat)
    requires 1 <= w && 256 * k <= |file| && p < k
    ensures forall e :: e in Extracted(c, w, file[256 * p..256 * p + 256], 256 * p) ==> e in SplitOfPages(c, w, file, k)
  {
    if p < k - 1 {
      SplitOfPagesHasPage(c, w, file, k - 1, p);
    }
  }

  /**
   * Split's index is complete on a file of whole pages: each record slot
   * j < 256 / w of each page p whose key is not zero has its (key, offset)
   * entry.
   */
  lemma SplitEntriesComplete(c: Codec, w: nat, file: seq<byte>, p: nat, j: nat)
    requires 4 <= w && |file| % 256 == 0 && |file| < 0x8000_0000 && 256 * p < |file| && j < 256 / w
    ensures var off := 256 * p + j * w;
      off + 4 <= |file| &&
      var key := c.toInt(file[off..off + 4]);
      key != 0 ==> FIndex(key, off) in SplitEntries(c, w, file, NumPages(|file|))
  {
    var k := |file| / 256;
    assert NumPages(|file|) == k;
    ExtractedHasKeys(c, w, file, p, j);
    SplitEntriesOfPages(c, w, file, k);
    SplitOfPagesHasPage(c, w, file, k, p);
  }

  /**
   * The index Split writes when no index file exists yet, from the zeroed
   * buffer a fresh RFile holds, is the dense image of its entries; sorting
   * it yields the dense image of the sorted entries, and a second sort
   * leaves that image unchanged.
   */
  lemma SplitThenSort(c: Codec, w: nat, file: seq<byte>)
    requires IsIntCodec(c) && 4 <= w && |file| % 256 == 0 && |file| < 0x8000_0000
    ensures var s := SplitEntries(c, w, file, NumPages(|file|));
      var index := WriteAt([], 0, PutIntsImage(c, Zeros(256), s));
      index == DenseFile(c, s)
      && SortImage(c, Zeros(256), index) == DenseFile(c, SortByKey(s))
      && SortImage(c, Zeros(256), SortImage(c, Zeros(256), index)) == SortImage(c, Zeros(256), index)
  {
    var s := SplitEntries(c, w, file, NumPages(|file|));
    var index := PutIntsImage(c, Zeros(256), s);
    WriteAtCover([], index);
    SplitEntriesSound(c, w, file);
    UnpackDenseIndex(c, s);
    SortImageOfDense(c, s);
    SortTwiceIsSortOnce(c, index);
  }
}
