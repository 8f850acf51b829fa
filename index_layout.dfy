/**
 * The index file format: pages of 256 bytes (Configuration.PAGE_SIZE)
 * holding 32 slots of 8-byte (key, index) entries (Configuration.ENTRY_SIZE),
 * filled from the front, a zero key meaning an empty slot. The functions
 * here state what RFile.readPage unpacks from a page, what RFile.putInts
 * writes for a list of entries, what RFile.sort collects from a whole index
 * file, and the stable ascending sort it applies; the lemmas prove that
 * unpacking inverts packing and what sorting twice does. The sizes are
 * written as literals so that the offset arithmetic stays linear.
 */
module IndexLayout {
  import opened JavaRuntime
  import opened Utils

  /** model.FIndex: a key and the byte offset of its record in the primary file. */
  datatype FIndex = FIndex(key: int32, index: int32)

  function EntryBytes(c: Codec, e: FIndex): (b: seq<byte>)
    ensures |b| == 8
  {
    IntsToBytes(c, e.key, e.index)
  }

  /** The entry an 8-byte slot holds: Utils.byteArrayToInt of its two halves. */
  function DecodeEntry(c: Codec, b: seq<byte>): FIndex
    requires |b| == 8
  {
    FIndex(c.toInt(b[..4]), c.toInt(b[4..]))
  }

  lemma DecodeEntryBytes(c: Codec, e: FIndex)
    requires IsIntCodec(c)
    ensures DecodeEntry(c, EntryBytes(c, e)) == e
  {
  }

  /** The entry in every whole 8-byte slot of a byte sequence, in slot order. */
  function Slots(c: Codec, page: seq<byte>): (r: seq<FIndex>)
    ensures |r| == |page| / 8
    decreases |page|
  {
    if |page| < 8 then []
    else [DecodeEntry(c, page[..8])] + Slots(c, page[8..])
  }

  /** No entry has the empty-slot key 0. */
  ghost predicate AllKeysNonZero(s: seq<FIndex>)
  {
    forall i :: 0 <= i < |s| ==> s[i].key != 0
  }

  /** The entries whose key is not the empty-slot sentinel 0, in their order. */
  function NonZero(s: seq<FIndex>): (r: seq<FIndex>)
    ensures |r| <= |s|
    ensures AllKeysNonZero(r)
  {
    if s == [] then []
    else if s[0].key != 0 then [s[0]] + NonZero(s[1..])
    else NonZero(s[1..])
  }

  /** What RFile.readPage appends for a page: the entries of its non-empty slots. */
  function PageEntries(c: Codec, page: seq<byte>): seq<FIndex>
  {
    NonZero(Slots(c, page))
  }

  /** readPage's step: the slot at byte pos gives its entry when its key is not 0, then the slots after it follow. */
  lemma PageEntriesAt(c: Codec, page: seq<byte>, pos: nat)
    requires pos + 8 <= |page|
    ensures var k := c.toInt(CopyOfRange(page, pos, pos + 4));
      PageEntries(c, page[pos..]) ==
        (if k != 0 then [FIndex(k, c.toInt(CopyOfRange(page, pos + 4, pos + 8)))] else []) + PageEntries(c, page[pos + 8..])
  {
    var rest := page[pos..];
    assert rest[..8][..4] == CopyOfRange(page, pos, pos + 4);
    assert rest[..8][4..] == CopyOfRange(page, pos + 4, pos + 8);
    assert rest[8..] == page[pos + 8..];
    var t := Slots(c, rest);
    assert t == [DecodeEntry(c, rest[..8])] + Slots(c, rest[8..]);
    assert t[1..] == Slots(c, rest[8..]);
  }

  /** readPage's loop step, stated on the accumulator before (acc) and after (acc') the slot at pos. */
  lemma ReadStep(c: Codec, page: seq<byte>, pos: nat, acc: seq<FIndex>, pos': nat, acc': seq<FIndex>, goal: seq<FIndex>)
    requires pos + 8 <= |page| && pos' == pos + 8
    requires acc + PageEntries(c, page[pos..]) == goal
    requires var k := c.toInt(CopyOfRange(page, pos, pos + 4));
      acc' == if k != 0 then acc + [FIndex(k, c.toInt(CopyOfRange(page, pos + 4, pos + 8)))] else acc
    ensures acc' + PageEntries(c, page[pos'..]) == goal
  {
    PageEntriesAt(c, page, pos);
    var k := c.toInt(CopyOfRange(page, pos, pos + 4));
    var x := if k != 0 then [FIndex(k, c.toInt(CopyOfRange(page, pos + 4, pos + 8)))] else [];
    assert acc' == acc + x;
    AppendShift(acc, x, PageEntries(c, page[pos'..]));
  }

  ghost predicate AscendingByKey(s: seq<FIndex>)
  {
    forall i, j :: 0 <= i < j < |s| ==> s[i].key <= s[j].key
  }

  ghost predicate HasKey(s: seq<FIndex>, key: int)
  {
    exists i :: 0 <= i < |s| && s[i].key == key
  }

  lemma {:induction false} SlotsAppend(c: Codec, a: seq<byte>, b: seq<byte>, q: nat)
    requires |a| == 8 * q
    ensures Slots(c, a + b) == Slots(c, a) + Slots(c, b)
    decreases q
  {
    if q > 0 {
      assert (a + b)[..8] == a[..8];
      assert (a + b)[8..] == a[8..] + b;
      SlotsAppend(c, a[8..], b, q - 1);
    } else {
      assert a + b == b;
    }
  }

  lemma {:induction false} NonZeroAppend(a: seq<FIndex>, b: seq<FIndex>)
    ensures NonZero(a + b) == NonZero(a) + NonZero(b)
  {
    if a != [] {
      assert (a + b)[1..] == a[1..] + b;
      assert (a + b)[0] == a[0];
      NonZeroAppend(a[1..], b);
    } else {
      assert a + b == b;
    }
  }

  lemma {:induction false} NonZeroOfNonZeroKeys(s: seq<FIndex>)
    requires AllKeysNonZero(s)
    ensures NonZero(s) == s
  {
    if s != [] {
      assert AllKeysNonZero(s[1..]) by {
        forall i | 0 <= i < |s| - 1 ensures s[1..][i].key != 0 {
          assert s[1..][i] == s[i + 1];
        }
      }
      NonZeroOfNonZeroKeys(s[1..]);
    }
  }

  /** A permutation of entries with non-zero keys has non-zero keys. */
  lemma AllKeysNonZeroOfPermutation(s: seq<FIndex>, t: seq<FIndex>)
    requires AllKeysNonZero(s) && multiset(s) == multiset(t)
    ensures AllKeysNonZero(t)
  {
    forall i | 0 <= i < |t|
      ensures t[i].key != 0
    {
      assert t[i] in multiset(t);
      assert t[i] in s;
    }
  }

  /** A run of zero bytes unpacks to nothing. */
  lemma {:induction false} PageEntriesOfZeros(c: Codec, n: nat)
    requires IsIntCodec(c)
    ensures PageEntries(c, Zeros(n)) == []
    decreases n
  {
    if n >= 8 {
      assert Zeros(n)[..8][..4] == Zeros(4);
      assert Zeros(n)[8..] == Zeros(n - 8);
      PageEntriesOfZeros(c, n - 8);
    }
  }

  /** The bytes of a list of entries, back to back. */
  function Encoded(c: Codec, s: seq<FIndex>): (b: seq<byte>)
    ensures |b| == 8 * |s|
  {
    if s == [] then [] else EntryBytes(c, s[0]) + Encoded(c, s[1..])
  }

  lemma SlotsCons(c: Codec, e: seq<byte>, tail: seq<byte>)
    requires |e| == 8
    ensures Slots(c, e + tail) == [DecodeEntry(c, e)] + Slots(c, tail)
  {
    assert (e + tail)[..8] == e;
    assert (e + tail)[8..] == tail;
  }

  /** Decoding the slots of encoded entries gives the entries back. */
  lemma {:induction false} SlotsOfEncoded(c: Codec, s: seq<FIndex>, tail: seq<byte>)
    requires IsIntCodec(c)
    ensures Slots(c, Encoded(c, s) + tail) == s + Slots(c, tail)
  {
    if s != [] {
      var e, r := EntryBytes(c, s[0]), Encoded(c, s[1..]);
      assert Encoded(c, s) == e + r;
      AppendShift(e, r, tail);
      SlotsCons(c, e, r + tail);
      DecodeEntryBytes(c, s[0]);
      SlotsOfEncoded(c, s[1..], tail);
      AppendShift([s[0]], s[1..], Slots(c, tail));
      assert s == [s[0]] + s[1..];
    } else {
      assert Encoded(c, s) + tail == tail;
    }
  }

  /** Entry j of a list is encoded at bytes 8 * j .. 8 * j + 8. */
  lemma {:induction false} EncodedAt(c: Codec, s: seq<FIndex>, j: nat)
    requires j < |s|
    ensures Encoded(c, s)[8 * j..8 * j + 8] == EntryBytes(c, s[j])
  {
    var e := EntryBytes(c, s[0]);
    var r := Encoded(c, s[1..]);
    assert Encoded(c, s) == e + r;
    if j > 0 {
      EncodedAt(c, s[1..], j - 1);
      assert s[1..][j - 1] == s[j];
      assert (e + r)[8 * j..8 * j + 8] == r[8 * (j - 1)..8 * (j - 1) + 8];
    } else {
      assert (e + r)[..8] == e;
    }
  }

  lemma {:induction false} EncodedAppend(c: Codec, a: seq<FIndex>, b: seq<FIndex>)
    ensures Encoded(c, a + b) == Encoded(c, a) + Encoded(c, b)
  {
    if a != [] {
      assert (a + b)[1..] == a[1..] + b;
      assert (a + b)[0] == a[0];
      EncodedAppend(c, a[1..], b);
    } else {
      assert a + b == b;
    }
  }

  // ---------------------------------------------------------------------------
  // What RFile.putInts writes.

  /**
   * What the page buffer holds past the i - 32 * (i / 32) entries packed
   * since the last full page was written: what it held at the start while
   * no page has been written, zeros afterwards (the buffer is zeroed after
   * each full page).
   */
  function PendingTail(buf0: seq<byte>, i: nat): (t: seq<byte>)
    requires |buf0| == 256
    ensures |t| == 256 - 8 * (i % 32)
  {
    if i < 32 then buf0[8 * i..] else Zeros(256 - 8 * (i % 32))
  }

  /**
   * The bytes putInts writes, from offset 0 of the index file, for the
   * pending entries `s` when its page buffer starts out holding `buf0`: the
   * entries back to back, each full page written as it fills, then the
   * buffer once more.
   */
  function PutIntsImage(c: Codec, buf0: seq<byte>, s: seq<FIndex>): (r: seq<byte>)
    requires |buf0| == 256
  {
    Encoded(c, s) + PendingTail(buf0, |s|)
  }

  /** The pending tail loses its first slot as entry i is packed, and is gone once the page is full. */
  lemma PendingTailNext(buf0: seq<byte>, i: nat)
    requires |buf0| == 256
    ensures 8 <= |PendingTail(buf0, i)|
    ensures PendingTail(buf0, i)[8..] == if (i + 1) % 32 == 0 then [] else PendingTail(buf0, i + 1)
  {
    var tail := PendingTail(buf0, i);
    if (i + 1) % 32 != 0 {
      assert (i + 1) % 32 == i % 32 + 1;
      if i + 1 < 32 {
        assert tail[8..] == buf0[8 * (i + 1)..];
      } else {
        assert tail[8..] == Zeros(256 - 8 * ((i + 1) % 32));
      }
    }
  }

  lemma EncodedSnoc(c: Codec, s: seq<FIndex>, lo: nat, i: nat)
    requires lo <= i < |s|
    ensures Encoded(c, s[lo..i + 1]) == Encoded(c, s[lo..i]) + EntryBytes(c, s[i])
  {
    assert s[lo..i + 1] == s[lo..i] + [s[i]];
    EncodedAppend(c, s[lo..i], [s[i]]);
    assert Encoded(c, [s[i]]) == EntryBytes(c, s[i]);
  }

  /** Packing entry i into the buffer after the entries before it, from the start of the current page. */
  lemma PackStep(c: Codec, buf0: seq<byte>, s: seq<FIndex>, i: nat, at: nat, src: seq<byte>, buffer: seq<byte>)
    requires |buf0| == 256 && i < |s| && at == 8 * (i % 32) && src == EntryBytes(c, s[i])
    requires buffer == Encoded(c, s[32 * (i / 32)..i]) + PendingTail(buf0, i)
    ensures at + |src| <= |buffer|
    ensures buffer[..at] + src + buffer[at + |src|..] ==
      Encoded(c, s[32 * (i / 32)..i + 1]) + (if (i + 1) % 32 == 0 then [] else PendingTail(buf0, i + 1))
  {
    var pre := Encoded(c, s[32 * (i / 32)..i]);
    var tail := PendingTail(buf0, i);
    PendingTailNext(buf0, i);
    EncodedSnoc(c, s, 32 * (i / 32), i);
    assert |pre| == at;
    assert buffer[..at] == pre;
    assert buffer[at + 8..] == tail[8..];
  }

  /**
   * One turn of putInts's loop that leaves the page unfinished: entry i,
   * copied to byte at of the buffer, joins the entries of the current page
   * and the start of the page stays put.
   */
  lemma PackNext(c: Codec, buf0: seq<byte>, s: seq<FIndex>, i: nat, i': nat, lo: nat, at: nat, src: seq<byte>,
                 before: seq<byte>, after: seq<byte>)
    requires |buf0| == 256 && i < |s| && i' == i + 1
    requires lo == 32 * (i / 32) && at == 8 * (i % 32) && src == IntsToBytes(c, s[i].key, s[i].index)
    requires before == Encoded(c, s[lo..i]) + PendingTail(buf0, i)
    requires at + |src| <= |before| && after == before[..at] + src + before[at + |src|..]
    requires !(256 - (at + 8) < 8)
    ensures lo == 32 * (i' / 32) && at + 8 == 8 * (i' % 32)
    ensures after == Encoded(c, s[lo..i']) + PendingTail(buf0, i')
    ensures i' <= |s| && s[i..][1..] == s[i'..]
  {
    PackStep(c, buf0, s, i, at, src, before);
    assert (i + 1) / 32 == i / 32;
  }

  lemma EncodedSplit(c: Codec, s: seq<FIndex>, lo: nat, hi: nat)
    requires lo <= hi <= |s|
    ensures Encoded(c, s[..lo]) + Encoded(c, s[lo..hi]) == Encoded(c, s[..hi])
  {
    assert s[..hi] == s[..lo] + s[lo..hi];
    EncodedAppend(c, s[..lo], s[lo..hi]);
  }

  /** Writing a full page after the pages before it extends what was written from offset 0. */
  lemma FlushWrite(c: Codec, f0: seq<byte>, s: seq<FIndex>, lo: nat, lo': nat, full: seq<byte>,
                   bytes: seq<byte>, bytes': seq<byte>, wpos: nat, wpos': nat)
    requires lo' == lo + 32 <= |s| && full == Encoded(c, s[lo..lo'])
    requires wpos == 8 * lo == |Encoded(c, s[..lo])| && bytes == WriteAt(f0, 0, Encoded(c, s[..lo]))
    requires wpos <= |bytes| && bytes' == WriteAt(bytes, wpos, full) && wpos' == wpos + 256
    ensures wpos' == 8 * lo' == |Encoded(c, s[..lo'])|
    ensures bytes' == WriteAt(f0, 0, Encoded(c, s[..lo']))
  {
    EncodedSplit(c, s, lo, lo');
    WriteAtTwice(f0, Encoded(c, s[..lo]), full);
  }

  /**
   * One turn of putInts's loop that fills the page: the page, written at
   * byte wpos, extends what was written from offset 0 by that page's
   * entries, and the zeroed buffer starts the next page.
   */
  lemma PackFlush(c: Codec, buf0: seq<byte>, f0: seq<byte>, s: seq<FIndex>, i: nat, i': nat, lo: nat, lo': nat,
                  at: nat, src: seq<byte>, before: seq<byte>, full: seq<byte>,
                  bytes: seq<byte>, bytes': seq<byte>, wpos: nat, wpos': nat)
    requires |buf0| == 256 && i < |s| && i' == i + 1
    requires lo == 32 * (i / 32) && at == 8 * (i % 32) && src == IntsToBytes(c, s[i].key, s[i].index)
    requires before == Encoded(c, s[lo..i]) + PendingTail(buf0, i)
    requires at + |src| <= |before| && full == before[..at] + src + before[at + |src|..]
    requires 256 - (at + 8) < 8
    requires wpos == 8 * lo == |Encoded(c, s[..lo])| && bytes == WriteAt(f0, 0, Encoded(c, s[..lo]))
    requires wpos <= |bytes| && bytes' == WriteAt(bytes, wpos, full) && wpos' == wpos + 256 && lo' == lo + 32
    ensures lo' == 32 * (i' / 32) && 0 == 8 * (i' % 32)
    ensures Zeros(256) == Encoded(c, s[lo'..i']) + PendingTail(buf0, i')
    ensures wpos' == 8 * lo' == |Encoded(c, s[..lo'])|
    ensures bytes' == WriteAt(f0, 0, Encoded(c, s[..lo']))
    ensures i' <= |s| && s[i..][1..] == s[i'..]
  {
    PackStep(c, buf0, s, i, at, src, before);
    assert i' % 32 == 0 && i' == lo';
    FlushWrite(c, f0, s, lo, lo', full, bytes, bytes', wpos, wpos');
    assert s[lo'..i'] == [];
  }

  /** After putInts's loop, the last write of the buffer completes the image of all entries. */
  lemma PackDone(c: Codec, buf0: seq<byte>, f0: seq<byte>, s: seq<FIndex>, i: nat, lo: nat,
                 buffer: seq<byte>, bytes: seq<byte>, bytes': seq<byte>, wpos: nat)
    requires |buf0| == 256 && i <= |s| && s[i..] == [] && lo == 32 * (i / 32)
    requires buffer == Encoded(c, s[lo..i]) + PendingTail(buf0, i)
    requires wpos == 8 * lo == |Encoded(c, s[..lo])| && bytes == WriteAt(f0, 0, Encoded(c, s[..lo]))
    requires wpos <= |bytes| && bytes' == WriteAt(bytes, wpos, buffer)
    ensures bytes' == WriteAt(f0, 0, PutIntsImage(c, buf0, s))
  {
    assert i == |s| && s[..i] == s;
    EncodedSplit(c, s, lo, i);
    AppendShift(Encoded(c, s[..lo]), Encoded(c, s[lo..i]), PendingTail(buf0, i));
    WriteAtTwice(f0, Encoded(c, s[..lo]), buffer);
  }

  /** putInts writes |s| / 32 + 1 whole pages, with entry j at byte 8 * j. */
  lemma PutIntsImageShape(c: Codec, buf0: seq<byte>, s: seq<FIndex>)
    requires |buf0| == 256
    ensures |PutIntsImage(c, buf0, s)| == 256 * (|s| / 32 + 1)
    ensures forall j :: 0 <= j < |s| ==> PutIntsImage(c, buf0, s)[8 * j..8 * j + 8] == EntryBytes(c, s[j])
  {
    var n := |s|;
    assert n == 32 * (n / 32) + n % 32;
    forall j | 0 <= j < n
      ensures PutIntsImage(c, buf0, s)[8 * j..8 * j + 8] == EntryBytes(c, s[j])
    {
      EncodedAt(c, s, j);
    }
  }

  /**
   * When the entries fill their pages exactly, putInts still writes one more
   * page: the buffer as it stood when there were no entries, a zero page
   * otherwise.
   */
  lemma PutIntsLastPage(c: Codec, buf0: seq<byte>, s: seq<FIndex>)
    requires |buf0| == 256 && |s| % 32 == 0
    ensures var r := PutIntsImage(c, buf0, s);
      |r| >= 256 && r[|r| - 256..] == if s == [] then buf0 else Zeros(256)
  {
    PutIntsImageShape(c, buf0, s);
    var r := PutIntsImage(c, buf0, s);
    if s == [] {
      assert r == buf0;
    } else {
      assert |r| - 256 == 8 * |s|;
    }
  }

  // ---------------------------------------------------------------------------
  // Reading a whole index file back (RFile.sort's page loop).

  /** The number of iterations of a `while (pos < len)` loop that steps pos by a page. */
  function NumPages(len: nat): nat
  {
    (len + 255) / 256
  }

  /** Such a loop stops after k pages exactly when the last page starts before len and at least len bytes are covered. */
  lemma NumPagesOf(len: nat, k: nat)
    requires len <= 256 * k <= len + 255
    ensures NumPages(len) == k
  {
  }

  /**
   * The page array after the k-th read of a loop that reads successive pages
   * into one array and never clears it: a short last read leaves the tail of
   * the previous page in place.
   */
  function ReusedPage(file: seq<byte>, k: nat): (r: seq<byte>)
    ensures |r| == 256
  {
    ReadInto(if k == 0 then Zeros(256) else ReusedPage(file, k - 1), file, 256 * k)
  }

  /** The page array just before read number k of such a loop: zeroes at first, then the page of the read before. */
  function PageBefore(file: seq<byte>, k: nat): (r: seq<byte>)
    ensures |r| == 256
  {
    if k == 0 then Zeros(256) else ReusedPage(file, k - 1)
  }

  /** A page loop's read number k + 1, stated on the page array before (prev) and after (page) it. */
  lemma ReusedPageNext(file: seq<byte>, k: nat, k': nat, prev: seq<byte>, page: seq<byte>)
    requires k' == k + 1 && 256 * k < |file|
    requires prev == PageBefore(file, k)
    requires page == ReadInto(prev, file, 256 * k)
    ensures page == ReusedPage(file, k) && page == PageBefore(file, k')
  {
    assert ReusedPage(file, k) == ReadInto(prev, file, 256 * k);
  }

  /** sort's page loop step: the entries of the page just read follow those of the pages before. */
  lemma IndexEntriesNext(c: Codec, file: seq<byte>, k: nat, k': nat, page: seq<byte>, acc: seq<FIndex>, acc': seq<FIndex>)
    requires k' == k + 1 && page == ReusedPage(file, k)
    requires acc == IndexEntries(c, file, k) && acc' == acc + PageEntries(c, page)
    ensures acc' == IndexEntries(c, file, k')
  {
    assert IndexEntries(c, file, k + 1) == IndexEntries(c, file, k) + PageEntries(c, ReusedPage(file, k));
  }

  lemma FullReusedPage(file: seq<byte>, k: nat)
    requires 256 * k + 256 <= |file|
    ensures ReusedPage(file, k) == file[256 * k..256 * k + 256]
  {
  }

  /** The entries RFile.sort collects from the first k pages of the index file. */
  function IndexEntries(c: Codec, file: seq<byte>, k: nat): (r: seq<FIndex>)
  {
    if k == 0 then [] else IndexEntries(c, file, k - 1) + PageEntries(c, ReusedPage(file, k - 1))
  }

  /** No entry sort's page loop collects has the empty-slot key 0. */
  lemma {:induction false} IndexEntriesNonZero(c: Codec, file: seq<byte>, k: nat)
    ensures AllKeysNonZero(IndexEntries(c, file, k))
  {
    if k > 0 {
      IndexEntriesNonZero(c, file, k - 1);
      var a, b := IndexEntries(c, file, k - 1), PageEntries(c, ReusedPage(file, k - 1));
      assert forall i :: 0 <= i < |a + b| ==> (a + b)[i] == if i < |a| then a[i] else b[i - |a|];
    }
  }

  /** The entries of two byte runs, the first made of whole slots, are those of each in turn. */
  lemma PageEntriesAppend(c: Codec, a: seq<byte>, b: seq<byte>, q: nat)
    requires |a| == 8 * q
    ensures PageEntries(c, a + b) == PageEntries(c, a) + PageEntries(c, b)
  {
    SlotsAppend(c, a, b, q);
    NonZeroAppend(Slots(c, a), Slots(c, b));
  }

  /** A full page read by sort's loop adds the entries of that page. */
  lemma IndexEntriesStep(c: Codec, file: seq<byte>, k: nat)
    requires 0 < k && 256 * k <= |file|
    ensures IndexEntries(c, file, k) == IndexEntries(c, file, k - 1) + PageEntries(c, file[256 * (k - 1)..256 * k])
  {
    FullReusedPage(file, k - 1);
  }

  /** The entries of the first k pages are those of the first k - 1, then those of page k - 1. */
  lemma PageEntriesOfPrefix(c: Codec, file: seq<byte>, k: nat)
    requires 0 < k && 256 * k <= |file|
    ensures PageEntries(c, file[..256 * k]) ==
      PageEntries(c, file[..256 * (k - 1)]) + PageEntries(c, file[256 * (k - 1)..256 * k])
  {
    assert file[..256 * k] == file[..256 * (k - 1)] + file[256 * (k - 1)..256 * k];
    PageEntriesAppend(c, file[..256 * (k - 1)], file[256 * (k - 1)..256 * k], 32 * (k - 1));
  }

  lemma WholePagesStep(c: Codec, file: seq<byte>, k: nat)
    requires 0 < k && 256 * k <= |file|
    requires IndexEntries(c, file, k - 1) == PageEntries(c, file[..256 * (k - 1)])
    ensures IndexEntries(c, file, k) == PageEntries(c, file[..256 * k])
  {
    IndexEntriesStep(c, file, k);
    PageEntriesOfPrefix(c, file, k);
  }

  /** Over whole pages, sort's page loop collects the entries of the non-empty slots of those pages. */
  lemma {:induction false} IndexEntriesOfWholePages(c: Codec, file: seq<byte>, k: nat)
    requires 256 * k <= |file|
    ensures IndexEntries(c, file, k) == PageEntries(c, file[..256 * k])
  {
    if k > 0 {
      IndexEntriesOfWholePages(c, file, k - 1);
      WholePagesStep(c, file, k);
    }
  }

  /** On a file of whole pages, sort's page loop collects the entries of every non-empty slot, in file order. */
  lemma IndexEntriesAll(c: Codec, file: seq<byte>)
    requires |file| % 256 == 0
    ensures IndexEntries(c, file, NumPages(|file|)) == PageEntries(c, file)
  {
    var k := |file| / 256;
    assert |file| == 256 * k;
    assert NumPages(|file|) == k;
    IndexEntriesOfWholePages(c, file, k);
    assert file[..256 * k] == file;
  }

  /** Unpacking what putInts wrote from a zeroed buffer gives back the non-empty entries, in order. */
  lemma UnpackPutInts(c: Codec, s: seq<FIndex>)
    requires IsIntCodec(c)
    ensures PageEntries(c, PutIntsImage(c, Zeros(256), s)) == NonZero(s)
  {
    var n := |s|;
    var t := if n < 32 then 256 - 8 * n else 256 - 8 * (n % 32);
    assert PutIntsImage(c, Zeros(256), s) == Encoded(c, s) + Zeros(t);
    SlotsOfEncoded(c, s, Zeros(t));
    NonZeroAppend(s, Slots(c, Zeros(t)));
    PageEntriesOfZeros(c, t);
    assert NonZero(s) + [] == NonZero(s);
  }

  /** The index file putInts writes for a list from a zeroed buffer. */
  function DenseFile(c: Codec, s: seq<FIndex>): seq<byte>
  {
    PutIntsImage(c, Zeros(256), s)
  }

  /**
   * A dense file of entries without empty keys holds |s| / 32 + 1 pages and
   * sort's page loop reads every entry back, in order.
   */
  lemma UnpackDenseIndex(c: Codec, s: seq<FIndex>)
    requires IsIntCodec(c)
    requires AllKeysNonZero(s)
    ensures |DenseFile(c, s)| == 256 * (|s| / 32 + 1)
    ensures IndexEntries(c, DenseFile(c, s), NumPages(|DenseFile(c, s)|)) == s
  {
    var file := DenseFile(c, s);
    PutIntsImageShape(c, Zeros(256), s);
    IndexEntriesAll(c, file);
    UnpackPutInts(c, s);
    NonZeroOfNonZeroKeys(s);
  }

  // ---------------------------------------------------------------------------
  // Collections.sort(keyIndex) by key: a stable sort, written as insertion sort.

  function Insert(e: FIndex, s: seq<FIndex>): (r: seq<FIndex>)
    ensures multiset(r) == multiset(s) + multiset{e}
  {
    if s == [] || e.key <= s[0].key then [e] + s
    else
      assert s == [s[0]] + s[1..];
      [s[0]] + Insert(e, s[1..])
  }

  function SortByKey(s: seq<FIndex>): (r: seq<FIndex>)
    ensures multiset(r) == multiset(s)
  {
    if s == [] then []
    else
      assert s == [s[0]] + s[1..];
      Insert(s[0], SortByKey(s[1..]))
  }

  lemma AscendingCons(x: FIndex, t: seq<FIndex>)
    requires AscendingByKey(t) && (t == [] || x.key <= t[0].key)
    ensures AscendingByKey([x] + t)
  {
    var r := [x] + t;
    forall i, j | 0 <= i < j < |r|
      ensures r[i].key <= r[j].key
    {
      if i == 0 {
        assert r[j] == t[j - 1];
      } else {
        assert r[i] == t[i - 1] && r[j] == t[j - 1];
      }
    }
  }

  lemma {:induction false} InsertAscending(e: FIndex, s: seq<FIndex>)
    requires AscendingByKey(s)
    ensures AscendingByKey(Insert(e, s))
    ensures Insert(e, s)[0].key == if s == [] || e.key <= s[0].key then e.key else s[0].key
  {
    if s == [] || e.key <= s[0].key {
      AscendingCons(e, s);
    } else {
      var t := Insert(e, s[1..]);
      assert AscendingByKey(s[1..]) by {
        forall i, j | 0 <= i < j < |s[1..]| ensures s[1..][i].key <= s[1..][j].key {
          assert s[1..][i] == s[i + 1] && s[1..][j] == s[j + 1];
        }
      }
      InsertAscending(e, s[1..]);
      AscendingCons(s[0], t);
    }
  }

  /** The sorted list is ascending by key. */
  lemma {:induction false} SortByKeyAscending(s: seq<FIndex>)
    ensures AscendingByKey(SortByKey(s))
  {
    if s != [] {
      SortByKeyAscending(s[1..]);
      InsertAscending(s[0], SortByKey(s[1..]));
    }
  }

  /** An ascending list is left as it is: sorting is idempotent. */
  lemma {:induction false} SortByKeyOfAscending(s: seq<FIndex>)
    requires AscendingByKey(s)
    ensures SortByKey(s) == s
  {
    if s != [] {
      SortByKeyOfAscending(s[1..]);
    }
  }

  /** The entries with one given key, in their order. */
  function WithKey(s: seq<FIndex>, key: int): seq<FIndex>
  {
    if s == [] then [] else (if s[0].key == key then [s[0]] else []) + WithKey(s[1..], key)
  }

  lemma WithKeyCons(x: FIndex, t: seq<FIndex>, key: int)
    ensures WithKey([x] + t, key) == (if x.key == key then [x] else []) + WithKey(t, key)
  {
    assert ([x] + t)[1..] == t;
  }

  lemma {:induction false} WithKeyOfInsert(e: FIndex, s: seq<FIndex>, key: int)
    requires AscendingByKey(s)
    ensures WithKey(Insert(e, s), key) == if e.key == key then [e] + WithKey(s, key) else WithKey(s, key)
  {
    if s != [] && e.key > s[0].key {
      var t := Insert(e, s[1..]);
      WithKeyOfInsert(e, s[1..], key);
      WithKeyCons(s[0], t, key);
      if e.key == key {
        assert s[0].key != key;
      }
    } else {
      WithKeyCons(e, s, key);
    }
  }

  /** The sort is stable: entries with equal keys keep their relative order. */
  lemma {:induction false} SortByKeyStable(s: seq<FIndex>, key: int)
    ensures WithKey(SortByKey(s), key) == WithKey(s, key)
  {
    if s != [] {
      SortByKeyStable(s[1..], key);
      SortByKeyAscending(s[1..]);
      WithKeyOfInsert(s[0], SortByKey(s[1..]), key);
    }
  }

  // ---------------------------------------------------------------------------
  // RFile.sort applied to a whole index file.

  /**
   * The index file after RFile.sort when the page buffer holds `buf0`: every
   * entry the page loop collects, sorted by key, rewritten from offset 0 by
   * putInts over the old contents.
   */
  function SortImage(c: Codec, buf0: seq<byte>, file: seq<byte>): seq<byte>
    requires |buf0| == 256
  {
    var entries := SortByKey(IndexEntries(c, file, NumPages(|file|)));
    WriteAt(file, 0, PutIntsImage(c, buf0, entries))
  }

  /**
   * Sorting a dense index file rewrites all of it: the result is the dense
   * file of the sorted entries, of the same size.
   */
  lemma SortImageOfDense(c: Codec, s: seq<FIndex>)
    requires IsIntCodec(c)
    requires AllKeysNonZero(s)
    ensures SortImage(c, Zeros(256), DenseFile(c, s)) == DenseFile(c, SortByKey(s))
    ensures |DenseFile(c, SortByKey(s))| == |DenseFile(c, s)|
  {
    var file := DenseFile(c, s);
    var t := SortByKey(s);
    UnpackDenseIndex(c, s);
    assert SortImage(c, Zeros(256), file) == WriteAt(file, 0, DenseFile(c, t));
    PutIntsImageShape(c, Zeros(256), t);
    assert |t| == |multiset(t)| == |multiset(s)| == |s|;
    WriteAtCover(file, DenseFile(c, t));
  }

  /**
   * Sorting a sorted index file changes nothing, as long as the first sort
   * rewrote the whole file (the file held no more pages than its entries
   * need, as every index file written by putInts from a zeroed buffer).
   */
  lemma SortTwiceIsSortOnce(c: Codec, file: seq<byte>)
    requires IsIntCodec(c)
    requires |file| <= 256 * (|IndexEntries(c, file, NumPages(|file|))| / 32 + 1)
    ensures SortImage(c, Zeros(256), SortImage(c, Zeros(256), file)) == SortImage(c, Zeros(256), file)
  {
    var entries := IndexEntries(c, file, NumPages(|file|));
    var s := SortByKey(entries);
    var p := DenseFile(c, s);
    PutIntsImageShape(c, Zeros(256), s);
    assert |s| == |multiset(s)| == |multiset(entries)| == |entries|;
    WriteAtCover(file, p);
    assert SortImage(c, Zeros(256), file) == p;
    IndexEntriesNonZero(c, file, NumPages(|file|));
    AllKeysNonZeroOfPermutation(entries, s);
    SortImageOfDense(c, s);
    SortByKeyAscending(entries);
    SortByKeyOfAscending(s);
  }

  /**
   * Sorting a dense index file keeps its size and its entries (as a
   * multiset), and reading it back gives them ascending by key.
   */
  lemma SortDenseIndex(c: Codec, s: seq<FIndex>)
    requires IsIntCodec(c)
    requires AllKeysNonZero(s)
    ensures var sorted := SortImage(c, Zeros(256), DenseFile(c, s));
      var back := IndexEntries(c, sorted, NumPages(|sorted|));
      |sorted| == |DenseFile(c, s)| &&
      back == SortByKey(s) && multiset(back) == multiset(s) && AscendingByKey(back)
  {
    var t := SortByKey(s);
    SortImageOfDense(c, s);
    AllKeysNonZeroOfPermutation(s, t);
    UnpackDenseIndex(c, t);
    SortByKeyAscending(s);
  }
}
