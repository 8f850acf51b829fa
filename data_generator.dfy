/**
 * modelTesting.DataGenerator: the test-data generator that keeps a list of
 * records and packs them into the pages of a primary file. The constructor
 * checks its arguments and derives RECORDS_IN_PAGE; fillFile copies each
 * record into its slot of a 256-byte buffer and writes the buffer out page
 * by page; getRecord, setRecord and removeRecord are bounds-checked list
 * accessors.
 *
 * fillFile writes a full page right after copying record i into slot
 * i % RECORDS_IN_PAGE when that slot is 0, so the record that opens a page
 * lands in slot 0 of the page before, over record 0 on the first page. The
 * functions below state fillFile as written (Fill with flushFirst false) and
 * as evidently intended, with the page written before the copy (flushFirst
 * true); the lemmas prove where records land in each.
 */
module DataGeneratorModel {
  import opened JavaRuntime
  import opened Utils
  import opened Configuration
  import PageScan
  import RFileModel

  /** model.Record: an int key and a data string. */
  datatype Record = Record(key: int32, data: string)

  // ---------------------------------------------------------------------------
  // RECORDS_IN_PAGE and the slot arithmetic.

  /** PAGE_SIZE / (dataBytes + Integer.BYTES) in Java ints: the wrap-around of the sum never changes the quotient. */
  function RecordsInPage(dataBytes: int32): (r: int)
    requires dataBytes >= 0
    ensures r == PAGE_SIZE / (dataBytes + KEY_SIZE)
  {
    var x := dataBytes + KEY_SIZE;
    assert x % 0x1_0000_0000 == x;
    assert x > PAGE_SIZE ==> PAGE_SIZE / x == 0;
    JavaDiv(PAGE_SIZE, Wrap32(x))
  }

  lemma SlotsApart(a: nat, b: nat, w: nat)
    requires a < b
    ensures a * w + w <= b * w
  {
    PageScan.MulNonNegative(b - a - 1, w);
    assert (b - a - 1) * w == b * w - a * w - w;
  }

  /** The byte offset of record i's slot, (i % r) * (dataBytes + 4), and that the slot lies inside the page. */
  function SlotOffset(i: nat, r: nat, d: nat): (off: nat)
    requires 1 <= r && r * (d + KEY_SIZE) <= PAGE_SIZE
    ensures off + d + KEY_SIZE <= PAGE_SIZE
  {
    SlotsApart(i % r, r, d + KEY_SIZE);
    (i % r) * (d + KEY_SIZE)
  }

  lemma DivModUnique(a: nat, r: nat, q: nat, s: nat)
    requires r >= 1 && a == q * r + s && s < r
    ensures a / r == q && a % r == s
  {
    PageScan.DivUnique(a, r, q, s);
  }

  /** How i / r and i % r move when i steps by one. */
  lemma DivModNext(i: nat, r: nat)
    requires r >= 1
    ensures i % r + 1 < r ==> (i + 1) / r == i / r && (i + 1) % r == i % r + 1
    ensures i % r + 1 == r ==> (i + 1) / r == i / r + 1 && (i + 1) % r == 0
  {
    var q, s := i / r, i % r;
    assert i == q * r + s;
    if s + 1 < r {
      DivModUnique(i + 1, r, q, s + 1);
    } else {
      assert i + 1 == (q + 1) * r;
      DivModUnique(i + 1, r, q + 1, 0);
    }
  }

  lemma DivMonotone(j: nat, i: nat, r: nat)
    requires r >= 1 && j <= i
    ensures j / r <= i / r
  {
    var qj, qi := j / r, i / r;
    assert j == qj * r + j % r && i == qi * r + i % r;
    if qj > qi {
      SlotsApart(qi, qj, r);
    }
  }

  lemma SameQuotientSlots(j: nat, i: nat, r: nat)
    requires r >= 1 && j < i && j / r == i / r
    ensures j % r < i % r
  {
    assert j == (j / r) * r + j % r && i == (i / r) * r + i % r;
  }

  // ---------------------------------------------------------------------------
  // fillFile as a function of the records.

  /**
   * fillFile's state between records: the pages written so far, the page
   * buffer, and the backing array of the ByteBuffer, which clear() rewinds
   * but does not zero.
   */
  datatype Packing = Packing(pages: seq<seq<byte>>, buf: seq<byte>, bb: seq<byte>)

  /** How fillFile's loop ends: after the last record, or with an exception at the state it was raised in. */
  datatype FillRun = Completed(st: Packing) | Failed(error: Exception, st: Packing)

  /** ByteBuffer.put(src) after clear(): src over the front of the backing array, the rest as it was. */
  function Put(bb: seq<byte>, src: seq<byte>): (r: seq<byte>)
    requires |src| <= |bb|
    ensures |r| == |bb|
  {
    seq(|bb|, k requires 0 <= k < |bb| => if k < |src| then src[k] else bb[k])
  }

  /** bb.put is the copy of the data to the front of the array, and the data reads back from there. */
  lemma PutContents(bb: seq<byte>, src: seq<byte>)
    requires |src| <= |bb|
    ensures Put(bb, src) == ArrayCopy(bb, 0, src)
    ensures Put(bb, src)[..|src|] == src
  {
  }

  /** The buffer after the two System.arraycopy calls: the key's 4 bytes at off and the ByteBuffer's bytes after them. */
  function Slot(c: Codec, buf: seq<byte>, off: nat, key: int32, data: seq<byte>): (r: seq<byte>)
    requires off + KEY_SIZE + |data| <= |buf|
    ensures |r| == |buf|
  {
    var kb := c.toBytes(key);
    seq(|buf|, k requires 0 <= k < |buf| =>
      if off <= k < off + KEY_SIZE then kb[k - off]
      else if off + KEY_SIZE <= k < off + KEY_SIZE + |data| then data[k - off - KEY_SIZE]
      else buf[k])
  }

  /** The two copies, and what they leave where. */
  lemma SlotContents(c: Codec, buf: seq<byte>, off: nat, key: int32, data: seq<byte>)
    requires off + KEY_SIZE + |data| <= |buf|
    ensures var r := Slot(c, buf, off, key, data);
      && r == ArrayCopy(ArrayCopy(buf, off, c.toBytes(key)), off + KEY_SIZE, data)
      && r[off..off + KEY_SIZE] == c.toBytes(key) && r[off + KEY_SIZE..off + KEY_SIZE + |data|] == data
      && r[..off] == buf[..off] && r[off + KEY_SIZE + |data|..] == buf[off + KEY_SIZE + |data|..]
  {
  }

  /**
   * One record i of fillFile: bb.put stores the data's bytes at the front of
   * the ByteBuffer, the key and the whole ByteBuffer array are copied into
   * slot i % r, and when that slot is 0 and i is not 0 the buffer is written
   * as a page and zeroed. With flushFirst the page is written before the
   * copy instead.
   */
  function Pack(c: Codec, d: nat, r: nat, flushFirst: bool, rec: Record, i: nat, st: Packing): (st': Packing)
    requires r >= 1 && r * (d + KEY_SIZE) <= PAGE_SIZE
    requires |st.buf| == PAGE_SIZE && |st.bb| == d && |Ascii(rec.data)| <= d
    ensures |st'.buf| == PAGE_SIZE && |st'.bb| == d
  {
    var bb := Put(st.bb, Ascii(rec.data));
    var off := SlotOffset(i, r, d);
    var flush := i % r == 0 && i != 0;
    if flushFirst then
      var before := if flush then Packing(st.pages + [st.buf], Zeros(PAGE_SIZE), st.bb) else st;
      Packing(before.pages, Slot(c, before.buf, off, rec.key, bb), bb)
    else
      var buf := Slot(c, st.buf, off, rec.key, bb);
      if flush then Packing(st.pages + [buf], Zeros(PAGE_SIZE), bb) else Packing(st.pages, buf, bb)
  }

  /**
   * One turn of fillFile's loop, on record i: getRecord(i) throws past
   * `bound` (numOfRecords), bb.put throws when the data is longer than the
   * ByteBuffer, and i % r throws, after the put, when no record fits in a
   * page; otherwise the record is packed.
   */
  function Step(c: Codec, d: nat, r: nat, bound: int, flushFirst: bool, recs: seq<Record>, i: nat, st: Packing): (run: FillRun)
    requires r * (d + KEY_SIZE) <= PAGE_SIZE && |st.buf| == PAGE_SIZE && |st.bb| == d && i < |recs|
    ensures |run.st.buf| == PAGE_SIZE && |run.st.bb| == d
  {
    if i >= bound then Failed(IndexOutOfBounds, st)
    else if |Ascii(recs[i].data)| > d then Failed(BufferOverflow, st)
    else if r == 0 then Failed(Arithmetic, Packing(st.pages, st.buf, Put(st.bb, Ascii(recs[i].data))))
    else Completed(Pack(c, d, r, flushFirst, recs[i], i, st))
  }

  /** fillFile's loop from record i on: the turns up to the first exception or the end of the list. */
  function Fill(c: Codec, d: nat, r: nat, bound: int, flushFirst: bool, recs: seq<Record>, i: nat, st: Packing): (run: FillRun)
    requires r * (d + KEY_SIZE) <= PAGE_SIZE && |st.buf| == PAGE_SIZE && |st.bb| == d
    decreases |recs| - i
  {
    if i >= |recs| then Completed(st)
    else
      var step := Step(c, d, r, bound, flushFirst, recs, i, st);
      if step.Failed? then step else Fill(c, d, r, bound, flushFirst, recs, i + 1, step.st)
  }

  /** fillFile's loop step, stated on the state before and after record i. */
  lemma FillNext(c: Codec, d: nat, r: nat, bound: int, flushFirst: bool, recs: seq<Record>, i: nat, st: Packing,
                 i': nat, st': Packing)
    requires r * (d + KEY_SIZE) <= PAGE_SIZE && |st.buf| == PAGE_SIZE && |st.bb| == d
    requires i < |recs| && i < bound && |Ascii(recs[i].data)| <= d && r >= 1
    requires i' == i + 1 && st' == Pack(c, d, r, flushFirst, recs[i], i, st)
    ensures Fill(c, d, r, bound, flushFirst, recs, i, st) == Fill(c, d, r, bound, flushFirst, recs, i', st')
  {
  }

  /**
   * fillFile's loop step as its statements perform it: record i copied into
   * the buffer (buf1), and the page write when slot 0 is reached after
   * record 0, lead to the state Pack describes.
   */
  lemma StepAsWritten(c: Codec, d: nat, r: nat, bound: int, recs: seq<Record>, i: nat, st: Packing,
                      bb: seq<byte>, buf1: seq<byte>, pages: seq<seq<byte>>, buf: seq<byte>)
    requires r >= 1 && r * (d + KEY_SIZE) <= PAGE_SIZE && |st.buf| == PAGE_SIZE && |st.bb| == d
    requires i < |recs| && i < bound && |Ascii(recs[i].data)| <= d
    requires bb == Put(st.bb, Ascii(recs[i].data))
    requires buf1 == Slot(c, st.buf, SlotOffset(i, r, d), recs[i].key, bb)
    requires i % r == 0 && i != 0 ==> pages == st.pages + [buf1] && buf == Zeros(PAGE_SIZE)
    requires !(i % r == 0 && i != 0) ==> pages == st.pages && buf == buf1
    ensures Step(c, d, r, bound, false, recs, i, st) == Completed(Packing(pages, buf, bb))
  {
  }

  /** The pages written one after the other from offset 0. */
  function Concat(pages: seq<seq<byte>>): (b: seq<byte>)
  {
    if pages == [] then [] else Concat(pages[..|pages| - 1]) + pages[|pages| - 1]
  }

  lemma ConcatSnoc(pages: seq<seq<byte>>, p: seq<byte>)
    ensures Concat(pages + [p]) == Concat(pages) + p
  {
    assert (pages + [p])[..|pages|] == pages;
  }

  // ---------------------------------------------------------------------------
  // What fillFile writes.

  /** A run grows the pages it starts with and never rewrites them. */
  lemma {:induction false} FillKeepsPages(c: Codec, d: nat, r: nat, bound: int, flushFirst: bool, recs: seq<Record>,
                                          i: nat, st: Packing)
    requires r * (d + KEY_SIZE) <= PAGE_SIZE && |st.buf| == PAGE_SIZE && |st.bb| == d
    ensures var run := Fill(c, d, r, bound, flushFirst, recs, i, st);
      |st.pages| <= |run.st.pages| && run.st.pages[..|st.pages|] == st.pages
    decreases |recs| - i
  {
    if i < |recs| && i < bound && |Ascii(recs[i].data)| <= d && r != 0 {
      var st' := Pack(c, d, r, flushFirst, recs[i], i, st);
      FillKeepsPages(c, d, r, bound, flushFirst, recs, i + 1, st');
      assert st'.pages[..|st.pages|] == st.pages;
    }
  }

  /** The number of pages written inside fillFile's loop after i records: one per i' in 1..i-1 with i' % r == 0. */
  function PagesBefore(i: nat, r: nat): nat
    requires r >= 1
  {
    if i == 0 then 0 else (i - 1) / r
  }

  lemma PagesStep(i: nat, r: nat)
    requires r >= 1
    ensures (i % r == 0 && i != 0) ==> PagesBefore(i + 1, r) == PagesBefore(i, r) + 1 && i / r == PagesBefore(i, r) + 1
    ensures !(i % r == 0 && i != 0) ==> PagesBefore(i + 1, r) == PagesBefore(i, r) && i / r == PagesBefore(i, r)
  {
    if i != 0 {
      DivModNext(i - 1, r);
    }
  }

  /**
   * A run that completes writes floor((n - 1) / r) pages inside the loop
   * for n records (none for no record); fillFile then writes one more.
   */
  lemma {:induction false} FillPageCount(c: Codec, d: nat, r: nat, bound: int, flushFirst: bool, recs: seq<Record>,
                                         i: nat, st: Packing)
    requires r * (d + KEY_SIZE) <= PAGE_SIZE && |st.buf| == PAGE_SIZE && |st.bb| == d && r >= 1
    requires i <= |recs| && |st.pages| == PagesBefore(i, r)
    ensures var run := Fill(c, d, r, bound, flushFirst, recs, i, st);
      run.Completed? ==> |run.st.pages| == PagesBefore(|recs|, r)
    decreases |recs| - i
  {
    if i < |recs| && i < bound && |Ascii(recs[i].data)| <= d {
      PagesStep(i, r);
      FillPageCount(c, d, r, bound, flushFirst, recs, i + 1, Pack(c, d, r, flushFirst, recs[i], i, st));
    }
  }

  /** A page holds a record at byte off: its key's 4 bytes, then its data's bytes, inside one slot. */
  ghost predicate HoldsRecord(c: Codec, d: nat, page: seq<byte>, off: nat, rec: Record)
  {
    && |Ascii(rec.data)| <= d && off + KEY_SIZE + d <= |page|
    && page[off..off + KEY_SIZE] == c.toBytes(rec.key)
    && page[off + KEY_SIZE..off + KEY_SIZE + |Ascii(rec.data)|] == Ascii(rec.data)
  }

  /** Page k of a state: a page already written, or the buffer for the page being filled. */
  function PageOf(st: Packing, k: nat): seq<byte>
  {
    if k < |st.pages| then st.pages[k] else st.buf
  }

  /** With the page written before the copy, every record so far sits in slot i % r of page i / r. */
  ghost predicate PlacedInOrder(c: Codec, d: nat, r: nat, recs: seq<Record>, i: nat, st: Packing)
    requires r >= 1 && r * (d + KEY_SIZE) <= PAGE_SIZE && i <= |recs|
  {
    && |st.pages| == PagesBefore(i, r)
    && forall j :: 0 <= j < i ==> HoldsRecord(c, d, PageOf(st, j / r), SlotOffset(j, r, d), recs[j])
  }

  /** Copying a record into a later slot keeps a record in an earlier one. */
  lemma SlotKeepsEarlier(c: Codec, d: nat, buf: seq<byte>, off: nat, rec: Record, off': nat, key: int32, data: seq<byte>)
    requires HoldsRecord(c, d, buf, off, rec) && off + KEY_SIZE + d <= off' && off' + KEY_SIZE + |data| <= |buf|
    ensures HoldsRecord(c, d, Slot(c, buf, off', key, data), off, rec)
  {
    var b := Slot(c, buf, off', key, data);
    var n := |Ascii(rec.data)|;
    SlotContents(c, buf, off', key, data);
    assert b[..off'] == buf[..off'];
    assert b[off..off + KEY_SIZE] == b[..off'][off..off + KEY_SIZE] == buf[..off'][off..off + KEY_SIZE];
    assert b[off + KEY_SIZE..off + KEY_SIZE + n] == b[..off'][off + KEY_SIZE..off + KEY_SIZE + n]
        == buf[..off'][off + KEY_SIZE..off + KEY_SIZE + n];
    assert b[off..off + KEY_SIZE] == c.toBytes(rec.key);
    assert off + KEY_SIZE + d <= |b|;
  }

  /** The two copies leave the record in the slot they write. */
  lemma SlotHoldsRecord(c: Codec, d: nat, buf: seq<byte>, off: nat, rec: Record, bb0: seq<byte>)
    requires |bb0| == d && |Ascii(rec.data)| <= d && off + KEY_SIZE + d <= |buf|
    ensures HoldsRecord(c, d, Slot(c, buf, off, rec.key, Put(bb0, Ascii(rec.data))), off, rec)
  {
    var n, bb := |Ascii(rec.data)|, Put(bb0, Ascii(rec.data));
    var b := Slot(c, buf, off, rec.key, bb);
    PutContents(bb0, Ascii(rec.data));
    SlotContents(c, buf, off, rec.key, bb);
    assert b[off + KEY_SIZE..off + KEY_SIZE + n] == b[off + KEY_SIZE..off + KEY_SIZE + d][..n];
  }

  /** The flush-first packing of record i: the page written first when slot 0 is reached after record 0, then the record in its slot. */
  lemma PackFirstFacts(c: Codec, d: nat, r: nat, rec: Record, i: nat, st: Packing)
    requires r >= 1 && r * (d + KEY_SIZE) <= PAGE_SIZE && |st.buf| == PAGE_SIZE && |st.bb| == d && |Ascii(rec.data)| <= d
    ensures var st', flush := Pack(c, d, r, true, rec, i, st), i % r == 0 && i != 0;
      && (flush ==> st'.pages == st.pages + [st.buf])
      && (!flush ==> st'.pages == st.pages && st'.buf == Slot(c, st.buf, SlotOffset(i, r, d), rec.key, Put(st.bb, Ascii(rec.data))))
      && HoldsRecord(c, d, st'.buf, SlotOffset(i, r, d), rec)
  {
    var flush := i % r == 0 && i != 0;
    SlotHoldsRecord(c, d, if flush then Zeros(PAGE_SIZE) else st.buf, SlotOffset(i, r, d), rec, st.bb);
  }

  /** Record i of the flush-first packing lands in slot i % r of page i / r and the records before it stay. */
  lemma PackInOrder(c: Codec, d: nat, r: nat, recs: seq<Record>, i: nat, st: Packing)
    requires r >= 1 && r * (d + KEY_SIZE) <= PAGE_SIZE && |st.buf| == PAGE_SIZE && |st.bb| == d
    requires i < |recs| && |Ascii(recs[i].data)| <= d
    requires PlacedInOrder(c, d, r, recs, i, st)
    ensures PlacedInOrder(c, d, r, recs, i + 1, Pack(c, d, r, true, recs[i], i, st))
  {
    var st' := Pack(c, d, r, true, recs[i], i, st);
    PackFirstFacts(c, d, r, recs[i], i, st);
    PagesStep(i, r);
    forall j | 0 <= j < i
      ensures HoldsRecord(c, d, PageOf(st', j / r), SlotOffset(j, r, d), recs[j])
    {
      DivMonotone(j, i - 1, r);
      if i % r == 0 || j / r < |st.pages| {
        assert PageOf(st', j / r) == PageOf(st, j / r);
      } else {
        DivMonotone(j, i, r);
        SameQuotientSlots(j, i, r);
        SlotsApart(j % r, i % r, d + KEY_SIZE);
        SlotKeepsEarlier(c, d, st.buf, SlotOffset(j, r, d), recs[j], SlotOffset(i, r, d), recs[i].key, Put(st.bb, Ascii(recs[i].data)));
      }
    }
  }

  /**
   * The evidently intended fillFile: when every record is written, record i
   * sits in slot i % r (at byte (i % r) * (dataBytes + 4)) of page i / r of
   * what it writes, the pages of the loop followed by the final buffer.
   */
  lemma {:induction false} FlushFirstPlacement(c: Codec, d: nat, r: nat, bound: int, recs: seq<Record>, i: nat, st: Packing)
    requires r >= 1 && r * (d + KEY_SIZE) <= PAGE_SIZE && |st.buf| == PAGE_SIZE && |st.bb| == d
    requires i <= |recs| && PlacedInOrder(c, d, r, recs, i, st)
    ensures var run := Fill(c, d, r, bound, true, recs, i, st);
      run.Completed? ==> PlacedInOrder(c, d, r, recs, |recs|, run.st)
    decreases |recs| - i
  {
    if i < |recs| && i < bound && |Ascii(recs[i].data)| <= d {
      PackInOrder(c, d, r, recs, i, st);
      FlushFirstPlacement(c, d, r, bound, recs, i + 1, Pack(c, d, r, true, recs[i], i, st));
    }
  }

  /** From the start: every record of a completed flush-first run is in slot i % r of page i / r. */
  lemma FlushFirstPlacesAll(c: Codec, d: nat, r: nat, bound: int, recs: seq<Record>, buf0: seq<byte>)
    requires r >= 1 && r * (d + KEY_SIZE) <= PAGE_SIZE && |buf0| == PAGE_SIZE
    ensures var run := Fill(c, d, r, bound, true, recs, 0, Packing([], buf0, Zeros(d)));
      run.Completed? ==>
        && |run.st.pages| == PagesBefore(|recs|, r)
        && forall j :: 0 <= j < |recs| ==> HoldsRecord(c, d, PageOf(run.st, j / r), SlotOffset(j, r, d), recs[j])
  {
    FlushFirstPlacement(c, d, r, bound, recs, 0, Packing([], buf0, Zeros(d)));
  }

  /** As written, records 1..r-1 go to slots 1..r-1 and write no page. */
  lemma NoPageBeforeR(c: Codec, d: nat, r: nat, rec: Record, i: nat, st: Packing)
    requires r >= 1 && r * (d + KEY_SIZE) <= PAGE_SIZE && |st.buf| == PAGE_SIZE && |st.bb| == d
    requires 1 <= i < r && |Ascii(rec.data)| <= d
    ensures Pack(c, d, r, false, rec, i, st).pages == st.pages
  {
    DivModUnique(i, r, 0, i);
  }

  /** As written, record r goes to slot 0 and the page is written right after, so the page starts with record r's key. */
  lemma PageAtR(c: Codec, d: nat, r: nat, rec: Record, st: Packing)
    requires r >= 1 && r * (d + KEY_SIZE) <= PAGE_SIZE && |st.buf| == PAGE_SIZE && |st.bb| == d
    requires |Ascii(rec.data)| <= d
    ensures var st' := Pack(c, d, r, false, rec, r, st);
      && |st'.pages| == |st.pages| + 1 && st'.pages[..|st.pages|] == st.pages
      && |st'.pages[|st.pages|]| == PAGE_SIZE && st'.pages[|st.pages|][..KEY_SIZE] == c.toBytes(rec.key)
  {
    DivModUnique(r, r, 1, 0);
    SlotContents(c, st.buf, 0, rec.key, Put(st.bb, Ascii(rec.data)));
  }

  /** As written, from record i in 1..r on an empty page list, the first page written starts with record r's key. */
  lemma {:induction false} SlotZeroUntilR(c: Codec, d: nat, r: nat, bound: int, recs: seq<Record>, i: nat, st: Packing)
    requires r >= 1 && r * (d + KEY_SIZE) <= PAGE_SIZE && |st.buf| == PAGE_SIZE && |st.bb| == d
    requires 1 <= i <= r < |recs| && st.pages == []
    ensures var run := Fill(c, d, r, bound, false, recs, i, st);
      run.Completed? ==> |run.st.pages| >= 1 && |run.st.pages[0]| == PAGE_SIZE && run.st.pages[0][..KEY_SIZE] == c.toBytes(recs[r].key)
    decreases r - i
  {
    if i < bound && |Ascii(recs[i].data)| <= d {
      var st' := Pack(c, d, r, false, recs[i], i, st);
      FillNext(c, d, r, bound, false, recs, i, st, i + 1, st');
      if i == r {
        PageAtR(c, d, r, recs[i], st);
        FillKeepsPages(c, d, r, bound, false, recs, i + 1, st');
      } else {
        NoPageBeforeR(c, d, r, recs[i], i, st);
        SlotZeroUntilR(c, d, r, bound, recs, i + 1, st');
      }
    }
  }

  /**
   * fillFile as written, when there are more records than fit in a page:
   * slot 0 of the first page it writes holds record r (RECORDS_IN_PAGE), not
   * record 0, so record 0's key is not where the first page keeps its first
   * record.
   */
  lemma FirstSlotOverwritten(c: Codec, d: nat, r: nat, bound: int, recs: seq<Record>, buf0: seq<byte>)
    requires r >= 1 && r * (d + KEY_SIZE) <= PAGE_SIZE && |buf0| == PAGE_SIZE && |recs| > r
    ensures var run := Fill(c, d, r, bound, false, recs, 0, Packing([], buf0, Zeros(d)));
      run.Completed? ==>
        && |run.st.pages| >= 1 && |run.st.pages[0]| == PAGE_SIZE
        && run.st.pages[0][..KEY_SIZE] == c.toBytes(recs[r].key)
        && (c.toBytes(recs[0].key) != c.toBytes(recs[r].key) ==> run.st.pages[0][..KEY_SIZE] != c.toBytes(recs[0].key))
  {
    var st := Packing([], buf0, Zeros(d));
    if 0 < bound && |Ascii(recs[0].data)| <= d {
      SlotZeroUntilR(c, d, r, bound, recs, 1, Pack(c, d, r, false, recs[0], 0, st));
    }
  }

  /** A concrete case: 60 data bytes give 4 records a page, and the fifth record takes the first one's slot. */
  lemma FifthRecordTakesFirstSlot(c: Codec, recs: seq<Record>, buf0: seq<byte>)
    requires |recs| == 5 && |buf0| == PAGE_SIZE
    requires forall j :: 0 <= j < 5 ==> |recs[j].data| == 60
    requires c.toBytes(recs[0].key) != c.toBytes(recs[4].key)
    ensures RecordsInPage(60) == 4
    ensures var run := Fill(c, 60, 4, 5, false, recs, 0, Packing([], buf0, Zeros(60)));
      run.Completed? && |run.st.pages| >= 1 && |run.st.pages[0]| == PAGE_SIZE
      && run.st.pages[0][..KEY_SIZE] == c.toBytes(recs[4].key) != c.toBytes(recs[0].key)
  {
    var st := Packing([], buf0, Zeros(60));
    var i := 0;
    var s := st;
    while i < 5
      invariant 0 <= i <= 5 && |s.buf| == PAGE_SIZE && |s.bb| == 60
      invariant Fill(c, 60, 4, 5, false, recs, 0, st) == Fill(c, 60, 4, 5, false, recs, i, s)
      decreases 5 - i
    {
      s := Pack(c, 60, 4, false, recs[i], i, s);
      i := i + 1;
    }
    FirstSlotOverwritten(c, 60, 4, 5, recs, buf0);
  }

  // ---------------------------------------------------------------------------
  // The record list.

  /** List.add(index, x): x at index, the elements from index on shifted one up. */
  function InsertAt(s: seq<Record>, index: nat, x: Record): (r: seq<Record>)
    requires index <= |s|
    ensures |r| == |s| + 1 && r[index] == x
    ensures forall j :: 0 <= j < index ==> r[j] == s[j]
    ensures forall j :: index < j < |r| ==> r[j] == s[j - 1]
  {
    s[..index] + [x] + s[index..]
  }

  /** List.remove(index): the element at index gone, the ones after it shifted one down. */
  function RemoveAt(s: seq<Record>, index: nat): (r: seq<Record>)
    requires index < |s|
    ensures |r| == |s| - 1
    ensures forall j :: 0 <= j < index ==> r[j] == s[j]
    ensures forall j :: index <= j < |r| ==> r[j] == s[j + 1]
  {
    s[..index] + s[index + 1..]
  }

  /** Removing what was just inserted at the same index gives the list back. */
  lemma RemoveInsert(s: seq<Record>, index: nat, x: Record)
    requires index <= |s|
    ensures RemoveAt(InsertAt(s, index, x), index) == s
  {
    var t := InsertAt(s, index, x);
    assert RemoveAt(t, index) == t[..index] + t[index + 1..];
    assert t[..index] == s[..index] && t[index + 1..] == s[index..];
  }

  /** Re-inserting a removed element at its index gives the list back. */
  lemma InsertRemove(s: seq<Record>, index: nat)
    requires index < |s|
    ensures InsertAt(RemoveAt(s, index), index, s[index]) == s
  {
    var t := RemoveAt(s, index);
    assert t[..index] == s[..index] && t[index..] == s[index + 1..];
    assert s == s[..index] + [s[index]] + s[index + 1..];
  }

  // ---------------------------------------------------------------------------
  // The class.

  class DataGenerator {
    /** utils.Utils.intToBytes, the key encoding the generated file uses. */
    const codec: Codec
    const dataBytes: int32
    const numOfRecords: int32
    const dcc: DataClassConfiguration
    const rf: RFileModel.RFile
    /** The page buffer fillFile packs records into. */
    const buffer: array<byte>
    const recordsInPage: int
    var recordList: seq<Record>

    ghost predicate Valid()
      reads this
    {
      && buffer.Length == PAGE_SIZE
      && 0 <= dataBytes <= 0x7FFF_FFFF - KEY_SIZE && 0 <= numOfRecords
      && recordsInPage == RecordsInPage(dataBytes) && recordsInPage * (dataBytes + KEY_SIZE) <= PAGE_SIZE
      && dcc == NewConfiguration(dataBytes)
      && rf.codec == codec && rf.recordSize == dcc.RECORD_SIZE
    }

    /** DataGenerator(dataBytes, numOfRecords) once its arguments are checked, over a primary file holding `existing`. */
    constructor (codec: Codec, dataBytes: int32, numOfRecords: int32, existing: seq<byte>)
      requires 0 <= dataBytes <= 0x7FFF_FFFF - KEY_SIZE && 0 <= numOfRecords
      ensures Valid() && fresh(buffer) && fresh(rf)
      ensures this.codec == codec && this.dataBytes == dataBytes && this.numOfRecords == numOfRecords
      ensures recordList == [] && buffer[..] == Zeros(PAGE_SIZE) && rf.bytes == existing
    {
      this.codec := codec;
      this.dataBytes := dataBytes;
      recordsInPage := RecordsInPage(dataBytes);
      RecordsPerPageFit(dataBytes as nat, RecordsInPage(dataBytes));
      this.numOfRecords := numOfRecords;
      var conf := NewConfiguration(dataBytes);
      dcc := conf;
      rf := new RFileModel.RFile(codec, conf.RECORD_SIZE, existing);
      recordList := [];
      buffer := new byte[PAGE_SIZE](_ => 0);
    }

    /** The constructor's checks: IllegalArgumentException for a negative data length or record count. */
    static method Create(codec: Codec, dataBytes: int32, numOfRecords: int32, existing: seq<byte>)
      returns (r: Result<DataGenerator>)
      requires dataBytes <= 0x7FFF_FFFF - KEY_SIZE
      ensures r.Err? <==> dataBytes < 0 || numOfRecords < 0
      ensures r.Err? ==> r.error == IllegalArgument
      ensures r.Ok? ==> fresh(r.value) && r.value.Valid() && r.value.recordList == []
      ensures r.Ok? ==> r.value.dataBytes == dataBytes && r.value.numOfRecords == numOfRecords && r.value.rf.bytes == existing
    {
      if dataBytes < 0 {
        return Err(IllegalArgument);
      }
      if numOfRecords < 0 {
        return Err(IllegalArgument);
      }
      var g := new DataGenerator(codec, dataBytes, numOfRecords, existing);
      return Ok(g);
    }

    /** getRecord: the bound is numOfRecords, and the list itself throws past its size. */
    method GetRecord(index: int) returns (r: Result<Record>)
      ensures r.Ok? <==> 0 <= index < numOfRecords && index < |recordList|
      ensures r.Ok? ==> r.value == recordList[index]
      ensures r.Err? ==> r.error == IndexOutOfBounds
    {
      if index < 0 || index >= numOfRecords {
        return Err(IndexOutOfBounds);
      }
      if index >= |recordList| {
        return Err(IndexOutOfBounds);
      }
      return Ok(recordList[index]);
    }

    /** setRecord: rejects a negative index, and the list's add rejects one past its size. */
    method SetRecord(rec: Record, index: int) returns (r: Result<()>)
      modifies this`recordList
      ensures r.Ok? <==> 0 <= index <= |old(recordList)|
      ensures r.Err? ==> r.error == IndexOutOfBounds && recordList == old(recordList)
      ensures r.Ok? ==> recordList == InsertAt(old(recordList), index, rec)
    {
      if index < 0 {
        return Err(IndexOutOfBounds);
      }
      if index > |recordList| {
        return Err(IndexOutOfBounds);
      }
      recordList := InsertAt(recordList, index, rec);
      return Ok(());
    }

    /** removeRecord: the index must name an element of the list. */
    method RemoveRecord(index: int) returns (r: Result<()>)
      modifies this`recordList
      ensures r.Ok? <==> 0 <= index < |old(recordList)|
      ensures r.Err? ==> r.error == IndexOutOfBounds && recordList == old(recordList)
      ensures r.Ok? ==> recordList == RemoveAt(old(recordList), index)
    {
      if index < 0 || index >= |recordList| {
        return Err(IndexOutOfBounds);
      }
      recordList := RemoveAt(recordList, index);
      return Ok(());
    }

    /**
     * The body of fillFile's loop up to the page write: bb.put of the data,
     * then the key and the ByteBuffer array copied into slot `off`.
     */
    method PutRecord(bb: array<byte>, rec: Record, off: nat)
      requires bb != buffer && bb.Length == dataBytes >= 0 && buffer.Length == PAGE_SIZE
      requires |Ascii(rec.data)| <= bb.Length && off + KEY_SIZE + dataBytes <= PAGE_SIZE
      modifies bb, buffer
      ensures bb[..] == Put(old(bb[..]), Ascii(rec.data))
      ensures buffer[..] == Slot(codec, old(buffer[..]), off, rec.key, bb[..])
    {
      var data := Ascii(rec.data);
      PutContents(bb[..], data);
      CopyInto(bb, 0, data);
      ghost var b0 := buffer[..];
      CopyInto(buffer, off, codec.toBytes(rec.key));
      CopyInto(buffer, off + KEY_SIZE, bb[..]);
      SlotContents(codec, b0, off, rec.key, bb[..]);
    }

    /**
     * One turn of fillFile's loop, on record i: getRecord(i), bb.put, the
     * two copies into slot i % RECORDS_IN_PAGE, and the page write at offset
     * `at` when that slot is 0 and i is not 0.
     */
    method FillStep(bb: array<byte>, i: nat, at: nat, ghost f0: seq<byte>, ghost pages: seq<seq<byte>>)
      returns (res: Result<()>, at': nat, ghost pages': seq<seq<byte>>)
      requires Valid() && bb != buffer && bb.Length == dataBytes && i < |recordList|
      requires rf.bytes == WriteAt(f0, 0, Concat(pages)) && at == |Concat(pages)|
      modifies bb, buffer, rf`bytes
      ensures rf.bytes == WriteAt(f0, 0, Concat(pages')) && at' == |Concat(pages')|
      ensures var step := Step(codec, dataBytes, recordsInPage, numOfRecords, false, recordList, i,
                               Packing(pages, old(buffer[..]), old(bb[..])));
        step == (if res.Ok? then Completed(Packing(pages', buffer[..], bb[..])) else Failed(res.error, Packing(pages', buffer[..], bb[..])))
    {
      at', pages' := at, pages;
      var g := GetRecord(i);
      if g.Err? {
        return Err(g.error), at', pages';
      }
      var rec := g.value;
      if |Ascii(rec.data)| > bb.Length {
        return Err(BufferOverflow), at', pages';
      }
      if recordsInPage == 0 {
        PutContents(bb[..], Ascii(rec.data));
        CopyInto(bb, 0, Ascii(rec.data));
        return Err(Arithmetic), at', pages';
      }
      ghost var st := Packing(pages, buffer[..], bb[..]);
      PutRecord(bb, rec, SlotOffset(i, recordsInPage, dataBytes));
      ghost var buf1 := buffer[..];
      if i % recordsInPage == 0 && i != 0 {
        rf.bytes := WriteAt(rf.bytes, at, buffer[..]);
        WriteAtTwice(f0, Concat(pages), buffer[..]);
        ConcatSnoc(pages, buffer[..]);
        pages' := pages + [buffer[..]];
        at' := at + buffer.Length;
        Clear(buffer);
      }
      StepAsWritten(codec, dataBytes, recordsInPage, numOfRecords, recordList, i, st, bb[..], buf1, pages', buffer[..]);
      res := Ok(());
    }

    /**
     * fillFile: packs the record list into the buffer and writes it to the
     * primary file from offset 0, once inside the loop for every record
     * that takes slot 0 after the first and once after it; then zeroes the
     * buffer, empties the list and returns 0. An exception leaves the pages
     * already written, the buffer and the list as they are.
     */
    method FillFile() returns (r: Result<int>)
      requires Valid()
      modifies this`recordList, buffer, rf`bytes
      ensures var run := Fill(codec, dataBytes, recordsInPage, numOfRecords, false, old(recordList), 0,
                              Packing([], old(buffer[..]), Zeros(dataBytes)));
        && (run.Completed? ==>
              && r == Ok(0) && recordList == [] && buffer[..] == Zeros(PAGE_SIZE)
              && rf.bytes == WriteAt(old(rf.bytes), 0, Concat(run.st.pages) + run.st.buf))
        && (run.Failed? ==>
              && r == Err(run.error) && recordList == old(recordList) && buffer[..] == run.st.buf
              && rf.bytes == WriteAt(old(rf.bytes), 0, Concat(run.st.pages)))
    {
      var bb := new byte[dataBytes](_ => 0);
      assert bb[..] == Zeros(dataBytes);
      ghost var f0 := rf.bytes;
      ghost var pages: seq<seq<byte>> := [];
      ghost var run := Fill(codec, dataBytes, recordsInPage, numOfRecords, false, recordList, 0,
                            Packing([], buffer[..], Zeros(dataBytes)));
      var at := 0;
      var i := 0;
      while i < |recordList|
        invariant recordList == old(recordList) && 0 <= i <= |recordList|
        invariant rf.bytes == WriteAt(f0, 0, Concat(pages)) && at == |Concat(pages)|
        invariant Fill(codec, dataBytes, recordsInPage, numOfRecords, false, recordList, i, Packing(pages, buffer[..], bb[..])) == run
        decreases |recordList| - i
      {
        var res;
        res, at, pages := FillStep(bb, i, at, f0, pages);
        if res.Err? {
          return Err(res.error);
        }
        i := i + 1;
      }
      rf.bytes := WriteAt(rf.bytes, at, buffer[..]);
      WriteAtTwice(f0, Concat(pages), buffer[..]);
      Clear(buffer);
      recordList := [];
      return Ok(0);
    }
  }
}
