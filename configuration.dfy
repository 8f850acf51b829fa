/**
 * The layout constants of the store (model.DataClassConfiguration): a page
 * is 256 bytes, a key is one Java int of 4 bytes, and a record is its key
 * followed by its data bytes.
 */
module Configuration {
  import opened JavaRuntime

  const PAGE_SIZE: int := 256

  /** Integer.BYTES. */
  const KEY_SIZE: int := 4

  /** An index entry is a (key, index) pair of two ints: 2 * KEY_SIZE. */
  const ENTRY_SIZE: int := 8

  /** The per-store part of the layout: the data width and the derived record width, both Java ints. */
  datatype DataClassConfiguration = DataClassConfiguration(DATA_SIZE: int32, RECORD_SIZE: int32)

  /**
   * The constructor: any data size is accepted as it is, and a record is
   * exactly one key wider than its data, unless the int sum wraps around.
   */
  function NewConfiguration(dataSize: int32): (c: DataClassConfiguration)
    ensures c.DATA_SIZE == dataSize
    ensures dataSize <= 0x7FFF_FFFF - KEY_SIZE ==> c.RECORD_SIZE - c.DATA_SIZE == KEY_SIZE
    ensures dataSize > 0x7FFF_FFFF - KEY_SIZE ==> c.RECORD_SIZE < 0
  {
    DataClassConfiguration(dataSize, Wrap32(dataSize + KEY_SIZE))
  }

  /**
   * How many records fit in a page, and that they fit: the
   * PAGE_SIZE / (dataSize + KEY_SIZE) records of a configuration leave less
   * than one record of slack, and none fit once a record outgrows the page.
   */
  lemma RecordsPerPageFit(dataSize: nat, r: nat)
    requires r == PAGE_SIZE / (dataSize + KEY_SIZE)
    ensures r * (dataSize + KEY_SIZE) <= PAGE_SIZE < (r + 1) * (dataSize + KEY_SIZE)
    ensures r == 0 <==> dataSize > PAGE_SIZE - KEY_SIZE
  {
    var w := dataSize + KEY_SIZE;
    assert PAGE_SIZE == r * w + PAGE_SIZE % w;
    assert (r + 1) * w == r * w + w;
    if r >= 1 {
      assert r * w == (r - 1) * w + w;
    }
  }
}
