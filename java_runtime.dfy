/**
 * The few pieces of the Java platform the record store relies on, stated as
 * values: bytes, 32-bit ints, the exceptions the core can raise, and the
 * behaviour of Arrays.copyOfRange, Arrays.fill, System.arraycopy,
 * String.getBytes(US_ASCII) and RandomAccessFile.read / write on a file
 * whose contents are a byte sequence.
 */
module JavaRuntime {

  newtype byte = x: int | 0 <= x < 256

  /** A Java `int`. */
  type int32 = x: int | -0x8000_0000 <= x < 0x8000_0000

  /** Java's wrap-around of an int expression that leaves the 32-bit range. */
  function Wrap32(x: int): (r: int32)
    ensures -0x8000_0000 <= x < 0x8000_0000 ==> r == x
    ensures (r - x) % 0x1_0000_0000 == 0
  {
    var u := x % 0x1_0000_0000;
    if u < 0x8000_0000 then u else u - 0x1_0000_0000
  }

  /** Java's int division, which rounds toward zero (Dafny's `/` rounds the remainder up to non-negative). */
  function JavaDiv(a: int, b: int): (q: int)
    requires b != 0
    ensures a >= 0 && b > 0 ==> q == a / b
    ensures 0 <= a < -b ==> q == 0
  {
    if a >= 0 && b > 0 then a / b
    else if a >= 0 then -(a / -b)
    else if b > 0 then -((-a) / b)
    else (-a) / (-b)
  }

  /** The run-time exceptions the modelled code can throw. */
  datatype Exception =
    | NullPointer
    | IndexOutOfBounds
    | IllegalArgument
    | Arithmetic
    | BufferOverflow

  datatype Result<T> = Ok(value: T) | Err(error: Exception)

  function Zeros(n: nat): (z: seq<byte>)
    ensures |z| == n && forall i :: 0 <= i < n ==> z[i] == 0
  {
    seq(n, _ => 0)
  }

  /** Concatenation regroups. */
  lemma AppendShift<T>(a: seq<T>, b: seq<T>, c: seq<T>)
    ensures a + (b + c) == (a + b) + c
  {
  }

  /**
   * Arrays.copyOfRange(s, from, to): the bytes s[from..to], where positions
   * at or past the end of s read as zero.
   */
  function CopyOfRange(s: seq<byte>, from: nat, to: nat): (r: seq<byte>)
    requires from <= |s| && from <= to
    ensures |r| == to - from
    ensures forall k :: 0 <= k < to - from ==> r[k] == if from + k < |s| then s[from + k] else 0
  {
    if to <= |s| then s[from..to] else s[from..] + Zeros(to - |s|)
  }

  /**
   * The content of buffer `dst` after RandomAccessFile.read(dst) at offset
   * `off` of `file`: the available bytes land in the prefix, the rest of the
   * buffer keeps what it held.
   */
  function ReadInto(dst: seq<byte>, file: seq<byte>, off: nat): (r: seq<byte>)
    ensures |r| == |dst|
    ensures forall k {:trigger r[k]} :: 0 <= k < |dst| ==>
      r[k] == if off + k < |file| then file[off + k] else dst[k]
  {
    seq(|dst|, k requires 0 <= k < |dst| => if off + k < |file| then file[off + k] else dst[k])
  }

  /**
   * The file after RandomAccessFile.write(b) at offset `off`: the bytes at
   * off..off+|b| are replaced, the file grows when needed, and whatever lies
   * beyond stays.
   */
  function WriteAt(file: seq<byte>, off: nat, b: seq<byte>): (r: seq<byte>)
    requires off <= |file|
    ensures |r| == if off + |b| <= |file| then |file| else off + |b|
    ensures r[..off] == file[..off] && r[off..off + |b|] == b
    ensures off + |b| <= |file| ==> r[off + |b|..] == file[off + |b|..]
  {
    file[..off] + b + if off + |b| <= |file| then file[off + |b|..] else []
  }

  /** Two consecutive writes are one write of the concatenation. */
  lemma WriteAtTwice(file: seq<byte>, a: seq<byte>, b: seq<byte>)
    ensures WriteAt(WriteAt(file, 0, a), |a|, b) == WriteAt(file, 0, a + b)
  {
  }

  /** A write from offset 0 at least as long as the file replaces all of it. */
  lemma WriteAtCover(file: seq<byte>, b: seq<byte>)
    requires |file| <= |b|
    ensures WriteAt(file, 0, b) == b
  {
  }

  /** String.getBytes(US_ASCII): one byte per character, '?' for a character outside ASCII. */
  function Ascii(s: string): (r: seq<byte>)
    ensures |r| == |s|
    ensures forall k {:trigger r[k]} :: 0 <= k < |s| ==> r[k] == if s[k] as int < 128 then s[k] as int as byte else 63
  {
    if s == [] then [] else [if s[0] as int < 128 then s[0] as int as byte else 63] + Ascii(s[1..])
  }

  /** Arrays.fill(a, (byte) 0). */
  method Clear(a: array<byte>)
    modifies a
    ensures a[..] == Zeros(a.Length)
  {
    forall i | 0 <= i < a.Length {
      a[i] := 0;
    }
  }

  /** The contents of an array after System.arraycopy(src, 0, a, at, |src|). */
  function ArrayCopy(a: seq<byte>, at: nat, src: seq<byte>): (r: seq<byte>)
    requires at + |src| <= |a|
    ensures |r| == |a| && r[at..at + |src|] == src
    ensures r[..at] == a[..at] && r[at + |src|..] == a[at + |src|..]
  {
    a[..at] + src + a[at + |src|..]
  }

  /** System.arraycopy(src, 0, a, at, |src|). */
  method CopyInto(a: array<byte>, at: nat, src: seq<byte>)
    requires at + |src| <= a.Length
    modifies a
    ensures a[..] == ArrayCopy(old(a[..]), at, src)
  {
    forall i | at <= i < at + |src| {
      a[i] := src[i - at];
    }
  }

  /** RandomAccessFile.read(a) with the file pointer at `off`. */
  method ReadAt(a: array<byte>, file: seq<byte>, off: nat)
    modifies a
    ensures a[..] == ReadInto(old(a[..]), file, off)
  {
    forall i | 0 <= i < a.Length && off + i < |file| {
      a[i] := file[off + i];
    }
  }
}
