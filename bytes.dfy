/** Vocabulary shared by the DNT and PAK decoders: bytes, little-endian
    integers, the errors a decode can raise, and the semantics of `read`
    on a binary file positioned at some offset. */
module Bytes {

  type Byte = b: int | 0 <= b < 0x100
  type U16 = n: int | 0 <= n < 0x1_0000
  type U32 = n: int | 0 <= n < 0x1_0000_0000

  datatype Option<T> = None | Some(value: T)

  /** EUC-KR decoding of a byte string; None where the codec raises. */
  type Codec = seq<Byte> -> Option<string>

  /** The exceptions the decoders can raise, one constructor per cause. */
  datatype Error =
    | Truncated                    // struct.unpack given fewer bytes than its format needs
    | Undecodable                  // the bytes are not valid EUC-KR text
    | BadHeader                    // a DNT file whose first four bytes are not zero
    | UnknownColumnType(tag: Byte) // a DNT column type tag missing from the type map
    | NotAnArchive                 // a PAK id string or marker mismatch
    | CorruptListing               // a PAK directory record with nonzero reserved bytes
    | InflateFailed                // the compressed span of a PAK entry does not inflate

  datatype Result<T> = Ok(value: T) | Err(error: Error) {
    predicate IsFailure() { Err? }

    function PropagateFailure<U>(): Result<U>
      requires Err?
    {
      Err(error)
    }

    function Extract(): T
      requires Ok?
    {
      value
    }
  }

  /** A decoded value together with the cursor position just after it. */
  datatype Parsed<T> = Parsed(value: T, next: nat)

  function Min(a: int, b: int): int { if a <= b then a else b }

  /** `read(n)` on a binary file holding `data` and positioned at `pos`:
      at most `n` bytes, fewer when the end of the file is reached, none
      when the cursor is already at or past the end (then it stays put). */
  function ReadAt(data: seq<Byte>, pos: nat, n: nat): (r: Parsed<seq<Byte>>)
    ensures pos <= |data| ==> r.next == Min(pos + n, |data|)
    ensures pos >= |data| ==> r.next == pos
    ensures pos <= r.next && |r.value| == r.next - pos
    ensures |r.value| == n <==> pos + n <= |data| || n == 0
    ensures pos < |data| ==> r.value == data[pos..r.next]
  {
    if pos >= |data| then Parsed([], pos)
    else
      var end := Min(pos + n, |data|);
      Parsed(data[pos..end], end)
  }

  /** The little-endian unsigned value of two bytes (struct format `<H`). */
  function LeU16(b: seq<Byte>): (n: U16)
    requires |b| == 2
  {
    b[0] as int + 0x100 * (b[1] as int)
  }

  /** b0 + 2^8 b1 + 2^16 b2 + 2^24 b3, always below 2^32. */
  function LeValue(b0: Byte, b1: Byte, b2: Byte, b3: Byte): (n: U32)
  {
    b0 as int + 0x100 * (b1 as int) + 0x1_0000 * (b2 as int) + 0x100_0000 * (b3 as int)
  }

  /** The little-endian unsigned value of four bytes (struct format `<I`). */
  function LeU32(b: seq<Byte>): (n: U32)
    requires |b| == 4
  {
    LeValue(b[0], b[1], b[2], b[3])
  }

  /** `struct.unpack('<I', buff.read(4))[0]`: a u32 from exactly four bytes,
      a truncation error when fewer remain. */
  function UnpackU32(data: seq<Byte>, pos: nat): (r: Result<Parsed<U32>>)
    ensures r.Ok? <==> pos + 4 <= |data|
    ensures r.Err? ==> r.error == Truncated
    ensures r.Ok? ==> r.value.next == pos + 4
    ensures r.Ok? ==> r.value.value
                      == LeValue(data[pos], data[pos + 1], data[pos + 2], data[pos + 3])
  {
    var chunk := ReadAt(data, pos, 4);
    if |chunk.value| != 4 then Err(Truncated) else Ok(Parsed(LeU32(chunk.value), chunk.next))
  }

  /** Every byte of `b` is zero. */
  predicate AllZero(b: seq<Byte>)
  {
    forall i :: 0 <= i < |b| ==> b[i] == 0
  }

  /** `b'\x00' * n` */
  function Zeros(n: nat): (z: seq<Byte>)
    ensures |z| == n && AllZero(z)
  {
    seq(n, _ => 0)
  }

  /** A read never looks past where it stops: cutting the file anywhere at
      or after the new cursor position leaves the read unchanged. */
  lemma ReadAtPrefix(data: seq<Byte>, pos: nat, n: nat, k: nat)
    requires ReadAt(data, pos, n).next <= k <= |data|
    ensures ReadAt(data[..k], pos, n) == ReadAt(data, pos, n)
  {
    var r := ReadAt(data, pos, n);
    var r' := ReadAt(data[..k], pos, n);
    assert r'.next == r.next;
    assert r'.value == r.value;
  }

  /** A read depends only on the file's length and its bytes from the
      cursor onwards. */
  lemma ReadAtSuffix(d1: seq<Byte>, d2: seq<Byte>, lo: nat, pos: nat, n: nat)
    requires |d1| == |d2| && lo <= pos
    requires forall i :: lo <= i < |d1| ==> d1[i] == d2[i]
    ensures ReadAt(d1, pos, n) == ReadAt(d2, pos, n)
  {
    var r1 := ReadAt(d1, pos, n);
    var r2 := ReadAt(d2, pos, n);
    assert r1.value == r2.value;
  }

  /** A read depends only on the file's length and the bytes it returns. */
  lemma ReadAtWindow(d1: seq<Byte>, d2: seq<Byte>, pos: nat, n: nat)
    requires |d1| == |d2|
    requires forall i :: pos <= i < pos + n && i < |d1| ==> d1[i] == d2[i]
    ensures ReadAt(d1, pos, n) == ReadAt(d2, pos, n)
  {
    var r1 := ReadAt(d1, pos, n);
    var r2 := ReadAt(d2, pos, n);
    assert forall i :: 0 <= i < |r1.value| ==> r1.value[i] == d1[pos + i];
    assert r1.value == r2.value;
  }
}
