/** Little-endian field access over report buffers, and the failure-carrying
    result types used by the decoders.  A report buffer is a sequence of
    bytes; `struct.unpack` failures and the `ValueError`s raised while
    converting fields are modelled as `Err` values. */
module Wire {

  type Byte = b: int | 0 <= b < 256

  datatype Option<T> = None | Some(value: T) {
    function GetOr(default: T): T {
      match this
      case Some(v) => v
      case None => default
    }
  }

  /** Why a decode failed: `StructError` is `struct.error` (wrong buffer
      size), `ValueError` a field whose value the conversion rejects. */
  datatype Error = StructError | ValueError

  datatype Result<T> = Ok(value: T) | Err(error: Error) {
    function ToOption(): Option<T> {
      match this
      case Ok(v) => Some(v)
      case Err(_) => None
    }
  }

  /** Format code `H`: unsigned 16-bit little-endian. */
  function U16(lo: Byte, hi: Byte): (r: int)
    ensures 0 <= r < 0x1_0000
    ensures r % 256 == lo && r / 256 == hi
  {
    lo + 256 * hi
  }

  /** Format code `h`: signed 16-bit little-endian (two's complement). */
  function I16(lo: Byte, hi: Byte): (r: int)
    ensures -0x8000 <= r < 0x8000
    ensures (r - U16(lo, hi)) % 0x1_0000 == 0
    ensures r < 0 <==> hi >= 128
  {
    var u := U16(lo, hi);
    if u >= 0x8000 then u - 0x1_0000 else u
  }

  function U16At(data: seq<Byte>, off: nat): int
    requires off + 2 <= |data|
  {
    U16(data[off], data[off + 1])
  }

  function I16At(data: seq<Byte>, off: nat): int
    requires off + 2 <= |data|
  {
    I16(data[off], data[off + 1])
  }

  /** `n` consecutive `h` fields starting at byte `off`. */
  function I16s(data: seq<Byte>, off: nat, n: nat): (r: seq<int>)
    requires off + 2 * n <= |data|
    ensures |r| == n
    ensures forall i :: 0 <= i < n ==> r[i] == I16(data[off + 2 * i], data[off + 2 * i + 1])
  {
    seq(n, i requires 0 <= i < n => I16At(data, off + 2 * i))
  }

  /** `n` consecutive `H` fields starting at byte `off`. */
  function U16s(data: seq<Byte>, off: nat, n: nat): (r: seq<int>)
    requires off + 2 * n <= |data|
    ensures |r| == n
    ensures forall i :: 0 <= i < n ==> r[i] == U16(data[off + 2 * i], data[off + 2 * i + 1])
  {
    seq(n, i requires 0 <= i < n => U16At(data, off + 2 * i))
  }

  // ---- the packing direction, used to state round trips ----

  /** `struct.pack('<h', v)`: the two bytes of a signed 16-bit value. */
  function PackI16(v: int): (r: seq<Byte>)
    requires -0x8000 <= v < 0x8000
    ensures |r| == 2
  {
    var u := if v < 0 then v + 0x1_0000 else v;
    [u % 256, u / 256]
  }

  /** `struct.pack('<H', v)`. */
  function PackU16(v: int): (r: seq<Byte>)
    requires 0 <= v < 0x1_0000
    ensures |r| == 2
  {
    [v % 256, v / 256]
  }

  lemma I16RoundTrip(v: int)
    requires -0x8000 <= v < 0x8000
    ensures I16(PackI16(v)[0], PackI16(v)[1]) == v
  {
  }

  lemma U16RoundTrip(v: int)
    requires 0 <= v < 0x1_0000
    ensures U16(PackU16(v)[0], PackU16(v)[1]) == v
  {
  }

  ghost predicate AllI16(s: seq<int>) {
    forall i :: 0 <= i < |s| ==> -0x8000 <= s[i] < 0x8000
  }

  ghost predicate AllU16(s: seq<int>) {
    forall i :: 0 <= i < |s| ==> 0 <= s[i] < 0x1_0000
  }

  /** Packs a run of `h` fields. */
  function PackI16s(s: seq<int>): (r: seq<Byte>)
    requires AllI16(s)
    ensures |r| == 2 * |s|
    ensures forall i :: 0 <= i < |s| ==> r[2 * i..2 * i + 2] == PackI16(s[i])
  {
    if |s| == 0 then []
    else
      var rest := PackI16s(s[1..]);
      assert forall i :: 1 <= i < |s| ==> (PackI16(s[0]) + rest)[2 * i..2 * i + 2] == rest[2 * (i - 1)..2 * (i - 1) + 2];
      PackI16(s[0]) + rest
  }

  /** Packs a run of `H` fields. */
  function PackU16s(s: seq<int>): (r: seq<Byte>)
    requires AllU16(s)
    ensures |r| == 2 * |s|
    ensures forall i :: 0 <= i < |s| ==> r[2 * i..2 * i + 2] == PackU16(s[i])
  {
    if |s| == 0 then []
    else
      var rest := PackU16s(s[1..]);
      assert forall i :: 1 <= i < |s| ==> (PackU16(s[0]) + rest)[2 * i..2 * i + 2] == rest[2 * (i - 1)..2 * (i - 1) + 2];
      PackU16(s[0]) + rest
  }

  /** Reading back a packed run of `h` fields gives the run. */
  lemma {:induction false} I16sRoundTrip(pre: seq<Byte>, s: seq<int>, post: seq<Byte>)
    requires AllI16(s)
    ensures I16s(pre + PackI16s(s) + post, |pre|, |s|) == s
  {
    var data := pre + PackI16s(s) + post;
    forall i | 0 <= i < |s|
      ensures I16s(data, |pre|, |s|)[i] == s[i]
    {
      var p := PackI16s(s);
      assert p[2 * i..2 * i + 2] == PackI16(s[i]);
      assert data[|pre| + 2 * i] == p[2 * i] && data[|pre| + 2 * i + 1] == p[2 * i + 1];
      I16RoundTrip(s[i]);
    }
  }

  /** Reading back a packed run of `H` fields gives the run. */
  lemma {:induction false} U16sRoundTrip(pre: seq<Byte>, s: seq<int>, post: seq<Byte>)
    requires AllU16(s)
    ensures U16s(pre + PackU16s(s) + post, |pre|, |s|) == s
  {
    var data := pre + PackU16s(s) + post;
    forall i | 0 <= i < |s|
      ensures U16s(data, |pre|, |s|)[i] == s[i]
    {
      var p := PackU16s(s);
      assert p[2 * i..2 * i + 2] == PackU16(s[i]);
      assert data[|pre| + 2 * i] == p[2 * i] && data[|pre| + 2 * i + 1] == p[2 * i + 1];
      U16RoundTrip(s[i]);
    }
  }
}
