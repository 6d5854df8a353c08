/**
 * Wire-level vocabulary shared by the DNS codec: octets, the unsigned
 * integer widths the messages use, big-endian reads and writes, and the
 * failure outcomes of decoding.
 *
 * A failure is either an `io::Error` the original returns (a cursor read
 * past the end, a label that is not UTF-8, a name that is not a pointer)
 * or a panic it raises (an index or slice out of bounds, an unknown wire
 * code in a `From` conversion, `unimplemented!()`); both become an `Err`.
 */
module Wire {

  /** An octet (Rust `u8`), as a number; bit operations go through `Bits`. */
  type byte = x: int | 0 <= x < 0x100

  /** Unsigned 16-bit integer (Rust `u16`). */
  type u16 = x: int | 0 <= x < 0x1_0000

  /** Unsigned 32-bit integer (Rust `u32`). */
  type u32 = x: int | 0 <= x < 0x1_0000_0000

  /** The bits of an octet, for `&`, `|` and shifts. */
  function Bits(b: byte): bv8 {
    b as bv8
  }

  /** The octet a bit pattern stands for. */
  function Octet(v: bv8): (b: byte)
    ensures Bits(b) == v
  {
    BitsOfOctet(v);
    v as int
  }

  lemma {:induction false} BitsOfOctet(v: bv8)
    ensures (v as int) as bv8 == v
  {
  }

  /** Why a decode did not produce a value. */
  datatype Error =
    | UnexpectedEof            // io::Error: a big-endian read ran past the end of its cursor
    | IndexOutOfBounds         // panic: an index or a slice outside the buffer
    | NonUtf8                  // io::Error "non utf": a label's bytes are not UTF-8
    | BadAnswerPacket          // io::Error "bad answer packet": the answer name is not a pointer
    | BadOpcode(opcode: byte)  // panic in Opcode::from
    | BadRCode(rcode: byte)    // panic in RCode::from
    | BadQType(qtype: u16)     // panic in QType::from
    | BadQClass(qclass: u16)   // panic in QClass::from
    | BadAType(atype: u16)     // panic in AType::from
    | Unimplemented            // panic: unimplemented!() on an rdlength other than 4


  datatype Result<T> = Ok(value: T) | Err(error: Error)

  /** A decoded item together with the number of bytes the decoder reports as consumed. */
  datatype Parsed<T> = Parsed(item: T, consumed: nat)

  /** Items decoded one after another, and the offset just past the last one. */
  datatype Walk<T> = Walk(items: seq<T>, end: nat)

  /** The big-endian u16 stored at `s[off]`, `s[off + 1]`. */
  function U16At(s: seq<byte>, off: nat): (x: u16)
    requires off + 2 <= |s|
    ensures x / 0x100 == s[off] && x % 0x100 == s[off + 1]
  {
    (s[off] as int) * 0x100 + s[off + 1] as int
  }

  /** The big-endian u32 stored at `s[off .. off + 4]`. */
  function U32At(s: seq<byte>, off: nat): (x: u32)
    requires off + 4 <= |s|
    ensures x == 0x100_0000 * (s[off] as int) + 0x1_0000 * (s[off + 1] as int) + 0x100 * (s[off + 2] as int) + s[off + 3] as int
  {
    U16At(s, off) * 0x1_0000 + U16At(s, off + 2)
  }

  /** The two bytes `write_u16::<NetworkEndian>` appends. */
  function U16Bytes(x: u16): (r: seq<byte>)
    ensures |r| == 2 && U16At(r, 0) == x
  {
    [x / 0x100, x % 0x100]
  }

  /** The four bytes a big-endian u32 occupies. */
  function U32Bytes(x: u32): (r: seq<byte>)
    ensures |r| == 4 && U32At(r, 0) == x
  {
    var r := U16Bytes(x / 0x1_0000) + U16Bytes(x % 0x1_0000);
    assert U16At(r, 0) == U16At(U16Bytes(x / 0x1_0000), 0);
    assert U16At(r, 2) == U16At(U16Bytes(x % 0x1_0000), 0);
    r
  }

  /** Two big-endian reads agree when the bytes they read agree. */
  lemma {:induction false} U16AtShift(s: seq<byte>, t: seq<byte>, off: nat, off': nat)
    requires off + 2 <= |s| && off' + 2 <= |t|
    requires s[off] == t[off'] && s[off + 1] == t[off' + 1]
    ensures U16At(s, off) == U16At(t, off')
  {
  }

  /** A big-endian u16 read gives back the two bytes it was read from. */
  lemma {:induction false} U16AtBytes(s: seq<byte>, off: nat)
    requires off + 2 <= |s|
    ensures s[off .. off + 2] == U16Bytes(U16At(s, off))
  {
  }

  /** A suffix of `s + t` that starts inside `s`. */
  lemma {:induction false} SuffixOfAppend(s: seq<byte>, t: seq<byte>, i: nat)
    requires i <= |s|
    ensures (s + t)[i..] == s[i..] + t
  {
  }

  /** A buffer holding `a + b` at `off` holds `a` there and, from the end of `a` on, `b` and the rest. */
  lemma {:induction false} SliceSplit(s: seq<byte>, off: nat, a: seq<byte>, b: seq<byte>)
    requires off + |a| + |b| <= |s| && s[off .. off + |a| + |b|] == a + b
    ensures s[off .. off + |a|] == a
    ensures s[off + |a|..] == b + s[off + |a| + |b|..]
  {
    assert s[off .. off + |a|] == s[off .. off + |a| + |b|][..|a|];
    assert s[off + |a| .. off + |a| + |b|] == s[off .. off + |a| + |b|][|a|..];
    assert s[off + |a|..] == s[off + |a| .. off + |a| + |b|] + s[off + |a| + |b|..];
  }

  /** The middle piece of a three-piece buffer. */
  lemma {:induction false} MiddleOf(a: seq<byte>, x: seq<byte>, b: seq<byte>)
    ensures (a + x + b)[|a| .. |a| + |x|] == x
  {
  }

  /** A slice of a slice is a slice of the whole. */
  lemma {:induction false} SliceOfSlice(s: seq<byte>, lo: nat, hi: nat, a: nat, b: nat)
    requires lo <= hi <= |s| && a <= b <= hi - lo
    ensures s[lo..hi][a..b] == s[lo + a .. lo + b]
  {
    assert |s[lo..hi][a..b]| == b - a == |s[lo + a .. lo + b]|;
    forall k | 0 <= k < b - a
      ensures s[lo..hi][a..b][k] == s[lo + a .. lo + b][k]
    {
      assert s[lo..hi][a..b][k] == s[lo..hi][a + k] == s[lo + a + k];
    }
  }

  /** A slice holding two pieces holds each of them. */
  lemma {:induction false} SliceParts(s: seq<byte>, off: nat, a: seq<byte>, b: seq<byte>)
    requires off + |a| + |b| <= |s| && s[off .. off + |a| + |b|] == a + b
    ensures s[off .. off + |a|] == a
    ensures s[off + |a| .. off + |a| + |b|] == b
  {
    SliceOfSlice(s, off, off + |a| + |b|, 0, |a|);
    SliceOfSlice(s, off, off + |a| + |b|, |a|, |a| + |b|);
    assert (a + b)[..|a|] == a;
    assert (a + b)[|a|..] == b;
  }
}
