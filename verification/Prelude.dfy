/** Containers, bytes and the machine-integer limits shared by every module of the model. */
module Prelude {

  datatype Option<+T> = None | Some(value: T)

  datatype Result<+T, +E> = Ok(value: T) | Err(error: E)

  type byte = b: int | 0 <= b < 256

  type Bytes = seq<byte>

  /** A Rust string is its UTF-8 bytes: equality and length are those of the byte sequence. */
  type Text = seq<byte>

  /** `usize` on a 64-bit target. */
  const USIZE_MAX: nat := 0xFFFF_FFFF_FFFF_FFFF

  /** No Rust slice is longer than `isize::MAX` bytes. */
  const SLICE_MAX: nat := 0x7FFF_FFFF_FFFF_FFFF

  /** The tag of an "encoded CBOR data item" (section 3.4.5.1 of RFC 8949). */
  const TAG_ENCODED_CBOR: nat := 24

  const U64_RANGE: nat := 0x1_0000_0000_0000_0000

  const I64_MIN: int := -0x8000_0000_0000_0000
  const I64_MAX: int := 0x7FFF_FFFF_FFFF_FFFF

  predicate InI64(x: int) {
    I64_MIN <= x <= I64_MAX
  }

  /** The bytes of an ASCII literal. */
  function Lit(s: string): (t: Text)
    ensures |t| == |s|
  {
    seq(|s|, i requires 0 <= i < |s| => (s[i] as int) % 256)
  }

  /** `usize::checked_add`. */
  function CheckedAdd(a: nat, b: nat): Option<nat> {
    if a + b <= USIZE_MAX then Some(a + b) else None
  }

  /** `usize::checked_mul`. */
  function CheckedMul(a: nat, b: nat): Option<nat> {
    if a * b <= USIZE_MAX then Some(a * b) else None
  }

  /** `bs` occupies `s` from offset `p` on. */
  predicate At(s: Bytes, p: nat, bs: Bytes) {
    p + |bs| <= |s| && s[p..p + |bs|] == bs
  }

  lemma ConcatAssoc<T>(a: seq<T>, b: seq<T>, c: seq<T>)
    ensures a + (b + c) == a + b + c
  {
  }

  lemma AtConcat(s: Bytes, p: nat, a: Bytes, b: Bytes)
    ensures At(s, p, a + b) <==> At(s, p, a) && At(s, p + |a|, b)
  {
    if At(s, p, a + b) {
      assert s[p..p + |a|] == s[p..p + |a + b|][..|a|] == a;
      assert s[p + |a|..p + |a| + |b|] == s[p..p + |a + b|][|a|..] == b;
    }
    if At(s, p, a) && At(s, p + |a|, b) {
      assert s[p..p + |a + b|] == s[p..p + |a|] + s[p + |a|..p + |a| + |b|];
    }
  }
}

/** Well-formed UTF-8 (section 4 of RFC 3629): what `core::str::from_utf8` accepts. */
module Utf8 {
  import opened Prelude

  predicate Cont(b: byte) {
    0x80 <= b <= 0xBF
  }

  predicate IsUtf8(bs: Bytes) {
    bs == [] ||
    (var a := bs[0];
     if a < 0x80 then IsUtf8(bs[1..])
     else if 0xC2 <= a <= 0xDF then |bs| >= 2 && Cont(bs[1]) && IsUtf8(bs[2..])
     else if 0xE0 <= a <= 0xEF then
       && |bs| >= 3 && Cont(bs[1]) && Cont(bs[2])
       && (a == 0xE0 ==> bs[1] >= 0xA0) && (a == 0xED ==> bs[1] <= 0x9F)
       && IsUtf8(bs[3..])
     else if 0xF0 <= a <= 0xF4 then
       && |bs| >= 4 && Cont(bs[1]) && Cont(bs[2]) && Cont(bs[3])
       && (a == 0xF0 ==> bs[1] >= 0x90) && (a == 0xF4 ==> bs[1] <= 0x8F)
       && IsUtf8(bs[4..])
     else false)
  }

  predicate Ascii(s: Text) {
    forall i :: 0 <= i < |s| ==> s[i] < 0x80
  }

  lemma {:induction false} AsciiIsUtf8(s: Text)
    requires Ascii(s)
    ensures IsUtf8(s)
  {
    if s == [] {
    } else {
      AsciiIsUtf8(s[1..]);
    }
  }
}
