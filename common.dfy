/**
 * Vocabulary shared by every component of the model: bytes, C-style
 * fixed-width unsigned integers held as bounded `int`s, an Option type,
 * and two helpers that read C strings out of byte sequences.
 */
module Common {

  type byte = bv8
  type Bytes = seq<byte>

  /** 2^32: the modulus of every 32-bit quantity in the source. */
  const WORD: int := 0x1_0000_0000
  /** 2^64. */
  const WORD64: int := 0x1_0000_0000_0000_0000

  /** A 32-bit unsigned value (`uint32_t`), or the bit pattern of a 32-bit `int`. */
  type u32 = x: int | 0 <= x < 0x1_0000_0000

  datatype Option<+T> = None | Some(value: T)

  /** The value of a 32-bit two's-complement pattern read as a signed `int`. */
  function Signed(x: u32): (r: int)
    ensures -0x8000_0000 <= r < 0x8000_0000
    ensures (r - x) % WORD == 0
    ensures r >= 0 <==> x < 0x8000_0000
  {
    if x < 0x8000_0000 then x else x - WORD
  }

  /** The 32-bit pattern of an arbitrary integer (truncation modulo 2^32). */
  function Wrap(x: int): (r: u32)
    ensures (r - x) % WORD == 0
  {
    x % WORD
  }

  lemma {:induction false} SignedWrapRoundTrip(v: int)
    requires -0x8000_0000 <= v < 0x8000_0000
    ensures Signed(Wrap(v)) == v
  {
    if v < 0 {
      assert Wrap(v) == v + WORD;
    }
  }

  /** The C string held by a byte region: the bytes before the first NUL (or all of them). */
  function CString(s: Bytes): (r: Bytes)
    ensures |r| <= |s| && r == s[..|r|]
    ensures forall i :: 0 <= i < |r| ==> r[i] != 0
    ensures |r| < |s| ==> s[|r|] == 0
  {
    if s == [] || s[0] == 0 then [] else [s[0]] + CString(s[1..])
  }

  lemma CStringOfNulFree(s: Bytes)
    requires forall i :: 0 <= i < |s| ==> s[i] != 0
    ensures CString(s) == s
  {
  }

  /** A prefix with no NUL that ends at the region's end or at a NUL is the C string. */
  lemma {:induction false} CStringUpTo(s: Bytes, i: nat)
    requires i <= |s|
    requires forall j :: 0 <= j < i ==> s[j] != 0
    requires i == |s| || s[i] == 0
    ensures CString(s) == s[..i]
  {
    if i > 0 {
      CStringUpTo(s[1..], i - 1);
      assert s[..i] == [s[0]] + s[1..][..i - 1];
    }
  }

  function Min(a: int, b: int): int { if a < b then a else b }
}
