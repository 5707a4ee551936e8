/**
 * The arithmetic and XOR transforms of the hardening component
 * (src/localsports/src/security_hardening.cpp).
 *
 * A C `int` is represented by its 32-bit two's-complement pattern, a `u32`;
 * `Signed` reads such a pattern back as a signed value. The bitwise `^` and
 * `&` of the carry loops are defined bit by bit on naturals (`Xor`, `And`),
 * and every shift that can overflow is written out as a reduction modulo 2^32.
 */
module Hardening {
  import opened Common

  /** The 8-bit key of the string masking. */
  const XOR_KEY: byte := 0xAA
  /** The 64-bit mask of the value masking. */
  const VALUE_MASK: bv64 := 0x5A5A_5A5A_5A5A_5A5A

  type i32 = x: int | -0x8000_0000 <= x < 0x8000_0000

  // =================== String masking ===================

  /** Every byte of `s` XORed with the key. */
  function Masked(s: Bytes): Bytes
  {
    if s == [] then [] else [s[0] ^ XOR_KEY] + Masked(s[1..])
  }

  lemma {:induction false} MaskedAppend(s: Bytes, c: byte)
    ensures Masked(s + [c]) == Masked(s) + [c ^ XOR_KEY]
  {
    if s != [] {
      assert (s + [c])[1..] == s[1..] + [c];
      MaskedAppend(s[1..], c);
    }
  }

  /** Masking keeps the length and masks each byte in place. */
  lemma {:induction false} MaskedAt(s: Bytes)
    ensures |Masked(s)| == |s|
    ensures forall i :: 0 <= i < |s| ==> Masked(s)[i] == s[i] ^ XOR_KEY
  {
    if s != [] {
      MaskedAt(s[1..]);
    }
  }

  /** Masking is an involution: masking twice gives back the input. */
  lemma {:induction false} MaskedInvolution(s: Bytes)
    ensures Masked(Masked(s)) == s
  {
    if s != [] {
      MaskedInvolution(s[1..]);
      assert Masked(s)[1..] == Masked(s[1..]);
    }
  }

  /** A non-empty string never masks to itself (no byte is a fixed point of XOR with 0xAA). */
  lemma MaskedChangesNonEmpty(s: Bytes)
    requires s != []
    ensures Masked(s) != s
  {
    assert Masked(s)[0] == s[0] ^ XOR_KEY;
  }

  /**
   * ObfuscateString: walks the C string `str` up to its terminating NUL and
   * appends each byte XORed with the key.
   */
  method ObfuscateString(str: Bytes) returns (result: Bytes)
    ensures result == Masked(CString(str))
    ensures |result| == |CString(str)|
  {
    result := [];
    var i := 0;
    while i < |str| && str[i] != 0
      invariant 0 <= i <= |str|
      invariant forall j :: 0 <= j < i ==> str[j] != 0
      invariant result == Masked(str[..i])
    {
      MaskedAppend(str[..i], str[i]);
      assert str[..i + 1] == str[..i] + [str[i]];
      result := result + [str[i] ^ XOR_KEY];
      i := i + 1;
    }
    CStringUpTo(str, i);
    MaskedAt(CString(str));
  }

  /** DeobfuscateString: XORs every byte of the (possibly NUL-containing) string with the key. */
  method DeobfuscateString(obfuscated: Bytes) returns (result: Bytes)
    ensures result == Masked(obfuscated)
  {
    result := [];
    var i := 0;
    while i < |obfuscated|
      invariant 0 <= i <= |obfuscated|
      invariant result == Masked(obfuscated[..i])
    {
      MaskedAppend(obfuscated[..i], obfuscated[i]);
      assert obfuscated[..i + 1] == obfuscated[..i] + [obfuscated[i]];
      result := result + [obfuscated[i] ^ XOR_KEY];
      i := i + 1;
    }
    assert obfuscated[..i] == obfuscated;
  }

  /**
   * What DeobfuscateString gives back for ObfuscateString's output: the C string
   * of the input; for a NUL-free input (the empty string included), the input itself.
   */
  lemma StringRoundTrip(s: Bytes)
    ensures Masked(Masked(CString(s))) == CString(s)
    ensures (forall i :: 0 <= i < |s| ==> s[i] != 0) ==> Masked(Masked(CString(s))) == s
  {
    MaskedInvolution(CString(s));
    if forall i :: 0 <= i < |s| ==> s[i] != 0 {
      CStringOfNulFree(s);
    }
  }

  // =================== Value masking ===================

  /** ObfuscateValue: XOR with the fixed 64-bit mask; it never maps a value to itself. */
  function ObfuscateValue(value: bv64): (r: bv64)
    ensures r != value
    ensures DeobfuscateValue(r) == value
  {
    value ^ VALUE_MASK
  }

  function DeobfuscateValue(obfuscated: bv64): (r: bv64)
    ensures r != obfuscated
    ensures r ^ obfuscated == VALUE_MASK
  {
    obfuscated ^ VALUE_MASK
  }

  /** The two value transforms are inverse to each other in both orders. */
  lemma ValueRoundTrip(v: bv64)
    ensures DeobfuscateValue(ObfuscateValue(v)) == v
    ensures ObfuscateValue(DeobfuscateValue(v)) == v
  {
  }

  // =================== Boolean and opaque predicates ===================

  /** ObfuscateBooleanCondition: 1/0, then (x*137+42)%256, then (y-42)/137; the result is the input. */
  function ObfuscateBooleanCondition(condition: bool): (r: bool)
    ensures r == condition
  {
    var x := if condition then 1 else 0;
    var y := (x * 137 + 42) % 256;
    var z := (y - 42) / 137;
    z != 0
  }

  lemma SquareBound(x: int, b: int)
    requires 0 <= b && -b <= x <= b
    ensures 0 <= x * x <= b * b
  {
    var y := if x >= 0 then x else -x;
    assert x * x == y * y;
    MulMono(y, b, y);
    MulMono(y, b, b);
    assert y * b == b * y;
  }

  lemma MulMono(a: int, b: int, c: int)
    requires 0 <= a <= b && 0 <= c
    ensures 0 <= a * c <= b * c
  {
    assert b * c - a * c == (b - a) * c;
  }

  /**
   * OpaqueMathPredicate as written: `x * x` in 32-bit `int` arithmetic (wrapping),
   * then `>= 0`. True whenever the square fits in 31 bits.
   */
  function OpaqueMathPredicate(x: i32): (r: bool)
    ensures -46340 <= x <= 46340 ==> r
  {
    SmallSquare(x);
    Signed(Wrap(x * x)) >= 0
  }

  /** A square of magnitude at most 46340 fits in 31 bits. */
  lemma SmallSquare(x: int)
    ensures -46340 <= x <= 46340 ==> 0 <= x * x < 0x8000_0000
  {
    if -46340 <= x <= 46340 {
      SquareBound(x, 46340);
    }
  }

  /** The predicate documented as "always true" is false for 46341, whose square wraps negative. */
  lemma OpaqueMathPredicateOverflows()
    ensures !OpaqueMathPredicate(46341)
    ensures !OpaqueMathPredicate(-46341)
  {
    assert 46341 * 46341 == 2147488281;
    assert (-46341) * (-46341) == 2147488281;
  }

  /** The 64-bit two's-complement value of an arbitrary integer. */
  function Signed64(x: int): int
  {
    var m := x % WORD64;
    if m < 0x8000_0000_0000_0000 then m else m - WORD64
  }

  /** OpaqueMathPredicate with the square taken in 64-bit arithmetic: true for every 32-bit input. */
  function OpaqueMathPredicateWide(x: i32): (r: bool)
    ensures r
  {
    SquareBound(x, 0x8000_0000);
    Signed64(x * x) >= 0
  }

  // =================== Bitwise operations on int patterns ===================

  function Pow2(n: nat): nat
  {
    if n == 0 then 1 else 2 * Pow2(n - 1)
  }

  /** Bitwise XOR of two naturals, bit by bit from the least significant bit. */
  function Xor(x: nat, y: nat): nat
    decreases x + y
  {
    if x == 0 && y == 0 then 0 else 2 * Xor(x / 2, y / 2) + (if x % 2 == y % 2 then 0 else 1)
  }

  /** Bitwise AND of two naturals, bit by bit from the least significant bit. */
  function And(x: nat, y: nat): nat
    decreases x + y
  {
    if x == 0 && y == 0 then 0 else 2 * And(x / 2, y / 2) + (if x % 2 == 1 && y % 2 == 1 then 1 else 0)
  }

  /** The half-adder identity behind the carry loop: x + y == (x ^ y) + 2 (x & y). */
  lemma {:induction false} CarryIdentity(x: nat, y: nat)
    ensures Xor(x, y) + 2 * And(x, y) == x + y
    decreases x + y
  {
    if x != 0 || y != 0 {
      CarryIdentity(x / 2, y / 2);
    }
  }

  lemma {:induction false} Pow2Add(a: nat, b: nat)
    ensures Pow2(a + b) == Pow2(a) * Pow2(b)
  {
    if a > 0 {
      Pow2Add(a - 1, b);
      assert Pow2(a + b) == 2 * Pow2(a - 1 + b);
    }
  }

  lemma Pow2Word()
    ensures Pow2(32) == WORD
  {
    assert Pow2(4) == 16;
    Pow2Add(4, 4);
    Pow2Add(8, 8);
    Pow2Add(16, 16);
  }

  /** XOR of two n-bit values is an n-bit value. */
  lemma {:induction false} XorBound(x: nat, y: nat, n: nat)
    requires x < Pow2(n) && y < Pow2(n)
    ensures Xor(x, y) < Pow2(n)
    decreases n
  {
    if (x != 0 || y != 0) && n > 0 {
      XorBound(x / 2, y / 2, n - 1);
    }
  }

  lemma XorWord(x: u32, y: u32)
    ensures Xor(x, y) < WORD
  {
    Pow2Word();
    XorBound(x, y, 32);
  }

  /** The k least significant bits of y are zero. */
  ghost predicate LowZeros(y: int, k: nat)
    decreases k
  {
    k == 0 || (y % 2 == 0 && LowZeros(y / 2, k - 1))
  }

  lemma {:induction false} AndKeepsLowZeros(x: nat, y: nat, k: nat)
    requires LowZeros(y, k)
    ensures LowZeros(And(x, y), k)
    decreases k
  {
    if k > 0 && (x != 0 || y != 0) {
      AndKeepsLowZeros(x / 2, y / 2, k - 1);
      var h := And(x / 2, y / 2);
      assert And(x, y) == 2 * h;
      assert (2 * h) / 2 == h;
    }
  }

  lemma {:induction false} LowZerosSub(u: int, v: int, k: nat)
    requires LowZeros(u, k) && LowZeros(v, k)
    ensures LowZeros(u - v, k)
    decreases k
  {
    if k > 0 {
      LowZerosSub(u / 2, v / 2, k - 1);
      assert (u - v) / 2 == u / 2 - v / 2;
    }
  }

  lemma {:induction false} LowZerosOfMultiple(q: int, n: nat, k: nat)
    requires k <= n
    ensures LowZeros(Pow2(n) * q, k)
    decreases k
  {
    if k > 0 {
      LowZerosOfMultiple(q, n - 1, k - 1);
      assert Pow2(n) * q == 2 * (Pow2(n - 1) * q);
    }
  }

  /** Doubling modulo 2^32 adds one low zero bit (up to 32). */
  lemma DoubleWrapLowZeros(z: nat, k: nat)
    requires k < 32 && LowZeros(z, k)
    ensures LowZeros((2 * z) % WORD, k + 1)
  {
    var w := 2 * z;
    assert LowZeros(w, k + 1);
    Pow2Word();
    LowZerosOfMultiple(w / WORD, 32, k + 1);
    LowZerosSub(w, WORD * (w / WORD), k + 1);
    assert w % WORD == w - WORD * (w / WORD);
  }

  lemma {:induction false} LowZerosPositive(y: int, k: nat)
    requires LowZeros(y, k) && y > 0
    ensures y >= Pow2(k)
    decreases k
  {
    if k > 0 {
      LowZerosPositive(y / 2, k - 1);
    }
  }

  // =================== Arithmetic obfuscation ===================

  /**
   * ObfuscateAdd: the carry loop `x = a ^ b; y = (a & b) << 1; while (y) { t = x ^ y;
   * y = (x & y) << 1; x = t; }`. It terminates (each round adds a low zero bit to
   * the carry) and computes the 32-bit wrapping sum.
   */
  method ObfuscateAdd(a: u32, b: u32) returns (r: u32)
    ensures r == (a + b) % WORD
  {
    AddStep(a, b, 0);
    var x: u32 := Xor(a, b);
    var y: u32 := (2 * And(a, b)) % WORD;
    ghost var k: nat := 1;
    while y != 0
      invariant (x + y) % WORD == (a + b) % WORD
      invariant k <= 32 && LowZeros(y, k)
      decreases 32 - k
    {
      AddStep(x, y, k);
      var temp: u32 := Xor(x, y);
      y := (2 * And(x, y)) % WORD;
      x := temp;
      k := k + 1;
    }
    r := x;
  }

  /**
   * One round of the carry loop: the new pair has the same sum modulo 2^32, and
   * the carry gains a low zero bit, so at most 32 rounds run.
   */
  lemma AddStep(x: u32, y: u32, k: nat)
    requires k <= 32 && LowZeros(y, k)
    requires k > 0 ==> y != 0
    ensures k < 32
    ensures Xor(x, y) < WORD
    ensures (Xor(x, y) + (2 * And(x, y)) % WORD) % WORD == (x + y) % WORD
    ensures LowZeros((2 * And(x, y)) % WORD, k + 1)
  {
    Pow2Word();
    if k > 0 {
      LowZerosPositive(y, k);
    }
    XorWord(x, y);
    CarryIdentity(x, y);
    AndKeepsLowZeros(x, y, k);
    DoubleWrapLowZeros(And(x, y), k);
    ModMulStep(2 * And(x, y), 1, Xor(x, y));
  }

  lemma ModMulStep(x: int, c: int, y: int)
    ensures ((x % WORD) * c + y) % WORD == (x * c + y) % WORD
  {
    var q := x / WORD;
    assert x == WORD * q + x % WORD;
    assert x * c == WORD * (q * c) + (x % WORD) * c;
  }

  /** Adding a multiple of 2^32 does not change the residue. */
  lemma ModShift(x: int, k: int)
    ensures (x + WORD * k) % WORD == x % WORD
  {
    var q := x / WORD;
    assert x + WORD * k == WORD * (q + k) + x % WORD;
  }

  /** The product of two patterns wraps to the same pattern as the product of their signed values. */
  lemma SignedProductWrap(a: u32, b: u32)
    ensures Wrap(Signed(a) * Signed(b)) == (a * b) % WORD
  {
    var sa, sb := Signed(a), Signed(b);
    if a < 0x8000_0000 && b < 0x8000_0000 {
      assert sa * sb == a * b;
    } else if b < 0x8000_0000 {
      assert sa == a - WORD;
      assert sa * sb == a * b + WORD * (-(b as int));
      ModShift(a * b, -(b as int));
    } else if a < 0x8000_0000 {
      assert sb == b - WORD;
      assert sa * sb == a * b + WORD * (-(a as int));
      ModShift(a * b, -(a as int));
    } else {
      assert sa == a - WORD && sb == b - WORD;
      assert sa * sb == a * b + WORD * (WORD - a - b);
      ModShift(a * b, WORD - a - b);
    }
  }

  /** One round of the shift-and-add loop keeps result + multiplier * multiplicand fixed modulo 2^32. */
  lemma MultiplyStep(result: u32, multiplier: u32, multiplicand: nat, a: u32, b: u32)
    requires (result + multiplier * multiplicand) % WORD == (a * b) % WORD
    ensures var r := if multiplicand % 2 == 1 then (result + multiplier) % WORD else result;
            (r + ((2 * multiplier) % WORD) * (multiplicand / 2)) % WORD == (a * b) % WORD
  {
    var half := multiplicand / 2;
    var low := if multiplicand % 2 == 1 then multiplier as int else 0;
    var r := if multiplicand % 2 == 1 then (result + multiplier) % WORD else result;
    var p := 2 * multiplier * half;
    SplitProduct(multiplier, multiplicand);
    assert multiplier * multiplicand == p + low;
    ModMulStep(2 * multiplier, half, r);
    assert (r + ((2 * multiplier) % WORD) * half) % WORD == (r + p) % WORD;
    ModMulStep(result + low, 1, 0);
    assert r % WORD == (result + low) % WORD;
    ModAddCongruent(r, result + low, p);
  }

  /** Splitting off the low bit of the multiplicand. */
  lemma SplitProduct(m: int, n: nat)
    ensures m * n == 2 * m * (n / 2) + (if n % 2 == 1 then m else 0)
  {
    var h := n / 2;
    if n % 2 == 1 {
      assert n == 2 * h + 1;
      assert m * n == m * (2 * h) + m;
    } else {
      assert n == 2 * h;
    }
  }

  lemma ModAddCongruent(x: int, y: int, z: int)
    requires x % WORD == y % WORD
    ensures (x + z) % WORD == (y + z) % WORD
  {
    ModMulStep(x, 1, z);
    ModMulStep(y, 1, z);
  }

  /**
   * ObfuscateMultiply as written: shift-and-add while the SIGNED multiplicand is
   * positive. For b >= 0 it is the 32-bit wrapping product; for a negative b the
   * loop never runs and the result is 0.
   */
  method ObfuscateMultiply(a: u32, b: u32) returns (r: u32)
    ensures Signed(b) >= 0 ==> r == Wrap(Signed(a) * Signed(b))
    ensures Signed(b) < 0 ==> r == 0
  {
    var result: u32 := 0;
    var multiplier: u32 := a;
    var multiplicand: u32 := b;
    while Signed(multiplicand) > 0
      invariant b < 0x8000_0000 ==> multiplicand < 0x8000_0000
      invariant b < 0x8000_0000 ==> (result + multiplier * multiplicand) % WORD == (a * b) % WORD
      invariant b >= 0x8000_0000 ==> multiplicand == b && result == 0
      decreases multiplicand
    {
      MultiplyStep(result, multiplier, multiplicand, a, b);
      if multiplicand % 2 == 1 {
        result := ObfuscateAdd(result, multiplier);
      }
      multiplier := (2 * multiplier) % WORD;
      multiplicand := multiplicand / 2;
    }
    if b < 0x8000_0000 {
      assert multiplicand == 0;
      assert multiplier * multiplicand == 0;
      assert result == (a * b) % WORD;
      SignedProductWrap(a, b);
    }
    r := result;
  }

  /** A negative multiplier exposes the discrepancy: 5 * -6 yields 0 instead of -30. */
  method ObfuscateMultiplyNegativeExample() returns (r: u32)
    ensures r == 0 && Wrap(5 * -6) != 0
  {
    r := ObfuscateMultiply(5, Wrap(-6));
  }

  /**
   * ObfuscateMultiply with an unsigned multiplicand (`while (multiplicand != 0)`
   * over the pattern): the 32-bit wrapping product for every pair of inputs.
   */
  method ObfuscateMultiplyUnsigned(a: u32, b: u32) returns (r: u32)
    ensures r == Wrap(Signed(a) * Signed(b))
  {
    var result: u32 := 0;
    var multiplier: u32 := a;
    var multiplicand: u32 := b;
    while multiplicand != 0
      invariant (result + multiplier * multiplicand) % WORD == (a * b) % WORD
      decreases multiplicand
    {
      MultiplyStep(result, multiplier, multiplicand, a, b);
      if multiplicand % 2 == 1 {
        result := ObfuscateAdd(result, multiplier);
      }
      multiplier := (2 * multiplier) % WORD;
      multiplicand := multiplicand / 2;
    }
    assert multiplier * multiplicand == 0;
    assert result == (a * b) % WORD;
    SignedProductWrap(a, b);
    r := result;
  }

  // =================== Integrity ===================

  /**
   * VerifyIntegrity: an empty expected hash skips the check; otherwise the
   * hash of the executable (I/O, given as `currentHash`) must equal it.
   */
  function VerifyIntegrity(expectedHash: string, currentHash: string): (r: bool)
    ensures expectedHash == [] ==> r
    ensures expectedHash != [] ==> (r <==> currentHash == expectedHash)
  {
    if expectedHash == [] then true else currentHash == expectedHash
  }

  // =================== Anti-debug monitor flag ===================

  /**
   * The `g_antiDebugRunning` flag. `spawned` counts the monitor threads started,
   * so that a second Start can be seen to start nothing.
   */
  class AntiDebugMonitor {
    var running: bool
    ghost var spawned: nat

    constructor ()
      ensures !running && spawned == 0
    {
      running := false;
      spawned := 0;
    }

    /** StartAntiDebugMonitor: `exchange(true)`; a thread is started only if the flag was clear. */
    method Start()
      modifies this
      ensures running
      ensures spawned == if old(running) then old(spawned) else old(spawned) + 1
    {
      var wasRunning := running;
      running := true;
      if !wasRunning {
        spawned := spawned + 1;
      }
    }

    /** StopAntiDebugMonitor: clears the flag (the thread join is not modelled). */
    method Stop()
      modifies this
      ensures !running && spawned == old(spawned)
    {
      running := false;
    }
  }
}
