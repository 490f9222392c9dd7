/** Machine words of the interpreter and the bit operations it applies to them.
    Rust's `u8` and `u16` are modelled as bounded subsets of `int`; shifting
    right and masking are modelled with division and remainder. */
module Words {

  /** An unsigned 8-bit value (`u8`). */
  type byte = b: int | 0 <= b < 256

  /** An unsigned 16-bit value (`u16`). */
  type u16 = w: int | 0 <= w < 0x1_0000

  /** `a >> s`: `a` shifted right by `s` bits, one halving per bit. */
  function Shr(a: nat, s: nat): (r: nat)
    ensures r <= a
    ensures s > 0 && a > 0 ==> r < a
  {
    if s == 0 then a else Shr(a / 2, s - 1)
  }

  /** `(a >> k) & 1 == 1`: bit `k` of `a`, counted from the least significant. */
  predicate TestBit(a: nat, k: nat) {
    Shr(a, k) % 2 == 1
  }

  /** `a & b` on non-negative integers: the bits that are set in both. */
  function BitAnd(a: nat, b: nat): (r: nat)
    ensures r <= a && r <= b
  {
    if a == 0 || b == 0 then 0
    else 2 * BitAnd(a / 2, b / 2) + (if a % 2 == 1 && b % 2 == 1 then 1 else 0)
  }

  /** Halving commutes with `&`: `(a & b) >> 1 == (a >> 1) & (b >> 1)`. */
  lemma {:induction false} BitAndHalf(a: nat, b: nat)
    ensures BitAnd(a, b) / 2 == BitAnd(a / 2, b / 2)
    ensures BitAnd(a, b) % 2 == 1 <==> a % 2 == 1 && b % 2 == 1
  {
  }

  /** Shifting commutes with `&`. */
  lemma {:induction false} ShrBitAnd(a: nat, b: nat, s: nat)
    ensures Shr(BitAnd(a, b), s) == BitAnd(Shr(a, s), Shr(b, s))
  {
    if s > 0 {
      BitAndHalf(a, b);
      ShrBitAnd(a / 2, b / 2, s - 1);
    }
  }

  /** Bit `k` of `a & b` is set exactly when bit `k` is set in both `a` and `b`. */
  lemma BitAndBits(a: nat, b: nat, k: nat)
    ensures TestBit(BitAnd(a, b), k) <==> TestBit(a, k) && TestBit(b, k)
  {
    ShrBitAnd(a, b, k);
    BitAndHalf(Shr(a, k), Shr(b, k));
  }
}
