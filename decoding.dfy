/** Fetching an instruction word from two memory bytes and splitting it into
    the operand fields every opcode reads (src/main.rs, lines 45-52). */
module Decoding {
  import opened Words

  /** The fields of one instruction word `0xOXYN`: the opcode group `O`
      (the high nibble the dispatch matches on), `x`, `y`, `n`, and the low
      byte `nn` and low twelve bits `nnn`. */
  datatype Fields = Fields(op: nat, x: nat, y: nat, n: nat, nn: nat, nnn: nat)

  /** `(hi << 8) | lo`: the big-endian word stored in the bytes `hi`, `lo`. */
  function Fetch(hi: byte, lo: byte): (w: u16)
    ensures w / 256 == hi && w % 256 == lo
  {
    hi * 256 + lo
  }

  /** `x = (w >> 8) & 0xF`, `y = (w >> 4) & 0xF`, `n = w & 0xF`,
      `nn = w & 0xFF`, `nnn = w & 0xFFF`, and the group `w & 0xF000`
      shifted down to a nibble. */
  function Decode(w: u16): (f: Fields)
    ensures f.op < 16 && f.x < 16 && f.y < 16 && f.n < 16
    ensures f.nn == 16 * f.y + f.n
    ensures f.nnn == 256 * f.x + f.nn
    ensures w == 4096 * f.op + f.nnn
  {
    NibbleSplit(w);
    Fields(w / 4096, (w / 256) % 16, (w / 16) % 16, w % 16, w % 256, w % 4096)
  }

  /** Peeling one nibble off the bottom of `w`: `w == 16 * (w / 16) + w % 16`. */
  lemma Peel(w: nat)
    ensures w == 16 * (w / 16) + w % 16 && w % 16 < 16
  {
  }

  /** The masks and shifts of `Decode`, related by peeling off three nibbles. */
  lemma NibbleSplit(w: u16)
    ensures w % 256 == 16 * ((w / 16) % 16) + w % 16
    ensures w % 4096 == 256 * ((w / 256) % 16) + w % 256
    ensures w == 4096 * (w / 4096) + w % 4096
    ensures w / 4096 < 16
  {
    var a := w / 16;
    var b := a / 16;
    var c := b / 16;
    Peel(w);
    Peel(a);
    Peel(b);
    assert w / 256 == b && w / 4096 == c;
    assert w == 4096 * c + 256 * (b % 16) + 16 * (a % 16) + w % 16;
  }

  /** The instruction word `0xOXYN` built from its four nibbles. */
  function Encode(op: nat, x: nat, y: nat, n: nat): (w: u16)
    requires op < 16 && x < 16 && y < 16 && n < 16
    ensures w / 4096 == op
  {
    4096 * op + 256 * x + 16 * y + n
  }

  /** Decoding recovers the nibbles a word was built from. */
  lemma DecodeEncode(op: nat, x: nat, y: nat, n: nat)
    requires op < 16 && x < 16 && y < 16 && n < 16
    ensures Decode(Encode(op, x, y, n)) ==
            Fields(op, x, y, n, 16 * y + n, 256 * x + 16 * y + n)
  {
    var w := Encode(op, x, y, n);
    var f := Decode(w);
    assert 4096 * f.op + 256 * f.x + 16 * f.y + f.n == 4096 * op + 256 * x + 16 * y + n;
    NibblesUnique(f.op, f.x, f.y, f.n, op, x, y, n);
  }

  /** Encoding the fields of a decoded word gives the word back. */
  lemma EncodeDecode(w: u16)
    ensures Encode(Decode(w).op, Decode(w).x, Decode(w).y, Decode(w).n) == w
  {
  }

  /** Two nibble sequences that denote the same word are equal. */
  lemma NibblesUnique(a0: nat, a1: nat, a2: nat, a3: nat, b0: nat, b1: nat, b2: nat, b3: nat)
    requires a0 < 16 && a1 < 16 && a2 < 16 && a3 < 16
    requires b0 < 16 && b1 < 16 && b2 < 16 && b3 < 16
    requires 4096 * a0 + 256 * a1 + 16 * a2 + a3 == 4096 * b0 + 256 * b1 + 16 * b2 + b3
    ensures a0 == b0 && a1 == b1 && a2 == b2 && a3 == b3
  {
  }

  /** The worked example: `0xD12A` is a draw with `x = 1`, `y = 2`, `n = 0xA`. */
  lemma DecodeDrawExample()
    ensures Decode(0xD12A) == Fields(0xD, 1, 2, 0xA, 0x2A, 0x12A)
  {
  }
}
