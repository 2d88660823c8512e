/** The djb2-style string hash of chaos.h: h starts at 5381 and, per byte,
    becomes h * 33 (modulo 2^32) XOR the byte as a C `char` promoted to `uint32_t`. */
module Hash {
  import opened Common

  /** Initial accumulator of the hash. */
  const Seed: bv32 := 5381

  /** A C `char` is signed on the targets the library is built for, so a byte at or above
      0x80 is sign-extended when it is promoted for the XOR. */
  function SignExtend(c: Byte): (w: bv32)
    ensures w & 0xFF == c as bv32
    ensures c < 0x80 ==> w == c as bv32
    ensures c >= 0x80 ==> w & 0xFFFF_FF00 == 0xFFFF_FF00
  {
    if c < 0x80 then c as bv32 else c as bv32 | 0xFFFF_FF00
  }

  /** One round of the hash. `bv32` arithmetic wraps modulo 2^32 as `uint32_t` does. */
  function Step(h: bv32, c: Byte): bv32
  {
    (h * 33) ^ SignExtend(c)
  }

  /** The hash of a whole byte string, folded from the left. */
  function Djb33(s: seq<Byte>): bv32
    decreases |s|
  {
    if s == [] then Seed else Step(Djb33(s[..|s| - 1]), s[|s| - 1])
  }

  /** `h += h << 5` is the multiplication by 33 modulo 2^32. */
  lemma ShiftAddIsTimes33(h: bv32)
    ensures h + (h << 5) == h * 33
  {
  }

  /** Hashing one more byte is one more round. */
  lemma Djb33Snoc(s: seq<Byte>, i: nat)
    requires i < |s|
    ensures Djb33(s[..i + 1]) == Step(Djb33(s[..i]), s[i])
  {
    assert s[..i + 1][..i] == s[..i];
  }

  /** The body of the hash loop as the C code writes it: shift-add, then XOR. */
  function Round(h: bv32, c: Byte): (r: bv32)
    ensures r == Step(h, c)
  {
    ShiftAddIsTimes33(h);
    (h + (h << 5)) ^ SignExtend(c)
  }

  /** djb33_hash: the loop over the first `len` bytes. Only those bytes matter. */
  method Djb33Hash(s: seq<Byte>, len: nat) returns (h: bv32)
    requires len <= |s|
    ensures h == Djb33(s[..len])
  {
    h := Seed;
    var i := 0;
    while i < len
      invariant i <= len
      invariant h == Djb33(s[..i])
    {
      Djb33Snoc(s, i);
      h := Round(h, s[i]);
      i := i + 1;
    }
  }

  /** Two strings that agree on their first `len` bytes hash alike under `len`. */
  lemma {:induction false} HashReadsOnlyPrefix(s: seq<Byte>, t: seq<Byte>, len: nat)
    requires len <= |s| && len <= |t|
    requires forall i :: 0 <= i < len ==> s[i] == t[i]
    ensures Djb33(s[..len]) == Djb33(t[..len])
  {
    assert s[..len] == t[..len];
  }

  /** On ASCII bytes the sign extension is invisible: the hash XORs the byte's plain value. */
  lemma AsciiStep(h: bv32, c: Byte)
    requires c < 0x80
    ensures Step(h, c) == (h * 33) ^ (c as bv32)
  {
  }

  /** A byte at or above 0x80 flips the top 24 bits as well: the hash differs from
      the one that XORs the unsigned byte value. */
  lemma HighByteStep(h: bv32, c: Byte)
    requires c >= 0x80
    ensures Step(h, c) != (h * 33) ^ (c as bv32)
  {
  }
}
