/** Bytes, 32-bit status words and the EEPROM they are mirrored into.

    The controller keeps its point and occupancy state in two `unsigned long`
    words.  A word is modelled as the sequence of its 32 bits, bit k at index k,
    so `bitRead(w, k)` is `w[k]` and `bitWrite(w, k, b)` is `w[k := b]`.
 */
module Bytes {

  type Byte = bv8

  /** `unsigned int` on the AVR: 16 bits. */
  const U16Limit := 0x1_0000
  type U16 = n: int | 0 <= n < U16Limit

  /** An `unsigned long` seen bit by bit: index k is bit k. */
  type Word = w: seq<bool> | |w| == 32 
    witness [false, false, false, false, false, false, false, false,
     false, false, false, false, false, false, false, false,
     false, false, false, false, false, false, false, false,
     false, false, false, false, false, false, false, false]

  /** All 32 bits clear. */
  const ZeroWord: Word :=
    [false, false, false, false, false, false, false, false,
     false, false, false, false, false, false, false, false,
     false, false, false, false, false, false, false, false,
     false, false, false, false, false, false, false, false]

  const Mask8: seq<Byte> := [0x01, 0x02, 0x04, 0x08, 0x10, 0x20, 0x40, 0x80]

  /** `bitRead(b, k)` on a byte. */
  predicate Bit8(b: Byte, k: nat)
    requires k < 8
  {
    b & Mask8[k] != 0
  }

  /** The byte arithmetic `(id - 1) & 0x1F` that turns a point or TOTI number
      1..32 into a bit index; every byte lands in 0..31, so 0 wraps to 31 and
      33..255 wrap modulo 32. */
  function WrapIndex(id: Byte): (k: nat)
    ensures k < 32
    ensures 1 <= id as int <= 32 ==> k == id as int - 1
    ensures id == 0 ==> k == 31
  {
    ((id - 1) & 0x1F) as nat
  }

  /** Every identifier, 33..255 included, names bit (id - 1) mod 32. */
  lemma WrapIndexModulo(id: Byte)
    ensures WrapIndex(id) == (id as int - 1) % 32
  {
  }

  /** The byte naming bit index `y` as an identifier 1..32. */
  function IdOf(y: nat): (id: Byte)
    requires y < 32
    ensures WrapIndex(id) == y
  {
    (y + 1) as Byte
  }
}

/** The on-chip EEPROM, shared by the point mirror (0x000..0x027) and the
    three wear-levelled state machines (0x100..0x27F).  `EEPROM.update` is
    modelled as plain assignment; the settle delays after each write have no
    functional effect. */
module Eeprom {
  import opened Bytes

  /** 4 KB, the EEPROM of the ATmega2560 this sketch drives. */
  const Size := 4096

  /** What the EEPROM holds when never written, and the "clear" marker. */
  const Erased: Byte := 0xFF

  type Store = e: seq<Byte> | |e| == Size witness seq(Size, i => 0xFF)

  /** Writes the erased value to the `n` addresses from `base` upwards, in
      ascending order, as the wipe loops of the point mirror and of the state
      machines do. */
  function EraseRange(e: Store, base: nat, n: nat): (r: Store)
    requires base + n <= Size
    ensures forall a :: base <= a < base + n ==> r[a] == Erased
    ensures forall a :: 0 <= a < Size && !(base <= a < base + n) ==> r[a] == e[a]
    decreases n
  {
    if n == 0 then e else EraseRange(e, base, n - 1)[base + n - 1 := Erased]
  }

  /** The two stores agree on every address outside [lo, hi). */
  predicate SameOutside(e: Store, e': Store, lo: int, hi: int)
  {
    forall a :: 0 <= a < Size && !(lo <= a < hi) ==> e'[a] == e[a]
  }
}
