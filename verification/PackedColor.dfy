/** Blending of packed 32-bit colours. A word is a natural number; machine arithmetic wraps explicitly. */
module PackedColor {
  function Pow2(n: nat): (p: nat)
    ensures p > 0
  {
    if n == 0 then 1 else 2 * Pow2(n - 1)
  }

  const WORD32 := 0x1_0000_0000
  const WORD64 := 0x1_0000_0000_0000_0000

  type U32 = x: nat | x < WORD32

  /** The operator &, bit by bit. */
  function BitAnd(x: nat, y: nat): nat {
    if x == 0 || y == 0 then 0 else 2 * BitAnd(x / 2, y / 2) + if x % 2 == 1 && y % 2 == 1 then 1 else 0
  }

  /** The operator |, bit by bit. */
  function BitOr(x: nat, y: nat): nat {
    if x == 0 then y else if y == 0 then x
    else 2 * BitOr(x / 2, y / 2) + if x % 2 == 1 || y % 2 == 1 then 1 else 0
  }

  /** Logical shifts of a word with the given modulus. */
  function Shl(x: nat, n: nat, modulus: nat): nat
    requires modulus > 0
  {
    (x * Pow2(n)) % modulus
  }

  function Shr(x: nat, n: nat): nat {
    QuotientNotNegative(x, Pow2(n));
    x / Pow2(n)
  }

  lemma QuotientNotNegative(x: nat, d: nat)
    requires d > 0
    ensures x / d >= 0
  {
  }

  /** al * af + bl * bf in unsigned arithmetic. */
  function MulAdd(x: nat, f: nat, y: nat, g: nat, modulus: nat): nat
    requires modulus > 0
  {
    ((x * f) % modulus + (y * g) % modulus) % modulus
  }

  /** ImMixU32 in its 32-bit form. */
  function Mix32(a: U32, b: U32, s: U32): nat {
    var af, bf := (256 - s) % WORD32, s;
    var al := BitAnd(a, 0x00ff00ff);
    var ah := Shr(BitAnd(a, 0xff00ff00), 8);
    var bl := BitAnd(b, 0x00ff00ff);
    var bh := Shr(BitAnd(b, 0xff00ff00), 8);
    var ml := MulAdd(al, af, bl, bf, WORD32);
    var mh := MulAdd(ah, af, bh, bf, WORD32);
    BitOr(BitAnd(mh, 0xff00ff00), Shr(BitAnd(ml, 0xff00ff00), 8))
  }

  /** ImMixU32 in its 64-bit form. */
  function Mix64(a: U32, b: U32, s: U32): nat {
    var af, bf := (256 - s) % WORD32, s;
    var al := BitOr(BitAnd(a, 0x00ff00ff), Shl(BitAnd(a, 0xff00ff00), 24, WORD64));
    var bl := BitOr(BitAnd(b, 0x00ff00ff), Shl(BitAnd(b, 0xff00ff00), 24, WORD64));
    var mix := MulAdd(al, af, bl, bf, WORD64);
    BitOr(BitAnd(Shr(mix, 32), 0xff00ff00), Shr(BitAnd(mix, 0xff00ff00), 8)) % WORD32
  }

  // ---------- Lanes ----------

  /** hi above the lowest w bits. */
  function Above(w: nat, hi: nat): (x: nat)
    ensures w == 0 ==> x == hi
  {
    Pow2(w) * hi
  }

  lemma AboveNext(w: nat, hi: nat)
    requires w > 0
    ensures Above(w, hi) == 2 * Above(w - 1, hi)
  {
    assert Pow2(w) * hi == 2 * (Pow2(w - 1) * hi);
  }

  lemma AndStep(x: nat, y: nat)
    ensures BitAnd(x, y) == 2 * BitAnd(x / 2, y / 2) + if x % 2 == 1 && y % 2 == 1 then 1 else 0
  {
  }

  lemma OrStep(x: nat, y: nat)
    ensures BitOr(x, y) == 2 * BitOr(x / 2, y / 2) + if x % 2 == 1 || y % 2 == 1 then 1 else 0
  {
  }

  /** The operators & and | work on the low and the high parts of a word separately. */
  lemma {:induction false} BitParts(w: nat, lo: nat, hi: nat, mlo: nat, mhi: nat)
    requires lo < Pow2(w) && mlo < Pow2(w)
    ensures BitAnd(lo + Above(w, hi), mlo + Above(w, mhi)) == BitAnd(lo, mlo) + Above(w, BitAnd(hi, mhi))
    ensures BitOr(lo + Above(w, hi), mlo + Above(w, mhi)) == BitOr(lo, mlo) + Above(w, BitOr(hi, mhi))
  {
    hide Above, BitAnd, BitOr;
    AndStep(lo, mlo);
    OrStep(lo, mlo);
    if w == 0 {
      AndZero();
    } else {
      AboveNext(w, hi);
      AboveNext(w, mhi);
      AboveNext(w, BitAnd(hi, mhi));
      AboveNext(w, BitOr(hi, mhi));
      AndStep(lo + Above(w, hi), mlo + Above(w, mhi));
      OrStep(lo + Above(w, hi), mlo + Above(w, mhi));
      BitParts(w - 1, lo / 2, hi, mlo / 2, mhi);
    }
  }

  lemma AndZero()
    ensures BitAnd(0, 0) == 0 && BitOr(0, 0) == 0
  {
  }

  lemma {:induction false} AndAllOnes(w: nat, x: nat)
    requires x < Pow2(w)
    ensures BitAnd(x, Pow2(w) - 1) == x
  {
    if w > 0 {
      AndAllOnes(w - 1, x / 2);
      AndStep(x, Pow2(w) - 1);
    }
  }

  lemma {:induction false} OrNothing(x: nat)
    ensures BitOr(x, 0) == x && BitOr(0, x) == x && BitAnd(x, 0) == 0
  {
  }

  // ---------- Four channels to a word ----------

  type Byte = x: nat | x < 256

  function Lanes(b0: Byte, b1: Byte, b2: Byte, b3: Byte): U32 {
    b0 + 256 * (b1 + 256 * (b2 + 256 * b3))
  }

  /** Channel c of a colour, counted from the lowest byte. */
  function Channel(x: U32, c: nat): Byte
    requires c < 4
  {
    if c == 0 then x % 256 else if c == 1 then x / 256 % 256 else if c == 2 then x / 65536 % 256 else x / 16777216
  }

  lemma LanesOfChannels(x: U32)
    ensures x == Lanes(Channel(x, 0), Channel(x, 1), Channel(x, 2), Channel(x, 3))
  {
    var h, w := x / 256, x / 65536;
    assert x == 256 * h + x % 256;
    assert h / 256 == w && h == 256 * w + h % 256;
    assert w / 256 == x / 16777216 && w == 256 * (w / 256) + w % 256;
  }

  lemma ChannelsOfLanes(b0: Byte, b1: Byte, b2: Byte, b3: Byte)
    ensures var x := Lanes(b0, b1, b2, b3);
            Channel(x, 0) == b0 && Channel(x, 1) == b1 && Channel(x, 2) == b2 && Channel(x, 3) == b3
  {
  }

  lemma AboveByte(hi: nat)
    ensures Pow2(8) == 256 && Above(8, hi) == 256 * hi
  {
  }

  lemma BitByte(lo: Byte, hi: nat, mlo: Byte, mhi: nat)
    ensures BitAnd(lo + 256 * hi, mlo + 256 * mhi) == BitAnd(lo, mlo) + 256 * BitAnd(hi, mhi)
    ensures BitOr(lo + 256 * hi, mlo + 256 * mhi) == BitOr(lo, mlo) + 256 * BitOr(hi, mhi)
  {
    hide BitAnd, BitOr, Above;
    AboveByte(hi);
    AboveByte(mhi);
    AboveByte(BitAnd(hi, mhi));
    AboveByte(BitOr(hi, mhi));
    BitParts(8, lo, hi, mlo, mhi);
  }

  lemma MaskByte(b: Byte)
    ensures BitAnd(b, 255) == b && BitAnd(b, 0) == 0
  {
    AboveByte(0);
    AndAllOnes(8, b);
    OrNothing(b);
  }

  /** The two masks of the blend keep every other channel. */
  lemma MaskLanes(b0: Byte, b1: Byte, b2: Byte, b3: Byte)
    ensures BitAnd(Lanes(b0, b1, b2, b3), 0x00ff00ff) == Lanes(b0, 0, b2, 0)
    ensures BitAnd(Lanes(b0, b1, b2, b3), 0xff00ff00) == Lanes(0, b1, 0, b3)
  {
    hide BitAnd, BitOr;
    MaskByte(b0);
    MaskByte(b1);
    MaskByte(b2);
    MaskByte(b3);
    BitByte(b2, b3, 255, 0);
    BitByte(b1, b2 + 256 * b3, 0, 255);
    BitByte(b0, b1 + 256 * (b2 + 256 * b3), 255, 256 * 255);
    BitByte(b2, b3, 0, 255);
    BitByte(b1, b2 + 256 * b3, 255, 256 * 255);
    BitByte(b0, b1 + 256 * (b2 + 256 * b3), 0, 255 + 256 * (256 * 255));
  }

  /** Putting the even and the odd channels together. */
  lemma JoinLanes(b0: Byte, b1: Byte, b2: Byte, b3: Byte)
    ensures BitOr(Lanes(0, b1, 0, b3), Lanes(b0, 0, b2, 0)) == Lanes(b0, b1, b2, b3)
  {
    hide BitAnd, BitOr;
    OrNothing(b0);
    OrNothing(b1);
    OrNothing(b2);
    OrNothing(b3);
    BitByte(0, b3, b2, 0);
    BitByte(b1, 256 * b3, 0, b2);
    BitByte(0, b1 + 256 * (256 * b3), b0, 256 * b2);
  }

  // ---------- The blend ----------

  /** One channel of the blend, before and after the division by 256. */
  function Weighted(x: Byte, y: Byte, s: nat): int
    requires s <= 256
  {
    x * (256 - s) + y * s
  }

  function Blend(x: Byte, y: Byte, s: nat): Byte
    requires s <= 256
  {
    WeightedFits(x, y, s);
    Weighted(x, y, s) / 256
  }

  lemma WeightedFits(x: Byte, y: Byte, s: nat)
    requires s <= 256
    ensures 0 <= Weighted(x, y, s) <= 65280
  {
    Scaled(x, 256 - s);
    Scaled(y, s);
  }

  lemma Scaled(x: Byte, f: nat)
    ensures 0 <= x * f <= 255 * f
  {
  }

  lemma Distribute(x0: nat, x2: nat, f: nat)
    ensures (x0 + 65536 * x2) * f == x0 * f + 65536 * (x2 * f)
  {
  }

  /** Without overflow the wrap-around does nothing. */
  lemma NoOverflow(x: nat, f: nat, y: nat, g: nat, modulus: nat)
    requires modulus > 0 && x * f + y * g < modulus
    ensures MulAdd(x, f, y, g, modulus) == x * f + y * g
  {
    Remainder(x * f, modulus);
    Remainder(y * g, modulus);
    Remainder(x * f + y * g, modulus);
  }

  lemma Remainder(x: nat, modulus: nat)
    requires modulus > 0 && x < modulus
    ensures x % modulus == x
  {
  }

  lemma EvenLanes(b0: Byte, b2: Byte)
    ensures Lanes(b0, 0, b2, 0) == b0 + 65536 * b2
  {
  }

  /** One multiplication blends two channels sixteen bits apart, with no carry from the lower one into
      the upper one and no overflow of the word. */
  lemma TwoLanes(x0: Byte, x2: Byte, y0: Byte, y2: Byte, s: nat)
    requires s <= 256
    ensures Lanes(x0, 0, x2, 0) * (256 - s) + Lanes(y0, 0, y2, 0) * s == Weighted(x0, y0, s) + 65536 * Weighted(x2, y2, s)
    ensures 0 <= Weighted(x0, y0, s) < 65536 && 0 <= Weighted(x2, y2, s) < 65536
  {
    hide Lanes;
    EvenLanes(x0, x2);
    EvenLanes(y0, y2);
    WeightedFits(x0, y0, s);
    WeightedFits(x2, y2, s);
    Distribute(x0, x2, 256 - s);
    Distribute(y0, y2, s);
  }

  lemma HighBytes(u: nat, v: nat)
    requires u <= 65280 && v <= 65280
    ensures Shr(BitAnd(u + 65536 * v, 0xff00ff00), 8) == Lanes(u / 256, 0, v / 256, 0)
    ensures BitAnd(u + 65536 * v, 0xff00ff00) == Lanes(0, u / 256, 0, v / 256)
  {
    hide BitAnd;
    MaskLanes(u % 256, u / 256, v % 256, v / 256);
    AboveByte(0);
  }

  /** All four channels of the blended colour. */
  function Blended(a: U32, b: U32, s: nat): U32
    requires s <= 256
  {
    Lanes(Blend(Channel(a, 0), Channel(b, 0), s), Blend(Channel(a, 1), Channel(b, 1), s),
          Blend(Channel(a, 2), Channel(b, 2), s), Blend(Channel(a, 3), Channel(b, 3), s))
  }

  /** The even and the odd channels of a colour, each as the blend extracts them. */
  lemma SplitColor(x: U32)
    ensures BitAnd(x, 0x00ff00ff) == Lanes(Channel(x, 0), 0, Channel(x, 2), 0)
    ensures Shr(BitAnd(x, 0xff00ff00), 8) == Lanes(Channel(x, 1), 0, Channel(x, 3), 0)
    ensures BitAnd(x, 0xff00ff00) == 256 * Lanes(Channel(x, 1), 0, Channel(x, 3), 0)
  {
    hide BitAnd;
    LanesOfChannels(x);
    MaskLanes(Channel(x, 0), Channel(x, 1), Channel(x, 2), Channel(x, 3));
    AboveByte(0);
  }

  /** What both forms assemble the result from: the blended even and odd channels. */
  function Evens(a: U32, b: U32, s: nat): int
    requires s <= 256
  {
    Weighted(Channel(a, 0), Channel(b, 0), s) + 65536 * Weighted(Channel(a, 2), Channel(b, 2), s)
  }

  function Odds(a: U32, b: U32, s: nat): int
    requires s <= 256
  {
    Weighted(Channel(a, 1), Channel(b, 1), s) + 65536 * Weighted(Channel(a, 3), Channel(b, 3), s)
  }

  /** The even channels of both colours, blended by one product, and the odd ones likewise. */
  lemma ProductsAre(a: U32, b: U32, s: nat)
    requires s <= 256
    ensures Lanes(Channel(a, 0), 0, Channel(a, 2), 0) * (256 - s) + Lanes(Channel(b, 0), 0, Channel(b, 2), 0) * s == Evens(a, b, s)
    ensures Lanes(Channel(a, 1), 0, Channel(a, 3), 0) * (256 - s) + Lanes(Channel(b, 1), 0, Channel(b, 3), 0) * s == Odds(a, b, s)
    ensures 0 <= Evens(a, b, s) < WORD32 && 0 <= Odds(a, b, s) < WORD32
  {
    hide Lanes, Channel, Weighted;
    TwoLanes(Channel(a, 0), Channel(a, 2), Channel(b, 0), Channel(b, 2), s);
    TwoLanes(Channel(a, 1), Channel(a, 3), Channel(b, 1), Channel(b, 3), s);
  }

  function Assembled(evens: int, odds: int): nat
    requires evens >= 0 && odds >= 0
  {
    BitOr(BitAnd(odds, 0xff00ff00), Shr(BitAnd(evens, 0xff00ff00), 8))
  }

  lemma Mix32Assembles(a: U32, b: U32, s: U32)
    requires s <= 256
    ensures Evens(a, b, s) >= 0 && Odds(a, b, s) >= 0
    ensures Mix32(a, b, s) == Assembled(Evens(a, b, s), Odds(a, b, s))
  {
    hide BitAnd, BitOr, MulAdd, Lanes, Channel, Shr, Evens, Odds;
    SplitColor(a);
    SplitColor(b);
    ProductsAre(a, b, s);
    NoOverflow(Lanes(Channel(a, 0), 0, Channel(a, 2), 0), 256 - s, Lanes(Channel(b, 0), 0, Channel(b, 2), 0), s, WORD32);
    NoOverflow(Lanes(Channel(a, 1), 0, Channel(a, 3), 0), 256 - s, Lanes(Channel(b, 1), 0, Channel(b, 3), 0), s, WORD32);
  }

  lemma AssembledIsBlend(a: U32, b: U32, s: nat)
    requires s <= 256
    ensures Evens(a, b, s) >= 0 && Odds(a, b, s) >= 0
    ensures Assembled(Evens(a, b, s), Odds(a, b, s)) == Blended(a, b, s)
  {
    hide BitAnd, BitOr, Lanes, Channel, Shr, Weighted;
    var a0, a1, a2, a3 := Channel(a, 0), Channel(a, 1), Channel(a, 2), Channel(a, 3);
    var b0, b1, b2, b3 := Channel(b, 0), Channel(b, 1), Channel(b, 2), Channel(b, 3);
    WeightedFits(a0, b0, s);
    WeightedFits(a1, b1, s);
    WeightedFits(a2, b2, s);
    WeightedFits(a3, b3, s);
    HighBytes(Weighted(a0, b0, s), Weighted(a2, b2, s));
    HighBytes(Weighted(a1, b1, s), Weighted(a3, b3, s));
    JoinLanes(Blend(a0, b0, s), Blend(a1, b1, s), Blend(a2, b2, s), Blend(a3, b3, s));
  }

  // ---------- The 64-bit form ----------

  const HIGH := 0x1_0000_0000

  lemma AboveWord(hi: nat)
    ensures Pow2(32) == HIGH && Above(32, hi) == HIGH * hi && Pow2(24) == 0x100_0000
  {
    assert Pow2(8) == 256;
    assert Pow2(16) == 65536;
    assert Pow2(24) == 0x100_0000;
    assert Pow2(32) == HIGH;
  }

  lemma BitWord(lo: U32, hi: nat, mlo: U32, mhi: nat)
    ensures BitAnd(lo + HIGH * hi, mlo + HIGH * mhi) == BitAnd(lo, mlo) + HIGH * BitAnd(hi, mhi)
    ensures BitOr(lo + HIGH * hi, mlo + HIGH * mhi) == BitOr(lo, mlo) + HIGH * BitOr(hi, mhi)
  {
    hide BitAnd, BitOr, Above, Pow2;
    AboveWord(hi);
    AboveWord(mhi);
    AboveWord(BitAnd(hi, mhi));
    AboveWord(BitOr(hi, mhi));
    BitParts(32, lo, hi, mlo, mhi);
  }

  /** The spread-out colour: the even channels in the low word, the odd ones in the high word. */
  lemma SpreadColor(x: U32)
    ensures BitOr(BitAnd(x, 0x00ff00ff), Shl(BitAnd(x, 0xff00ff00), 24, WORD64))
         == Lanes(Channel(x, 0), 0, Channel(x, 2), 0) + HIGH * Lanes(Channel(x, 1), 0, Channel(x, 3), 0)
  {
    hide BitAnd, BitOr, Lanes, Channel, Pow2;
    var even: nat := Lanes(Channel(x, 0), 0, Channel(x, 2), 0);
    var odd: nat := Lanes(Channel(x, 1), 0, Channel(x, 3), 0);
    SplitColor(x);
    AboveWord(0);
    assert Shl(256 * odd, 24, WORD64) == HIGH * odd;
    BitWord(even, 0, 0, odd);
    OrNothing(even);
    OrNothing(odd);
  }

  lemma DistributeWord(lo: nat, hi: nat, f: nat)
    ensures (lo + HIGH * hi) * f == lo * f + HIGH * (hi * f)
  {
  }

  /** The even and the odd channels are blended side by side by one 64-bit multiplication. */
  lemma TwoWords(xe: U32, xo: U32, ye: U32, yo: U32, f: nat, g: nat)
    requires xe * f + ye * g < WORD32 && xo * f + yo * g < WORD32
    ensures MulAdd(xe + HIGH * xo, f, ye + HIGH * yo, g, WORD64) == (xe * f + ye * g) + HIGH * (xo * f + yo * g)
  {
    DistributeWord(xe, xo, f);
    DistributeWord(ye, yo, g);
    NoOverflow(xe + HIGH * xo, f, ye + HIGH * yo, g, WORD64);
  }

  /** The result is assembled from the high word and the low word of the product. */
  lemma AssembleWords(lo: U32, hi: U32)
    ensures BitAnd(Shr(lo + HIGH * hi, 32), 0xff00ff00) == BitAnd(hi, 0xff00ff00)
    ensures BitAnd(lo + HIGH * hi, 0xff00ff00) == BitAnd(lo, 0xff00ff00)
  {
    hide BitAnd, BitOr, Pow2;
    AboveWord(0);
    BitWord(lo, hi, 0xff00ff00, 0);
    OrNothing(hi);
  }

  lemma Mix64Assembles(a: U32, b: U32, s: U32)
    requires s <= 256
    ensures Evens(a, b, s) >= 0 && Odds(a, b, s) >= 0
    ensures Mix64(a, b, s) == Assembled(Evens(a, b, s), Odds(a, b, s)) % WORD32
  {
    hide BitAnd, BitOr, MulAdd, Lanes, Channel, Shr, Shl, Evens, Odds;
    SpreadColor(a);
    SpreadColor(b);
    ProductsAre(a, b, s);
    TwoWords(Lanes(Channel(a, 0), 0, Channel(a, 2), 0), Lanes(Channel(a, 1), 0, Channel(a, 3), 0),
             Lanes(Channel(b, 0), 0, Channel(b, 2), 0), Lanes(Channel(b, 1), 0, Channel(b, 3), 0), 256 - s, s);
    AssembleWords(Evens(a, b, s), Odds(a, b, s));
  }

  /** The two forms of ImMixU32 are equal, and no bit is lost outside the word. */
  lemma MixFormsAgree(a: U32, b: U32, s: U32)
    requires s <= 256
    ensures Mix32(a, b, s) == Mix64(a, b, s) == Blended(a, b, s)
  {
    hide Mix32, Mix64, Assembled, Evens, Odds, Blended;
    Mix32Assembles(a, b, s);
    Mix64Assembles(a, b, s);
    AssembledIsBlend(a, b, s);
    Remainder(Blended(a, b, s), WORD32);
  }

  lemma ChannelOfBlended(a: U32, b: U32, s: nat, c: nat)
    requires s <= 256 && c < 4
    ensures Channel(Blended(a, b, s), c) == Blend(Channel(a, c), Channel(b, c), s)
  {
    hide Channel, Lanes, Blend;
    ChannelsOfLanes(Blend(Channel(a, 0), Channel(b, 0), s), Blend(Channel(a, 1), Channel(b, 1), s),
                    Blend(Channel(a, 2), Channel(b, 2), s), Blend(Channel(a, 3), Channel(b, 3), s));
    assert c == 0 || c == 1 || c == 2 || c == 3;
  }

  /** Both compute the floor of the weighted mean in each channel. */
  lemma MixExact(a: U32, b: U32, s: U32, c: nat)
    requires s <= 256 && c < 4
    ensures Mix32(a, b, s) < WORD32
    ensures Channel(Mix32(a, b, s), c) == (Channel(a, c) * (256 - s) + Channel(b, c) * s) / 256
  {
    hide Mix32, Mix64, Channel, Blended;
    MixFormsAgree(a, b, s);
    ChannelOfBlended(a, b, s, c);
  }
}
