/** Sampling a colormap: through its precomputed table and by interpolating the keys directly. */
module ColormapLerp {
  import opened Numbers
  import opened PackedColor

  /** ImMixU32, in either form. */
  function Mix(a: U32, b: U32, s: nat): U32
    requires s <= 256
  {
    MixFormsAgree(a, b, s);
    Mix32(a, b, s)
  }

  lemma MixChannel(a: U32, b: U32, s: nat, c: nat)
    requires s <= 256 && c < 4
    ensures Channel(Mix(a, b, s), c) == Blend(Channel(a, c), Channel(b, c), s)
  {
    hide Mix32, Blended, Channel;
    MixFormsAgree(a, b, s);
    ChannelOfBlended(a, b, s, c);
  }

  lemma MixAtZero(a: U32, b: U32)
    ensures Mix(a, b, 0) == a
  {
    hide Mix32, Channel, Lanes;
    MixFormsAgree(a, b, 0);
    assert forall x: Byte, y: Byte :: Blend(x, y, 0) == x;
    LanesOfChannels(a);
  }

  // ---------- Tables ----------

  /** The table that the keys of a colormap determine: the keys themselves if it is qualitative, 255
      blends from each key to the next and the last key otherwise. */
  function TableOf(keys: seq<U32>, qual: bool): (table: seq<U32>)
    requires |keys| > 0
    ensures |table| == if qual then |keys| else 255 * (|keys| - 1) + 1
  {
    if qual then keys else seq(255 * (|keys| - 1) + 1, j requires 0 <= j <= 255 * (|keys| - 1) => RampAt(keys, j))
  }

  function RampAt(keys: seq<U32>, j: int): U32
    requires |keys| > 0 && 0 <= j <= 255 * (|keys| - 1)
  {
    if j == 255 * (|keys| - 1) then keys[|keys| - 1] else Mix(keys[j / 255], keys[j / 255 + 1], j % 255)
  }

  /** The entry at a multiple of 255 is a key. */
  lemma RampAtKey(keys: seq<U32>, i: int)
    requires 0 <= i < |keys|
    ensures RampAt(keys, 255 * i) == keys[i]
  {
    hide Mix;
    if i < |keys| - 1 {
      MixAtZero(keys[i], keys[i + 1]);
    }
  }

  /** The index LerpTable reads, relative to the table of the map. */
  function LerpIndex(qual: bool, size: int, t: real): int
    requires size > 0
  {
    if qual then
      var i := Trunc(size as real * t);
      if i < 0 then 0 else if i > size - 1 then size - 1 else i
    else Trunc((size - 1) as real * t + 0.5)
  }

  /** LerpTable never leaves the table of its own map. */
  lemma LerpIndexInside(qual: bool, size: int, t: real)
    requires size > 0 && 0.0 <= t <= 1.0
    ensures 0 <= LerpIndex(qual, size, t) < size
  {
    if !qual {
      ScaledInside((size - 1) as real, t);
    }
  }

  lemma ScaledInside(n: real, t: real)
    requires n >= 0.0 && 0.0 <= t <= 1.0
    ensures 0.0 <= n * t <= n
  {
  }

  /** What LerpTable returns for a map whose table agrees with its keys. */
  function Sampled(keys: seq<U32>, qual: bool, t: real): U32
    requires |keys| > 0 && 0.0 <= t <= 1.0
  {
    var size := |TableOf(keys, qual)|;
    LerpIndexInside(qual, size, t);
    TableOf(keys, qual)[LerpIndex(qual, size, t)]
  }

  /** A qualitative map of n keys cuts [0, 1] into n equal parts, one for each key. */
  lemma QualitativeKeys(keys: seq<U32>, t: real, i: int)
    requires 0 <= i < |keys| && 0.0 <= t <= 1.0
    ensures i as real <= |keys| as real * t < (i + 1) as real ==> Sampled(keys, true, t) == keys[i]
    ensures t == 1.0 ==> Sampled(keys, true, t) == keys[|keys| - 1]
  {
    hide LerpIndex;
    QualitativeIndex(|keys|, t, i, |keys| as real * t);
  }

  lemma QualitativeIndex(size: int, t: real, i: int, x: real)
    requires 0 <= i < size && 0.0 <= t <= 1.0 && x == size as real * t
    ensures i as real <= x < (i + 1) as real ==> LerpIndex(true, size, t) == i
    ensures t == 1.0 ==> LerpIndex(true, size, t) == size - 1
  {
  }

  /** The entry of a continuous table that is read is the nearest one. */
  lemma ContinuousNearest(keys: seq<U32>, t: real) returns (j: int)
    requires |keys| > 0 && 0.0 <= t <= 1.0
    ensures 0 <= j <= 255 * (|keys| - 1) && Sampled(keys, false, t) == TableOf(keys, false)[j]
    ensures j as real - 0.5 <= (255 * (|keys| - 1)) as real * t < j as real + 0.5
  {
    hide TableOf;
    var n := 255 * (|keys| - 1);
    LerpIndexInside(false, n + 1, t);
    j := LerpIndex(false, n + 1, t);
    NearestIndex(n, t, j);
  }

  lemma NearestIndex(n: int, t: real, j: int)
    requires n >= 0 && 0.0 <= t <= 1.0 && j == LerpIndex(false, n + 1, t)
    ensures j as real - 0.5 <= n as real * t < j as real + 0.5
  {
    ScaledInside(n as real, t);
    assert (n + 1 - 1) as real * t == n as real * t;
  }

  /** The ends of a qualitative map give its first and last key. */
  lemma QualitativeEnds(keys: seq<U32>)
    requires |keys| > 0
    ensures Sampled(keys, true, 0.0) == keys[0] && Sampled(keys, true, 1.0) == keys[|keys| - 1]
  {
  }

  lemma SampledIsRamp(keys: seq<U32>, t: real, j: int)
    requires |keys| > 0 && 0.0 <= t <= 1.0 && j == LerpIndex(false, 255 * (|keys| - 1) + 1, t)
    ensures 0 <= j <= 255 * (|keys| - 1) && Sampled(keys, false, t) == RampAt(keys, j)
  {
    hide RampAt, LerpIndex;
    LerpIndexInside(false, 255 * (|keys| - 1) + 1, t);
  }

  lemma ContinuousIndex(n: int, i: int)
    requires n > 1 && 0 <= i < n
    ensures LerpIndex(false, 255 * (n - 1) + 1, i as real / (n - 1) as real) == 255 * i
  {
    var m := (n - 1) as real;
    var t := i as real / m;
    assert m * t == i as real;
    assert (255.0 * m) * t == 255.0 * (m * t);
    assert (255 * (n - 1)) as real == 255.0 * m;
  }

  /** A continuous map gives its i-th key exactly at t = i / (n - 1). */
  lemma ContinuousKeys(keys: seq<U32>, i: int)
    requires |keys| > 1 && 0 <= i < |keys|
    ensures 0.0 <= i as real / (|keys| - 1) as real <= 1.0
    ensures Sampled(keys, false, i as real / (|keys| - 1) as real) == keys[i]
  {
    hide RampAt, LerpIndex, Sampled;
    var t := i as real / (|keys| - 1) as real;
    RatioInside(i, |keys| - 1);
    ContinuousIndex(|keys|, i);
    SampledIsRamp(keys, t, 255 * i);
    RampAtKey(keys, i);
  }

  lemma RatioInside(i: int, n: int)
    requires 0 <= i <= n && n > 0
    ensures 0.0 <= i as real / n as real <= 1.0
  {
  }

  // ---------- Direct interpolation ----------

  function Remap01(x: real, x0: real, x1: real): real
    requires x0 != x1
  {
    (x - x0) / (x1 - x0)
  }

  /** The position of t among n keys. */
  function KeyPos(n: int, t: real): real {
    (n - 1) as real * t
  }

  /** The part of the way from the key before a position to the next. */
  function Part(x: real): real {
    x - Trunc(x) as real
  }

  /** Where key i of n lies in [0, 1]. */
  function KeyAt(n: int, i: int): real
    requires n > 1
  {
    var den := 1.0 / (n - 1) as real;
    i as real * den
  }

  lemma KeyPosInside(n: int, t: real)
    requires n > 1 && 0.0 <= t <= 1.0
    ensures 0.0 <= KeyPos(n, t) <= (n - 1) as real
    ensures 0 <= Trunc(KeyPos(n, t)) <= n - 1 && 0.0 <= Part(KeyPos(n, t)) < 1.0
  {
    ScaledInside((n - 1) as real, t);
  }

  /** ImLerpU32. */
  function LerpU32(colors: seq<U32>, t: real): U32
    requires |colors| > 0 && 0.0 <= t <= 1.0
  {
    var n := |colors|;
    var i1 := Trunc(KeyPos(n, t));
    var i2 := i1 + 1;
    if n == 1 then colors[0]
    else
      KeyPosInside(n, t);
      if i2 == n then colors[i1]
      else
        RemapIsPart(n, t, i1);
        var tr := Remap01(t, KeyAt(n, i1), KeyAt(n, i2));
        Mix(colors[i1], colors[i2], Trunc(tr * 256.0))
  }

  /** Remapping between two keys gives the part of the way. */
  lemma RemapIsPart(n: int, t: real, i1: int)
    requires n > 1 && 0.0 <= t <= 1.0 && i1 == Trunc(KeyPos(n, t))
    ensures KeyAt(n, i1) != KeyAt(n, i1 + 1) && Remap01(t, KeyAt(n, i1), KeyAt(n, i1 + 1)) == Part(KeyPos(n, t))
    ensures 0 <= Trunc(Part(KeyPos(n, t)) * 256.0) < 256
  {
    var m, i := (n - 1) as real, i1 as real;
    var den, x := 1.0 / m, KeyPos(n, t);
    KeyPosInside(n, t);
    assert den > 0.0 && m * den == 1.0;
    assert x * den == t by {
      assert (m * t) * den == t * (m * den);
    }
    assert (i + 1.0) * den == i * den + den;
    assert t - i * den == (x - i) * den;
    assert ((x - i) * den) / den == x - i;
  }

  // ---------- The table against direct interpolation ----------

  /** The table index is 255 entries per whole key passed, plus the nearest of the 255 steps after it. */
  lemma IndexOfPart(n: int, t: real, x: real)
    requires n > 1 && 0.0 <= t <= 1.0 && x == KeyPos(n, t)
    ensures var s := (255.0 * Part(x) + 0.5).Floor;
            LerpIndex(false, 255 * (n - 1) + 1, t) == 255 * Trunc(x) + s && 0 <= s <= 255
  {
    var m := (n - 1) as real;
    var i := Trunc(x);
    KeyPosInside(n, t);
    assert (255 * (n - 1)) as real * t == 255.0 * (m * t);
    assert 255.0 * x + 0.5 == (255 * i) as real + (255.0 * Part(x) + 0.5);
    FloorShift(255.0 * Part(x) + 0.5, 255 * i);
  }

  lemma FloorShift(x: real, n: int)
    ensures (n as real + x).Floor == n + x.Floor
  {
  }

  /** The weight a table entry stands for: the 255th step is the next key itself, weight 256. */
  function StepWeight(s: int): nat
    requires 0 <= s <= 255
  {
    if s == 255 then 256 else s
  }

  /** Rounding to 255 steps and truncating to 256 weights differ by at most one weight. */
  lemma WeightsNear(tr: real)
    requires 0.0 <= tr < 1.0
    ensures var s := (255.0 * tr + 0.5).Floor;
            0 <= s <= 255 && -1 <= StepWeight(s) - Trunc(tr * 256.0) <= 1
  {
  }

  /** Weights one apart give blends at most one apart. */
  lemma BlendNear(x: Byte, y: Byte, s: nat, s': nat)
    requires s <= 256 && s' <= 256 && -1 <= s - s' <= 1
    ensures -1 <= Blend(x, y, s) - Blend(x, y, s') <= 1
  {
    hide Weighted;
    WeightedFits(x, y, s);
    WeightedFits(x, y, s');
    if s == s' + 1 {
      WeightedStep(x, y, s');
    } else if s' == s + 1 {
      WeightedStep(x, y, s);
    }
  }

  lemma WeightedStep(x: Byte, y: Byte, s: nat)
    requires s < 256
    ensures Weighted(x, y, s + 1) == Weighted(x, y, s) + y - x
  {
  }

  lemma BlendFull(x: Byte, y: Byte)
    ensures Blend(x, y, 256) == y
  {
  }

  /** A table entry between two keys is their blend with the step's weight. */
  lemma EntryIsBlend(keys: seq<U32>, i: int, s: int, c: nat)
    requires 0 <= i < |keys| - 1 && 0 <= s <= 255 && c < 4
    ensures Channel(RampAt(keys, 255 * i + s), c) == Blend(Channel(keys[i], c), Channel(keys[i + 1], c), StepWeight(s))
  {
    hide Mix, Channel, Blend;
    if s == 255 {
      RampAtKey(keys, i + 1);
      assert 255 * i + s == 255 * (i + 1);
      BlendFull(Channel(keys[i], c), Channel(keys[i + 1], c));
    } else {
      DivModIs(255 * i + s, 255, i, s);
      MixChannel(keys[i], keys[i + 1], s, c);
    }
  }

  /** Sampling the table and interpolating directly differ by at most one in each channel. */
  lemma TableNearLerp(keys: seq<U32>, t: real, c: nat)
    requires |keys| > 0 && 0.0 <= t <= 1.0 && c < 4
    ensures -1 <= Channel(Sampled(keys, false, t), c) - Channel(LerpU32(keys, t), c) <= 1
  {
    if |keys| == 1 {
      SampledIsRamp(keys, t, 0);
    } else {
      hide Mix, Channel, RampAt, LerpIndex, Sampled, Part;
      var x := KeyPos(|keys|, t);
      var i, s := Trunc(x), (255.0 * Part(x) + 0.5).Floor;
      KeyPosInside(|keys|, t);
      IndexOfPart(|keys|, t, x);
      SampledIsRamp(keys, t, 255 * i + s);
      if i == |keys| - 1 {
        AtLastKey(keys, t, x);
      } else {
        BetweenKeys(keys, t, x, i, s, c);
      }
    }
  }

  lemma AtLastKey(keys: seq<U32>, t: real, x: real)
    requires |keys| > 1 && 0.0 <= t <= 1.0 && x == KeyPos(|keys|, t) && Trunc(x) == |keys| - 1
    ensures Sampled(keys, false, t) == LerpU32(keys, t) == keys[|keys| - 1]
  {
    hide Mix, Channel, RampAt, LerpIndex, Remap01, Sampled, KeyPos;
    var n := |keys|;
    KeyPosInside(n, t);
    assert Part(x) == 0.0;
    IndexOfPart(n, t, x);
    SampledIsRamp(keys, t, 255 * (n - 1));
    RampAtKey(keys, n - 1);
  }

  lemma LerpIsMix(keys: seq<U32>, t: real, x: real, i: int)
    requires |keys| > 1 && 0.0 <= t <= 1.0 && x == KeyPos(|keys|, t) && i == Trunc(x) && 0 <= i < |keys| - 1
    ensures 0 <= Trunc(Part(x) * 256.0) < 256
    ensures LerpU32(keys, t) == Mix(keys[i], keys[i + 1], Trunc(Part(x) * 256.0))
  {
    hide Mix, Part, Trunc, Remap01, KeyPos, KeyAt;
    RemapIsPart(|keys|, t, i);
  }

  lemma BetweenKeys(keys: seq<U32>, t: real, x: real, i: int, s: int, c: nat)
    requires |keys| > 1 && 0.0 <= t <= 1.0 && c < 4
    requires x == KeyPos(|keys|, t) && i == Trunc(x) && 0 <= i < |keys| - 1
    requires s == (255.0 * Part(x) + 0.5).Floor && 0 <= s <= 255
    ensures -1 <= Channel(RampAt(keys, 255 * i + s), c) - Channel(LerpU32(keys, t), c) <= 1
  {
    hide Mix, Channel, RampAt, Remap01, Blend, StepWeight, Part, LerpU32, KeyPos;
    var w := Trunc(Part(x) * 256.0);
    KeyPosInside(|keys|, t);
    LerpIsMix(keys, t, x, i);
    WeightsNear(Part(x));
    EntryIsBlend(keys, i, s, c);
    MixChannel(keys[i], keys[i + 1], w, c);
    BlendNear(Channel(keys[i], c), Channel(keys[i + 1], c), StepWeight(s), w);
  }

  /** Interpolating directly at the position of a key gives that key. */
  lemma LerpAtKey(keys: seq<U32>, i: int)
    requires |keys| > 1 && 0 <= i < |keys|
    ensures var t := i as real / (|keys| - 1) as real; 0.0 <= t <= 1.0 && LerpU32(keys, t) == keys[i]
  {
    hide Mix, LerpU32, Part;
    var t := i as real / (|keys| - 1) as real;
    RatioInside(i, |keys| - 1);
    var x := KeyPos(|keys|, t);
    assert x == i as real;
    if i == |keys| - 1 {
      AtLastKey(keys, t, x);
    } else {
      LerpIsMix(keys, t, x, i);
      assert Trunc(Part(x) * 256.0) == 0 by {
        PartOfWhole(i);
      }
      MixAtZero(keys[i], keys[i + 1]);
    }
  }

  lemma PartOfWhole(i: nat)
    ensures Part(i as real) == 0.0
  {
  }
}
