/** ImPlotAlignmentData: plots of a group agree on their paddings over successive frames. */
module Alignment {
  /** Paddings on the two aligned sides. */
  datatype Pads = Pads(a: real, b: real)

  function Larger(x: real, y: real): real {
    if x < y then y else x
  }

  /** The largest padding on each side, and at least zero. */
  function GroupMax(pads: seq<Pads>): (m: Pads)
    ensures m.a >= 0.0 && m.b >= 0.0
  {
    if |pads| == 0 then Pads(0.0, 0.0)
    else
      var m, p := GroupMax(pads[..|pads| - 1]), pads[|pads| - 1];
      Pads(Larger(m.a, p.a), Larger(m.b, p.b))
  }

  /** GroupMax is the least pair of paddings that is at least zero and no smaller than any of them. */
  lemma {:induction false} GroupMaxIsLeast(pads: seq<Pads>, bound: Pads)
    ensures forall i :: 0 <= i < |pads| ==> pads[i].a <= GroupMax(pads).a && pads[i].b <= GroupMax(pads).b
    ensures bound.a >= 0.0 && bound.b >= 0.0 && (forall i :: 0 <= i < |pads| ==> pads[i].a <= bound.a && pads[i].b <= bound.b)
        ==> GroupMax(pads).a <= bound.a && GroupMax(pads).b <= bound.b
  {
    if |pads| > 0 {
      var front := pads[..|pads| - 1];
      GroupMaxIsLeast(front, bound);
      forall i | 0 <= i < |pads| ensures pads[i].a <= GroupMax(pads).a && pads[i].b <= GroupMax(pads).b {
        if i < |front| {
          assert front[i] == pads[i];
        }
      }
    }
  }

  /** What a plot gets when the stored paddings are given. */
  function Aligned(natural: Pads, stored: Pads): Pads {
    Pads(Larger(natural.a, stored.a), Larger(natural.b, stored.b))
  }

  class AlignmentData {
    var PadA: real
    var PadB: real
    var PadAMax: real
    var PadBMax: real

    constructor ()
      ensures PadA == PadB == PadAMax == PadBMax == 0.0
    {
      PadA, PadB, PadAMax, PadBMax := 0.0, 0.0, 0.0, 0.0;
    }

    function Stored(): Pads
      reads this
    {
      Pads(PadA, PadB)
    }

    method Begin()
      modifies this`PadAMax, this`PadBMax
      ensures PadAMax == PadBMax == 0.0
    {
      PadAMax, PadBMax := 0.0, 0.0;
    }

    method Update(padA: real, padB: real) returns (outA: real, outB: real, deltaA: real, deltaB: real)
      modifies this`PadAMax, this`PadBMax
      ensures Pads(PadAMax, PadBMax) == Pads(Larger(old(PadAMax), padA), Larger(old(PadBMax), padB))
      ensures Pads(outA, outB) == Aligned(Pads(padA, padB), Stored())
      ensures deltaA == outA - padA && deltaB == outB - padB
    {
      outA, outB := padA, padB;
      if PadAMax < outA {
        PadAMax := outA;
      }
      if PadBMax < outB {
        PadBMax := outB;
      }
      if outA < PadA {
        outA := PadA;
        deltaA := outA - padA;
      } else {
        deltaA := 0.0;
      }
      if outB < PadB {
        outB := PadB;
        deltaB := outB - padB;
      } else {
        deltaB := 0.0;
      }
    }

    method End()
      modifies this`PadA, this`PadB
      ensures PadA == PadAMax && PadB == PadBMax
    {
      PadA, PadB := PadAMax, PadBMax;
    }

    /** One frame: every plot of the group updates once with its natural paddings. What is stored for
        the next frame is the largest natural padding of this one, whatever was stored before. */
    method Frame(natural: seq<Pads>) returns (out: seq<Pads>, delta: seq<Pads>)
      modifies this
      ensures |out| == |delta| == |natural|
      ensures forall i :: 0 <= i < |natural| ==> out[i] == Aligned(natural[i], old(Stored()))
      ensures forall i :: 0 <= i < |natural| ==> natural[i].a + delta[i].a == out[i].a && natural[i].b + delta[i].b == out[i].b
      ensures Stored() == GroupMax(natural)
    {
      Begin();
      out, delta := [], [];
      for i := 0 to |natural|
        invariant |out| == |delta| == i && Stored() == old(Stored())
        invariant forall j :: 0 <= j < i ==> out[j] == Aligned(natural[j], old(Stored()))
        invariant forall j :: 0 <= j < i ==> natural[j].a + delta[j].a == out[j].a && natural[j].b + delta[j].b == out[j].b
        invariant Pads(PadAMax, PadBMax) == GroupMax(natural[..i])
      {
        assert natural[..i + 1][..i] == natural[..i];
        var outA, outB, deltaA, deltaB := Update(natural[i].a, natural[i].b);
        out := out + [Pads(outA, outB)];
        delta := delta + [Pads(deltaA, deltaB)];
      }
      assert natural[..|natural|] == natural;
      End();
    }

    /** Two frames with the same natural paddings: in the second one all plots come out with exactly the
        group maximum on each side. */
    method TwoFrames(natural: seq<Pads>) returns (out: seq<Pads>, delta: seq<Pads>)
      modifies this
      ensures |out| == |delta| == |natural| && Stored() == GroupMax(natural)
      ensures forall i :: 0 <= i < |natural| ==> out[i] == GroupMax(natural)
      ensures forall i :: 0 <= i < |natural| ==> natural[i].a + delta[i].a == out[i].a && natural[i].b + delta[i].b == out[i].b
    {
      out, delta := Frame(natural);
      out, delta := Frame(natural);
      GroupMaxIsLeast(natural, GroupMax(natural));
    }
  }

  /** Exactly when a frame comes out aligned: on each side the stored padding is the group maximum already,
      or is not larger and all natural paddings are equal to the maximum. */
  lemma AlignedIff(natural: seq<Pads>, stored: Pads)
    requires |natural| > 0
    ensures (forall i :: 0 <= i < |natural| ==> Aligned(natural[i], stored) == GroupMax(natural))
       <==> && (|| stored.a == GroupMax(natural).a
                || (stored.a < GroupMax(natural).a && forall i :: 0 <= i < |natural| ==> natural[i].a == GroupMax(natural).a))
            && (|| stored.b == GroupMax(natural).b
                || (stored.b < GroupMax(natural).b && forall i :: 0 <= i < |natural| ==> natural[i].b == GroupMax(natural).b))
  {
    var m := GroupMax(natural);
    GroupMaxIsLeast(natural, m);
    if forall i :: 0 <= i < |natural| ==> Aligned(natural[i], stored) == m {
      assert Aligned(natural[0], stored) == m;
    }
  }
}
