/** Subplot bookkeeping: row and column ratios under dragging, and the enumeration of cells. */
module Subplots {
  import opened Options

  /** ImSum. */
  function Sum(s: seq<real>): real {
    if |s| == 0 then 0.0 else Sum(s[..|s| - 1]) + s[|s| - 1]
  }

  lemma {:induction false} SumUpdate(s: seq<real>, i: int, x: real)
    requires 0 <= i < |s|
    ensures Sum(s[i := x]) == Sum(s) - s[i] + x
    decreases |s|
  {
    var last := |s| - 1;
    if i == last {
      assert s[i := x][..last] == s[..last];
    } else {
      assert s[i := x][..last] == s[..last][i := x];
      SumUpdate(s[..last], i, x);
    }
  }

  lemma {:induction false} SumScaled(s: seq<real>, t: seq<real>, k: real)
    requires |s| == |t| && forall i :: 0 <= i < |s| ==> t[i] == k * s[i]
    ensures Sum(t) == k * Sum(s)
    decreases |s|
  {
    if |s| > 0 {
      var last := |s| - 1;
      SumScaled(s[..last], t[..last], k);
      assert k * (Sum(s[..last]) + s[last]) == k * Sum(s[..last]) + k * s[last];
    }
  }

  // ---------- One separator ----------

  /** What the user does to one separator in one frame: it is hovered long enough, held, clicked or
      double-clicked, and dragged by a share of the grid. */
  datatype SepInput = SepInput(hovered: bool, held: bool, clicked: bool, doubleClicked: bool, drag: real)

  /** The ratios along one axis with the sizes remembered for dragging. */
  datatype Split = Split(ratios: seq<real>, temp0: real, temp1: real)

  predicate DragAccepted(temp0: real, temp1: real, drag: real) {
    temp0 + drag > 0.1 && temp1 - drag > 0.1
  }

  /** The body of the separator loops of BeginSubplots, for the separator between r and r + 1. */
  function Separate(s: Split, r: int, i: SepInput): (s': Split)
    requires 0 <= r < |s.ratios| - 1
    ensures |s'.ratios| == |s.ratios|
  {
    if i.hovered || i.held then
      var p := (s.ratios[r] + s.ratios[r + 1]) / 2.0;
      var s1 := if i.clicked && i.doubleClicked then s.(ratios := s.ratios[r := p][r + 1 := p]) else s;
      var s2 := if i.clicked then s1.(temp0 := s1.ratios[r], temp1 := s1.ratios[r + 1]) else s1;
      if i.held && DragAccepted(s2.temp0, s2.temp1, i.drag) then
        s2.(ratios := s2.ratios[r := s2.temp0 + i.drag][r + 1 := s2.temp1 - i.drag])
      else s2
    else s
  }

  lemma SumOfPair(s: seq<real>, r: int, x: real, y: real)
    requires 0 <= r < |s| - 1
    ensures Sum(s[r := x][r + 1 := y]) == Sum(s) - s[r] - s[r + 1] + x + y
  {
    SumUpdate(s, r, x);
    SumUpdate(s[r := x], r + 1, y);
  }

  /** The remembered sizes belong to the pair around separator r. */
  predicate Remembers(s: Split, r: int)
    requires 0 <= r < |s.ratios| - 1
  {
    s.temp0 + s.temp1 == s.ratios[r] + s.ratios[r + 1]
  }

  /** Exactly when one separator step keeps the sum of the ratios: unless it accepts a drag measured
      from remembered sizes that do not belong to the pair. */
  lemma SeparateKeepsSumIff(s: Split, r: int, i: SepInput)
    requires 0 <= r < |s.ratios| - 1
    ensures Sum(Separate(s, r, i).ratios) == Sum(s.ratios)
       <==> !i.held || i.clicked || !DragAccepted(s.temp0, s.temp1, i.drag) || Remembers(s, r)
  {
    hide Sum;
    var p := (s.ratios[r] + s.ratios[r + 1]) / 2.0;
    var s1 := if i.clicked && i.doubleClicked then s.ratios[r := p][r + 1 := p] else s.ratios;
    SumOfPair(s.ratios, r, p, p);
    SumOfPair(s1, r, s1[r] + i.drag, s1[r + 1] - i.drag);
    SumOfPair(s.ratios, r, s.temp0 + i.drag, s.temp1 - i.drag);
  }

  /** A pair above the smallest share stays above it, and every other ratio is left alone. */
  lemma SeparatePair(s: Split, r: int, i: SepInput)
    requires 0 <= r < |s.ratios| - 1
    ensures var s' := Separate(s, r, i);
            && (s.ratios[r] > 0.1 && s.ratios[r + 1] > 0.1 ==> s'.ratios[r] > 0.1 && s'.ratios[r + 1] > 0.1)
            && (i.held && s'.temp0 + i.drag > 0.1 && s'.temp1 - i.drag > 0.1 ==>
                  s'.ratios[r] == s'.temp0 + i.drag > 0.1 && s'.ratios[r + 1] == s'.temp1 - i.drag > 0.1)
            && forall q :: 0 <= q < |s.ratios| && q != r && q != r + 1 ==> s'.ratios[q] == s.ratios[q]
  {
  }

  /** A drag is measured from the click: dragging back to where it began restores every ratio. */
  lemma DragBackRestores(s: Split, r: int, click: SepInput, back: SepInput)
    requires 0 <= r < |s.ratios| - 1 && s.ratios[r] > 0.1 && s.ratios[r + 1] > 0.1
    requires click.held && click.clicked && !click.doubleClicked
    requires back.held && !back.clicked && back.drag == 0.0
    ensures Separate(Separate(s, r, click), r, back).ratios == s.ratios
  {
  }

  /** ... and of several drags after one click only the last accepted one decides. */
  lemma LastDragDecides(s: Split, r: int, first: SepInput, second: SepInput)
    requires 0 <= r < |s.ratios| - 1
    requires first.held && !first.clicked && second.held && !second.clicked
    requires DragAccepted(s.temp0, s.temp1, second.drag)
    ensures Separate(Separate(s, r, first), r, second) == Separate(s, r, second)
  {
  }

  predicate Touched(i: SepInput) {
    i.held || i.clicked
  }

  /** The separator loop over the first n separators. */
  function SeparateFirst(s: Split, inputs: seq<SepInput>, n: nat): (s': Split)
    requires n <= |inputs| == |s.ratios| - 1
    ensures |s'.ratios| == |s.ratios|
  {
    if n == 0 then s else Separate(SeparateFirst(s, inputs, n - 1), n - 1, inputs[n - 1])
  }

  /** A separator that is only hovered changes nothing, so with one touched separator only its step counts. */
  lemma {:induction false} OnlyTouchedCounts(s: Split, inputs: seq<SepInput>, n: nat, q: int)
    requires n <= |inputs| == |s.ratios| - 1
    requires forall r :: 0 <= r < n && r != q ==> !Touched(inputs[r])
    ensures SeparateFirst(s, inputs, n) == if 0 <= q < n then Separate(s, q, inputs[q]) else s
  {
    if n > 0 {
      OnlyTouchedCounts(s, inputs, n - 1, q);
    }
  }

  // ---------- Sizes and ratios ----------

  /** The sizes divided by their sum. */
  function Normalized(sizes: seq<real>): (ratios: seq<real>)
    requires Sum(sizes) != 0.0
  {
    seq(|sizes|, i requires 0 <= i < |sizes| => sizes[i] / Sum(sizes))
  }

  function EqualShares(n: nat): (ratios: seq<real>) {
    seq(n, i requires 0 <= i < n => 1.0 / n as real)
  }

  /** The sizes handed back to the caller. */
  function Scaled(ratios: seq<real>, sum: real): (sizes: seq<real>)
    ensures |sizes| == |ratios| && forall i :: 0 <= i < |sizes| ==> sizes[i] == ratios[i] * sum
  {
    seq(|ratios|, i requires 0 <= i < |ratios| => ratios[i] * sum)
  }

  lemma DivideIsTimes(x: real, d: real)
    requires d != 0.0
    ensures x / d == (1.0 / d) * x && (x * d) / d == x
  {
  }

  lemma NormalizedSum(sizes: seq<real>)
    requires Sum(sizes) != 0.0
    ensures Sum(Normalized(sizes)) == 1.0
  {
    var sum := Sum(sizes);
    forall i | 0 <= i < |sizes| ensures Normalized(sizes)[i] == (1.0 / sum) * sizes[i] {
      DivideIsTimes(sizes[i], sum);
    }
    SumScaled(sizes, Normalized(sizes), 1.0 / sum);
  }

  lemma {:induction false} EqualSharesSum(s: seq<real>, n: nat)
    requires n > 0 && |s| <= n && forall i :: 0 <= i < |s| ==> s[i] == 1.0 / n as real
    ensures Sum(s) == |s| as real / n as real
    decreases |s|
  {
    if |s| > 0 {
      EqualSharesSum(s[..|s| - 1], n);
    }
  }

  /** The sizes handed back sum to those passed in exactly when the ratios sum to one, and passing them
      in again then gives the same ratios. */
  lemma ScaledSumIff(ratios: seq<real>, sum: real)
    requires sum != 0.0
    ensures Sum(Scaled(ratios, sum)) == sum <==> Sum(ratios) == 1.0
    ensures Sum(ratios) == 1.0 ==> Normalized(Scaled(ratios, sum)) == ratios
  {
    var sizes := Scaled(ratios, sum);
    SumScaled(ratios, sizes, sum);
    if Sum(ratios) == 1.0 {
      forall i | 0 <= i < |sizes| ensures sizes[i] / sum == ratios[i] {
        DivideIsTimes(ratios[i], sum);
      }
    }
  }

  // ---------- One frame ----------

  datatype Pair = Pair(lo: real, hi: real) {
    predicate Wide() {
      lo > 0.1 && hi > 0.1
    }

    function Total(): real {
      lo + hi
    }
  }

  /** A separator, or none. */
  datatype Sep = NoSep | RowSep(r: int) | ColSep(c: int)

  /** What a subplot keeps from frame to frame. */
  datatype State = State(rows: int, cols: int, rowRatios: seq<real>, colRatios: seq<real>, temp0: real, temp1: real) {
    predicate Valid() {
      0 <= rows == |rowRatios| && 0 <= cols == |colRatios|
    }

    /** The shares of the grid add up along both axes. */
    predicate Whole() {
      (rows > 0 ==> Sum(rowRatios) == 1.0) && (cols > 0 ==> Sum(colRatios) == 1.0)
    }

    function RowSplit(): Split {
      Split(rowRatios, temp0, temp1)
    }

    function ColSplit(): Split {
      Split(colRatios, temp0, temp1)
    }

    /** The sizes remembered at the last click. */
    function Remembered(): Pair {
      Pair(temp0, temp1)
    }

    predicate Has(a: Sep) {
      match a
      case NoSep => false
      case RowSep(r) => 0 <= r < |rowRatios| - 1
      case ColSep(c) => 0 <= c < |colRatios| - 1
    }

    /** The ratios on both sides of a separator. */
    function PairAt(a: Sep): Pair
      requires Has(a)
    {
      if a.RowSep? then Pair(rowRatios[a.r], rowRatios[a.r + 1]) else Pair(colRatios[a.c], colRatios[a.c + 1])
    }
  }

  /** The arguments of one call of BeginSubplots and what the user does to each separator meanwhile. */
  datatype Frame = Frame(rows: int, cols: int, rowSizes: Option<seq<real>>, colSizes: Option<seq<real>>, noResize: bool,
                         rowIn: seq<SepInput>, colIn: seq<SepInput>) {
    predicate Valid() {
      && rows > 0 && cols > 0 && |rowIn| == rows - 1 && |colIn| == cols - 1
      && (rowSizes.Some? ==> |rowSizes.value| == rows && Sum(rowSizes.value) != 0.0)
      && (colSizes.Some? ==> |colSizes.value| == cols && Sum(colSizes.value) != 0.0)
    }

    predicate Has(a: Sep) {
      match a
      case NoSep => false
      case RowSep(r) => 0 <= r < |rowIn|
      case ColSep(c) => 0 <= c < |colIn|
    }

    function InputAt(a: Sep): SepInput
      requires Has(a)
    {
      if a.RowSep? then rowIn[a.r] else colIn[a.c]
    }

    /** Separator a is the only one the user touches. */
    predicate OnlyTouches(a: Sep) {
      && (forall r :: 0 <= r < |rowIn| && Touched(rowIn[r]) ==> a == RowSep(r))
      && (forall c :: 0 <= c < |colIn| && Touched(colIn[c]) ==> a == ColSep(c))
      && (!a.NoSep? ==> Has(a) && Touched(InputAt(a)) && !noResize)
    }
  }

  /** The ratios of an axis of n cells after the layout part: the sizes passed in, or else equal shares
      if the layout has changed. */
  function Shares(sizes: Option<seq<real>>, changed: bool, ratios: seq<real>, n: nat): (r: seq<real>)
    requires sizes.Some? ==> Sum(sizes.value) != 0.0
  {
    if sizes.Some? then Normalized(sizes.value) else if changed then EqualShares(n) else ratios
  }

  function LaidOut(s: State, f: Frame): (s': State)
    requires s.Valid() && f.Valid()
    ensures s'.Valid() && s'.rows == f.rows && s'.cols == f.cols
  {
    var changed := s.rows != f.rows || s.cols != f.cols;
    State(f.rows, f.cols, Shares(f.rowSizes, changed, s.rowRatios, f.rows), Shares(f.colSizes, changed, s.colRatios, f.cols), s.temp0, s.temp1)
  }

  /** A new number of rows or of columns makes the shares of both axes equal, as far as no sizes are passed;
      otherwise the shares stay. Sizes passed in always replace them, in proportion. */
  lemma LayoutIs(s: State, f: Frame)
    requires s.Valid() && f.Valid()
    ensures var l := LaidOut(s, f);
            && l.rows == f.rows && l.cols == f.cols && l.Remembered() == s.Remembered()
            && |l.rowRatios| == f.rows && |l.colRatios| == f.cols
            && (s.rows != f.rows || s.cols != f.cols ==>
                  && (f.rowSizes.None? ==> forall r :: 0 <= r < f.rows ==> l.rowRatios[r] == 1.0 / f.rows as real)
                  && (f.colSizes.None? ==> forall c :: 0 <= c < f.cols ==> l.colRatios[c] == 1.0 / f.cols as real))
            && (s.rows == f.rows && s.cols == f.cols ==>
                  (f.rowSizes.None? ==> l.rowRatios == s.rowRatios) && (f.colSizes.None? ==> l.colRatios == s.colRatios))
    ensures f.rowSizes.Some? ==>
              forall r :: 0 <= r < f.rows ==> LaidOut(s, f).rowRatios[r] * Sum(f.rowSizes.value) == f.rowSizes.value[r]
    ensures f.colSizes.Some? ==>
              forall c :: 0 <= c < f.cols ==> LaidOut(s, f).colRatios[c] * Sum(f.colSizes.value) == f.colSizes.value[c]
  {
    hide Sum;
  }

  /** In a grid of two by two cells with rows of unequal height, one more column resets the rows too. */
  lemma NewColumnResetsRows(s: State, f: Frame)
    requires s.Valid() && s.rows == s.cols == 2 && s.rowRatios == [0.7, 0.3]
    requires f.Valid() && f.rows == 2 && f.cols == 3 && f.rowSizes.None? && f.colSizes.None?
    ensures LaidOut(s, f).rowRatios == [0.5, 0.5]
  {
    LayoutIs(s, f);
  }

  /** What one frame makes of the state: the layout part, then the row separators, then the column
      separators, all with the same two remembered sizes. */
  function Stepped(s: State, f: Frame): (s': State)
    requires s.Valid() && f.Valid()
    ensures s'.Valid() && s'.rows == f.rows && s'.cols == f.cols
  {
    var l := LaidOut(s, f);
    if f.noResize then l
    else
      var rows := SeparateFirst(l.RowSplit(), f.rowIn, |f.rowIn|);
      var cols := SeparateFirst(Split(l.colRatios, rows.temp0, rows.temp1), f.colIn, |f.colIn|);
      State(f.rows, f.cols, rows.ratios, cols.ratios, cols.temp0, cols.temp1)
  }

  /** What the user does reaches the ratios: a frame does to the touched pair what its separator step
      does, and leaves the other axis, and without a touch everything, as the layout part made it. */
  lemma FrameActs(s: State, f: Frame, a: Sep)
    requires s.Valid() && f.Valid() && f.OnlyTouches(a)
    ensures var l, s' := LaidOut(s, f), Stepped(s, f);
            match a
            case NoSep => s' == l
            case RowSep(r) => s'.RowSplit() == Separate(l.RowSplit(), r, f.rowIn[r]) && s'.colRatios == l.colRatios
            case ColSep(c) => s'.ColSplit() == Separate(l.ColSplit(), c, f.colIn[c]) && s'.rowRatios == l.rowRatios
  {
    hide Separate, LaidOut;
    var l := LaidOut(s, f);
    var rows := SeparateFirst(l.RowSplit(), f.rowIn, |f.rowIn|);
    OnlyTouchedCounts(l.RowSplit(), f.rowIn, |f.rowIn|, if a.RowSep? then a.r else -1);
    OnlyTouchedCounts(Split(l.colRatios, rows.temp0, rows.temp1), f.colIn, |f.colIn|, if a.ColSep? then a.c else -1);
  }

  /** The drag of this frame is measured from a click of this frame or from remembered sizes that make
      up the pair. */
  predicate Measured(l: State, f: Frame, a: Sep)
    requires l.Has(a) && f.Has(a)
  {
    var i := f.InputAt(a);
    !i.held || i.clicked || !DragAccepted(l.temp0, l.temp1, i.drag) || l.Remembered().Total() == l.PairAt(a).Total()
  }

  predicate FrameMeasured(s: State, f: Frame, a: Sep)
    requires s.Valid() && f.Valid() && f.OnlyTouches(a)
  {
    a.NoSep? || Measured(LaidOut(s, f), f, a)
  }

  lemma LaidOutWhole(s: State, f: Frame)
    requires s.Valid() && f.Valid() && s.Whole()
    ensures LaidOut(s, f).Whole()
  {
    hide Sum;
    if f.rowSizes.Some? {
      NormalizedSum(f.rowSizes.value);
    }
    if f.colSizes.Some? {
      NormalizedSum(f.colSizes.value);
    }
    EqualSharesSum(EqualShares(f.rows), f.rows);
    EqualSharesSum(EqualShares(f.cols), f.cols);
  }

  /** Exactly when a frame in which one separator is touched keeps the ratios summing to one. */
  lemma FrameWholeIff(s: State, f: Frame, a: Sep)
    requires s.Valid() && f.Valid() && f.OnlyTouches(a) && s.Whole()
    ensures Stepped(s, f).Whole() <==> FrameMeasured(s, f, a)
  {
    hide Sum, Separate, LaidOut, Stepped, SeparateFirst;
    var l := LaidOut(s, f);
    LaidOutWhole(s, f);
    FrameActs(s, f, a);
    if a.RowSep? {
      SeparateKeepsSumIff(l.RowSplit(), a.r, f.rowIn[a.r]);
    } else if a.ColSep? {
      SeparateKeepsSumIff(l.ColSplit(), a.c, f.colIn[a.c]);
    }
  }

  /** A click remembers the pair, which a double click has made equal before; without one the
      remembered sizes stay. */
  lemma FrameRemembers(s: State, f: Frame, a: Sep)
    requires s.Valid() && f.Valid() && f.OnlyTouches(a) && !a.NoSep?
    ensures var l, i := LaidOut(s, f), f.InputAt(a);
            Stepped(s, f).Remembered() ==
              if !i.clicked || !(i.hovered || i.held) then l.Remembered()
              else if i.doubleClicked then Pair(l.PairAt(a).Total() / 2.0, l.PairAt(a).Total() / 2.0)
              else l.PairAt(a)
  {
    hide LaidOut, Stepped, SeparateFirst;
    FrameActs(s, f, a);
  }

  /** The dragged pair itself: a drag that leaves both sizes above the smallest share moves the border by the
      drag from where it was remembered; any other leaves the pair alone. */
  lemma FramePair(s: State, f: Frame, a: Sep)
    requires s.Valid() && f.Valid() && f.OnlyTouches(a) && !a.NoSep?
    ensures var s', i := Stepped(s, f), f.InputAt(a);
            var m := s'.Remembered();
            if i.held && m.lo + i.drag > 0.1 && m.hi - i.drag > 0.1 then s'.PairAt(a) == Pair(m.lo + i.drag, m.hi - i.drag)
            else s'.PairAt(a) == if i.clicked && (i.hovered || i.held) then m else LaidOut(s, f).PairAt(a)
  {
    hide LaidOut, Stepped, SeparateFirst;
    FrameActs(s, f, a);
  }

  // ---------- Runs ----------

  /** The caller is steady: where a hold goes on, the ratios of the pair before the drag add up to the
      remembered sizes, and are above the smallest share if those are. */
  predicate Steady(s: State, f: Frame, a: Sep)
    requires s.Valid() && f.Valid()
  {
    && f.OnlyTouches(a)
    && (!a.NoSep? ==>
          && f.InputAt(a).held
          && var p := LaidOut(s, f).PairAt(a);
             f.InputAt(a).clicked || (p.Total() == s.Remembered().Total() && (s.Remembered().Wide() ==> p.Wide())))
  }

  /** What holds between frames, with the separator held in the last one: the remembered sizes make up
      the held pair, and if they are above the smallest share, so is the pair. */
  predicate Kept(s: State, held: Sep) {
    && s.Valid() && s.Whole()
    && (!held.NoSep? ==>
          && s.Has(held) && s.Remembered().Total() == s.PairAt(held).Total()
          && (s.Remembered().Wide() ==> s.PairAt(held).Wide()))
  }

  lemma SteadyKeeps(s: State, held: Sep, f: Frame, a: Sep)
    requires Kept(s, held) && f.Valid() && Steady(s, f, a)
    ensures Kept(Stepped(s, f), a) && HandsBackSums(Stepped(s, f), f)
  {
    hide LaidOut, Stepped, Sum;
    var l := LaidOut(s, f);
    FrameWholeIff(s, f, a);
    LayoutRemembers(s, f);
    if !a.NoSep? {
      FrameRemembers(s, f, a);
      FramePair(s, f, a);
    }
    WholeHandsBack(Stepped(s, f), f);
  }

  /** The outgoing sizes along one axis. */
  function HandedBack(sizes: Option<seq<real>>, ratios: seq<real>): Option<seq<real>> {
    if sizes.None? then None else Some(Scaled(ratios, Sum(sizes.value)))
  }

  /** The sizes handed back along both axes sum to those passed in. */
  predicate HandsBackSums(s: State, f: Frame) {
    var rows, cols := HandedBack(f.rowSizes, s.rowRatios), HandedBack(f.colSizes, s.colRatios);
    && (f.rowSizes.Some? ==> rows.Some? && Sum(rows.value) == Sum(f.rowSizes.value))
    && (f.colSizes.Some? ==> cols.Some? && Sum(cols.value) == Sum(f.colSizes.value))
  }

  lemma WholeHandsBack(s: State, f: Frame)
    requires s.Valid() && f.Valid() && s.rows == f.rows && s.cols == f.cols && s.Whole()
    ensures HandsBackSums(s, f)
  {
    hide Sum, Scaled;
    if f.rowSizes.Some? {
      ScaledSumIff(s.rowRatios, Sum(f.rowSizes.value));
    }
    if f.colSizes.Some? {
      ScaledSumIff(s.colRatios, Sum(f.colSizes.value));
    }
  }

  lemma LayoutRemembers(s: State, f: Frame)
    requires s.Valid() && f.Valid()
    ensures LaidOut(s, f).Remembered() == s.Remembered()
  {
  }

  predicate AllValid(fs: seq<Frame>) {
    forall k :: 0 <= k < |fs| ==> fs[k].Valid()
  }

  /** The state after n frames. */
  function After(s: State, fs: seq<Frame>, n: nat): (s': State)
    requires s.Valid() && n <= |fs| && AllValid(fs)
    ensures s'.Valid()
  {
    if n == 0 then s else Stepped(After(s, fs, n - 1), fs[n - 1])
  }

  lemma NextFrame(s: State, fs: seq<Frame>, n: nat)
    requires s.Valid() && n <= |fs| && AllValid(fs)
    ensures After(s, fs, n) == if n == 0 then s else Stepped(After(s, fs, n - 1), fs[n - 1])
  {
  }

  function Before(held: Sep, seps: seq<Sep>, n: nat): Sep
    requires n <= |seps|
  {
    if n == 0 then held else seps[n - 1]
  }

  /** Over a run with one separator touched at a time the ratios sum to one after every frame exactly
      when every drag is measured from sizes that make up its pair. */
  lemma {:induction false} RunWholeIff(s: State, fs: seq<Frame>, seps: seq<Sep>, n: nat)
    requires s.Valid() && s.Whole() && n <= |fs| == |seps| && AllValid(fs)
    requires forall k :: 0 <= k < |fs| ==> fs[k].OnlyTouches(seps[k])
    ensures (forall k :: 0 <= k <= n ==> After(s, fs, k).Whole())
       <==> (forall k :: 0 <= k < n ==> FrameMeasured(After(s, fs, k), fs[k], seps[k]))
  {
    hide After, Stepped, LaidOut, Sum, State.Whole, FrameMeasured, Frame.OnlyTouches, Frame.Valid, State.Valid;
    NextFrame(s, fs, n);
    if n > 0 {
      RunWholeIff(s, fs, seps, n - 1);
      var t := After(s, fs, n - 1);
      if t.Whole() {
        FrameWholeIff(t, fs[n - 1], seps[n - 1]);
        assert After(s, fs, n).Whole() <==> FrameMeasured(t, fs[n - 1], seps[n - 1]);
        if After(s, fs, n).Whole() && forall k :: 0 <= k < n - 1 ==> FrameMeasured(After(s, fs, k), fs[k], seps[k]) {
          forall k | 0 <= k < n ensures FrameMeasured(After(s, fs, k), fs[k], seps[k]) {
          }
        }
      }
    }
  }

  /** Over a run with a steady caller, after every frame the ratios sum to one, the sizes handed back
      sum to those passed in, and a held pair is above the smallest share if it was when clicked. */
  lemma {:induction false} RunKeeps(s: State, held: Sep, fs: seq<Frame>, seps: seq<Sep>, n: nat)
    requires Kept(s, held) && n <= |fs| == |seps| && AllValid(fs)
    requires forall k :: 0 <= k < |fs| ==> Steady(After(s, fs, k), fs[k], seps[k])
    ensures Kept(After(s, fs, n), Before(held, seps, n)) && (n > 0 ==> HandsBackSums(After(s, fs, n), fs[n - 1]))
  {
    hide Stepped, Steady, Sum, State.PairAt, Pair.Wide, HandsBackSums;
    if n > 0 {
      RunKeeps(s, held, fs, seps, n - 1);
      SteadyKeeps(After(s, fs, n - 1), Before(held, seps, n - 1), fs[n - 1], seps[n - 1]);
    }
  }

  // ---------- No share gets too small ----------

  predicate AllWide(ratios: seq<real>) {
    forall i :: 0 <= i < |ratios| ==> ratios[i] > 0.1
  }

  /** Whatever the user does to the separators, and whatever is remembered, they leave no share too small. */
  lemma {:induction false} SeparateFirstWide(s: Split, inputs: seq<SepInput>, n: nat)
    requires n <= |inputs| == |s.ratios| - 1 && AllWide(s.ratios)
    ensures AllWide(SeparateFirst(s, inputs, n).ratios)
  {
    hide Separate;
    if n > 0 {
      SeparateFirstWide(s, inputs, n - 1);
      SeparatePair(SeparateFirst(s, inputs, n - 1), n - 1, inputs[n - 1]);
    }
  }

  lemma FrameWide(s: State, f: Frame)
    requires s.Valid() && f.Valid()
    ensures AllWide(LaidOut(s, f).rowRatios) ==> AllWide(Stepped(s, f).rowRatios)
    ensures AllWide(LaidOut(s, f).colRatios) ==> AllWide(Stepped(s, f).colRatios)
  {
    hide LaidOut, AllWide, SeparateFirst;
    var l := LaidOut(s, f);
    if !f.noResize {
      var rows := SeparateFirst(l.RowSplit(), f.rowIn, |f.rowIn|);
      if AllWide(l.rowRatios) {
        SeparateFirstWide(l.RowSplit(), f.rowIn, |f.rowIn|);
      }
      if AllWide(l.colRatios) {
        SeparateFirstWide(Split(l.colRatios, rows.temp0, rows.temp1), f.colIn, |f.colIn|);
      }
    }
  }

  /** The caller asks for no share that is too small: along an axis it passes sizes that are all above a tenth
      of their sum, or that give the ratios there are, or none. A new layout has fewer than ten cells. */
  predicate AsksWide(sizes: Option<seq<real>>, changed: bool, ratios: seq<real>, n: int)
    requires sizes.Some? ==> Sum(sizes.value) != 0.0
  {
    if sizes.Some? then Normalized(sizes.value) == ratios || AllWide(Normalized(sizes.value)) else changed ==> n < 10
  }

  predicate FrameAsksWide(s: State, f: Frame)
    requires f.Valid()
  {
    var changed := s.rows != f.rows || s.cols != f.cols;
    AsksWide(f.rowSizes, changed, s.rowRatios, f.rows) && AsksWide(f.colSizes, changed, s.colRatios, f.cols)
  }

  lemma EqualSharesWide(n: nat)
    requires 0 < n < 10
    ensures AllWide(EqualShares(n))
  {
    assert 1.0 / n as real > 0.1;
  }

  lemma LaidOutWide(s: State, f: Frame)
    requires s.Valid() && f.Valid() && AllWide(s.rowRatios) && AllWide(s.colRatios) && FrameAsksWide(s, f)
    ensures AllWide(LaidOut(s, f).rowRatios) && AllWide(LaidOut(s, f).colRatios)
  {
    hide AllWide, Normalized, EqualShares, Sum;
    if f.rows < 10 {
      EqualSharesWide(f.rows);
    }
    if f.cols < 10 {
      EqualSharesWide(f.cols);
    }
  }

  /** Over every run whose callers ask for no share that is too small, none ever gets too small, for any
      touches of any separators in any frame. */
  lemma {:induction false} RunStaysWide(s: State, fs: seq<Frame>, n: nat)
    requires s.Valid() && n <= |fs| && AllValid(fs) && AllWide(s.rowRatios) && AllWide(s.colRatios)
    requires forall k :: 0 <= k < |fs| ==> FrameAsksWide(After(s, fs, k), fs[k])
    ensures AllWide(After(s, fs, n).rowRatios) && AllWide(After(s, fs, n).colRatios)
  {
    hide LaidOut, Stepped, FrameAsksWide, AllWide, Sum;
    if n > 0 {
      RunStaysWide(s, fs, n - 1);
      LaidOutWide(After(s, fs, n - 1), fs[n - 1]);
      FrameWide(After(s, fs, n - 1), fs[n - 1]);
    }
  }

  // ---------- Whole drags ----------

  /** A drag: the first frame clicks separator a, all others go on holding it. */
  predicate IsDrag(fs: seq<Frame>, a: Sep) {
    && |fs| > 0 && AllValid(fs) && !a.NoSep?
    && forall k :: 0 <= k < |fs| ==> fs[k].OnlyTouches(a) && fs[k].InputAt(a).held && (fs[k].InputAt(a).clicked <==> k == 0)
  }

  /** During a whole drag the sizes remembered are those of its click. */
  lemma {:induction false} DragRemembers(s: State, fs: seq<Frame>, a: Sep, n: nat)
    requires s.Valid() && IsDrag(fs, a) && 1 <= n <= |fs|
    ensures After(s, fs, n).Remembered() == Stepped(s, fs[0]).Remembered()
  {
    hide LaidOut, Stepped;
    if n == 1 {
      assert After(s, fs, 0) == s;
    } else {
      DragRemembers(s, fs, a, n - 1);
      FrameRemembers(After(s, fs, n - 1), fs[n - 1], a);
      LayoutRemembers(After(s, fs, n - 1), fs[n - 1]);
    }
  }

  /** The sizes passed in and the ratios along the axis of a separator. */
  function SizesAlong(f: Frame, a: Sep): Option<seq<real>> {
    if a.RowSep? then f.rowSizes else f.colSizes
  }

  function RatiosAlong(s: State, a: Sep): seq<real> {
    if a.RowSep? then s.rowRatios else s.colRatios
  }

  /** Frame k of a drag comes from a caller who keeps the layout and, along the axis of the drag, passes no
      sizes, or those it was handed back last, or the same ones as in the frame of the click. */
  predicate Usual(s: State, fs: seq<Frame>, a: Sep, k: int)
    requires 1 <= k < |fs|
  {
    var f := fs[k];
    && f.rows == s.rows && f.cols == s.cols
    && (|| SizesAlong(f, a).None?
        || SizesAlong(f, a) == HandedBack(SizesAlong(fs[k - 1], a), RatiosAlong(s, a))
        || SizesAlong(f, a) == SizesAlong(fs[0], a))
  }

  /** Without sizes, and with sizes handed back, the layout part leaves the ratios of an axis alone. */
  lemma CarriedOver(s: State, f: Frame, a: Sep, last: Frame)
    requires s.Valid() && s.Whole() && f.Valid() && last.Valid() && f.rows == s.rows && f.cols == s.cols && !a.NoSep?
    requires SizesAlong(f, a).None? || SizesAlong(f, a) == HandedBack(SizesAlong(last, a), RatiosAlong(s, a))
    ensures RatiosAlong(LaidOut(s, f), a) == RatiosAlong(s, a)
  {
    hide Sum, Scaled;
    if SizesAlong(f, a).Some? {
      ScaledSumIff(RatiosAlong(s, a), Sum(SizesAlong(last, a).value));
    }
  }

  /** The same sizes give the same ratios, whatever was there before. */
  lemma FixedSizes(s: State, f: Frame, a: Sep, t: State, click: Frame)
    requires s.Valid() && f.Valid() && t.Valid() && click.Valid() && SizesAlong(f, a).Some? && SizesAlong(f, a) == SizesAlong(click, a)
    ensures RatiosAlong(LaidOut(s, f), a) == RatiosAlong(LaidOut(t, click), a)
  {
    hide Sum;
  }

  lemma UsualIsSteady(s: State, fs: seq<Frame>, a: Sep, k: int, t: State)
    requires s.Valid() && IsDrag(fs, a) && 1 <= k < |fs| && t == After(s, fs, k)
    requires Kept(t, a) && Usual(t, fs, a, k) && LaidOut(s, fs[0]).PairAt(a).Wide()
    ensures Steady(t, fs[k], a)
  {
    hide LaidOut, Stepped, Sum, After, HandedBack;
    var f := fs[k];
    if SizesAlong(f, a).Some? && SizesAlong(f, a) == SizesAlong(fs[0], a) {
      FixedSizes(t, f, a, s, fs[0]);
      FrameRemembers(s, fs[0], a);
      DragRemembers(s, fs, a, k);
    } else {
      CarriedOver(t, f, a, fs[k - 1]);
    }
  }

  /** A whole drag of a pair above the smallest share, by each kind of caller: after every frame the ratios
      sum to one, the sizes handed back sum to those passed in, and the pair is still above the
      smallest share, whatever the mouse did. */
  lemma {:induction false} DragStaysWide(s: State, held: Sep, fs: seq<Frame>, a: Sep, n: nat)
    requires Kept(s, held) && IsDrag(fs, a) && 1 <= n <= |fs| && LaidOut(s, fs[0]).PairAt(a).Wide()
    requires forall k :: 1 <= k < |fs| ==> Usual(After(s, fs, k), fs, a, k)
    ensures var s' := After(s, fs, n);
            s'.Whole() && HandsBackSums(s', fs[n - 1]) && s'.Has(a) && s'.PairAt(a).Wide()
    ensures Kept(After(s, fs, n), a)
  {
    hide LaidOut, Stepped, Usual, Sum, HandsBackSums;
    if n == 1 {
      assert After(s, fs, 0) == s;
      SteadyKeeps(s, held, fs[0], a);
    } else {
      var t := After(s, fs, n - 1);
      DragStaysWide(s, held, fs, a, n - 1);
      UsualIsSteady(s, fs, a, n - 1, t);
      SteadyKeeps(t, a, fs[n - 1], a);
    }
    DragRemembers(s, fs, a, n);
    FrameRemembers(s, fs[0], a);
  }

  lemma SmallSums(a: real, b: real, c: real)
    ensures Sum([a]) == a && Sum([a, b]) == a + b && Sum([a, b, c]) == a + b + c
  {
    assert [a, b, c][..2] == [a, b] && [a, b][..1] == [a] && [a][..0] == [];
    assert Sum([]) == 0.0;
  }

  /** A click in a grid of three rows and a hold that goes on in a grid of two: the drag is measured from
      sizes of a pair that is gone, and the shares then sum to 0.8. */
  lemma StaleSizesFail(s: State, first: Frame, second: Frame, click: SepInput, hold: SepInput, still: SepInput)
    requires s == State(0, 0, [], [], 0.0, 0.0)
    requires click == SepInput(true, true, true, false, 0.0) && hold == SepInput(true, true, false, false, 0.0)
    requires still == SepInput(false, false, false, false, 0.0)
    requires first == Frame(3, 1, Some([0.4, 0.4, 0.2]), None, false, [click, still], [])
    requires second == Frame(2, 1, None, None, false, [hold], [])
    ensures first.Valid() && second.Valid() && first.OnlyTouches(RowSep(0)) && second.OnlyTouches(RowSep(0))
    ensures Stepped(s, first) == State(3, 1, [0.4, 0.4, 0.2], [1.0], 0.4, 0.4)
    ensures Stepped(Stepped(s, first), second) == State(2, 1, [0.4, 0.4], [1.0], 0.4, 0.4)
    ensures Stepped(s, first).Whole() && Sum(Stepped(Stepped(s, first), second).rowRatios) == 0.8
  {
    hide Sum, LaidOut, Stepped, SeparateFirst;
    SmallSums(0.4, 0.4, 0.2);
    SmallSums(1.0, 0.0, 0.0);
    FirstLayout(s, first);
    FrameActs(s, first, RowSep(0));
    assert [0.4, 0.4, 0.2][0 := 0.4][1 := 0.4] == [0.4, 0.4, 0.2];
    SecondLayout(Stepped(s, first), second);
    FrameActs(Stepped(s, first), second, RowSep(0));
    assert [0.5, 0.5][0 := 0.4][1 := 0.4] == [0.4, 0.4];
  }

  lemma FirstLayout(s: State, f: Frame)
    requires s == State(0, 0, [], [], 0.0, 0.0)
    requires f.Valid() && f.rows == 3 && f.cols == 1 && f.rowSizes == Some([0.4, 0.4, 0.2]) && f.colSizes == None
    ensures LaidOut(s, f) == State(3, 1, [0.4, 0.4, 0.2], [1.0], 0.0, 0.0)
  {
    hide Sum;
    SmallSums(0.4, 0.4, 0.2);
  }

  lemma SecondLayout(s: State, f: Frame)
    requires s == State(3, 1, [0.4, 0.4, 0.2], [1.0], 0.4, 0.4)
    requires f.Valid() && f.rows == 2 && f.cols == 1 && f.rowSizes == None && f.colSizes == None
    ensures LaidOut(s, f) == State(2, 1, [0.5, 0.5], [1.0], 0.4, 0.4)
  {
  }

  // ---------- The subplot ----------

  class Subplot {
    var Rows: int
    var Cols: int
    var RowRatios: seq<real>
    var ColRatios: seq<real>
    var TempSizes0: real
    var TempSizes1: real

    function Current(): State
      reads this
    {
      State(Rows, Cols, RowRatios, ColRatios, TempSizes0, TempSizes1)
    }

    constructor ()
      ensures Current() == State(0, 0, [], [], 0.0, 0.0)
    {
      Rows, Cols, RowRatios, ColRatios := 0, 0, [], [];
      TempSizes0, TempSizes1 := 0.0, 0.0;
    }

    /** The layout part: a change of rows or columns makes all shares equal, then the sizes the caller
        passes in replace them. */
    method SetLayout(f: Frame) returns (rowSum: real, colSum: real)
      requires Current().Valid() && f.Valid()
      modifies this`Rows, this`Cols, this`RowRatios, this`ColRatios
      ensures Current() == LaidOut(old(Current()), f)
      ensures f.rowSizes.Some? ==> rowSum == Sum(f.rowSizes.value)
      ensures f.colSizes.Some? ==> colSum == Sum(f.colSizes.value)
    {
      hide Sum;
      if Rows != f.rows || Cols != f.cols {
        RowRatios := FillEqual(f.rows);
        ColRatios := FillEqual(f.cols);
      }
      rowSum, colSum := 0.0, 0.0;
      if f.rowSizes.Some? {
        rowSum := Sum(f.rowSizes.value);
        RowRatios := Normalize(f.rowSizes.value, rowSum);
      }
      if f.colSizes.Some? {
        colSum := Sum(f.colSizes.value);
        ColRatios := Normalize(f.colSizes.value, colSum);
      }
      Rows, Cols := f.rows, f.cols;
    }

    static method FillEqual(n: int) returns (ratios: seq<real>)
      requires n > 0
      ensures ratios == EqualShares(n)
    {
      ratios := [];
      for i := 0 to n
        invariant |ratios| == i && forall j :: 0 <= j < i ==> ratios[j] == 1.0 / n as real
      {
        ratios := ratios + [1.0 / n as real];
      }
    }

    static method Normalize(sizes: seq<real>, sum: real) returns (ratios: seq<real>)
      requires sum == Sum(sizes) && sum != 0.0
      ensures ratios == Normalized(sizes)
    {
      hide Sum;
      ratios := [];
      for i := 0 to |sizes|
        invariant |ratios| == i && forall j :: 0 <= j < i ==> ratios[j] == sizes[j] / sum
      {
        ratios := ratios + [sizes[i] / sum];
      }
    }

    static method ScaleRatios(ratios: seq<real>, sum: real) returns (sizes: seq<real>)
      ensures sizes == Scaled(ratios, sum)
    {
      sizes := [];
      for i := 0 to |ratios|
        invariant |sizes| == i && forall j :: 0 <= j < i ==> sizes[j] == ratios[j] * sum
      {
        sizes := sizes + [ratios[i] * sum];
      }
    }

    /** The body of the loop over the row separators. */
    method SeparateRow(r: int, i: SepInput)
      requires 0 <= r < |RowRatios| - 1
      modifies this`RowRatios, this`TempSizes0, this`TempSizes1
      ensures Split(RowRatios, TempSizes0, TempSizes1) == Separate(Split(old(RowRatios), old(TempSizes0), old(TempSizes1)), r, i)
    {
      if i.hovered || i.held {
        if i.clicked && i.doubleClicked {
          var p := (RowRatios[r] + RowRatios[r + 1]) / 2.0;
          RowRatios := RowRatios[r := p][r + 1 := p];
        }
        if i.clicked {
          TempSizes0 := RowRatios[r];
          TempSizes1 := RowRatios[r + 1];
        }
        if i.held {
          var dp := i.drag;
          if TempSizes0 + dp > 0.1 && TempSizes1 - dp > 0.1 {
            RowRatios := RowRatios[r := TempSizes0 + dp];
            RowRatios := RowRatios[r + 1 := TempSizes1 - dp];
          }
        }
      }
    }

    method SeparateRows(rowIn: seq<SepInput>)
      requires |rowIn| == |RowRatios| - 1
      modifies this`RowRatios, this`TempSizes0, this`TempSizes1
      ensures Split(RowRatios, TempSizes0, TempSizes1) == SeparateFirst(Split(old(RowRatios), old(TempSizes0), old(TempSizes1)), rowIn, |rowIn|)
    {
      hide Separate;
      ghost var start := Split(RowRatios, TempSizes0, TempSizes1);
      for r := 0 to |rowIn|
        invariant |RowRatios| == |rowIn| + 1
        invariant Split(RowRatios, TempSizes0, TempSizes1) == SeparateFirst(start, rowIn, r)
      {
        SeparateRow(r, rowIn[r]);
      }
    }

    /** The body of the loop over the column separators. */
    method SeparateCol(c: int, i: SepInput)
      requires 0 <= c < |ColRatios| - 1
      modifies this`ColRatios, this`TempSizes0, this`TempSizes1
      ensures Split(ColRatios, TempSizes0, TempSizes1) == Separate(Split(old(ColRatios), old(TempSizes0), old(TempSizes1)), c, i)
    {
      if i.hovered || i.held {
        if i.clicked && i.doubleClicked {
          var p := (ColRatios[c] + ColRatios[c + 1]) / 2.0;
          ColRatios := ColRatios[c := p][c + 1 := p];
        }
        if i.clicked {
          TempSizes0 := ColRatios[c];
          TempSizes1 := ColRatios[c + 1];
        }
        if i.held {
          var dp := i.drag;
          if TempSizes0 + dp > 0.1 && TempSizes1 - dp > 0.1 {
            ColRatios := ColRatios[c := TempSizes0 + dp];
            ColRatios := ColRatios[c + 1 := TempSizes1 - dp];
          }
        }
      }
    }

    method SeparateCols(colIn: seq<SepInput>)
      requires |colIn| == |ColRatios| - 1
      modifies this`ColRatios, this`TempSizes0, this`TempSizes1
      ensures Split(ColRatios, TempSizes0, TempSizes1) == SeparateFirst(Split(old(ColRatios), old(TempSizes0), old(TempSizes1)), colIn, |colIn|)
    {
      hide Separate;
      ghost var start := Split(ColRatios, TempSizes0, TempSizes1);
      for c := 0 to |colIn|
        invariant |ColRatios| == |colIn| + 1
        invariant Split(ColRatios, TempSizes0, TempSizes1) == SeparateFirst(start, colIn, c)
      {
        SeparateCol(c, colIn[c]);
      }
    }

    /** One frame of BeginSubplots: the whole new state, and the sizes handed back to the caller. */
    method BeginSubplots(f: Frame) returns (rowOut: Option<seq<real>>, colOut: Option<seq<real>>)
      requires Current().Valid() && f.Valid()
      modifies this
      ensures Current() == Stepped(old(Current()), f)
      ensures rowOut == HandedBack(f.rowSizes, RowRatios) && colOut == HandedBack(f.colSizes, ColRatios)
    {
      hide Sum, LaidOut, SeparateFirst, Scaled;
      var rowSum, colSum := SetLayout(f);
      if !f.noResize {
        SeparateRows(f.rowIn);
        SeparateCols(f.colIn);
      }
      rowOut, colOut := None, None;
      if f.rowSizes.Some? {
        var sizes := ScaleRatios(RowRatios, rowSum);
        rowOut := Some(sizes);
      }
      if f.colSizes.Some? {
        var sizes := ScaleRatios(ColRatios, colSum);
        colOut := Some(sizes);
      }
    }
  }
}
