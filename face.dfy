/** Geometry of the clock face: where the hands of a time land on a ring of
    NLEDS LEDs, and which colour every cell of the ring gets.  This module is
    the cell-by-cell reference definition of the face; the renderer builds
    the same face step by step in an array. */
module Face {

  datatype Option<T> = None | Some(value: T)

  /** Number of LEDs on the ring. */
  const NLEDS: nat := 12
  /** Minutes (and seconds) covered by one LED: 60 // NLEDS. */
  const SPAN: nat := 60 / NLEDS
  /** Fixed ring positions of the quarter ticks; they are not corrected for orientation. */
  const TICKS: seq<int> := [0, 3, 6, 9]

  /** An RGB triple; channels are plain integers, the LED driver clamps them. */
  datatype Color = Color(r: int, g: int, b: int)

  const BLACK: Color := Color(0, 0, 0)

  /** Startup configuration of the clock. */
  datatype Config = Config(
    orientation: string,  // direction of the top of the ring
    secondsHand: bool,    // sweep a seconds hand instead of showing quarter ticks
    hourColor: Color,
    minuteColor: Color,
    secondColor: Color,
    brightness: int)

  /** The configuration the program ships with. */
  const DEFAULT_CONFIG: Config :=
    Config("E", false, Color(2, 0, 2), Color(0, 0, 20), Color(2, 2, 2), 1)

  /** Additive blend of two colours. */
  function AddColor(a: Color, b: Color): Color
  {
    Color(a.r + b.r, a.g + b.g, a.b + b.b)
  }

  /** The colour c on a cell that is hit, black on one that is not. */
  function Paint(hit: bool, c: Color): Color
  {
    if hit then c else BLACK
  }

  predicate NonNegative(c: Color)
  {
    c.r >= 0 && c.g >= 0 && c.b >= 0
  }

  /** Offsets per orientation; there is no entry for "N". */
  const CORRECTION_ORIENTATION: map<string, int> := map["W" := 3, "S" := 6, "E" := 9]

  /** Looking up the orientation offset; None is the failed dictionary lookup. */
  function Correction(orientation: string): (c: Option<int>)
    ensures c.Some? <==> orientation == "W" || orientation == "S" || orientation == "E"
    ensures c.Some? ==> 0 < c.value < NLEDS && c.value % 3 == 0
    ensures c == if orientation == "W" then Some(3) else if orientation == "S" then Some(6)
                 else if orientation == "E" then Some(9) else None
  {
    if orientation in CORRECTION_ORIENTATION then Some(CORRECTION_ORIENTATION[orientation]) else None
  }

  /** Hour hand moves to the next LED in the last quarter of the hour. */
  predicate HourAdvanced(minutes: int)
  {
    minutes >= 45
  }

  /** Hour hand spans two LEDs in the middle half of the hour. */
  predicate Widened(minutes: int)
  {
    minutes > 15 && minutes < 45
  }

  /** Minute hand moves to the next LED in the second part of its 5-minute bucket. */
  predicate MinuteAdvanced(minutes: int)
  {
    minutes % 5 > 2
  }

  /** The next cell clockwise around the ring. */
  function Next(k: int): int
  {
    (k + 1) % NLEDS
  }

  /** Position of the hour hand for orientation offset corr. */
  function HourIndex(corr: int, hours: int, minutes: int): (k: int)
    ensures 0 <= k < NLEDS
  {
    var base := (hours % NLEDS + corr) % NLEDS;
    if HourAdvanced(minutes) then Next(base) else base
  }

  /** Position of the minute hand for orientation offset corr. */
  function MinuteIndex(corr: int, minutes: int): (k: int)
    ensures 0 <= k < NLEDS
  {
    var base := ((minutes % 60) / SPAN + corr) % NLEDS;
    if MinuteAdvanced(minutes) then Next(base) else base
  }

  /** Centre of the seconds hand for orientation offset corr. */
  function SecondIndex(corr: int, seconds: int): (k: int)
    ensures 0 <= k < NLEDS
  {
    ((seconds % 60) / SPAN + corr) % NLEDS
  }

  /** Cell i lies on the seconds hand centred at sec: one cell behind, the centre
      and three ahead, counted around the ring. */
  predicate InSweep(sec: int, i: int)
  {
    (i - sec + 1) % NLEDS < 5
  }

  /** Colour of a cell of a black ring after blending in the hour colour
      (onHour), the minute colour (onMinute) and the hour colour once more
      for the widened hour hand (onWide), in that order. */
  function Blend(cfg: Config, onHour: bool, onMinute: bool, onWide: bool): Color
  {
    AddColor(AddColor(Paint(onHour, cfg.hourColor), Paint(onMinute, cfg.minuteColor)),
             Paint(onWide, cfg.hourColor))
  }

  /** Colour of cell i once the hour and minute hands are drawn on a black ring. */
  function HandsCell(cfg: Config, corr: int, hours: int, minutes: int, i: int): Color
  {
    var h := HourIndex(corr, hours, minutes);
    Blend(cfg, i == h, i == MinuteIndex(corr, minutes), Widened(minutes) && i == Next(h))
  }

  /** Final colour of cell i: the hands, then either the seconds sweep (additive)
      or a quarter tick on a cell the hands left black (overwrite). */
  function FaceCell(cfg: Config, corr: int, hours: int, minutes: int, seconds: int, i: int): Color
  {
    var hands := HandsCell(cfg, corr, hours, minutes, i);
    if cfg.secondsHand then
      AddColor(Paint(InSweep(SecondIndex(corr, seconds), i), cfg.secondColor), hands)
    else if i in TICKS && hands == BLACK then cfg.secondColor
    else hands
  }

  /** The first n cells of the face at offset corr. */
  function FaceCells(cfg: Config, corr: int, hours: int, minutes: int, seconds: int, n: nat): (r: seq<Color>)
    ensures |r| == n
  {
    if n == 0 then [] else FaceCells(cfg, corr, hours, minutes, seconds, n - 1) + [FaceCell(cfg, corr, hours, minutes, seconds, n - 1)]
  }

  /** The face shown for a time, or None when the orientation has no offset. */
  function ShowFace(cfg: Config, hours: int, minutes: int, seconds: int): (r: Option<seq<Color>>)
    ensures r.Some? <==> Correction(cfg.orientation).Some?
    ensures r.Some? ==> |r.value| == NLEDS
  {
    match Correction(cfg.orientation)
    case None => None
    case Some(corr) => Some(FaceCells(cfg, corr, hours, minutes, seconds, NLEDS))
  }

  /** Cell i of the first n cells is FaceCell at i. */
  lemma {:induction false} FaceCellsAt(cfg: Config, corr: int, hours: int, minutes: int, seconds: int, n: nat, i: int)
    requires 0 <= i < n
    ensures FaceCells(cfg, corr, hours, minutes, seconds, n)[i] == FaceCell(cfg, corr, hours, minutes, seconds, i)
  {
    if i < n - 1 {
      FaceCellsAt(cfg, corr, hours, minutes, seconds, n - 1, i);
    }
  }

  /** Cell i of the face is FaceCell at the orientation's offset. */
  lemma FaceAt(cfg: Config, hours: int, minutes: int, seconds: int, i: int)
    requires Correction(cfg.orientation).Some? && 0 <= i < NLEDS
    ensures ShowFace(cfg, hours, minutes, seconds).value[i]
         == FaceCell(cfg, Correction(cfg.orientation).value, hours, minutes, seconds, i)
  {
    FaceCellsAt(cfg, Correction(cfg.orientation).value, hours, minutes, seconds, NLEDS, i);
  }

  /** The all-black ring the renderer starts from. */
  function Blank(): (r: seq<Color>)
    ensures |r| == NLEDS && forall i :: 0 <= i < NLEDS ==> r[i] == BLACK
  {
    seq(NLEDS, _ => BLACK)
  }

  // ---------------------------------------------------------------------------
  // Blending

  lemma AddColorCommutative(a: Color, b: Color)
    ensures AddColor(a, b) == AddColor(b, a)
  {
  }

  lemma AddColorAssociative(a: Color, b: Color, c: Color)
    ensures AddColor(AddColor(a, b), c) == AddColor(a, AddColor(b, c))
  {
  }

  lemma AddColorBlackIdentity(a: Color)
    ensures AddColor(a, BLACK) == a && AddColor(BLACK, a) == a
  {
  }

  /** Blending onto a lit non-negative colour never gives black. */
  lemma AddColorKeepsLit(a: Color, b: Color)
    requires NonNegative(a) && NonNegative(b) && a != BLACK
    ensures NonNegative(AddColor(a, b)) && AddColor(a, b) != BLACK
  {
  }

  // ---------------------------------------------------------------------------
  // Ring arithmetic

  lemma ModAdd(a: int, b: int)
    ensures (a % NLEDS + b) % NLEDS == (a + b) % NLEDS
  {
  }

  /** Adding one moves to a different cell of the ring. */
  lemma NextCellDiffers(a: int)
    ensures (a + 1) % NLEDS != a % NLEDS
  {
    ModAdd(a, 1);
  }

  // ---------------------------------------------------------------------------
  // Hands

  /** The minute hand sits at the bucket of the minute, shifted by the orientation
      offset and by one more LED from the third minute of the bucket on. */
  lemma MinuteIndexClosedForm(corr: int, minutes: int)
    ensures MinuteIndex(corr, minutes)
         == ((minutes % 60) / 5 + corr + (if minutes % 5 > 2 then 1 else 0)) % NLEDS
  {
    ModAdd((minutes % 60) / 5 + corr, 1);
  }

  /** The minute hand advances past its bucket position exactly at offsets 3 and 4. */
  lemma MinuteAdvanceRule(corr: int, minutes: int)
    ensures MinuteIndex(corr, minutes) != ((minutes % 60) / 5 + corr) % NLEDS
        <==> minutes % 5 == 3 || minutes % 5 == 4
  {
    var a := (minutes % 60) / 5 + corr;
    ModAdd(a, 1);
    NextCellDiffers(a);
  }

  /** The hour hand sits at the hour on the 12-hour dial, shifted by the
      orientation offset and by one more LED from minute 45 on. */
  lemma HourIndexClosedForm(corr: int, hours: int, minutes: int)
    ensures HourIndex(corr, hours, minutes)
         == (hours % 12 + corr + (if minutes >= 45 then 1 else 0)) % NLEDS
  {
    ModAdd(hours % 12 + corr, 1);
  }

  /** The hour hand is never both advanced and widened: a widened hour hand
      covers its base cell and the next one, an advanced one only the next one. */
  lemma HourHandCells(cfg: Config, corr: int, hours: int, minutes: int, i: int)
    requires 0 <= i < NLEDS
    ensures !(HourAdvanced(minutes) && Widened(minutes))
    ensures var base := (hours % 12 + corr) % NLEDS;
            var next := (base + 1) % NLEDS;
            (HourAdvanced(minutes) ==> HourIndex(corr, hours, minutes) == next) &&
            (!HourAdvanced(minutes) ==> HourIndex(corr, hours, minutes) == base) &&
            (Widened(minutes) ==> (i == base || i == next <==> HourHit(corr, hours, minutes, i))) &&
            (!Widened(minutes) ==> (i == HourIndex(corr, hours, minutes) <==> HourHit(corr, hours, minutes, i)))
  {
    var base := (hours % 12 + corr) % NLEDS;
    NextCellDiffers(base);
    ModAdd(base, 1);
  }

  /** Cell i receives the hour colour. */
  predicate HourHit(corr: int, hours: int, minutes: int, i: int)
  {
    var h := HourIndex(corr, hours, minutes);
    i == h || (Widened(minutes) && i == Next(h))
  }

  /** Painting x on two cells that never coincide is painting their union. */
  lemma PaintOnce(a: bool, b: bool, x: Color, y: Color)
    requires !(a && b)
    ensures AddColor(Paint(a, x), AddColor(Paint(b, x), y)) == AddColor(Paint(a || b, x), y)
  {
    if a {
    } else if b {
    } else {
    }
  }

  /** Nothing painted gives black. */
  lemma PaintNothing(x: Color, y: Color)
    ensures AddColor(Paint(false, x), Paint(false, y)) == BLACK
  {
  }

  /** The layer of hands is black away from the hands, and where hands
      coincide the cell holds the sum of their colours. */
  lemma HandsCellIsSumOfHits(cfg: Config, corr: int, hours: int, minutes: int, i: int)
    ensures HandsCell(cfg, corr, hours, minutes, i)
         == AddColor(Paint(HourHit(corr, hours, minutes, i), cfg.hourColor),
                     Paint(i == MinuteIndex(corr, minutes), cfg.minuteColor))
    ensures !HourHit(corr, hours, minutes, i) && i != MinuteIndex(corr, minutes)
            ==> HandsCell(cfg, corr, hours, minutes, i) == BLACK
  {
    var h := HourIndex(corr, hours, minutes);
    var onMinute := i == MinuteIndex(corr, minutes);
    var onWide := Widened(minutes) && i == Next(h);
    HourNextDiffers(corr, hours, minutes);
    assert HandsCell(cfg, corr, hours, minutes, i) == Blend(cfg, i == h, onMinute, onWide);
    assert HourHit(corr, hours, minutes, i) == (i == h || onWide);
    PaintOnce(onWide, i == h, cfg.hourColor, Paint(onMinute, cfg.minuteColor));
    AddColorCommutative(AddColor(Paint(i == h, cfg.hourColor), Paint(onMinute, cfg.minuteColor)), Paint(onWide, cfg.hourColor));
    if !HourHit(corr, hours, minutes, i) && !onMinute {
      PaintNothing(cfg.hourColor, cfg.minuteColor);
    }
  }

  /** The second cell of a widened hour hand is not its first. */
  lemma HourNextDiffers(corr: int, hours: int, minutes: int)
    ensures Next(HourIndex(corr, hours, minutes)) != HourIndex(corr, hours, minutes)
  {
  }

  /** Orientation rotates the hands: the layer of hands for offset corr is the
      layer for offset 0 turned by corr cells. */
  lemma HandsRotate(cfg: Config, corr: int, hours: int, minutes: int, i: int)
    requires 0 <= i < NLEDS
    ensures HandsCell(cfg, corr, hours, minutes, (i + corr) % NLEDS)
         == HandsCell(cfg, 0, hours, minutes, i)
  {
    var j := (i + corr) % NLEDS;
    var h0 := HourIndex(0, hours, minutes);
    var h := HourIndex(corr, hours, minutes);
    var m0 := MinuteIndex(0, minutes);
    HourIndexRotates(corr, hours, minutes);
    MinuteIndexRotates(corr, minutes);
    NextRotates(h0, corr);
    RotateIndex(i, h0, corr);
    RotateIndex(i, m0, corr);
    RotateIndex(i, Next(h0), corr);
    var onHour, onMinute, onWide := i == h0, i == m0, Widened(minutes) && i == Next(h0);
    assert (j == h) == onHour && (j == MinuteIndex(corr, minutes)) == onMinute;
    assert (Widened(minutes) && j == Next(h)) == onWide;
  }

  lemma NextRotates(k: int, corr: int)
    ensures Next((k + corr) % NLEDS) == (Next(k) + corr) % NLEDS
  {
  }

  /** Turning the ring is a bijection on cells. */
  lemma RotateIndex(i: int, k: int, corr: int)
    requires 0 <= i < NLEDS && 0 <= k < NLEDS
    ensures (i + corr) % NLEDS == (k + corr) % NLEDS <==> i == k
  {
  }

  lemma HourIndexRotates(corr: int, hours: int, minutes: int)
    ensures HourIndex(corr, hours, minutes) == (HourIndex(0, hours, minutes) + corr) % NLEDS
  {
    var a := hours % NLEDS;
    assert a % NLEDS == a;
    if HourAdvanced(minutes) {
      ModAdd(a + corr, 1);
      ModAdd(a + 1, corr);
      ModAdd(a, 1);
    }
  }

  lemma MinuteIndexRotates(corr: int, minutes: int)
    ensures MinuteIndex(corr, minutes) == (MinuteIndex(0, minutes) + corr) % NLEDS
  {
    var a := (minutes % 60) / SPAN;
    assert 0 <= a < NLEDS;
    assert a % NLEDS == a;
    if MinuteAdvanced(minutes) {
      ModAdd(a + corr, 1);
      ModAdd(a + 1, corr);
      ModAdd(a, 1);
    }
  }

  // ---------------------------------------------------------------------------
  // Seconds hand and ticks

  /** The seconds hand covers the five cells (sec-1) % NLEDS .. (sec+3) % NLEDS
      (k from -1 to 3) and no other cell. */
  lemma SweepCells(sec: int, k: int, i: int)
    requires 0 <= sec < NLEDS && 0 <= i < NLEDS && -1 <= k <= 3
    ensures InSweep(sec, RingCell(sec, k))
    ensures InSweep(sec, i) <==> exists d {:trigger RingCell(sec, d)} :: -1 <= d <= 3 && i == RingCell(sec, d)
  {
    SweepCellOn(sec, k);
    if InSweep(sec, i) {
      SweepWitness(sec, i);
    } else {
      forall d | -1 <= d <= 3
        ensures i != RingCell(sec, d)
      {
        SweepCellOn(sec, d);
      }
    }
  }

  /** The cell d steps from sec, for d from -1 to 3, is on the sweep. */
  lemma SweepCellOn(sec: int, d: int)
    requires 0 <= sec < NLEDS && -1 <= d <= 3
    ensures InSweep(sec, RingCell(sec, d))
  {
    var j := RingCell(sec, d);
    if sec + d < 0 {
      assert j == sec + d + NLEDS;
    } else if sec + d >= NLEDS {
      assert j == sec + d - NLEDS;
    } else {
      assert j == sec + d;
    }
  }

  /** A cell on the sweep is (i - sec + 1) % NLEDS - 1 steps from sec. */
  lemma SweepWitness(sec: int, i: int)
    requires 0 <= sec < NLEDS && 0 <= i < NLEDS && InSweep(sec, i)
    ensures -1 <= (i - sec + 1) % NLEDS - 1 <= 3 && i == RingCell(sec, (i - sec + 1) % NLEDS - 1)
  {
    var e := i - sec + 1;
    if e < 0 {
      assert e % NLEDS == e + NLEDS;
    } else if e == NLEDS {
      assert e % NLEDS == 0;
    } else {
      assert e % NLEDS == e;
    }
  }

  /** The cell k steps round the ring from cell sec. */
  function RingCell(sec: int, k: int): int
  {
    (sec + k) % NLEDS
  }

  /** The five cells of the seconds hand are distinct, so each gets the
      seconds colour added exactly once. */
  lemma SweepCellsDistinct(sec: int, k1: int, k2: int)
    requires 0 <= sec < NLEDS && -1 <= k1 < k2 <= 3
    ensures (sec + k1) % NLEDS != (sec + k2) % NLEDS
  {
  }

  /** In ticks mode a tick cell left black by the hands shows the seconds colour
      (overwritten, not blended); every other cell shows the hands. */
  lemma TicksFillOnlyBlackCells(cfg: Config, hours: int, minutes: int, seconds: int, i: int)
    requires !cfg.secondsHand && Correction(cfg.orientation).Some?
    requires 0 <= i < NLEDS
    ensures var hands := HandsCell(cfg, Correction(cfg.orientation).value, hours, minutes, i);
            var face := ShowFace(cfg, hours, minutes, seconds).value;
            face[i] == if i in TICKS && hands == BLACK then cfg.secondColor else hands
  {
    var corr := Correction(cfg.orientation).value;
    FaceAt(cfg, hours, minutes, seconds, i);
  }

  /** In seconds-hand mode the seconds colour is added on the cells of the
      sweep and nowhere else. */
  lemma SweepAddsSecondColor(cfg: Config, hours: int, minutes: int, seconds: int, i: int)
    requires cfg.secondsHand && Correction(cfg.orientation).Some?
    requires 0 <= i < NLEDS
    ensures var corr := Correction(cfg.orientation).value;
            var hands := HandsCell(cfg, corr, hours, minutes, i);
            var face := ShowFace(cfg, hours, minutes, seconds).value;
            face[i] == if InSweep(SecondIndex(corr, seconds), i) then AddColor(cfg.secondColor, hands) else hands
  {
    var corr := Correction(cfg.orientation).value;
    var hands := HandsCell(cfg, corr, hours, minutes, i);
    var sweep := InSweep(SecondIndex(corr, seconds), i);
    FaceAt(cfg, hours, minutes, seconds, i);
    assert FaceCell(cfg, corr, hours, minutes, seconds, i) == AddColor(Paint(sweep, cfg.secondColor), hands);
    if !sweep {
      AddColorBlackIdentity(hands);
    }
  }

  /** With non-negative colours and a lit hour colour the cell under the hour
      hand is lit, so the face is never all black: the first frame after start
      always differs from the blank ring. */
  lemma FaceNeverBlank(cfg: Config, hours: int, minutes: int, seconds: int)
    requires NonNegative(cfg.hourColor) && NonNegative(cfg.minuteColor) && NonNegative(cfg.secondColor)
    requires cfg.hourColor != BLACK
    requires ShowFace(cfg, hours, minutes, seconds).Some?
    ensures ShowFace(cfg, hours, minutes, seconds).value != Blank()
  {
    var corr := Correction(cfg.orientation).value;
    var h := HourIndex(corr, hours, minutes);
    HourCellLit(cfg, corr, hours, minutes, seconds);
    FaceAt(cfg, hours, minutes, seconds, h);
    assert Blank()[h] == BLACK;
  }

  /** The cell under the hour hand is lit whatever the seconds layer does. */
  lemma HourCellLit(cfg: Config, corr: int, hours: int, minutes: int, seconds: int)
    requires NonNegative(cfg.hourColor) && NonNegative(cfg.minuteColor) && NonNegative(cfg.secondColor)
    requires cfg.hourColor != BLACK
    ensures FaceCell(cfg, corr, hours, minutes, seconds, HourIndex(corr, hours, minutes)) != BLACK
  {
    var h := HourIndex(corr, hours, minutes);
    var onMinute := h == MinuteIndex(corr, minutes);
    HandsCellIsSumOfHits(cfg, corr, hours, minutes, h);
    assert HourHit(corr, hours, minutes, h);
    var hands := HandsCell(cfg, corr, hours, minutes, h);
    assert hands == AddColor(cfg.hourColor, Paint(onMinute, cfg.minuteColor));
    AddColorKeepsLit(cfg.hourColor, Paint(onMinute, cfg.minuteColor));
    var sweep := Paint(InSweep(SecondIndex(corr, seconds), h), cfg.secondColor);
    AddColorKeepsLit(hands, sweep);
    AddColorCommutative(hands, sweep);
    CellOverLitHands(cfg, corr, hours, minutes, seconds, h);
  }

  /** A cell whose hands are lit keeps them: ticks only fill black cells and the
      sweep adds its colour. */
  lemma CellOverLitHands(cfg: Config, corr: int, hours: int, minutes: int, seconds: int, i: int)
    requires HandsCell(cfg, corr, hours, minutes, i) != BLACK
    ensures FaceCell(cfg, corr, hours, minutes, seconds, i)
         == if cfg.secondsHand
            then AddColor(Paint(InSweep(SecondIndex(corr, seconds), i), cfg.secondColor), HandsCell(cfg, corr, hours, minutes, i))
            else HandsCell(cfg, corr, hours, minutes, i)
  {
  }

  // ---------------------------------------------------------------------------
  // Scenarios

  const THREE_OCLOCK_EAST: seq<Color> :=
    [Color(2, 0, 2), BLACK, BLACK, Color(2, 2, 2), BLACK, BLACK,
     Color(2, 2, 2), BLACK, BLACK, Color(0, 0, 20), BLACK, BLACK]

  /** 3:00 with the default configuration (orientation E, ticks mode): the hour
      hand lands on cell 0, the minute hand on cell 9, so ticks show only at 3 and 6. */
  lemma ThreeOClockFacingEast(seconds: int)
    ensures ShowFace(DEFAULT_CONFIG, 3, 0, seconds) == Some(THREE_OCLOCK_EAST)
  {
    var face := ShowFace(DEFAULT_CONFIG, 3, 0, seconds).value;
    forall i | 0 <= i < NLEDS
      ensures face[i] == THREE_OCLOCK_EAST[i]
    {
      ThreeOClockCell(seconds, i);
      ExpectedThreeOClock(i);
    }
    assert face == THREE_OCLOCK_EAST;
  }

  lemma ExpectedThreeOClock(i: int)
    requires 0 <= i < NLEDS
    ensures THREE_OCLOCK_EAST[i]
         == if i == 0 then Color(2, 0, 2) else if i == 9 then Color(0, 0, 20)
            else if i == 3 || i == 6 then Color(2, 2, 2) else BLACK
  {
  }

  lemma ThreeOClockCell(seconds: int, i: int)
    requires 0 <= i < NLEDS
    ensures ShowFace(DEFAULT_CONFIG, 3, 0, seconds).value[i]
         == if i == 0 then Color(2, 0, 2) else if i == 9 then Color(0, 0, 20)
            else if i == 3 || i == 6 then Color(2, 2, 2) else BLACK
  {
    EastCorrection();
    FaceAt(DEFAULT_CONFIG, 3, 0, seconds, i);
    ThreeOClockFaceCell(seconds, i);
  }

  lemma ThreeOClockFaceCell(seconds: int, i: int)
    requires 0 <= i < NLEDS
    ensures FaceCell(DEFAULT_CONFIG, 9, 3, 0, seconds, i)
         == if i == 0 then Color(2, 0, 2) else if i == 9 then Color(0, 0, 20)
            else if i == 3 || i == 6 then Color(2, 2, 2) else BLACK
  {
    var hands := HandsCell(DEFAULT_CONFIG, 9, 3, 0, i);
    ThreeOClockHands(i);
    TickCell(DEFAULT_CONFIG, 9, 3, 0, seconds, i);
    TickCells(i);
    if i == 0 || i == 9 {
      assert hands != BLACK;
    } else {
      assert hands == BLACK;
    }
  }

  /** In ticks mode a cell shows its hands, or the seconds colour on a tick the hands left black. */
  lemma TickCell(cfg: Config, corr: int, hours: int, minutes: int, seconds: int, i: int)
    requires !cfg.secondsHand
    ensures FaceCell(cfg, corr, hours, minutes, seconds, i)
         == if i in TICKS && HandsCell(cfg, corr, hours, minutes, i) == BLACK then cfg.secondColor
            else HandsCell(cfg, corr, hours, minutes, i)
  {
  }

  /** The tick cells are the quarter positions of the ring. */
  lemma TickCells(i: int)
    ensures i in TICKS <==> i == 0 || i == 3 || i == 6 || i == 9
  {
    assert TICKS[0] == 0 && TICKS[1] == 3 && TICKS[2] == 6 && TICKS[3] == 9;
  }

  /** In seconds-hand mode a cell shows its hands with the seconds colour added on the sweep. */
  lemma SweepCell(cfg: Config, corr: int, hours: int, minutes: int, seconds: int, i: int)
    requires cfg.secondsHand
    ensures FaceCell(cfg, corr, hours, minutes, seconds, i)
         == AddColor(Paint(InSweep(SecondIndex(corr, seconds), i), cfg.secondColor), HandsCell(cfg, corr, hours, minutes, i))
  {
  }

  lemma EastCorrection()
    ensures Correction(DEFAULT_CONFIG.orientation) == Some(9)
  {
  }

  lemma ThreeOClockHands(i: int)
    ensures HandsCell(DEFAULT_CONFIG, 9, 3, 0, i)
         == if i == 0 then Color(2, 0, 2) else if i == 9 then Color(0, 0, 20) else BLACK
  {
    var cfg := DEFAULT_CONFIG;
    assert HourIndex(9, 3, 0) == 0 && MinuteIndex(9, 0) == 9 && !Widened(0);
    assert HandsCell(cfg, 9, 3, 0, i) == Blend(cfg, i == 0, i == 9, false);
    BlendOne(cfg, i == 0, i == 9);
  }

  lemma BlendOne(cfg: Config, onHour: bool, onMinute: bool)
    requires !(onHour && onMinute)
    ensures Blend(cfg, onHour, onMinute, false)
         == if onHour then cfg.hourColor else if onMinute then cfg.minuteColor else BLACK
  {
    if onHour {
    } else if onMinute {
    } else {
    }
  }

  /** At minute 47 the hour hand has moved one cell past the hour. */
  lemma HourAdvancesAtMinute47(corr: int, hours: int)
    ensures HourIndex(corr, hours, 47) == (hours % 12 + corr + 1) % NLEDS
  {
    HourIndexClosedForm(corr, hours, 47);
  }

  /** The minute hand moves forward one cell at a time: a minute later it is
      on the same cell or on the next one round the ring. */
  lemma MinuteStep(corr: int, minutes: int)
    ensures MinuteIndex(corr, minutes + 1) == MinuteIndex(corr, minutes)
         || MinuteIndex(corr, minutes + 1) == Next(MinuteIndex(corr, minutes))
  {
    MinuteIndexClosedForm(corr, minutes);
    MinuteIndexClosedForm(corr, minutes + 1);
    var x := (minutes % 60) / 5 + corr + (if minutes % 5 > 2 then 1 else 0);
    var y := ((minutes + 1) % 60) / 5 + corr + (if (minutes + 1) % 5 > 2 then 1 else 0);
    MinuteBucketStep(minutes);
    if y == x + 1 {
      ModAdd(x, 1);
    } else if y == x - NLEDS {
      ModAdd(y, NLEDS);
    }
  }

  /** One minute later the bucket position plus the advance grows by at most
      one, or wraps round the hour. */
  lemma MinuteBucketStep(minutes: int)
    ensures var x := (minutes % 60) / 5 + (if minutes % 5 > 2 then 1 else 0);
            var y := ((minutes + 1) % 60) / 5 + (if (minutes + 1) % 5 > 2 then 1 else 0);
            y == x || y == x + 1 || y == x - NLEDS
  {
    var q := minutes % 60;
    MinuteOfBucket(minutes);
    MinuteOfBucket(minutes + 1);
    assert SlotWithin(q) == (minutes % 60) / 5 + (if minutes % 5 > 2 then 1 else 0);
    var q1 := NextMinuteOfHour(minutes);
    assert SlotWithin(q1) == ((minutes + 1) % 60) / 5 + (if (minutes + 1) % 5 > 2 then 1 else 0);
    BucketStep(q);
  }

  /** Bucket position plus advance for a minute of the hour. */
  function SlotWithin(q: int): int
  {
    q / 5 + (if q % 5 > 2 then 1 else 0)
  }

  /** The minute of the hour one minute later. */
  lemma NextMinuteOfHour(minutes: int) returns (q1: int)
    ensures q1 == (minutes + 1) % 60
    ensures q1 == if minutes % 60 < 59 then minutes % 60 + 1 else 0
  {
    q1 := (minutes + 1) % 60;
  }

  /** The minute within the five-minute bucket does not depend on the hour. */
  lemma MinuteOfBucket(minutes: int)
    ensures minutes % 5 == (minutes % 60) % 5
  {
    var k, q := minutes / 60, minutes % 60;
    assert minutes == 5 * (12 * k + q / 5) + q % 5;
    Mod5Unique(minutes, 12 * k + q / 5, q % 5);
  }

  lemma Mod5Unique(n: int, k: int, r: int)
    requires 0 <= r < 5 && n == 5 * k + r
    ensures n % 5 == r
  {
  }

  /** Within the hour, one minute later the bucket position plus the advance
      grows by at most one; from minute 59 it wraps back to 0. */
  lemma BucketStep(q: int)
    requires 0 <= q < 60
    ensures var y := SlotWithin(if q < 59 then q + 1 else 0);
            y == SlotWithin(q) || y == SlotWithin(q) + 1 || y == SlotWithin(q) - NLEDS
  {
    var a, r := q / 5, q % 5;
    if r < 4 {
      assert (q + 1) / 5 == a && (q + 1) % 5 == r + 1;
    } else if q < 59 {
      assert (q + 1) / 5 == a + 1 && (q + 1) % 5 == 0;
    }
  }

  /** At minute 4 the minute hand has moved one cell past the first bucket. */
  lemma MinuteAdvancesAtMinute4(corr: int)
    ensures MinuteIndex(corr, 4) == (corr + 1) % NLEDS
  {
    MinuteIndexClosedForm(corr, 4);
  }
}
