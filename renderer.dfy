/** Drawing a time on the strip: the face is built step by step in an array
    of colours, as the clock program does, and written to the strip only when
    it differs from the face shown last. */
module Renderer {
  import opened Face
  import opened Strip

  /** Blend colour c into cell k of the array. */
  method AddAt(colors: array<Color>, k: int, c: Color)
    requires 0 <= k < colors.Length
    modifies colors
    ensures forall i :: 0 <= i < colors.Length ==> colors[i] == AddColor(Paint(i == k, c), old(colors[i]))
  {
    colors[k] := AddColor(c, colors[k]);
  }

  /** Overwrite cell k with colour c if it is black. */
  method FillIfBlack(colors: array<Color>, k: int, c: Color)
    requires 0 <= k < colors.Length
    modifies colors
    ensures forall i :: 0 <= i < colors.Length ==>
              colors[i] == if i == k && old(colors[i]) == BLACK then c else old(colors[i])
  {
    if colors[k] == BLACK {
      colors[k] := c;
    }
  }

  /** The hands drawn one after another onto a black cell give the cell of
      the layer of hands: the hour colour, the minute colour, then the hour
      colour again where the hour hand is widened. */
  lemma HandsLayers(cfg: Config, h: int, m: int, wide: bool, i: int, c: Color)
    requires c == AddColor(Paint(wide && i == Next(h), cfg.hourColor),
                           AddColor(Paint(i == m, cfg.minuteColor), AddColor(Paint(i == h, cfg.hourColor), BLACK)))
    ensures c == Blend(cfg, i == h, i == m, wide && i == Next(h))
  {
    var p, q, w := Paint(i == h, cfg.hourColor), Paint(i == m, cfg.minuteColor), Paint(wide && i == Next(h), cfg.hourColor);
    AddColorBlackIdentity(p);
    AddColorCommutative(q, p);
    AddColorCommutative(w, AddColor(p, q));
  }

  /** The cell reached at step l of the seconds loop is the only one whose
      offset from the start of the sweep is l - (sec - 1). */
  lemma SweepStep(sec: int, l: int, i: int)
    requires 0 <= sec < NLEDS && sec - 1 <= l < sec + 4 && 0 <= i < NLEDS
    ensures i == l % NLEDS <==> (i - sec + 1) % NLEDS == l - (sec - 1)
  {
  }

  /** The tick positions among the first t ticks. */
  lemma TickPrefix(t: int, i: int)
    requires 0 <= t < |TICKS|
    ensures TICKS[t] !in TICKS[..t]
    ensures i in TICKS[..t + 1] <==> i in TICKS[..t] || i == TICKS[t]
  {
    assert TICKS[..t + 1] == TICKS[..t] + [TICKS[t]];
  }

  /** A sequence of NLEDS cells that agrees with FaceCell everywhere is the face. */
  lemma FaceCellsExt(cfg: Config, corr: int, hours: int, minutes: int, seconds: int, s: seq<Color>)
    requires |s| == NLEDS
    requires forall i :: 0 <= i < NLEDS ==> s[i] == FaceCell(cfg, corr, hours, minutes, seconds, i)
    ensures s == FaceCells(cfg, corr, hours, minutes, seconds, NLEDS)
  {
    var f := FaceCells(cfg, corr, hours, minutes, seconds, NLEDS);
    forall i | 0 <= i < NLEDS
      ensures s[i] == f[i]
    {
      FaceCellsAt(cfg, corr, hours, minutes, seconds, NLEDS, i);
    }
  }

  /** The face for a time, built in an array: hands first, then the seconds
      sweep or the quarter ticks; None when the orientation has no offset. */
  method ComputeFace(cfg: Config, hours: int, minutes: int, seconds: int) returns (r: Option<seq<Color>>)
    ensures r == ShowFace(cfg, hours, minutes, seconds)
  {
    if cfg.orientation !in CORRECTION_ORIENTATION {
      assert Correction(cfg.orientation) == None;
      return None;
    }
    var corr := CORRECTION_ORIENTATION[cfg.orientation];
    assert Correction(cfg.orientation) == Some(corr);
    var colors := new Color[NLEDS](_ => BLACK);
    DrawHands(colors, cfg, corr, hours, minutes);
    DrawSecondsLayer(colors, cfg, corr, hours, minutes, seconds);
    FaceCellsExt(cfg, corr, hours, minutes, seconds, colors[..]);
    r := Some(colors[..]);
  }

  /** Over the hands, draw the seconds hand or the quarter ticks, as configured. */
  method DrawSecondsLayer(colors: array<Color>, cfg: Config, corr: int, hours: int, minutes: int, seconds: int)
    requires colors.Length == NLEDS
    requires forall i :: 0 <= i < NLEDS ==> colors[i] == HandsCell(cfg, corr, hours, minutes, i)
    modifies colors
    ensures forall i :: 0 <= i < NLEDS ==> colors[i] == FaceCell(cfg, corr, hours, minutes, seconds, i)
  {
    if cfg.secondsHand {
      DrawSecondsHand(colors, corr, seconds, cfg.secondColor);
      forall i | 0 <= i < NLEDS
        ensures colors[i] == FaceCell(cfg, corr, hours, minutes, seconds, i)
      {
        SweepCell(cfg, corr, hours, minutes, seconds, i);
      }
    } else {
      DrawTicks(colors, cfg.secondColor);
      forall i | 0 <= i < NLEDS
        ensures colors[i] == FaceCell(cfg, corr, hours, minutes, seconds, i)
      {
        TickCell(cfg, corr, hours, minutes, seconds, i);
      }
    }
  }

  /** Draw the hour and minute hands on a black ring. */
  method DrawHands(colors: array<Color>, cfg: Config, corr: int, hours: int, minutes: int)
    requires colors.Length == NLEDS && forall i :: 0 <= i < NLEDS ==> colors[i] == BLACK
    modifies colors
    ensures forall i :: 0 <= i < NLEDS ==> colors[i] == HandsCell(cfg, corr, hours, minutes, i)
  {
    var ledHours, ledMinutes := HandPositions(corr, hours, minutes);
    AddAt(colors, ledHours, cfg.hourColor);
    ghost var one := colors[..];
    AddAt(colors, ledMinutes, cfg.minuteColor);
    ghost var two := colors[..];
    var wide := minutes > 15 && minutes < 45;
    WidenHourHand(colors, wide, ledHours, cfg.hourColor);
    forall i | 0 <= i < NLEDS
      ensures colors[i] == HandsCell(cfg, corr, hours, minutes, i)
    {
      assert one[i] == AddColor(Paint(i == ledHours, cfg.hourColor), BLACK);
      assert two[i] == AddColor(Paint(i == ledMinutes, cfg.minuteColor), one[i]);
      assert colors[i] == AddColor(Paint(wide && i == Next(ledHours), cfg.hourColor), two[i]);
      HandsLayers(cfg, ledHours, ledMinutes, wide, i, colors[i]);
      HandsCellAt(cfg, corr, hours, minutes, i, ledHours, ledMinutes, wide);
    }
  }

  /** The layer of hands in terms of the hand positions. */
  lemma HandsCellAt(cfg: Config, corr: int, hours: int, minutes: int, i: int, h: int, m: int, wide: bool)
    requires h == HourIndex(corr, hours, minutes) && m == MinuteIndex(corr, minutes)
    requires wide == (minutes > 15 && minutes < 45)
    ensures HandsCell(cfg, corr, hours, minutes, i) == Blend(cfg, i == h, i == m, wide && i == Next(h))
  {
  }

  /** When wide, blend colour c into the cell after the hour hand at h. */
  method WidenHourHand(colors: array<Color>, wide: bool, h: int, c: Color)
    requires colors.Length == NLEDS
    modifies colors
    ensures forall i :: 0 <= i < NLEDS ==> colors[i] == AddColor(Paint(wide && i == Next(h), c), old(colors[i]))
  {
    if wide {
      var l := (h + 1) % NLEDS;
      colors[l] := AddColor(c, colors[l]);
    }
  }

  /** Positions of the hour and minute hands: bucket, orientation offset,
      then the advance in the last quarter of the hour and in the second part
      of the five-minute bucket. */
  method HandPositions(corr: int, hours: int, minutes: int) returns (ledHours: int, ledMinutes: int)
    ensures ledHours == HourIndex(corr, hours, minutes) && ledMinutes == MinuteIndex(corr, minutes)
  {
    ledHours := hours % NLEDS;
    ledMinutes := (minutes % 60) / (60 / NLEDS);
    ledHours := (ledHours + corr) % NLEDS;
    ledMinutes := (ledMinutes + corr) % NLEDS;
    if minutes >= 45 {
      ledHours := (ledHours + 1) % NLEDS;
    }
    if minutes % 5 > 2 {
      ledMinutes := (ledMinutes + 1) % NLEDS;
    }
  }

  /** Add colour c on the five cells of the seconds hand, from one cell behind
      its position to three ahead. */
  method DrawSecondsHand(colors: array<Color>, corr: int, seconds: int, c: Color)
    requires colors.Length == NLEDS
    modifies colors
    ensures forall i :: 0 <= i < NLEDS ==>
              colors[i] == AddColor(Paint(InSweep(SecondIndex(corr, seconds), i), c), old(colors[i]))
  {
    var ledSeconds := (seconds % 60) / (60 / NLEDS);
    ledSeconds := (ledSeconds + corr) % NLEDS;
    ghost var start := colors[..];
    var l := ledSeconds - 1;
    while l < ledSeconds + 4
      invariant ledSeconds - 1 <= l <= ledSeconds + 4
      invariant forall i :: 0 <= i < NLEDS ==>
                  colors[i] == AddColor(Paint((i - ledSeconds + 1) % NLEDS < l - (ledSeconds - 1), c), start[i])
    {
      AddAt(colors, l % NLEDS, c);
      forall i | 0 <= i < NLEDS
        ensures colors[i] == AddColor(Paint((i - ledSeconds + 1) % NLEDS < l + 1 - (ledSeconds - 1), c), start[i])
      {
        SweepStep(ledSeconds, l, i);
        PaintOnce(i == l % NLEDS, (i - ledSeconds + 1) % NLEDS < l - (ledSeconds - 1), c, start[i]);
      }
      l := l + 1;
    }
  }

  /** Show colour c on the quarter ticks that are still black. */
  method DrawTicks(colors: array<Color>, c: Color)
    requires colors.Length == NLEDS
    modifies colors
    ensures forall i :: 0 <= i < NLEDS ==>
              colors[i] == if i in TICKS && old(colors[i]) == BLACK then c else old(colors[i])
  {
    ghost var start := colors[..];
    var t := 0;
    while t < |TICKS|
      invariant 0 <= t <= |TICKS|
      invariant forall i :: 0 <= i < NLEDS ==>
                  colors[i] == if i in TICKS[..t] && start[i] == BLACK then c else start[i]
    {
      FillIfBlack(colors, TICKS[t], c);
      forall i | 0 <= i < NLEDS
        ensures colors[i] == if i in TICKS[..t + 1] && start[i] == BLACK then c else start[i]
      {
        TickPrefix(t, i);
      }
      t := t + 1;
    }
    assert TICKS[..t] == TICKS;
  }

  /** Write the output values of a face into the strip's buffer, LED by LED. */
  method WriteFrame(strip: LedStrip, brightness: int, colors: seq<Color>)
    requires strip.cells.Length == |colors|
    modifies strip.cells
    ensures strip.cells[..] == Frame(brightness, colors)
  {
    var led := 0;
    while led < |colors|
      invariant 0 <= led <= |colors|
      invariant forall k :: 0 <= k < led ==> strip.cells[k] == Frame(brightness, colors)[k]
    {
      strip.cells[led] := ToLed(brightness, colors[led]);
      led := led + 1;
    }
  }

  /** The clock's display: its configuration and the face it showed last. */
  class FaceRenderer {
    const cfg: Config
    /** The face last written to the strip; all black before the first one. */
    var currentFace: seq<Color>

    constructor (cfg: Config)
      ensures this.cfg == cfg && currentFace == Blank()
    {
      this.cfg := cfg;
      currentFace := Blank();
    }

    /** Show a time on the strip. The result is false when the orientation
        has no offset, which aborts before anything is written. Otherwise the
        face is written and committed only when it differs from the face shown
        last, and becomes the face shown last. */
    method ShowTime(strip: LedStrip, hours: int, minutes: int, seconds: int) returns (ok: bool)
      requires strip.cells.Length == NLEDS
      modifies this, strip, strip.cells
      ensures ok <==> ShowFace(cfg, hours, minutes, seconds).Some?
      ensures ok ==> currentFace == ShowFace(cfg, hours, minutes, seconds).value
      ensures !ok || currentFace == old(currentFace) ==>
                currentFace == old(currentFace) && strip.cells[..] == old(strip.cells[..])
                && strip.latched == old(strip.latched) && strip.commits == old(strip.commits)
      ensures ok && currentFace != old(currentFace) ==>
                strip.cells[..] == Frame(cfg.brightness, currentFace)
                && strip.latched == strip.cells[..] && strip.commits == old(strip.commits) + 1
    {
      var face := ComputeFace(cfg, hours, minutes, seconds);
      if face.None? {
        return false;
      }
      var colors := face.value;
      if colors != currentFace {
        WriteFrame(strip, cfg.brightness, colors);
        strip.Commit();
        currentFace := colors;
      }
      return true;
    }
  }

  /** Showing the same time twice commits at most once: the second call finds
      the face unchanged. */
  method ShowTwice(r: FaceRenderer, strip: LedStrip, hours: int, minutes: int, seconds: int)
    requires strip.cells.Length == NLEDS
    modifies r, strip, strip.cells
    ensures strip.commits <= old(strip.commits) + 1
  {
    var ok1 := r.ShowTime(strip, hours, minutes, seconds);
    var ok2 := r.ShowTime(strip, hours, minutes, seconds);
  }

  /** The first frame after start is always written: with non-negative
      colours and a lit hour colour no face equals the blank ring a new
      renderer starts from. */
  method FirstFrame(cfg: Config, strip: LedStrip, hours: int, minutes: int, seconds: int) returns (r: FaceRenderer, ok: bool)
    requires strip.cells.Length == NLEDS
    requires NonNegative(cfg.hourColor) && NonNegative(cfg.minuteColor) && NonNegative(cfg.secondColor)
    requires cfg.hourColor != BLACK
    modifies strip, strip.cells
    ensures ok <==> ShowFace(cfg, hours, minutes, seconds).Some?
    ensures ok ==> strip.commits == old(strip.commits) + 1
                   && strip.latched == Frame(cfg.brightness, ShowFace(cfg, hours, minutes, seconds).value)
  {
    r := new FaceRenderer(cfg);
    ok := r.ShowTime(strip, hours, minutes, seconds);
    if ok {
      FaceNeverBlank(cfg, hours, minutes, seconds);
    }
  }
}
