# LED ring clock face

A model of the clock face in `clock.py`, which shows the time on a ring of 12
RGB LEDs. For a time of day the program does four things:

- It puts the hour, minute and seconds positions into buckets, one LED per
  hour or per five minutes or seconds.
- It turns every position by an orientation offset taken from a dictionary
  that has entries for `W`, `S` and `E` only.
- It moves the hour hand on from minute 45, moves the minute hand on in the
  last two minutes of its five-minute bucket, and widens the hour hand to two
  LEDs between minutes 15 and 45.
- It blends the hands additively into a black buffer of 12 colours. It then
  either adds a five-LED seconds hand or fills the quarter positions (0, 3, 6
  and 9) that are still black with the seconds colour.

The new buffer is compared with the face shown last. Only when the two differ
are all 12 LEDs written, followed by one commit, and the new buffer becomes
the face shown last. A second function advances an hours/minutes/seconds
triple by one second.

Modules:

- `Face` (`face.dfy`) holds the geometry and the reference definition of the
  face, cell by cell (`ShowFace`), with the lemmas about it.
- `Strip` (`strip.dfy`) is the LED strip: a class with a buffer array that
  is written cell by cell, the values latched by the last commit, and a
  commit counter.
- `Renderer` (`renderer.dfy`) follows `show_time` step by step:
  - `ComputeFace` builds the face in an array with the same loops and
    updates as the source, and is proved equal to `ShowFace`.
  - The class `FaceRenderer` holds the configuration and `currentFace`.
    Its method `ShowTime` does the change detection, the write loop and the
    commit.
- `TimeOfDay` (`time_of_day.dfy`) holds `time_increment` and its partner,
  counting seconds since midnight.

The configuration globals (orientation, `SECONDS_HAND`, the three colours,
brightness) form a `Config` value. The renderer gets it at construction, and
`DEFAULT_CONFIG` holds the values the program ships with. The strip is passed
to `ShowTime`, as `leds` is passed to `show_time`. The time is an input, as
it comes from `get_timeofday`.

## Model

| member | source | states |
|---|---|---|
| Face.AddColor | clock.py:39-40 | definition: the componentwise sum of two colours, as `add_color` zips and sums the two triples |
| Face.AddColorCommutative | clock.py:39-40 | blending two colours does not depend on their order |
| Face.AddColorAssociative | clock.py:39-40 | blending is associative, so stacked hands give the same sum in any grouping |
| Face.AddColorBlackIdentity | clock.py:39-40 | blending with black leaves a colour unchanged on either side |
| Face.AddColorKeepsLit | clock.py:39-40 | blending onto a lit non-negative colour gives a lit non-negative colour |
| Face.Correction | clock.py:49-50 | W gives 3, S gives 6, E gives 9, and every other orientation (including "N") fails the lookup; a found offset lies inside the ring |
| Face.HourAdvanced | clock.py:55-57 | definition: the hour hand moves on one cell from minute 45 on (`minutes >= 45`); used by HourIndex, proved in HourIndexClosedForm |
| Face.Widened | clock.py:67-70 | definition: the hour hand covers two cells strictly between minutes 15 and 45; used by HandsCell, proved in HourHandCells |
| Face.MinuteAdvanced | clock.py:59-61 | definition: the minute hand moves on one cell when `minutes % 5 > 2`; used by MinuteIndex, proved in MinuteAdvanceRule |
| Face.HourIndex | clock.py:44-57 | the hour hand index lies in [0, 12) |
| Face.MinuteIndex | clock.py:45-61 | the minute hand index lies in [0, 12) |
| Face.SecondIndex | clock.py:46-53 | the seconds hand centre lies in [0, 12) |
| Face.InSweep | clock.py:74-75 | definition: cell i is on the seconds hand centred at s when (i - s + 1) % 12 < 5, the cells visited by `range(s-1, s+4)` reduced mod 12 (proved in SweepCells) |
| Face.Blend | clock.py:63-70 | definition: a black cell after adding the hour colour, the minute colour and the widening hour colour, each where it hits |
| Face.HandsCell | clock.py:63-70 | definition: the cell after the hour, minute and widening steps, with the hour hand at HourIndex and the minute hand at MinuteIndex |
| Face.HourHit | clock.py:64-70 | definition: the cell gets the hour colour, at the hour index or, when widened, the next cell |
| Face.FaceCell | clock.py:72-81 | definition: the hands cell with the seconds colour added on the sweep (seconds-hand mode), or the seconds colour on a tick the hands left black (ticks mode) |
| Face.FaceCells | clock.py:63-81 | the first n cells of the face, n of them; cell i is FaceCell at i (FaceCellsAt) |
| Face.ShowFace | clock.py:42-81 | a face exists exactly when the orientation lookup succeeds, and then has 12 cells |
| Face.FaceAt | clock.py:63-81 | every cell of the face is the hands layer followed by the sweep or tick rule at that cell |
| Face.Blank | clock.py:18 | the initial face: 12 cells, all black |
| Face.MinuteIndexClosedForm | clock.py:45-61 | minute index == (minutes % 60 / 5 + corr + (1 if minutes % 5 > 2)) % 12 |
| Face.MinuteStep | clock.py:45-61 | a minute later the minute hand is on the same cell or on the next one round the ring |
| Face.MinuteAdvanceRule | clock.py:60-61 | the minute hand leaves its bucket position exactly when minutes % 5 is 3 or 4 |
| Face.HourIndexClosedForm | clock.py:44-57 | hour index == (hours % 12 + corr + (1 if minutes >= 45)) % 12 |
| Face.HourHandCells | clock.py:56-70 | advance and widening never both apply; an advanced hand is at base+1; a widened one covers exactly base and base+1; otherwise exactly its index |
| Face.HourNextDiffers | clock.py:68-70 | the widened cell differs from the hour cell, so the hour colour is never added twice to one cell |
| Face.HandsCellIsSumOfHits | clock.py:63-70 | a cell holds the sum of the colours of the hands on it; a cell no hand hits is black before the seconds step |
| Face.HandsRotate | clock.py:49-61 | the hands layer for offset corr is the layer for offset 0 turned by corr cells |
| Face.HourIndexRotates | clock.py:51-57 | the hour index for offset corr is the index for offset 0 plus corr, mod 12 |
| Face.MinuteIndexRotates | clock.py:52-61 | the minute index for offset corr is the index for offset 0 plus corr, mod 12 |
| Face.SweepCells | clock.py:72-76 | a cell is on the seconds hand exactly when it is (s + k) % 12 for some k from -1 to 3, and each of those five cells is on it |
| Face.SweepCellsDistinct | clock.py:74-76 | those five cells are distinct |
| Face.SweepAddsSecondColor | clock.py:72-76 | in seconds-hand mode a face cell is its hands plus the seconds colour on the sweep, its hands elsewhere |
| Face.TicksFillOnlyBlackCells | clock.py:77-81 | in ticks mode the seconds colour overwrites only black tick cells; coloured ticks and non-tick cells show the hands |
| Face.TickCells | clock.py:79 | the tick cells are exactly 0, 3, 6 and 9, not turned by the orientation |
| Face.HourCellLit | clock.py:63-81 | with non-negative colours and a lit hour colour the cell under the hour hand is never black |
| Face.FaceNeverBlank | clock.py:18-87 | under the same conditions no face equals the blank ring a new renderer starts from |
| Face.ThreeOClockFacingEast | clock.py:42-81 | 3:00, orientation E, ticks mode: hour at cell 0, minute at cell 9, ticks at 3 and 6 only |
| Face.ThreeOClockCell | clock.py:42-81 | cell by cell, the face shown at 3:00 with the shipped configuration |
| Face.EastCorrection | clock.py:49-50 | orientation E gives offset 9 |
| Face.HourAdvancesAtMinute47 | clock.py:56-57 | at minute 47 the hour hand is one cell past its hour |
| Face.MinuteAdvancesAtMinute4 | clock.py:60-61 | at minute 4 the minute hand is one cell past the first bucket |
| Strip.ToLed | clock.py:85 | the output value carries the brightness and the colour it was made from |
| Strip.Frame | clock.py:84-85 | one output value per cell of the face, with the brightness and that cell's colour |
| Strip.ColorsOf | clock.py:85 | the colour part of each output value, LED by LED |
| Strip.FrameRoundTrip | clock.py:84-85 | the colours of a frame are the face it was made from |
| Strip.FrameInjective | clock.py:83-85 | two frames at one brightness are equal exactly when their faces are |
| Strip.LedStrip.constructor | clock.py:37 | stands for the driver object `get_leds` returns: a buffer of n LEDs. Its initial contents (all off, no commit yet) are a modelling assumption; nothing later relies on them |
| Strip.LedStrip.Commit | clock.py:86 | the LEDs now show the buffer, and the commit count goes up by one |
| Renderer.AddAt | clock.py:64-65 | blending a colour into one cell of the buffer changes that cell only |
| Renderer.FillIfBlack | clock.py:80-81 | the tick colour overwrites the cell when it is black and leaves it alone otherwise; no other cell changes |
| Renderer.HandPositions | clock.py:44-61 | the hour and minute positions computed step by step are HourIndex and MinuteIndex |
| Renderer.WidenHourHand | clock.py:68-70 | when widened, the hour colour is added at the cell after the hour hand and nowhere else |
| Renderer.DrawHands | clock.py:63-70 | drawing the hands on a black buffer yields the hands layer in every cell |
| Renderer.DrawSecondsHand | clock.py:72-76 | the seconds loop adds the seconds colour exactly on the five cells of the sweep |
| Renderer.DrawTicks | clock.py:77-81 | the tick loop fills exactly the black tick cells with the seconds colour |
| Renderer.DrawSecondsLayer | clock.py:72-81 | after the seconds hand or the ticks, every cell is the face cell |
| Renderer.ComputeFace | clock.py:42-81 | building the face in an array gives ShowFace: None on a failed orientation lookup, otherwise the face |
| Renderer.WriteFrame | clock.py:84-85 | the write loop leaves the strip buffer holding the frame of the face |
| Renderer.FaceRenderer.constructor | clock.py:18 | a new renderer has the blank ring as the face shown last |
| Renderer.FaceRenderer.ShowTime | clock.py:42-87 | a failed lookup changes nothing; an unchanged face changes nothing and commits nothing; otherwise the strip holds the frame of the new face, exactly one commit follows the writes, and the new face is the face shown last |
| Renderer.ShowTwice | clock.py:83-87 | two calls with the same time commit at most once |
| Renderer.FirstFrame | clock.py:18-87 | the first successful call after start always commits, and the LEDs then show the first face |
| TimeOfDay.TimeIncrement | clock.py:93-99 | the seconds come out in [0, 60); minutes change only when the seconds wrap, hours only when the minutes wrap as well; in-range input gives in-range output |
| TimeOfDay.ToSeconds | clock.py:93-99 | definition: seconds since midnight, `hours * 3600 + minutes * 60 + seconds`, the count the increment is compared with |
| TimeOfDay.FromSeconds | clock.py:93-99 | the in-range time of day n seconds after midnight, the reference the increment is compared with |
| TimeOfDay.TimeIncrementIsSuccessor | clock.py:93-99 | the result is one second later, modulo a day, counted in seconds since midnight |
| TimeOfDay.TimeIncrementFromSeconds | clock.py:93-99 | the result is the time of day of the next second since midnight |
| TimeOfDay.FromToSeconds | clock.py:93-99 | seconds since midnight identify an in-range time of day |
| TimeOfDay.ToFromSeconds | clock.py:93-99 | the time of day of n seconds since midnight counts n seconds |
| TimeOfDay.IncrementsAdd | clock.py:93-99 | k increments add k seconds modulo a day and stay in range |
| TimeOfDay.DayCycle | clock.py:93-99 | 86400 increments return the clock to where it started |

## Left out

- `poweron`, `shutdown` and `get_leds` (clock.py:20-37) are left out. They request GPIO lines and build the APA102 driver, which is foreign code. The strip is modelled only as a buffer array, the latched values and a commit counter; the `LedStrip` constructor stands for the driver `get_leds` returns, and its initial all-off contents are an assumption, since the driver's initial state is not part of this model.
- `get_timeofday` (clock.py:89-91) reads the wall clock, so the time is an input to `ShowTime`.
- The main loop with `sleep` (clock.py:102-115) is left out: it is an endless polling loop.
- `leds.py` is not part of this model. It is a hardware demo script.
- Brightness encoding and clamping of colour channels happen inside the driver's `LedOutput`. An output value is an opaque 4-tuple `(brightness, r, g, b)`.
- The orientation follows the code, not the comment at clock.py:12: the offset table has no entry for `N`. `Correction` and `ComputeFace` return `None` for it, and `ShowTime` returns `false` without changing anything, where the program raises `KeyError`.
- The seconds hand follows the code: `range(s-1, s+4)` covers five cells (one behind, three ahead), although the comment at clock.py:73 says four.
