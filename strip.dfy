/** The LED strip as the clock drives it: a buffer of one output value per
    LED that the program writes cell by cell, and a commit that latches the
    buffer onto the LEDs. */
module Strip {
  import opened Face

  /** Output value of one LED: a global brightness and an RGB triple. */
  datatype Led = Led(brightness: int, r: int, g: int, b: int)

  /** An LED that is switched off. */
  const OFF: Led := Led(0, 0, 0, 0)

  /** The output value for colour c at the given brightness. */
  function ToLed(brightness: int, c: Color): (l: Led)
    ensures l.brightness == brightness && ColorOf(l) == c
  {
    Led(brightness, c.r, c.g, c.b)
  }

  /** The colour part of an output value. */
  function ColorOf(l: Led): Color
  {
    Color(l.r, l.g, l.b)
  }

  /** The output values for a whole face, LED by LED. */
  function Frame(brightness: int, face: seq<Color>): (r: seq<Led>)
    ensures |r| == |face|
    ensures forall i :: 0 <= i < |face| ==> r[i].brightness == brightness && ColorOf(r[i]) == face[i]
  {
    if face == [] then [] else Frame(brightness, face[..|face| - 1]) + [ToLed(brightness, face[|face| - 1])]
  }

  /** The colours of a list of output values. */
  function ColorsOf(leds: seq<Led>): (r: seq<Color>)
    ensures |r| == |leds|
    ensures forall i :: 0 <= i < |leds| ==> r[i] == ColorOf(leds[i])
  {
    if leds == [] then [] else ColorsOf(leds[..|leds| - 1]) + [ColorOf(leds[|leds| - 1])]
  }

  /** The colours of a frame are the face it was made from. */
  lemma {:induction false} FrameRoundTrip(brightness: int, face: seq<Color>)
    ensures ColorsOf(Frame(brightness, face)) == face
  {
    if face != [] {
      var prefix := face[..|face| - 1];
      FrameRoundTrip(brightness, prefix);
      var f := Frame(brightness, face);
      assert f[..|f| - 1] == Frame(brightness, prefix);
      assert face == prefix + [face[|face| - 1]];
    }
  }

  /** Frames at one brightness are equal exactly when their faces are, so a
      face that did not change needs no new frame. */
  lemma FrameInjective(brightness: int, a: seq<Color>, b: seq<Color>)
    ensures Frame(brightness, a) == Frame(brightness, b) <==> a == b
  {
    if Frame(brightness, a) == Frame(brightness, b) {
      FrameRoundTrip(brightness, a);
      FrameRoundTrip(brightness, b);
    }
  }

  class LedStrip {
    /** What the program has written for each LED since the last commit. */
    const cells: array<Led>
    /** What the LEDs show: the buffer as of the last commit. */
    var latched: seq<Led>
    /** Number of commits so far. */
    var commits: nat

    /** A strip of n LEDs, all off. */
    constructor (n: nat)
      ensures fresh(cells) && cells.Length == n
      ensures forall i :: 0 <= i < n ==> cells[i] == OFF
      ensures latched == cells[..] && commits == 0
    {
      cells := new Led[n](_ => OFF);
      commits := 0;
      new;
      latched := cells[..];
    }

    /** Latch the buffer onto the LEDs. */
    method Commit()
      modifies this
      ensures latched == cells[..] && commits == old(commits) + 1
    {
      latched := cells[..];
      commits := commits + 1;
    }
  }
}
