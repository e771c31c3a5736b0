/** The colour of a person in the contact visualisation: white when no
    infected person can reach them, the infected red when they are infected,
    and a shade between the two otherwise; and the CSS text of a colour. */
module Colouring {
  import opened Base
  import opened Decimal

  /** An (r, g, b) triple. */
  datatype Rgb = Rgb(r: int, g: int, b: int)

  const INFECTED_COLOUR := Rgb(255, 0, 0)
  const WHITE := Rgb(255, 255, 255)

  /** Python's `int` on a float: truncation toward zero. */
  function Trunc(x: real): (i: int)
    ensures x >= 0.0 ==> i as real <= x < i as real + 1.0
    ensures x < 0.0 ==> i as real - 1.0 < x <= i as real
  {
    if x >= 0.0 then x.Floor else -((-x).Floor)
  }

  lemma TruncMonotone(x: real, y: real)
    requires x <= y
    ensures Trunc(x) <= Trunc(y)
  {
    if x >= 0.0 {
      assert Trunc(x) as real <= y < Trunc(y) as real + 1.0;
    } else if y < 0.0 {
      assert Trunc(x) as real - 1.0 < x <= y <= Trunc(y) as real;
    }
  }

  /** One channel of the gradient from the infected colour to white: the
      infected colour's channel moved by `percentFill` of the way to 255. */
  function Channel(infected: int, percentFill: real): int {
    Trunc(infected as real + (255 - infected) as real * percentFill)
  }

  /** The colour of a person whose `degrees_apart` label is `degreesApart`.
      `percentFill` is the exponential curve's value at that label, which
      the source computes in floating point. */
  function DegreesApartGetColour(degreesApart: Option<int>, percentFill: real): (c: Rgb)
    ensures degreesApart == None ==> c == WHITE
    ensures degreesApart == Some(0) ==> c == INFECTED_COLOUR
    ensures degreesApart.Some? && degreesApart.value != 0 ==>
      c.r == 255 && c.g == c.b
    ensures degreesApart.Some? && degreesApart.value != 0 && 0.0 <= percentFill < 1.0 ==>
      0 <= c.g <= 254
    ensures degreesApart.Some? && degreesApart.value != 0 && 0.0 <= percentFill <= 1.0 ==>
      0 <= c.g <= 255
  {
    match degreesApart
    case None => WHITE
    case Some(d) =>
      if d == 0 then INFECTED_COLOUR
      else Rgb(Channel(INFECTED_COLOUR.r, percentFill),
               Channel(INFECTED_COLOUR.g, percentFill),
               Channel(INFECTED_COLOUR.b, percentFill))
  }

  /** A larger fill never gives a darker shade. */
  lemma ColourLightensWithFill(d: int, fill1: real, fill2: real)
    requires d != 0 && fill1 <= fill2
    ensures DegreesApartGetColour(Some(d), fill1).g <= DegreesApartGetColour(Some(d), fill2).g
    ensures DegreesApartGetColour(Some(d), fill1).b <= DegreesApartGetColour(Some(d), fill2).b
  {
    TruncMonotone(255.0 * fill1, 255.0 * fill2);
  }

  /** Only an infected label gives the infected colour, and only a missing
      label gives white, whenever the fill lies in [0, 1). */
  lemma ColourDistinguishesLabels(degreesApart: Option<int>, percentFill: real)
    requires 0.0 <= percentFill < 1.0
    ensures DegreesApartGetColour(degreesApart, percentFill) == WHITE <==> degreesApart == None
    ensures DegreesApartGetColour(degreesApart, percentFill) == INFECTED_COLOUR <==>
      degreesApart == Some(0) || (degreesApart.Some? && Trunc(255.0 * percentFill) == 0)
  {
  }

  /** The CSS text "rgb(r, g, b)" of a colour. */
  function RgbToStr(rgb: Rgb): (s: string)
    ensures |s| >= 10 && s[..4] == "rgb(" && s[|s| - 1] == ')'
  {
    "rgb(" + IntToString(rgb.r) + ", " + IntToString(rgb.g) + ", " + IntToString(rgb.b) + ")"
  }

  /** The position of the first `c` in `s`. */
  function IndexOf(s: string, c: char): (r: Option<nat>)
    ensures r.Some? ==> r.value < |s| && s[r.value] == c && c !in s[..r.value]
    ensures r.None? ==> c !in s
  {
    if |s| == 0 then None
    else if s[0] == c then Some(0)
    else match IndexOf(s[1..], c)
      case None => None
      case Some(k) => assert s[..k + 1] == [s[0]] + s[1..][..k]; Some(k + 1)
  }

  lemma {:induction false} IndexOfConcat(a: string, b: string, c: char)
    requires c !in a && |b| > 0 && b[0] == c
    ensures IndexOf(a + b, c) == Some(|a|)
    decreases |a|
  {
    if |a| > 0 {
      assert (a + b)[1..] == a[1..] + b;
      IndexOfConcat(a[1..], b, c);
    }
  }

  /** Reads "x, rest": an integer up to the first ", " and what follows it. */
  function ParseField(s: string): Option<(int, string)> {
    match IndexOf(s, ',')
    case None => None
    case Some(i) =>
      if i + 1 < |s| && s[i + 1] == ' ' then
        match ParseInt(s[..i])
        case None => None
        case Some(x) => Some((x, s[i + 2..]))
      else None
  }

  /** Reads back the text `RgbToStr` writes. */
  function ParseRgb(s: string): Option<Rgb> {
    if |s| < 5 || s[..4] != "rgb(" || s[|s| - 1] != ')' then None
    else
      match ParseField(s[4..|s| - 1])
      case None => None
      case Some((r, rest)) =>
        match ParseField(rest)
        case None => None
        case Some((g, last)) =>
          match ParseInt(last)
          case None => None
          case Some(b) => Some(Rgb(r, g, b))
  }

  lemma NumeralHasNoComma(i: int)
    ensures ',' !in IntToString(i)
  {
    var s := IntToString(i);
    forall k | 0 <= k < |s|
      ensures s[k] != ','
    {
      if i < 0 && k > 0 {
        assert s[k] == s[1..][k - 1];
      }
    }
  }

  lemma ParseFieldNumeral(x: int, rest: string)
    ensures ParseField(IntToString(x) + ", " + rest) == Some((x, rest))
  {
    var a := IntToString(x);
    var s := a + ", " + rest;
    NumeralHasNoComma(x);
    IndexOfConcat(a, ", " + rest, ',');
    assert s == a + (", " + rest);
    assert s[..|a|] == a;
    assert s[|a| + 2..] == rest;
    IntToStringRoundTrip(x);
  }

  /** Reading back the text of a colour gives the colour. */
  lemma RgbToStrRoundTrip(rgb: Rgb)
    ensures ParseRgb(RgbToStr(rgb)) == Some(rgb)
  {
    var r, g, b := IntToString(rgb.r), IntToString(rgb.g), IntToString(rgb.b);
    var s := RgbToStr(rgb);
    var body := r + ", " + (g + ", " + b);
    assert s == "rgb(" + body + ")";
    assert s[4..|s| - 1] == body;
    ParseFieldNumeral(rgb.r, g + ", " + b);
    ParseFieldNumeral(rgb.g, b);
    IntToStringRoundTrip(rgb.b);
  }

  /** Different colours have different texts. */
  lemma RgbToStrInjective(c1: Rgb, c2: Rgb)
    requires RgbToStr(c1) == RgbToStr(c2)
    ensures c1 == c2
  {
    RgbToStrRoundTrip(c1);
    RgbToStrRoundTrip(c2);
  }

  lemma WhiteText()
    ensures RgbToStr(WHITE) == "rgb(255, 255, 255)"
  {
    assert IntToString(255) == "255";
  }
}
