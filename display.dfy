/**
 * The two strings the script writes into the page: the background image of a
 * revealed card (js/scripts.js:109) and the tries label (js/scripts.js:53-55).
 */
module Display {
  import opened Options

  const ImagePrefix: string := "url(../assets/images/"
  const ImageSuffix: string := ".jpg)"
  const TriesPrefix: string := "Intentos "

  /** The CSS background value that shows the face called `name`. */
  function ImageUrl(name: string): (u: string)
    ensures |u| == |ImagePrefix| + |name| + |ImageSuffix|
    ensures u[..|ImagePrefix|] == ImagePrefix && u[|u| - |ImageSuffix|..] == ImageSuffix
  {
    ImagePrefix + name + ImageSuffix
  }

  /** Reads the face name back out of a background value, if it has the image shape. */
  function ImageName(u: string): (r: Option<string>) {
    if |u| >= |ImagePrefix| + |ImageSuffix|
       && u[..|ImagePrefix|] == ImagePrefix
       && u[|u| - |ImageSuffix|..] == ImageSuffix
    then Some(u[|ImagePrefix|..|u| - |ImageSuffix|])
    else None
  }

  /** A revealed card's background names exactly the face behind it. */
  lemma ImageUrlRoundTrip(name: string)
    ensures ImageName(ImageUrl(name)) == Some(name)
  {
    var u := ImageUrl(name);
    assert u[|ImagePrefix|..|u| - |ImageSuffix|] == name;
  }

  /** Different faces never produce the same background, and none produces the empty one. */
  lemma ImageUrlInjective(a: string, b: string)
    ensures ImageUrl(a) != ""
    ensures ImageUrl(a) == ImageUrl(b) ==> a == b
  {
    ImageUrlRoundTrip(a);
    ImageUrlRoundTrip(b);
  }

  predicate IsDigits(s: string) {
    forall k :: 0 <= k < |s| ==> '0' <= s[k] <= '9'
  }

  /** The decimal numeral of `n`, as a JavaScript template literal renders an integer. */
  function Decimal(n: nat): (s: string)
    ensures |s| >= 1 && IsDigits(s)
    ensures s[0] == '0' ==> n == 0
    decreases n
  {
    if n < 10 then [(48 + n) as char]
    else Decimal(n / 10) + [(48 + n % 10) as char]
  }

  /** The number a string of digits denotes. */
  function DigitsValue(s: string): (v: nat)
    requires IsDigits(s)
  {
    if |s| == 0 then 0
    else DigitsValue(s[..|s| - 1]) * 10 + ((s[|s| - 1] as int) - 48)
  }

  /** Reading a numeral back gives the number it was rendered from. */
  lemma {:induction false} DecimalRoundTrip(n: nat)
    ensures DigitsValue(Decimal(n)) == n
    decreases n
  {
    var s := Decimal(n);
    if n >= 10 {
      DecimalRoundTrip(n / 10);
      assert s[..|s| - 1] == Decimal(n / 10);
    }
  }

  /** The label of the tries counter. */
  function TriesText(tries: nat): (t: string)
    ensures |t| > |TriesPrefix| && t[..|TriesPrefix|] == TriesPrefix
    ensures IsDigits(t[|TriesPrefix|..])
  {
    TriesPrefix + Decimal(tries)
  }

  /** The label determines the counter: distinct counts are shown differently. */
  lemma TriesTextRoundTrip(tries: nat)
    ensures DigitsValue(TriesText(tries)[|TriesPrefix|..]) == tries
  {
    assert TriesText(tries)[|TriesPrefix|..] == Decimal(tries);
    DecimalRoundTrip(tries);
  }
}
