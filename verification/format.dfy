/**
 Python's fixed-point float formatting, f"{x:.Nf}" and f"{x:,.Nf}": the
 magnitude is rounded to N decimals (ties to even, as CPython rounds the
 exact value), printed with N digits after the point, the integer part
 optionally grouped in threes with commas, and a leading '-' for negative
 values. A float NaN prints as "nan".
 */
module Format {
  import opened Values

  predicate IsDigit(c: char) {
    '0' <= c <= '9'
  }

  predicate AllDigits(s: string) {
    forall i :: 0 <= i < |s| ==> IsDigit(s[i])
  }

  function DigitChar(d: nat): (c: char)
    requires d < 10
    ensures IsDigit(c) && c as int - '0' as int == d
  {
    "0123456789"[d]
  }

  function DigitValue(c: char): (d: nat)
    requires IsDigit(c)
    ensures d < 10
  {
    c as int - '0' as int
  }

  function Pow10(p: nat): (r: nat)
    ensures r >= 1
  {
    if p == 0 then 1 else 10 * Pow10(p - 1)
  }

  /** Decimal digits of n, most significant first, without leading zeros. */
  function Digits(n: nat): (s: string)
    ensures |s| >= 1 && AllDigits(s)
    ensures |s| > 1 ==> s[0] != '0'
    decreases n
  {
    if n < 10 then [DigitChar(n)] else Digits(n / 10) + [DigitChar(n % 10)]
  }

  /** The number a digit string spells. */
  function ReadDigits(s: string): nat
    requires AllDigits(s)
    decreases |s|
  {
    if |s| == 0 then 0 else ReadDigits(s[..|s| - 1]) * 10 + DigitValue(s[|s| - 1])
  }

  lemma {:induction false} DigitsRoundTrip(n: nat)
    ensures ReadDigits(Digits(n)) == n
    decreases n
  {
    if n >= 10 {
      DigitsRoundTrip(n / 10);
      assert Digits(n)[..|Digits(n)| - 1] == Digits(n / 10);
    }
  }

  lemma {:induction false} DigitsLength(n: nat, p: nat)
    requires n < Pow10(p)
    ensures p == 0 || |Digits(n)| <= p
    decreases p
  {
    if p > 1 && n >= 10 {
      DigitsLength(n / 10, p - 1);
    }
  }

  lemma {:induction false} ReadDigitsAppend(a: string, b: string)
    requires AllDigits(a) && AllDigits(b)
    ensures AllDigits(a + b)
    ensures ReadDigits(a + b) == ReadDigits(a) * Pow10(|b|) + ReadDigits(b)
    decreases |b|
  {
    if |b| > 0 {
      var b' := b[..|b| - 1];
      var d := DigitValue(b[|b| - 1]);
      assert (a + b)[..|a + b| - 1] == a + b';
      assert (a + b)[|a + b| - 1] == b[|b| - 1];
      ReadDigitsAppend(a, b');
      ShiftDigit(ReadDigits(a), Pow10(|b'|), ReadDigits(b'), d, ReadDigits(a + b'));
      assert ReadDigits(a + b) == ReadDigits(a + b') * 10 + d;
    } else {
      assert a + b == a;
    }
  }

  lemma ShiftDigit(ra: nat, p: nat, rb: nat, d: nat, rab: nat)
    requires rab == ra * p + rb
    ensures rab * 10 + d == ra * (p * 10) + (rb * 10 + d)
  {
  }

  function Zeros(k: nat): (s: string)
    ensures |s| == k && AllDigits(s)
    ensures ReadDigits(s) == 0
  {
    if k == 0 then "" else
      var z := Zeros(k - 1);
      assert (z + "0")[..k - 1] == z;
      z + "0"
  }

  /** A digit string that reads as 0 is all zeros. */
  lemma {:induction false} ReadZeroIsZeros(s: string)
    requires AllDigits(s) && ReadDigits(s) == 0
    ensures s == Zeros(|s|)
    decreases |s|
  {
    if |s| > 0 {
      var n := |s| - 1;
      assert ReadDigits(s[..n]) * 10 + DigitValue(s[n]) == 0;
      ReadZeroIsZeros(s[..n]);
      assert s[n] == '0';
      assert s == s[..n] + "0";
    }
  }

  /** Left-pad a digit string with zeros to the given width. */
  function ZeroPad(s: string, width: nat): (r: string)
    requires AllDigits(s)
    ensures AllDigits(r) && |r| == if |s| >= width then |s| else width
    ensures ReadDigits(r) == ReadDigits(s)
  {
    var k := if |s| >= width then 0 else width - |s|;
    ReadDigitsAppend(Zeros(k), s);
    Zeros(k) + s
  }

  /** Insert a comma between every three digits, counting from the right. */
  function Group(s: string): (r: string)
    decreases |s|
  {
    if |s| <= 3 then s else Group(s[..|s| - 3]) + "," + s[|s| - 3..]
  }

  /** The string with every comma deleted. */
  function Ungroup(s: string): (r: string)
    ensures |r| <= |s|
    decreases |s|
  {
    if |s| == 0 then ""
    else Ungroup(s[..|s| - 1]) + (if s[|s| - 1] == ',' then "" else [s[|s| - 1]])
  }

  lemma {:induction false} UngroupAppend(a: string, b: string)
    ensures Ungroup(a + b) == Ungroup(a) + Ungroup(b)
    decreases |b|
  {
    if |b| > 0 {
      var b' := b[..|b| - 1];
      assert (a + b)[..|a + b| - 1] == a + b';
      assert (a + b)[|a + b| - 1] == b[|b| - 1];
      UngroupAppend(a, b');
      var last := if b[|b| - 1] == ',' then "" else [b[|b| - 1]];
      assert Ungroup(a + b) == Ungroup(a) + Ungroup(b') + last;
      assert Ungroup(b) == Ungroup(b') + last;
    } else {
      assert a + b == a;
    }
  }

  lemma {:induction false} UngroupDigits(s: string)
    requires AllDigits(s)
    ensures Ungroup(s) == s
    decreases |s|
  {
    if |s| > 0 {
      UngroupDigits(s[..|s| - 1]);
    }
  }

  /** Deleting the separators from a grouped digit string gives the digits back. */
  lemma {:induction false} GroupRoundTrip(s: string)
    requires AllDigits(s)
    ensures Ungroup(Group(s)) == s
    decreases |s|
  {
    if |s| <= 3 {
      UngroupDigits(s);
    } else {
      var a, b := s[..|s| - 3], s[|s| - 3..];
      GroupSplit(s, a, b);
      GroupRoundTrip(a);
      UngroupJoin(Group(a), b);
    }
  }

  /** One step of grouping: the last three digits split off after a comma. */
  lemma GroupSplit(s: string, a: string, b: string)
    requires AllDigits(s) && |s| > 3 && a == s[..|s| - 3] && b == s[|s| - 3..]
    ensures AllDigits(a) && AllDigits(b) && a + b == s
    ensures Group(s) == Group(a) + "," + b
  {
  }

  /** Deleting the commas from g, a comma and a digit string b. */
  lemma UngroupJoin(g: string, b: string)
    requires AllDigits(b)
    ensures Ungroup(g + "," + b) == Ungroup(g) + b
  {
    UngroupComma();
    UngroupDigits(b);
    UngroupAppend(g, ",");
    assert Ungroup(g) + "" == Ungroup(g);
    UngroupAppend(g + ",", b);
  }

  lemma UngroupComma()
    ensures Ungroup(",") == ""
  {
    assert ","[..0] == "";
  }

  /** Every group of a grouped digit string other than the first has exactly three digits. */
  lemma {:induction false} GroupShape(s: string)
    requires AllDigits(s)
    ensures forall i :: 0 <= i < |Group(s)| && Group(s)[i] == ',' ==>
      i + 4 <= |Group(s)| && (i + 4 == |Group(s)| || Group(s)[i + 4] == ',')
    ensures |s| > 0 ==> IsDigit(Group(s)[0])
    decreases |s|
  {
    if |s| > 3 {
      var a := s[..|s| - 3];
      GroupShape(a);
      var g := Group(s);
      assert g == Group(a) + "," + s[|s| - 3..];
      forall i | 0 <= i < |g| && g[i] == ','
        ensures i + 4 <= |g| && (i + 4 == |g| || g[i + 4] == ',')
      {
        if i < |Group(a)| {
          assert Group(a)[i] == ',';
        }
      }
    }
  }

  /** Round to the nearest integer, ties to the even one. */
  function RoundHalfEven(y: real): (n: int)
    ensures -0.5 <= n as real - y <= 0.5
    ensures (n as real - y == 0.5 || y - n as real == 0.5) ==> n % 2 == 0
  {
    var f := y.Floor;
    var d := y - f as real;
    if d < 0.5 then f
    else if d > 0.5 then f + 1
    else if f % 2 == 0 then f
    else f + 1
  }

  /** The unique integer within 1/2 of y, ties going to the even one. */
  lemma RoundHalfEvenUnique(y: real, n: int)
    requires -0.5 <= n as real - y <= 0.5
    requires (n as real - y == 0.5 || y - n as real == 0.5) ==> n % 2 == 0
    ensures n == RoundHalfEven(y)
  {
    var m := RoundHalfEven(y);
    assert -1.0 <= (n - m) as real <= 1.0;
  }

  function Abs(x: real): real {
    if x < 0.0 then -x else x
  }

  /** The magnitude of x in units of 10^-places, rounded half to even. */
  function Scaled(x: real, places: nat): (q: nat)
  {
    var n := RoundHalfEven(Abs(x) * Pow10(places) as real);
    if n < 0 then 0 else n
  }

  /** The units of a rounded magnitude q in units of 10^-places: q with the last `places` digits dropped. */
  function Units(q: nat, places: nat): (u: nat)
    ensures u * Pow10(places) + q % Pow10(places) == q
  {
    var p := Pow10(places);
    DivMod(q, p);
    q / p
  }

  lemma DivMod(q: nat, p: nat)
    requires p > 0
    ensures q / p >= 0 && (q / p) * p + q % p == q
  {
  }

  /** The integer part of a rounded magnitude, optionally grouped with commas. */
  function WholePart(q: nat, places: nat, grouped: bool): (s: string)
    ensures |s| > 0 && IsDigit(s[0])
  {
    var digits := Digits(Units(q, places));
    GroupShape(digits);
    if grouped then Group(digits) else digits
  }

  /** The `places` fraction digits of a rounded magnitude, zero-padded on the left. */
  function FracDigits(q: nat, places: nat): (s: string)
    ensures AllDigits(s) && |s| == places
    ensures ReadDigits(s) == q % Pow10(places)
  {
    if places == 0 then "" else
      var d := Digits(q % Pow10(places));
      DigitsRoundTrip(q % Pow10(places));
      DigitsLength(q % Pow10(places), places);
      ZeroPad(d, places)
  }

  /** The point and the fraction digits; nothing at all when places is 0. */
  function FracPart(q: nat, places: nat): string {
    if places == 0 then "" else "." + FracDigits(q, places)
  }

  /** f"{x:.{places}f}", or with grouped set, f"{x:,.{places}f}". */
  function Fixed(x: real, places: nat, grouped: bool): (s: string)
    ensures |s| > 0 && (s[0] == '-' || IsDigit(s[0]))
    ensures s[0] == '-' <==> x < 0.0
  {
    var q := Scaled(x, places);
    var w := WholePart(q, places, grouped);
    if x < 0.0 then "-" + w + FracPart(q, places) else w + FracPart(q, places)
  }

  /** Deleting the commas from the integer part leaves the plain decimal digits. */
  lemma {:induction false} WholePartDigits(q: nat, places: nat, grouped: bool)
    ensures Ungroup(WholePart(q, places, grouped)) == Digits(Units(q, places))
  {
    var digits := Digits(Units(q, places));
    if grouped { GroupRoundTrip(digits); } else { UngroupDigits(digits); }
  }

  /** The integer digits followed by the fraction digits spell q. */
  lemma {:induction false} DigitsSpellScaled(q: nat, places: nat, grouped: bool)
    ensures AllDigits(Ungroup(WholePart(q, places, grouped)))
    ensures ReadDigits(Ungroup(WholePart(q, places, grouped)) + FracDigits(q, places)) == q
  {
    var digits := Digits(Units(q, places));
    var frac := FracDigits(q, places);
    WholePartDigits(q, places, grouped);
    DigitsRoundTrip(Units(q, places));
    ReadDigitsAppend(digits, frac);
  }

  /**
   Fixed prints the sign, then an integer part that is plain decimal digits
   once its commas are deleted, then (for places > 0) a point and exactly
   `places` digits; the digits read together spell the magnitude of x
   rounded to `places` decimals, ties to even.
   */
  lemma FixedReadsBack(x: real, places: nat, grouped: bool)
    ensures var q := Scaled(x, places);
      && Fixed(x, places, grouped)
           == (if x < 0.0 then "-" else "") + WholePart(q, places, grouped) + FracPart(q, places)
      && AllDigits(Ungroup(WholePart(q, places, grouped)))
      && ReadDigits(Ungroup(WholePart(q, places, grouped)) + FracDigits(q, places)) == q
  {
    var q := Scaled(x, places);
    var w, f := WholePart(q, places, grouped), FracPart(q, places);
    if x < 0.0 {
      assert Fixed(x, places, grouped) == "-" + w + f;
    } else {
      assert Fixed(x, places, grouped) == w + f;
      assert "" + w == w;
    }
    DigitsSpellScaled(q, places, grouped);
  }

  /** A float (or float NaN) printed with the given number of decimals. */
  function FormatNumber(v: Value, places: nat, grouped: bool): (s: string)
    requires IsNumberType(v)
    ensures v.Num? ==> s == Fixed(v.x, places, grouped)
    ensures !v.Num? ==> s == "nan"
  {
    if v.Num? then Fixed(v.x, places, grouped) else "nan"
  }
}
