/** The Mars clock of src/utils/marsTime.ts: the Allison & McEwen (2000)
    conversion from a terrestrial instant to Mars Sol Date, Coordinated Mars
    Time, solar longitude and Mars Year, local mean solar time at an east
    longitude, the sol count since a landing, and the table of rovers.

    Instants are Unix epoch milliseconds (the integral time value of a
    JavaScript Date); all other numbers are exact reals. */
module MarsClock {
  import opened JsNumber

  /** What getMarsTime returns. */
  datatype MarsTime = MarsTime(msd: real, mtc: string, ls: real, my: int)

  // ---------------------------------------------------------------------------
  // Clock strings "HH:MM:SS"

  /** A well-formed clock reading: two-digit hours below 24, two-digit minutes
      and seconds below 60, separated by colons. */
  predicate IsClockString(s: string) {
    |s| == 8 && s[2] == ':' && s[5] == ':' &&
    AllDigits(s[0..2]) && AllDigits(s[3..5]) && AllDigits(s[6..8]) &&
    DigitsValue(s[0..2]) < 24 && DigitsValue(s[3..5]) < 60 && DigitsValue(s[6..8]) < 60
  }

  /** The number of whole seconds since midnight a clock reading denotes. */
  function ClockSeconds(s: string): nat
    requires IsClockString(s)
  {
    DigitsValue(s[0..2]) * 3600 + DigitsValue(s[3..5]) * 60 + DigitsValue(s[6..8])
  }

  /** The `pad` helper of formatTime: `n.toString().padStart(2, '0')`. */
  function Pad(n: int): (r: string)
    ensures 2 <= |r|
    ensures 0 <= n < 100 ==> |r| == 2 && AllDigits(r) && DigitsValue(r) == n
    ensures n < 0 ==> r[0] == '-'
  {
    var r := PadStart(IntToString(n), 2, '0');
    if 0 <= n < 100 then
      PadOfSmall(n);
      r
    else
      r
  }

  lemma PadOfSmall(n: int)
    requires 0 <= n < 100
    ensures var r := PadStart(IntToString(n), 2, '0');
      |r| == 2 && AllDigits(r) && DigitsValue(r) == n
  {
    var text := IntToString(n);
    Pow10Grows(|text|);
    if n < 10 {
      assert |text| == 1;
      var r := PadStart(text, 2, '0');
      assert r == ['0', text[0]];
      assert r[..1] == ['0'] && ['0'][..0] == [];
      assert text[..0] == [];
    } else {
      assert |text| == 2;
    }
  }

  lemma Pow10Grows(k: nat)
    ensures k >= 1 ==> Pow10(k) >= 10
    ensures k >= 2 ==> Pow10(k) >= 100
  {
    if k >= 2 {
      assert Pow10(k) == 100 * Pow10(k - 2);
    }
  }

  /** formatTime: decimal hours as "HH:MM:SS", each field truncated. For an
      input in [0, 24) the result is a clock reading that names the whole
      seconds of the input; a negative input gives a string beginning with a
      minus sign (the hour field is not clamped). */
  function FormatTime(decimalHours: real): (r: string)
    ensures 0.0 <= decimalHours < 24.0 ==>
      IsClockString(r) && ClockSeconds(r) == (decimalHours * 3600.0).Floor
    ensures 8 <= |r|
    ensures decimalHours < 0.0 ==> r[0] == '-'
  {
    var hours := decimalHours.Floor;
    var minutesDecimal := (decimalHours - hours as real) * 60.0;
    var minutes := minutesDecimal.Floor;
    var seconds := ((minutesDecimal - minutes as real) * 60.0).Floor;
    FieldsOfHours(decimalHours);
    ClockText(hours, minutes, seconds);
    Pad(hours) + ":" + Pad(minutes) + ":" + Pad(seconds)
  }

  /** The three truncated fields formatTime computes: minutes and seconds lie
      in [0, 60) whatever the input, and together with the hours they count the
      whole seconds of the input. */
  lemma FieldsOfHours(decimalHours: real)
    ensures var hours := decimalHours.Floor;
      var minutesDecimal := (decimalHours - hours as real) * 60.0;
      var minutes := minutesDecimal.Floor;
      var seconds := ((minutesDecimal - minutes as real) * 60.0).Floor;
      0 <= minutes < 60 && 0 <= seconds < 60 &&
      hours * 3600 + minutes * 60 + seconds == (decimalHours * 3600.0).Floor &&
      (0.0 <= decimalHours < 24.0 <==> 0 <= hours < 24)
  {
    var hours := decimalHours.Floor;
    var minutesDecimal := (decimalHours - hours as real) * 60.0;
    var minutes := minutesDecimal.Floor;
    var rest := (minutesDecimal - minutes as real) * 60.0;
    var whole := hours * 3600 + minutes * 60;
    assert decimalHours * 3600.0 == rest + whole as real;
    FloorPlusInt(rest, whole);
  }

  /** The template `${pad(h)}:${pad(m)}:${pad(s)}` on in-range fields is a
      clock reading whose fields are h, m and s. */
  lemma ClockText(h: int, m: int, s: int)
    ensures 0 <= h < 24 && 0 <= m < 60 && 0 <= s < 60 ==>
      var text := Pad(h) + ":" + Pad(m) + ":" + Pad(s);
      IsClockString(text) && ClockSeconds(text) == h * 3600 + m * 60 + s
  {
    if 0 <= h < 24 && 0 <= m < 60 && 0 <= s < 60 {
      InRangeClockText(h, m, s);
    }
  }

  lemma InRangeClockText(h: int, m: int, s: int)
    requires 0 <= h < 24 && 0 <= m < 60 && 0 <= s < 60
    ensures var text := Pad(h) + ":" + Pad(m) + ":" + Pad(s);
      IsClockString(text) && ClockSeconds(text) == h * 3600 + m * 60 + s
  {
    TemplateSlices(Pad(h), Pad(m), Pad(s));
  }

  /** Where the three fields sit in a "HH:MM:SS" template with two-character fields. */
  lemma TemplateSlices(a: string, b: string, c: string)
    requires |a| == 2 && |b| == 2 && |c| == 2
    ensures var text := a + ":" + b + ":" + c;
      |text| == 8 && text[2] == ':' && text[5] == ':' &&
      text[0..2] == a && text[3..5] == b && text[6..8] == c
  {
    var text := a + ":" + b + ":" + c;
    assert text == [a[0], a[1], ':', b[0], b[1], ':', c[0], c[1]];
  }

  // ---------------------------------------------------------------------------
  // getMarsTime

  /** Julian Date of a Unix-millisecond instant: one day per 86400000 ms,
      with the Unix epoch at JD 2440587.5. */
  function JulianDate(millis: int): (jd: real)
    ensures millis == 0 ==> jd == 2440587.5
    ensures millis == 946728000000 ==> jd == 2451545.0  // 2000-01-01T12:00:00Z
  {
    2440587.5 + millis as real / 86400000.0
  }

  /** Days since the J2000.0 epoch (TT approximated by UTC). */
  function DaysSinceJ2000(millis: int): (days: real)
    ensures millis == 946728000000 ==> days == 0.0        // J2000.0 itself
    ensures millis < 946728000000 <==> days < 0.0
  {
    JulianDate(millis) - 2451545.0
  }

  /** Mars Sol Date of an instant. 4.5 days after J2000.0 it is 44795.99904. */
  function MarsSolDate(millis: int): (msd: real)
    ensures millis == 947116800000 ==> msd == 44795.99904  // 2000-01-06T00:00:00Z
  {
    (DaysSinceJ2000(millis) - 4.5) / 1.027491252 + 44796.0 - 0.00096
  }

  /** Decimal hours of Coordinated Mars Time: the fractional sol, taken with
      `%`, times 24. It is the floored fraction for a non-negative MSD; before
      MSD 0 it is that minus a full day, so it lies in (-24, 0]. */
  function MtcHours(msd: real): (h: real)
    ensures 0.0 <= msd ==> 0.0 <= h < 24.0 && h == FloorMod(msd, 1.0) * 24.0
    ensures msd < 0.0 ==>
      (-24.0 < h <= 0.0 && (h == FloorMod(msd, 1.0) * 24.0 || h == FloorMod(msd, 1.0) * 24.0 - 24.0))
  {
    Rem(msd, 1.0) * 24.0
  }

  /** Mean anomaly in degrees, reduced by `%`: congruent to the raw angle
      modulo 360 and carrying its sign. */
  function MeanAnomaly(j2000: real): (m: real)
    ensures var e := 19.3870 + 0.52402075 * j2000;
      (m == FloorMod(e, 360.0) || m == FloorMod(e, 360.0) - 360.0) &&
      (0.0 <= e ==> 0.0 <= m < 360.0) && (e < 0.0 ==> -360.0 < m <= 0.0)
  {
    Rem(19.3870 + 0.52402075 * j2000, 360.0)
  }

  /** Angle of the fictitious mean sun in degrees, reduced by `%`: congruent to
      the raw angle modulo 360 and carrying its sign. */
  function FictitiousMeanSun(j2000: real): (a: real)
    ensures var e := 270.3863 + 0.52403840 * j2000;
      (a == FloorMod(e, 360.0) || a == FloorMod(e, 360.0) - 360.0) &&
      (0.0 <= e ==> 0.0 <= a < 360.0) && (e < 0.0 ==> -360.0 < a <= 0.0)
  {
    Rem(270.3863 + 0.52403840 * j2000, 360.0)
  }

  /** Mars Year: 1 plus the whole Mars years of 668.5921 sols since MSD 29668.6
      (11 April 1955), so an MSD lies in the span of the year returned. */
  function MarsYear(msd: real): (y: int)
    ensures MarsYearStart(y) <= msd < MarsYearStart(y + 1)
  {
    var q := (msd - 29668.6) / 668.5921;
    assert msd == 29668.6 + q * 668.5921;
    1 + q.Floor
  }

  /** The MSD at which Mars Year y begins, by the same anchor and length. */
  function MarsYearStart(y: int): real {
    29668.6 + (y - 1) as real * 668.5921
  }

  /** Coordinated Mars Time, `formatTime((msd % 1) * 24)`: for a non-negative
      MSD a clock reading of the whole seconds elapsed in the current sol;
      before MSD 0, when the sol is not whole, a string with a negative hour
      field. */
  function CoordinatedMarsTime(msd: real): (mtc: string)
    ensures 0.0 <= msd ==>
      IsClockString(mtc) && ClockSeconds(mtc) == (FloorMod(msd, 1.0) * 86400.0).Floor
    ensures 8 <= |mtc|
    ensures msd < 0.0 && FloorMod(msd, 1.0) != 0.0 ==> mtc[0] == '-'
  {
    var h := MtcHours(msd);
    assert 0.0 <= msd ==> h * 3600.0 == FloorMod(msd, 1.0) * 86400.0;
    FormatTime(h)
  }

  /** Aerocentric solar longitude: the fictitious-mean-sun angle plus the
      equation of centre `v`, reduced by `%` and lifted by 360 when negative.
      It is the raw angle 270.3863 + 0.52403840 * j2000 plus `v` under the
      floored remainder modulo 360: reducing the mean-sun angle first does
      not change it. */
  function SolarLongitude(j2000: real, v: real): (ls: real)
    ensures 0.0 <= ls < 360.0
    ensures ls == FloorMod(270.3863 + 0.52403840 * j2000 + v, 360.0)
  {
    var alphaFMS := FictitiousMeanSun(j2000);
    ReducedAngleModulo360(270.3863 + 0.52403840 * j2000, alphaFMS, v);
    Wrap(alphaFMS + v, 360.0)
  }

  /** An angle that `%` reduced from e gives the same floored remainder
      modulo 360 as e once any v is added. */
  lemma ReducedAngleModulo360(e: real, a: real, v: real)
    requires a == FloorMod(e, 360.0) || a == FloorMod(e, 360.0) - 360.0
    ensures FloorMod(a + v, 360.0) == FloorMod(e + v, 360.0)
  {
    var q := (e / 360.0).Floor;
    assert FloorMod(e, 360.0) == e - 360.0 * q as real;
    if a == FloorMod(e, 360.0) {
      assert a + v == (e + v) + (-q as real) * 360.0;
      FloorModShift(e + v, 360.0, -q);
    } else {
      assert a + v == (e + v) + (-(q + 1) as real) * 360.0;
      FloorModShift(e + v, 360.0, -(q + 1));
    }
  }

  /** getMarsTime. The trigonometric equation of centre (mean-anomaly series
      plus planetary perturbations) is the parameter `equationOfCentre`, applied
      to the days since J2000 and the mean anomaly in degrees. */
  function GetMarsTime(millis: int, equationOfCentre: (real, real) -> real): (t: MarsTime)
    ensures t.msd == MarsSolDate(millis)
    ensures 0.0 <= t.ls < 360.0
    ensures MarsYearStart(t.my) <= t.msd < MarsYearStart(t.my + 1)
    ensures 0.0 <= t.msd ==>
      IsClockString(t.mtc) && ClockSeconds(t.mtc) == (FloorMod(t.msd, 1.0) * 86400.0).Floor
    ensures 8 <= |t.mtc|
    ensures t.msd < 0.0 && FloorMod(t.msd, 1.0) != 0.0 ==> t.mtc[0] == '-'
  {
    var j2000 := DaysSinceJ2000(millis);
    var msd := MarsSolDate(millis);
    var vM := equationOfCentre(j2000, MeanAnomaly(j2000));
    MarsTime(msd, CoordinatedMarsTime(msd), SolarLongitude(j2000, vM), MarsYear(msd))
  }

  // ---------------------------------------------------------------------------
  // getLocalMarsTime

  /** Local mean solar time in decimal hours at an east longitude: MTC plus
      one hour per 15 degrees, reduced by `%` and lifted by 24 when negative.
      It is the floored remainder modulo 24, so it lies in [0, 24). */
  function LocalMeanSolarHours(msd: real, longitude: real): (h: real)
    ensures 0.0 <= h < 24.0
    ensures h == FloorMod(MtcHours(msd) + longitude / 15.0, 24.0)
  {
    var mtcHours := MtcHours(msd);
    var offset := longitude * (24.0 / 360.0);
    Wrap(mtcHours + offset, 24.0)
  }

  /** getLocalMarsTime: always a clock reading, naming the whole seconds of the
      local mean solar time. */
  function GetLocalMarsTime(msd: real, longitude: real): (s: string)
    ensures IsClockString(s)
    ensures ClockSeconds(s) == (LocalMeanSolarHours(msd, longitude) * 3600.0).Floor
  {
    FormatTime(LocalMeanSolarHours(msd, longitude))
  }

  // ---------------------------------------------------------------------------
  // getSol

  /** getSol: whole sols elapsed since the landing instant, zero-indexed and
      negative before the landing. Only the msd of getMarsTime(landing) is
      read, which does not depend on the equation of centre. */
  function GetSol(landingMillis: int, currentMsd: real): (sol: int)
    ensures sol as real <= currentMsd - MarsSolDate(landingMillis) < sol as real + 1.0
  {
    var landingMsd := MarsSolDate(landingMillis);
    (currentMsd - landingMsd).Floor
  }

  // ---------------------------------------------------------------------------
  // ROVERS

  datatype RoverState = Active | Inactive

  /** RoverData: landing instant in Unix milliseconds (UTC), east longitude and
      latitude in degrees. */
  datatype RoverData = RoverData(
    name: string, landingMillis: int, longitude: real, latitude: real, state: RoverState)

  /** ROVERS: the static rover table. Every east longitude lies in [0, 360),
      every latitude in [-90, 90], and no two rovers share a name. */
  function Rovers(): (r: seq<RoverData>)
    ensures |r| == 5
    ensures forall i :: 0 <= i < |r| ==> 0.0 <= r[i].longitude < 360.0 && -90.0 <= r[i].latitude <= 90.0
    ensures forall i, j :: 0 <= i < j < |r| ==> r[i].name != r[j].name
  {
    [
      RoverData("Zhurong", 1621034280000, 109.9, 25.1, Active),       // 2021-05-14T23:18:00Z
      RoverData("Ingenuity", 1613681700000, 77.4, 18.4, Inactive),    // 2021-02-18T20:55:00Z
      RoverData("Perseverance", 1613681700000, 77.4, 18.4, Active),   // 2021-02-18T20:55:00Z
      RoverData("InSight", 1543261974000, 135.6, 4.5, Inactive),      // 2018-11-26T19:52:54Z
      RoverData("Curiosity", 1344230277000, 137.4, -4.6, Active)      // 2012-08-06T05:17:57Z
    ]
  }
}
