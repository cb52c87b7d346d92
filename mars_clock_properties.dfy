/** Properties of the Mars clock that relate several calls: monotonicity of
    MSD and Mars Year, the periodicity of local time in longitude, agreement of
    local time at the prime meridian with MTC, and the sol counter. */
module MarsClockProperties {
  import opened JsNumber
  import opened MarsClock

  // ---------------------------------------------------------------------------
  // Mars Sol Date

  /** The Julian Date and the days since J2000.0 both advance by one per
      86400000 elapsed milliseconds. */
  lemma DaysElapsed(earlier: int, later: int)
    ensures JulianDate(later) - JulianDate(earlier) == (later - earlier) as real / 86400000.0
    ensures DaysSinceJ2000(later) - DaysSinceJ2000(earlier) == (later - earlier) as real / 86400000.0
  {
  }

  /** MSD advances by the elapsed milliseconds over the length of a sol in
      milliseconds (86400000 * 1.027491252). */
  lemma MsdElapsed(earlier: int, later: int)
    ensures MarsSolDate(later) - MarsSolDate(earlier)
         == (later - earlier) as real / (86400000.0 * 1.027491252)
  {
  }

  /** MSD is strictly increasing in the instant. */
  lemma MsdStrictlyIncreasing(earlier: int, later: int)
    requires earlier < later
    ensures MarsSolDate(earlier) < MarsSolDate(later)
  {
    MsdElapsed(earlier, later);
  }

  // ---------------------------------------------------------------------------
  // Mars Year

  /** An MSD belongs to Mars Year y exactly when it lies in that year's span of
      668.5921 sols. */
  lemma MarsYearIff(msd: real, y: int)
    ensures MarsYear(msd) == y <==> MarsYearStart(y) <= msd < MarsYearStart(y + 1)
  {
    if MarsYearStart(y) <= msd < MarsYearStart(y + 1) {
      var q := (msd - 29668.6) / 668.5921;
      assert (y - 1) as real <= q < y as real;
    }
  }

  /** Mars Year 1 is the span [29668.6, 29668.6 + 668.5921). */
  lemma MarsYearOne(msd: real)
    ensures MarsYear(msd) == 1 <==> 29668.6 <= msd < 29668.6 + 668.5921
  {
    MarsYearIff(msd, 1);
  }

  /** Mars Year is non-decreasing in MSD. */
  lemma MarsYearMonotone(a: real, b: real)
    requires a <= b
    ensures MarsYear(a) <= MarsYear(b)
  {
    assert MarsYearStart(MarsYear(a)) < MarsYearStart(MarsYear(b) + 1);
  }

  /** One Mars year of sols later, the Mars Year is exactly one more. */
  lemma MarsYearStep(msd: real)
    ensures MarsYear(msd + 668.5921) == MarsYear(msd) + 1
  {
    var y := MarsYear(msd);
    MarsYearIff(msd + 668.5921, y + 1);
  }

  /** The Mars Year getMarsTime reports never decreases as time goes on. */
  lemma MarsYearNonDecreasingInTime(
    earlier: int, later: int, equationOfCentre: (real, real) -> real)
    requires earlier <= later
    ensures GetMarsTime(earlier, equationOfCentre).my <= GetMarsTime(later, equationOfCentre).my
  {
    var a := GetMarsTime(earlier, equationOfCentre);
    var b := GetMarsTime(later, equationOfCentre);
    if earlier < later { MsdStrictlyIncreasing(earlier, later); }
    MarsYearIff(a.msd, a.my);
    MarsYearIff(b.msd, b.my);
    MarsYearMonotone(a.msd, b.msd);
  }

  // ---------------------------------------------------------------------------
  // Solar longitude

  /** The reported Ls is the sum of the fictitious-mean-sun angle and the
      equation of centre taken modulo 360 with a floored remainder, whatever
      value the equation of centre takes, both with the mean-sun angle as `%`
      reduced it and with the raw angle 270.3863 + 0.52403840 * j2000. */
  lemma LsIsLongitudeModulo360(millis: int, equationOfCentre: (real, real) -> real)
    ensures var j2000 := DaysSinceJ2000(millis);
      var v := equationOfCentre(j2000, MeanAnomaly(j2000));
      var t := GetMarsTime(millis, equationOfCentre);
      t.ls == FloorMod(FictitiousMeanSun(j2000) + v, 360.0) &&
      t.ls == FloorMod(270.3863 + 0.52403840 * j2000 + v, 360.0) &&
      0.0 <= t.ls < 360.0
  {
  }

  // ---------------------------------------------------------------------------
  // Local mean solar time

  /** Adding k full turns to the longitude leaves local time unchanged. */
  lemma LocalTimeTurns(msd: real, longitude: real, k: int)
    ensures GetLocalMarsTime(msd, longitude + (k as real) * 360.0) == GetLocalMarsTime(msd, longitude)
  {
    LocalHoursTurns(msd, longitude, k);
  }

  lemma LocalHoursTurns(msd: real, longitude: real, k: int)
    ensures LocalMeanSolarHours(msd, longitude + (k as real) * 360.0) == LocalMeanSolarHours(msd, longitude)
  {
    HoursShiftByTurns(MtcHours(msd), longitude, k);
  }

  /** k turns of longitude are k whole days of hours, which the floored
      remainder modulo 24 does not see. */
  lemma HoursShiftByTurns(hours: real, longitude: real, k: int)
    ensures FloorMod(hours + (longitude + (k as real) * 360.0) / 15.0, 24.0)
         == FloorMod(hours + longitude / 15.0, 24.0)
  {
    var base := hours + longitude / 15.0;
    assert hours + (longitude + (k as real) * 360.0) / 15.0 == base + (k as real) * 24.0;
    FloorModShift(base, 24.0, k);
  }

  /** Adding 360 degrees to the longitude leaves local time unchanged. */
  lemma LocalTimeFullTurn(msd: real, longitude: real)
    ensures GetLocalMarsTime(msd, longitude + 360.0) == GetLocalMarsTime(msd, longitude)
  {
    LocalTimeTurns(msd, longitude, 1);
  }

  /** Fifteen degrees further east, local time is one hour later (modulo a day). */
  lemma LocalTimeHourPer15Degrees(msd: real, longitude: real)
    ensures LocalMeanSolarHours(msd, longitude + 15.0)
         == FloorMod(LocalMeanSolarHours(msd, longitude) + 1.0, 24.0)
  {
    var x := MtcHours(msd) + longitude / 15.0;
    var k := (x / 24.0).Floor;
    assert LocalMeanSolarHours(msd, longitude) + 1.0 == (x + 1.0) + (-k as real) * 24.0;
    FloorModShift(x + 1.0, 24.0, -k);
  }

  /** For an MSD at or after sol 0, local time at longitude 0 is the MTC string
      getMarsTime reports. */
  lemma LocalTimeAtPrimeMeridian(millis: int, equationOfCentre: (real, real) -> real)
    requires 0.0 <= MarsSolDate(millis)
    ensures var t := GetMarsTime(millis, equationOfCentre);
      GetLocalMarsTime(t.msd, 0.0) == t.mtc
  {
    var t := GetMarsTime(millis, equationOfCentre);
    var h := MtcHours(t.msd);
    FloorModOfInRange(h, 24.0);
    assert LocalMeanSolarHours(t.msd, 0.0) == h;
  }

  /** Before sol 0, when the sol is not whole, the MTC string getMarsTime
      reports carries a negative hour field and so differs from local time at
      longitude 0, which is always a clock reading. */
  lemma MtcBeforeSolZero(millis: int, equationOfCentre: (real, real) -> real)
    requires MarsSolDate(millis) < 0.0 && FloorMod(MarsSolDate(millis), 1.0) != 0.0
    ensures var t := GetMarsTime(millis, equationOfCentre);
      t.mtc[0] == '-' && GetLocalMarsTime(t.msd, 0.0) != t.mtc
  {
    var t := GetMarsTime(millis, equationOfCentre);
    assert t.mtc[0] == '-';
    var local := GetLocalMarsTime(t.msd, 0.0);
    assert IsDigit(local[0]) by {
      assert IsClockString(local);
      assert local[0..2][0] == local[0];
    }
    assert local[0] != t.mtc[0];
  }

  /** A clock reading of whole seconds survives formatting: formatting n
      seconds, as hours, reads back as n. */
  lemma FormatWholeSeconds(n: nat)
    requires n < 86400
    ensures IsClockString(FormatTime(n as real / 3600.0))
    ensures ClockSeconds(FormatTime(n as real / 3600.0)) == n
  {
    assert (n as real / 3600.0) * 3600.0 == n as real;
  }

  // ---------------------------------------------------------------------------
  // Sol count

  /** The sol of landing is sol 0. */
  lemma SolZeroAtLanding(landingMillis: int, equationOfCentre: (real, real) -> real)
    ensures GetSol(landingMillis, GetMarsTime(landingMillis, equationOfCentre).msd) == 0
  {
  }

  /** The sol count never decreases as the current MSD grows. */
  lemma SolNonDecreasing(landingMillis: int, a: real, b: real)
    requires a <= b
    ensures GetSol(landingMillis, a) <= GetSol(landingMillis, b)
  {
  }

  /** The sol count is negative exactly before the landing MSD: it is not
      clamped at zero. */
  lemma SolNegativeBeforeLanding(landingMillis: int, currentMsd: real)
    ensures GetSol(landingMillis, currentMsd) < 0 <==> currentMsd < MarsSolDate(landingMillis)
  {
  }

  /** One sol later, the count is exactly one more. */
  lemma SolPerSol(landingMillis: int, currentMsd: real)
    ensures GetSol(landingMillis, currentMsd + 1.0) == GetSol(landingMillis, currentMsd) + 1
  {
  }
}
