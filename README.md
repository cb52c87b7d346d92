# Mars clock — Dafny model

This project models the Mars time utilities of `src/utils/marsTime.ts`. They
implement the Allison & McEwen (2000) Mars clock. From a terrestrial instant
(Unix epoch milliseconds), `getMarsTime` computes four values:

- the Mars Sol Date (MSD), a linear function of the Julian Date;
- Coordinated Mars Time (MTC), the fractional sol formatted as `HH:MM:SS`;
- the solar longitude Ls, normalised into [0, 360);
- the Mars Year, counted in spans of 668.5921 sols from MSD 29668.6.

The module also provides:

- `getLocalMarsTime`: local mean solar time at an east longitude;
- `getSol`: whole sols elapsed since a landing instant;
- `formatTime`: decimal hours as a zero-padded clock string;
- `ROVERS`: the static table of rovers.

The model has three modules:

- `JsNumber` (`js_number.dfy`) gives exact-arithmetic meaning to the JavaScript
  built-ins the code relies on. It covers the truncating remainder `%`
  (defined through truncation toward zero), whose result has the sign of the
  dividend. It also covers the clock's "add the divisor when negative"
  fix-up, proved equal to a floored remainder (`FloorMod`), plus `toString`
  on integral numbers and `padStart`.
- `MarsClock` (`mars_clock.dfy`) holds the four functions and the steps of
  `getMarsTime`, the `MarsTime` record (src/utils/marsTime.ts:6-11), the
  `RoverData` record (src/utils/marsTime.ts:13-19) and the `Rovers` table.
  The two records are datatypes with the source's fields; what the source
  promises about their values is stated by the functions that build them
  (`GetMarsTime` and `Rovers`).
- `MarsClockProperties` (`mars_clock_properties.dfy`) holds the lemmas that
  relate several calls.

All numbers are Dafny `real`, so the arithmetic is exact. The trigonometric
equation of centre (mean-anomaly sine series plus planetary perturbations) is
a function parameter `equationOfCentre`. It is applied to the days since
J2000 and the mean anomaly, so every property about Ls holds whatever value
the series takes.

`getSol` reads only the `msd` field of `getMarsTime(landingDate)`. `GetSol`
therefore uses `MarsSolDate` directly. `GetMarsTime` promises that its `msd`
is that value, whatever `equationOfCentre` is.

The model follows the code, including three behaviours a reader might not
expect:

- The sol count is not clamped at zero. It is negative before the landing.
- The Mars Year is anchored only at MSD 29668.6. It does not track Ls = 0
  crossings.
- Before MSD 0, the MTC string has a negative hour field. `MtcBeforeSolZero`
  states this.

## Model

| member | source | states |
|---|---|---|
| `JsNumber.Rem` | src/utils/marsTime.ts:161-163 | `%` keeps the sign of the dividend, stays strictly inside one divisor of zero, and equals the floored remainder or the floored remainder minus the divisor |
| `JsNumber.Wrap` | src/utils/marsTime.ts:163-164 | `%` followed by "add the divisor when negative" gives the floored remainder, always in [0, divisor) |
| `JsNumber.FloorModShift` | src/utils/marsTime.ts:162-164 | shifting the dividend by k whole divisors leaves the normalised remainder unchanged |
| `JsNumber.NatToString` | src/utils/marsTime.ts:185 | `toString` of a non-negative integer is a digit string that denotes it, with no leading zero (its length is the number's digit count) |
| `JsNumber.IntToString` | src/utils/marsTime.ts:185 | `toString` of an integer: the shortest digits of its magnitude (no leading zero), preceded by `-` when it is negative |
| `JsNumber.PadStart` | src/utils/marsTime.ts:185 | `padStart(width, fill)` keeps the string as its suffix, fills the front with `fill` and has length max(width, original length) |
| `MarsClock.Pad` | src/utils/marsTime.ts:185 | `pad(n)` is at least two characters; for 0 <= n < 100 it is exactly two digits denoting n; for negative n it starts with `-` |
| `MarsClock.FieldsOfHours` | src/utils/marsTime.ts:181-184 | minutes and seconds lie in [0, 60) for every input; hours*3600 + minutes*60 + seconds is the floor of the input in seconds; hours lie in [0, 24) exactly when the input does |
| `MarsClock.ClockText` | src/utils/marsTime.ts:186 | the `HH:MM:SS` template on in-range fields is 8 characters with `:` at positions 2 and 5, two-digit fields, and it reads back as those fields |
| `MarsClock.FormatTime` | src/utils/marsTime.ts:180-187 | for input in [0, 24): a well-formed clock reading (hours < 24, minutes and seconds < 60) that names the input truncated to the whole second; a negative input gives a string starting with `-` |
| `MarsClock.MtcHours` | src/utils/marsTime.ts:73 | `(msd % 1) * 24` is 24 times the floored fraction of the sol, in [0, 24), for MSD >= 0; before MSD 0 it lies in (-24, 0] |
| `MarsClock.JulianDate` | src/utils/marsTime.ts:62 | the Unix epoch is Julian Date 2440587.5 and 2000-01-01T12:00:00Z (J2000.0) is Julian Date 2451545.0 |
| `MarsClock.DaysSinceJ2000` | src/utils/marsTime.ts:66 | the day count is 0 at J2000.0 and negative exactly for instants before it |
| `MarsClock.MarsSolDate` | src/utils/marsTime.ts:70 | at 2000-01-06T00:00:00Z, 4.5 days after J2000.0, the Mars Sol Date is 44795.99904 |
| `MarsClock.CoordinatedMarsTime` | src/utils/marsTime.ts:73-74 | for MSD >= 0, MTC is a clock reading of the whole seconds elapsed in the current sol; before MSD 0 with a fractional sol it starts with `-` |
| `MarsClock.MeanAnomaly` | src/utils/marsTime.ts:80 | the mean anomaly reduced by `%` is congruent modulo 360 to 19.3870 + 0.52402075 * j2000 (the floored remainder, or that minus 360) and has its sign, so it lies in [0, 360) or (-360, 0] |
| `MarsClock.FictitiousMeanSun` | src/utils/marsTime.ts:84 | the mean-sun angle reduced by `%` is congruent modulo 360 to 270.3863 + 0.52403840 * j2000 and has its sign |
| `MarsClock.SolarLongitude` | src/utils/marsTime.ts:84-107 | Ls lies in [0, 360) and is the raw mean-sun angle 270.3863 + 0.52403840 * j2000 plus the equation of centre under the floored remainder modulo 360: the `%` at line 84 does not change it |
| `MarsClock.MarsYear` | src/utils/marsTime.ts:147 | an MSD lies between the start of its Mars Year and the start of the next |
| `MarsClock.GetMarsTime` | src/utils/marsTime.ts:59-155 | msd is the Mars Sol Date of the instant; ls is in [0, 360); my is the year whose span contains msd; mtc is a clock reading of the seconds of the sol when msd >= 0 and starts with `-` for a fractional negative msd |
| `MarsClock.LocalMeanSolarHours` | src/utils/marsTime.ts:161-164 | local hours lie in [0, 24) for every MSD and longitude, and equal MTC hours plus longitude/15 under the floored remainder modulo 24 |
| `MarsClock.GetLocalMarsTime` | src/utils/marsTime.ts:157-167 | the local time is always a well-formed clock reading naming the whole seconds of the local hours |
| `MarsClock.GetSol` | src/utils/marsTime.ts:169-171 | the sol count is the floor of the MSD difference: sol <= current - landing < sol + 1 |
| `MarsClockProperties.DaysElapsed` | src/utils/marsTime.ts:62-66 | the Julian Date and the days since J2000.0 advance by one per 86400000 elapsed milliseconds |
| `MarsClockProperties.MsdElapsed` | src/utils/marsTime.ts:61-70 | MSD advances by the elapsed milliseconds over 86400000 * 1.027491252 |
| `MarsClockProperties.MsdStrictlyIncreasing` | src/utils/marsTime.ts:61-70 | MSD is strictly increasing in the instant |
| `MarsClockProperties.MarsYearIff` | src/utils/marsTime.ts:147 | Mars Year is y exactly when MSD lies in [29668.6 + (y-1)*668.5921, 29668.6 + y*668.5921) |
| `MarsClockProperties.MarsYearOne` | src/utils/marsTime.ts:147 | Mars Year is 1 exactly for MSD in [29668.6, 29668.6 + 668.5921) |
| `MarsClockProperties.MarsYearMonotone` | src/utils/marsTime.ts:147 | Mars Year is non-decreasing in MSD |
| `MarsClockProperties.MarsYearStep` | src/utils/marsTime.ts:147 | 668.5921 sols later the Mars Year is exactly one more |
| `MarsClockProperties.MarsYearNonDecreasingInTime` | src/utils/marsTime.ts:147-153 | the `my` that getMarsTime returns never decreases as the instant grows |
| `MarsClockProperties.LsIsLongitudeModulo360` | src/utils/marsTime.ts:106-107 | the `ls` getMarsTime returns is the floored remainder modulo 360 of the fictitious-mean-sun angle plus the equation of centre, both with the angle as `%` reduced it and with the raw angle, whatever value the equation of centre takes; it lies in [0, 360) |
| `MarsClockProperties.LocalTimeTurns` | src/utils/marsTime.ts:162-164 | adding k full turns of 360 degrees to the longitude leaves the local time string unchanged |
| `MarsClockProperties.LocalTimeFullTurn` | src/utils/marsTime.ts:162-164 | adding 360 degrees to the longitude leaves the local time string unchanged |
| `MarsClockProperties.LocalTimeHourPer15Degrees` | src/utils/marsTime.ts:161-164 | 15 degrees further east, local hours are one hour later modulo 24 |
| `MarsClockProperties.LocalTimeAtPrimeMeridian` | src/utils/marsTime.ts:161-166 | for MSD >= 0, local time at longitude 0 equals the MTC string getMarsTime returns |
| `MarsClockProperties.MtcBeforeSolZero` | src/utils/marsTime.ts:73-74 | before MSD 0 with a fractional sol, MTC starts with `-` and differs from local time at longitude 0 |
| `MarsClockProperties.FormatWholeSeconds` | src/utils/marsTime.ts:180-187 | formatting n whole seconds (as hours) reads back as n, for every n in [0, 86400) |
| `MarsClockProperties.SolZeroAtLanding` | src/utils/marsTime.ts:169-171 | the sol count at the landing's own MSD is 0 |
| `MarsClockProperties.SolNonDecreasing` | src/utils/marsTime.ts:169-171 | the sol count is non-decreasing in the current MSD |
| `MarsClockProperties.SolNegativeBeforeLanding` | src/utils/marsTime.ts:169-171 | the sol count is negative exactly when the current MSD precedes the landing MSD |
| `MarsClockProperties.SolPerSol` | src/utils/marsTime.ts:169-171 | one sol later the count is exactly one more |
| `MarsClock.Rovers` | src/utils/marsTime.ts:13-57 | the table has five rovers; every east longitude lies in [0, 360), every latitude in [-90, 90], and names are pairwise distinct |

## Left out

- Equation of centre (src/utils/marsTime.ts:81, 85, 87-103): the `Math.sin`/`Math.cos` series is floating-point trigonometry. It is the parameter `equationOfCentre`, and only the Ls normalisation after it is modelled.
- IEEE-754 rounding: numbers are exact reals. Floating constants are not pinned. Rounding at second boundaries in `formatTime` is not modelled. In double arithmetic the fix-ups at src/utils/marsTime.ts:107 and :164 can return exactly 360 and 24 when the remainder is a tiny negative number (a whole-number MSD with longitude -1e-14 gives `"24:00:00"`), so the [0, 360) bound on Ls and "local time is always a clock reading" hold in exact arithmetic only.
- Non-finite values: NaN and infinite instants, which propagate NaN in the source, are not modelled.
- Clock read: the default argument `new Date()` and `date.getTime()` read the wall clock. The instant is an integer millisecond parameter instead. Rover landing dates are written as their epoch milliseconds.
- `toString` on numbers of magnitude 1e21 or more uses exponent notation in JavaScript. `IntToString` always gives plain digits. Such hours cannot come from the clock's callers.
- The unused `my` value at src/utils/marsTime.ts:136 does not reach the result and is not modelled.
- The React components, the three.js globe and the rover markers are presentation code that only calls these functions. `src/components/MarsTimeDisplay.tsx`, `src/components/RoverCard.tsx`, `src/components/MarsGlobe.tsx`, `src/components/Rover.tsx` and `src/app/page.tsx` are not part of this model.
