# Bond and bond-option pricing on short-rate lattices: a Dafny model

This project models the computational core of a small fixed-income library written in C++. The core has six parts:

- **Calendar dates** (`dates.dfy`, module `Dates`). It covers:
  - date validity, including the Gregorian leap-year rule;
  - the successor and predecessor dates;
  - the comparison operators, including how they behave on invalid dates;
  - the mutating setters and `++`/`--` operators;
  - `years_until` under its five day-count conventions. The ActualActual convention walks a date forward one day at a time.
- **Time-contingent cash flows** (`cash_flows.dfy`, module `CashFlows`). It covers:
  - the projection of a bond's cash-flow schedule one period at a time;
  - the European call option on that bond, priced by backward induction on a Ho-Lee lattice.
- **Multiplicative short-rate tree** (`callable_bond.dfy`, module `CallableBond`). It covers the tree builder and the backward valuation of a straight bond and of a callable bond.
- **Term structures** (`term_structure.dfy`, module `TermStructure`). It covers:
  - the conversions between yields, discount factors and forward rates;
  - the flat curve;
  - the curve that interpolates linearly between observed yields and extrapolates flat;
  - the price of a bond as the sum of its discounted cash flows.
- **The Ho-Lee lattice** (`ho_lee.dfy`, module `HoLee`). It covers:
  - the perturbation function hT;
  - the discount function of a lattice node;
  - the triangular tree of nodes.
- **CSV row splitting** (`csv.dfy`, module `Csv`). It covers `parseCSVRow` with the semantics of `std::getline(stream, column, ',')`.

How the C++ is represented:

- C++ `double` is modelled by Dafny `real`, and `int` by unbounded `int`.
- `exp`, `log` and `pow`, and the initial term structure's discount function, are function-valued parameters. A lemma that needs a law of them, such as "log inverts exp" or "exp(a)/exp(b) = exp(a-b)", states that law as a precondition.
- Code that updates state step by step is modelled as a method. Each method's postcondition ties its result to a recursive specification function, and lemmas prove the properties of that function. Examples:
  - the `while` loop of the projection;
  - the nested valuation loops;
  - the ActualActual day count;
  - the Ho-Lee accumulator loop;
  - the `getline` loop.
- Objects whose methods overwrite their fields are classes: `date` as `MutableDate`, `TermStructureFlat` as `FlatCurve`, and `TermStructureInterpolated` as `InterpolatedCurve`.

## Model

| member | source | states |
|---|---|---|
| Dates.IsLeapYear | test/date.cpp:116-118 | no contract of its own: the Gregorian rule, divisible by 4 and not by 100, or by 400; `Dates.LeapDayValid` ties it to valid() |
| Dates.Valid | test/date.cpp:19-40 | no contract of its own: the checks of valid() in the source's order; `Dates.ValidIffWithinMonth` characterises it |
| Dates.ValidIffWithinMonth | test/date.cpp:19-40 | a date is valid exactly when its year is at least 0, its month is in 1..12 and its day lies within that month's length (30, 31, 28 or 29 in leap years) |
| Dates.LeapDayValid | test/date.cpp:31-36 | 29 February is valid exactly in the years that are divisible by 4 and not by 100, or divisible by 400 |
| Dates.Equal | test/date.cpp:145-149 | no contract of its own: false when either date is invalid, else equality of day, month and year; the lemmas below state its properties |
| Dates.Less | test/date.cpp:150-163 | no contract of its own: false when either date is invalid, else the year decides, then the month, then the day |
| Dates.LessEq | test/date.cpp:164-167 | no contract of its own: `==` or `<` |
| Dates.GreaterEq | test/date.cpp:168-171 | no contract of its own: `==` or `>` |
| Dates.Greater | test/date.cpp:172 | no contract of its own: not `<=` |
| Dates.NotEqual | test/date.cpp:173 | no contract of its own: not `==` |
| Dates.LessIsLexicographic | test/date.cpp:145-163 | on valid dates `<` is the lexicographic order on (year, month, day), and `==` is equality of the three fields |
| Dates.InvalidOperandsCompareFalse | test/date.cpp:145-173 | with an invalid operand, `<`, `==` and `<=` are false and `!=` is true |
| Dates.InvalidOperandsCompareGreater | test/date.cpp:164-172 | with an invalid operand, `>` and `>=` both hold, in both argument orders |
| Dates.ValidDatesTotallyOrdered | test/date.cpp:145-173 | on valid dates `<` is irreflexive, transitive and total, `>` is its converse and `>=` is the converse of `<=` |
| Dates.NextDate | test/date.cpp:43-50 | the next date of a valid date is valid and later; for an invalid date it is the default date 1/1/1900 |
| Dates.Predecessor | test/date.cpp:52-62 | no contract of its own: the closed form of previous_date; `Dates.PreviousDate`, `Dates.PredecessorOfNext` and `Dates.NextOfPredecessor` state its properties |
| Dates.PreviousDate | test/date.cpp:52-62 | the downward search over candidate last days 31..28 returns the closed-form predecessor (previous day, else last day of the previous month, else 31 December of the previous year) |
| Dates.LastDayOfMonth | test/date.cpp:45-47 | a valid date whose day + 1 is invalid is the last day of its month |
| Dates.PredecessorOfNext | test/date.cpp:43-62 | previous_date(next_date(d)) == d for every valid d |
| Dates.NextOfPredecessor | test/date.cpp:43-62 | next_date(previous_date(d)) == d for every valid d except 1 January of year 0 |
| Dates.OrdinalOfNext | test/date.cpp:43-50 | next_date advances the day number (days since 1 January of year 0) by exactly one |
| Dates.LessIffOrdinal | test/date.cpp:150-163 | on valid dates `<` agrees with the order of day numbers, and equal day numbers mean equal dates |
| Dates.StepsUntilIsDayDistance | test/date.cpp:103-107 | the number of increments until the date is no longer `<` the target is the distance in days, or 0 when the target is not later |
| Dates.YearFraction | test/date.cpp:66-114 | no contract of its own: the value of each convention; `Dates.YearsUntil`, `Dates.YearFractionZero`, `Dates.ActualActualCountsDays`, `Dates.ActualActualWithinYear` and `Dates.Thirty360WholeMonths` state its properties |
| Dates.YearsUntil | test/date.cpp:66-114 | years_until, including the terminating ActualActual loop, returns the year fraction of the chosen convention |
| Dates.YearFractionZero | test/date.cpp:66-114 | the fraction is 0 when either date is invalid, and from any date to itself under every convention |
| Dates.ActualActualCountsDays | test/date.cpp:100-110 | ActualActual is the number of calendar days to the later date (0 if not later) over the length of the end date's year |
| Dates.ActualActualWithinYear | test/date.cpp:100-110 | for two valid dates in the same year the ActualActual fraction lies in [0, 1) |
| Dates.Thirty360WholeMonths | test/date.cpp:77-83 | under 30/360 a span between equal day numbers is the number of whole months over 12, the day-31 adjustment included |
| Dates.ActualConventionsCountThirtyDayMonths | test/date.cpp:90-98 | as written, Actual360 and Actual365 give 0 from 31 January 2023 to its next date, 1 February 2023, where the actual-day count gives 1/360 |
| Dates.ActualFraction | test/date.cpp:90-98 | no contract of its own: the Actual360/Actual365 fraction as the source's comments describe it, calendar days over 360 or 365 |
| Dates.ActualFractionCountsSteps | test/date.cpp:90-98 | the corrected fraction from a valid date to a later one is the number of next_date steps between them over the basis |
| Dates.ActualFractionOfNextDay | test/date.cpp:90-98 | the corrected fraction from a valid date to its next date is one day, 1/basis |
| Dates.MutableDate.constructor | test/date.cpp:3-7 | the default date is 1 January 1900 |
| Dates.MutableDate.FromParts | test/date.cpp:8-12 | the fields are stored unchecked |
| Dates.MutableDate.SetDay | test/date.cpp:16 | only the day changes |
| Dates.MutableDate.SetMonth | test/date.cpp:17 | only the month changes |
| Dates.MutableDate.SetYear | test/date.cpp:18 | only the year changes |
| Dates.MutableDate.PostIncrement | test/date.cpp:127-131 | the date becomes next_date of the old one and the old value is returned |
| Dates.MutableDate.Increment | test/date.cpp:132-135 | the date becomes next_date of the old one and the new value is returned |
| Dates.MutableDate.PostDecrement | test/date.cpp:136-140 | the date becomes previous_date of the old one and the old value is returned |
| Dates.MutableDate.Decrement | test/date.cpp:141-144 | the date becomes previous_date of the old one and the new value is returned |
| CashFlows.ShiftPrefix | test/TimeContingentCashFlows.cpp:19-24 | the filtered set has paired times and amounts, no more entries than it has examined, and only non-negative times |
| CashFlows.KeptIndices | test/TimeContingentCashFlows.cpp:19-24 | the kept positions are increasing, each one's time is still due one period later, and every such position is kept |
| CashFlows.Shift | test/TimeContingentCashFlows.cpp:17-26 | no contract of its own: one pass of the inner loop over the whole set; `CashFlows.ShiftIsFilter` and `CashFlows.ShiftHorizon` state its properties |
| CashFlows.ShiftIsFilter | test/TimeContingentCashFlows.cpp:17-26 | one pass is an order-preserving filter: entry j is input entry KeptIndices[j] with its time reduced by 1.0 and its own amount |
| CashFlows.ShiftHorizon | test/TimeContingentCashFlows.cpp:15-27 | each pass shortens the remaining number of periods by exactly one, which makes the loop terminate |
| CashFlows.Projection | test/TimeContingentCashFlows.cpp:15-27 | no contract of its own: the sets the while loop emits; `CashFlows.ProjectionLength` and `CashFlows.ProjectionElements` state its properties |
| CashFlows.ProjectionLength | test/TimeContingentCashFlows.cpp:15-27 | an empty schedule gives no sets; otherwise there are floor(m) + 1 sets for a largest time m >= 0, and one set when m < 0 |
| CashFlows.ProjectionElements | test/TimeContingentCashFlows.cpp:12-27 | set 0 is the input, every set is paired and non-empty, each next set is the shift of the one before it, and the shift of the last set is empty |
| CashFlows.BuildTimeSeries | test/TimeContingentCashFlows.cpp:9-30 | the while loop emits exactly the projection |
| CashFlows.Trunc | test/TimeContingentCashFlows.cpp:40 | conversion of a double to int truncates toward zero |
| CashFlows.ExpirySteps | test/TimeContingentCashFlows.cpp:40 | no contract of its own: int(option_time_to_maturity + 0.0001), through `CashFlows.Trunc` |
| CashFlows.HorizonGuardAsWritten | test/TimeContingentCashFlows.cpp:64 | no contract of its own: the written guard, with the int T + 1 converted to the unsigned size type so that a negative value compares as huge |
| CashFlows.HorizonUnavailable | test/TimeContingentCashFlows.cpp:63-67 | no contract of its own: the corrected guard, also rejecting T < 0; `CashFlows.GuardCorrected` states its properties |
| CashFlows.GuardAdmitsEmptyValues | test/TimeContingentCashFlows.cpp:63-69 | maturity -1.5 gives T = -1, which passes the guard as written and leaves 0 terminal values |
| CashFlows.GuardCorrected | test/TimeContingentCashFlows.cpp:63-67 | the corrected guard admits exactly 0 <= T with T + 1 < number of sets, and it rejects everything the written guard rejects |
| CashFlows.Payoff | test/TimeContingentCashFlows.cpp:71 | max(0, x) is non-negative, at least x, and equal to x or 0 |
| CashFlows.TerminalValues | test/TimeContingentCashFlows.cpp:69-73 | there are T + 1 terminal values |
| CashFlows.BackwardStep | test/TimeContingentCashFlows.cpp:76-79 | each backward step shortens the value vector by one |
| CashFlows.Rollback | test/TimeContingentCashFlows.cpp:75-83 | backward induction ends with a single root value |
| CashFlows.OptionValue | test/TimeContingentCashFlows.cpp:69-83 | no contract of its own: the root of the backward induction from the terminal payoffs; `CashFlows.OptionValueNonNegative` and `CashFlows.OptionValueNonIncreasingInStrike` state its properties |
| CashFlows.RollbackNonNegative | test/TimeContingentCashFlows.cpp:75-81 | with 0 <= pi <= 1 and non-negative node discounts, non-negative terminal values give a non-negative root |
| CashFlows.RollbackMonotone | test/TimeContingentCashFlows.cpp:75-81 | under the same conditions the root is monotone in the terminal values |
| CashFlows.OptionValueNonNegative | test/TimeContingentCashFlows.cpp:69-83 | the option value is non-negative |
| CashFlows.OptionValueNonIncreasingInStrike | test/TimeContingentCashFlows.cpp:69-83 | a lower strike never gives a lower option value |
| CashFlows.ComputeTerminalValues | test/TimeContingentCashFlows.cpp:69-73 | the filled vector holds the payoffs on set vec_cf[T + 1], node by node |
| CashFlows.ComputeBackwardStep | test/TimeContingentCashFlows.cpp:76-80 | values_this is one backward step of values |
| CashFlows.PriceEuropeanCallOption | test/TimeContingentCashFlows.cpp:32-84 | the price is -1 when the projection does not reach past expiry; otherwise it is the backward induction of the payoffs on set T + 1 |
| CallableBond.PowerPositive | Back-end/callable_bond.cpp:22-24 | powers of a positive factor are positive |
| CallableBond.GbmRate | Back-end/callable_bond.cpp:16-31 | no contract of its own: the closed form r0 u^j d^(i-j) of entry (i, j); `CallableBond.BuildTree` computes it and `CallableBond.GbmRateSteps` states how it recombines |
| CallableBond.GbmRateSteps | Back-end/callable_bond.cpp:22-26 | the tree recombines: a down move multiplies the rate by d and an up move by u |
| CallableBond.GbmRatePositive | Back-end/callable_bond.cpp:16-31 | a positive initial rate with positive move factors gives positive rates everywhere |
| CallableBond.BuildTree | Back-end/callable_bond.cpp:16-31 | the tree has n + 1 rows (one when n <= 0), row i holds i + 1 rates, and entry (i, j) is r0 u^j d^(i-j) |
| CallableBond.MinOf | Back-end/callable_bond.cpp:74 | the minimum is at most both arguments and is one of them |
| CallableBond.NodeValue | Back-end/callable_bond.cpp:45 | no contract of its own: c + e (q next + (1 - q) nextUp); `CallableBond.NodeValueMonotone` states its monotonicity |
| CallableBond.StraightValue | Back-end/callable_bond.cpp:38-47 | no contract of its own: values[t][i] of the straight valuation; `CallableBond.ValueOfCashflows`, `CallableBond.StraightValueNonNegative` and `CallableBond.CallableAtMostStraight` state its properties |
| CallableBond.CallableValue | Back-end/callable_bond.cpp:62-78 | every value computed at a loop step at or after the first call time is at most the call price, and the last period holds the last cash flow |
| CallableBond.ValueOfCashflows | Back-end/callable_bond.cpp:33-50 | the n x n table, filled from the last period back, yields the straight value of the root node |
| CallableBond.ValueOfCallableBond | Back-end/callable_bond.cpp:52-81 | the row-by-row valuation yields the callable value of the root node |
| CallableBond.SingleCashFlow | Back-end/callable_bond.cpp:38-40 | with one cash flow both valuations return it |
| CallableBond.NoCallIsStraight | Back-end/callable_bond.cpp:43-46 | with the first call time at or past n, the callable value equals the straight value at every node |
| CallableBond.NodeValueMonotone | Back-end/callable_bond.cpp:45 | with 0 <= q <= 1 and a non-negative discount, a node's value is monotone in both successor values |
| CallableBond.CallableAtMostStraight | Back-end/callable_bond.cpp:68-76 | with 0 <= q <= 1 and non-negative discounts, the callable value is at most the straight value at every node |
| CallableBond.StraightValueNonNegative | Back-end/callable_bond.cpp:38-47 | non-negative cash flows give non-negative values at every node |
| TermStructure.DiscountFactorFromYield | test/TermStructure.cpp:9-11 | no contract of its own: exp(-r t); `TermStructure.YieldDiscountRoundTrip` states its inverse |
| TermStructure.YieldFromDiscountFactor | test/TermStructure.cpp:5-7 | no contract of its own: -log(d) / t, for t != 0 |
| TermStructure.ForwardRateFromDiscountFactors | test/TermStructure.cpp:13-15 | no contract of its own: log(d1 / d2) / time, for d2 != 0 and time != 0 |
| TermStructure.ForwardRateFromYields | test/TermStructure.cpp:17-19 | no contract of its own: (r2 t2 - r1 t1) / (t2 - t1), for t1 != t2; `TermStructure.ForwardRateFromYieldsConsistent` states what it means |
| TermStructure.ForwardRateFromYieldsConsistent | test/TermStructure.cpp:17-19 | r1 over [0, t1] followed by the forward rate over [t1, t2] earns r2 over [0, t2]; equal yields give that same forward rate |
| TermStructure.YieldDiscountRoundTrip | test/TermStructure.cpp:5-11 | a yield turned into a discount factor and back is unchanged |
| TermStructure.ForwardFromDiscountFactorsMatchesYields | test/TermStructure.cpp:5-19 | the forward rate from the discount factors exp(-r1 t1) and exp(-r2 t2) equals the forward rate from the yields r1 and r2 |
| TermStructure.ForwardOfConstantRate | test/TermStructure.cpp:13-15 | the discount factors of a single rate R imply the forward rate R |
| TermStructure.FlatCurve.constructor | test/TermStructure.cpp:63 | the flat curve stores its rate |
| TermStructure.FlatCurve.Yield | test/TermStructure.cpp:67-70 | no contract of its own: the rate for t >= 0 and 0 before |
| TermStructure.FlatCurve.Discount | test/TermStructure.cpp:72-74 | no contract of its own: exp(-R t); `TermStructure.FlatCurveYieldMatchesDiscount` relates it to the yield |
| TermStructure.FlatCurve.Forward | test/TermStructure.cpp:76-80 | no contract of its own: the forward rate from d(t1) and d(t2); `TermStructure.FlatCurveForwardIsRate` states its value |
| TermStructure.FlatCurve.SetIntRate | test/TermStructure.cpp:82-84 | setIntRate replaces the rate |
| TermStructure.FlatCurveYieldMatchesDiscount | test/TermStructure.cpp:67-74 | for t > 0 the yield implied by the flat curve's d(t) is r(t), the curve's rate |
| TermStructure.FlatCurveForwardIsRate | test/TermStructure.cpp:76-80 | every forward rate of the flat curve is its rate |
| TermStructure.LowerBoundFrom | test/TermStructure.cpp:118 | the search stops at the first knot not below T, with every knot it passed below T |
| TermStructure.LowerBound | test/TermStructure.cpp:118 | std::lower_bound's position: every earlier knot is below T, and the knot there (if any) is not |
| TermStructure.LowerBoundCharacterised | test/TermStructure.cpp:118 | on ascending knots the position is the unique k between a knot below T and a knot not below it |
| TermStructure.InterpolatedYield | test/TermStructure.cpp:116 | with no observations the yield is 0 |
| TermStructure.InterpolatedYieldExtrapolatesFlat | test/TermStructure.cpp:118-120 | on ascending knots, T <= first knot gives the first yield and T > last knot gives the last yield |
| TermStructure.InterpolatedYieldInterior | test/TermStructure.cpp:122-129 | for t[k-1] < T <= t[k], the yield is the linear interpolant, which lies between y[k-1] and y[k] |
| TermStructure.InterpolatedYieldAtKnots | test/TermStructure.cpp:114-130 | on strictly ascending knots the curve passes through every observation |
| TermStructure.InterpolatedCurve.Empty | test/TermStructure.cpp:88-90 | the default curve has no observations |
| TermStructure.InterpolatedCurve.constructor | test/TermStructure.cpp:92-95 | the observations are stored when their lengths agree; otherwise the curve is empty |
| TermStructure.InterpolatedCurve.Copy | test/TermStructure.cpp:101-104 | the copy holds the same observations |
| TermStructure.InterpolatedCurve.Assign | test/TermStructure.cpp:106-112 | assignment takes the other curve's observations, and self-assignment changes nothing |
| TermStructure.InterpolatedCurve.Clear | test/TermStructure.cpp:150-153 | clear leaves no observations |
| TermStructure.InterpolatedCurve.SetInterpolatedObservations | test/TermStructure.cpp:142-148 | arrays of different lengths leave the curve empty; otherwise it holds exact copies |
| TermStructure.InterpolatedCurve.Yield | test/TermStructure.cpp:114-130 | no contract of its own: the interpolated yield of the stored observations, whose properties the InterpolatedYield lemmas state |
| TermStructure.InterpolatedCurve.Discount | test/TermStructure.cpp:132-134 | no contract of its own: exp(-r(t) t); `TermStructure.DiscountFactorsAtKnots` states its value at the knots |
| TermStructure.InterpolatedCurve.Forward | test/TermStructure.cpp:136-140 | no contract of its own: the forward rate from d(t1) and d(t2); `TermStructure.InterpolatedForwardMatchesYields` states its value |
| TermStructure.InterpolatedCurve.GetDiscountFactors | test/TermStructure.cpp:161-167 | there is one factor per knot, in knot order, and entry k is d(times[k]) |
| TermStructure.InterpolatedForwardMatchesYields | test/TermStructure.cpp:136-140 | the interpolated curve's forward rate is the forward rate of its yields at the two times |
| TermStructure.DiscountFactorsAtKnots | test/TermStructure.cpp:132-134 | on strictly ascending knots d at knot k is exp(-y[k] t[k]) |
| TermStructure.PresentValue | test/TermStructure.cpp:169-177 | no contract of its own: the sum of d(t_i) c_i over the first k cash flows; `TermStructure.BondsPrice`, `TermStructure.PresentValueNonNegative` and `TermStructure.PresentValueLinear` state its properties |
| TermStructure.BondsPrice | test/TermStructure.cpp:169-177 | the loop returns the sum of d(t_i) c_i over the schedule |
| TermStructure.PresentValueNonNegative | test/TermStructure.cpp:169-177 | an empty schedule is worth 0; non-negative discount factors and cash flows give a non-negative price |
| TermStructure.PresentValueLinear | test/TermStructure.cpp:169-177 | the price is linear in the cash flows |
| HoLee.H | test/TermStructureHoLee.cpp:11-13 | no contract of its own: 1 / (pi + (1 - pi) delta^T); `HoLee.HAtZero` and `HoLee.HPositive` state its properties |
| HoLee.HAtZero | test/TermStructureHoLee.cpp:11-13 | hT(0) = 1 for every pi, given delta^0 = 1 |
| HoLee.HPositive | test/TermStructureHoLee.cpp:11-13 | with 0 <= pi <= 1 and a positive power of delta, hT is positive |
| HoLee.DiscountAsWritten | test/TermStructureHoLee.cpp:15-31 | no contract of its own: the discount function as written; `HoLee.Discount` computes it and `HoLee.AsWrittenVersusIntended` relates it to the corrected one |
| HoLee.DiscountIntended | test/TermStructureHoLee.cpp:15-31 | no contract of its own: the corrected discount function, with ratio factors for j = 1..n; `HoLee.IntendedZeroMaturity` and `HoLee.IntendedFirstStepConsistent` state its properties |
| HoLee.Discount | test/TermStructureHoLee.cpp:15-31 | the loop multiplies in exactly the ratio factors hT(T+n-j)/hT(n-j) for j = 1..n-1, in order, and then hT(n) delta^(T(n-i)) |
| HoLee.AccumulateAtZeroMaturity | test/TermStructureHoLee.cpp:19-24 | at maturity 0 every ratio factor is 1 |
| HoLee.RootIsInitialCurve | test/TermStructureHoLee.cpp:15-31 | at the root node d(T) = d*(T)/d*(0), both as written and as corrected |
| HoLee.AsWrittenVersusIntended | test/TermStructureHoLee.cpp:26-28 | for n >= 1 the written d(T) is the Ho-Lee d(T) times hT(n)/hT(T) |
| HoLee.AsWrittenZeroMaturityNotOne | test/TermStructureHoLee.cpp:26-28 | as written, at step 1, state 0, with delta = 0.98 and pi = 0.5, d(0) = 1/0.99 rather than 1 |
| HoLee.IntendedZeroMaturity | test/TermStructureHoLee.cpp:15-31 | with the corrected formula a zero-coupon bond maturing now is worth 1 at every node |
| HoLee.IntendedFirstStepConsistent | test/TermStructureHoLee.cpp:15-31 | with the corrected formula the pi-weighted average of the two step-1 discount functions is the root's forward discount function d(T+1)/d(1) |
| HoLee.AccumulatePositive | test/TermStructureHoLee.cpp:19-24 | a positive start stays positive after the ratio factors (0 <= pi <= 1, positive powers) |
| HoLee.IntendedDiscountPositive | test/TermStructureHoLee.cpp:15-31 | with a positive initial curve, 0 <= pi <= 1 and positive powers of delta, hT is defined everywhere and the discount function is positive |
| HoLee.AsWrittenDiscountPositive | test/TermStructureHoLee.cpp:15-31 | under the same conditions the discount function as written, which the option pricer reads as each node's d(1), is positive |
| HoLee.BuildTermStructureTree | test/TermStructureHoLee.cpp:34-48 | the tree has no_steps rows (none when no_steps <= 0), row t holds t + 1 nodes, and node j of row t is (initial, t, j, delta, pi) |
| Csv.NextComma | test/main.cpp:37 | the index where getline stops, at or after the start and at most the line's length; `Csv.NextCommaSpec` states that it is the first ',' |
| Csv.Split | test/main.cpp:33-41 | no contract of its own: the columns getline yields; `Csv.ParseCsvRow`, `Csv.JoinSplit`, `Csv.ColumnCount` and `Csv.ColumnsHaveNoComma` state its properties |
| Csv.NextCommaSpec | test/main.cpp:37 | getline stops at the first ',' and only there |
| Csv.ParseCsvRow | test/main.cpp:33-41 | the getline loop returns exactly the columns of the split |
| Csv.ColumnsHaveNoComma | test/main.cpp:37 | an empty line has no columns, and no column contains ',' |
| Csv.JoinSplit | test/main.cpp:37-39 | rejoining the columns with ',' reproduces the line, except for the trailing ',' of a line that ends in one |
| Csv.ColumnCount | test/main.cpp:37-39 | a non-empty line with k commas has k + 1 columns, or k when it ends in ',' |
| Csv.SplitExamples | test/main.cpp:37-39 | "a,,b" gives ["a", "", "b"], "a," gives ["a"], and "" gives no columns |

## Left out

- HTTP, CORS and JSON handling (test/main.cpp:64-210, Back-end/callable_bond.cpp:83-135) is network I/O and is not modelled. Neither is the Back-end/main.cpp command-line driver.
- `readCSV` and `stod` (test/main.cpp:44-62) read files and parse numbers. `date::current_date` (test/date.cpp:120-124) reads the system clock. Neither is modelled.
- Nelson-Siegel, `bootstrapYieldCurve` (test/TermStructure.cpp:20-59) and `calibrate` are not part of this model. Neither are the print functions, test/cubic.py, the React front end or the near-identical Back-end/TermStructureHoLee.cpp.
- `exp`, `log`, `pow` and the initial curve's `d` are parameters. Only the laws each lemma requires are assumed of them.
- Floating-point rounding, overflow of `int` and IEEE infinities and NaNs are not modelled: `real` and `int` are exact.
- Divisions by zero and out-of-range reads in the C++ are excluded by preconditions. The model does not say what the C++ does in these cases:
  - a zero time in `yieldFromDiscountFactor`;
  - t1 = t2 in the forward rates, and a zero d(t2) in `forwardRateFromDiscountFactors`;
  - a zero initial discount factor d*(n) in the Ho-Lee discount function (test/TermStructureHoLee.cpp:16);
  - a vanishing denominator of hT. `HoLee.Regular` requires it to be non-zero at every maturity, not only at the ones the loop evaluates;
  - fewer amounts than times. `CashFlows.Paired`, the requires of `CashFlows.BuildTimeSeries` and `CashFlows.PriceEuropeanCallOption`, and the requires of `TermStructure.BondsPrice` ask for `|times| <= |cflows|`. This excludes the C++ read of `cflows[i]` past the end.
- `TermStructureHoLee::r` and `f` override the base class to return 0.0 and are marked not implemented (test/TermStructureHoLee.h:19,21). They are not modelled. The Ho-Lee node is a datatype, since nothing in the core mutates it.
- CashFlows.PriceEuropeanCallOption: it does not model `hl_tree` itself. Two abstract inputs stand in for it:
  - `nodeDiscount(t, i)` is node (t, i)'s d(1);
  - `bondPrice(set, i)` is the price of the set on node (T, i).
  
  The source pairs set vec_cf[T + 1] with tree row T, and the model keeps that pairing. The price uses the corrected guard; the written guard is modelled by `CashFlows.HorizonGuardAsWritten`.
- CallableBond.ValueOfCashflows and CallableBond.ValueOfCallableBond: they require at least one cash flow and a tree that covers every node they read. The source reads out of range for an empty schedule or a short tree.
- The local `values` tables of the two bond valuations are held as sequences of rows. The C++ vectors are local values, so nothing else can alias them.
- TermStructure.LowerBound is a linear search. It agrees with `std::lower_bound` on ascending knots; the lemmas assume ascending knots, as `std::lower_bound` does.
- Destructors are not modelled.

## Findings

| source | as written | input that shows it | evidently intended | confidence | as-written member | corrected member |
|---|---|---|---|---|---|---|
| test/TermStructureHoLee.cpp:26-28 | the node discount function ends with the factor hT(n), after ratio factors for j = 1..n-1 only | step n = 1, state i = 0, delta = 0.98, pi = 0.5, maturity T = 0: d(0) = hT(1) = 1/0.99 instead of 1 | the Ho-Lee formula: ratio factors hT(T+n-j)/hT(n-j) for j = 1..n, whose last factor is hT(T)/hT(0) = hT(T) | not executed | HoLee.AsWrittenZeroMaturityNotOne | HoLee.IntendedFirstStepConsistent |
| test/TimeContingentCashFlows.cpp:63-67 | the guard `T + 1 >= vec_cf.size()` | option maturity -1.5 gives T = -1; with a non-empty projection the guard passes, `values` has 0 entries and `values[0]` is read | reject T < 0 too, returning -1 | not executed | CashFlows.GuardAdmitsEmptyValues | CashFlows.GuardCorrected |
| test/date.cpp:90-98 | Actual360 and Actual365 count (y2 - y1) 360 or 365 days plus 30 days per month plus the day difference, though the comment calls it the actual number of days | 31 January 2023 to 1 February 2023, one day apart: both conventions give 0 | the actual calendar-day count over 360 or 365 | not executed | Dates.ActualConventionsCountThirtyDayMonths | Dates.ActualFractionCountsSteps |

Further members for the first finding:

- As written: `HoLee.DiscountAsWritten`, computed by `HoLee.Discount`. `HoLee.AsWrittenVersusIntended` relates it to the corrected formula.
- Corrected: `HoLee.DiscountIntended`, with `HoLee.IntendedZeroMaturity` and `HoLee.IntendedDiscountPositive`.

Further members for the second finding:

- As written: `CashFlows.HorizonGuardAsWritten`.
- Corrected: `CashFlows.HorizonUnavailable`, which `CashFlows.PriceEuropeanCallOption` uses.

Further members for the third finding:

- As written: `Dates.YearFraction` and `Dates.YearsUntil`, which keep the source's 30-day months.
- Corrected: `Dates.ActualFraction`, with `Dates.ActualFractionOfNextDay`.
