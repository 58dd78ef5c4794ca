# A verified model of the LC filter synthesis and of the differential evolution engine

Two components of the repository are modelled. Both treat floating point as exact real arithmetic.

**LC filter synthesis** (`qucs-filter-v2`). It works like a compiler. A rational function BN/BD, the
susceptance of a filter, is compiled into a ladder of capacitors, inductors and LC pairs by removing
one pole after the other. The prototype ladder is then rewritten for real terminations and
frequencies as a low-pass, high-pass, band-pass or band-stop filter.

| module | part |
|---|---|
| `PolyMath`, `Products`, `RealMath` | polynomials as coefficient sequences: values, division, products, roots |
| `QfPoly` | the mutable polynomial object |
| `Ladder` | components, ladders, and what a ladder means: its input admittance as a ratio |
| `Extraction`, `Synthesis`, `Continued` | pole removal, whole runs of it, and continued fractions |
| `Filter`, `Cauer`, `Susceptances` | the filter objects that do it in place |
| `Analysis` | ladders built from the far end, and how synthesis undoes that |
| `PoleOrder`, `OrderSearch`, `CauerSearch` | the order in which poles are removed, and the search for one |
| `Transform`, `TransformedLadder`, `LadderEnds` | denormalisation, of components and of ladders with a load, an open end or a grounded one |
| `WholeFilter`, `PositiveFilters` | the whole way from BN/BD to a real filter, and which filters that is |
| `Elliptic` | the elliptic functions K and sn |

**The differential evolution engine of ASCO** (`asco/de36.c`), with the sweep counter of
`asco/auxfunc_alter.c`.

| module | part |
|---|---|
| `IntMath`, `RndUni` | division with a variable divisor; the random number generator, in signed 32-bit integers |
| `Mutation`, `Evolution` | trial vectors, selection over two arrays that become one, whole runs |
| `Rounding`, `ShellSort`, `Shares`, `LoadBalancer` | how many vectors each slave evaluates |
| `Layout`, `Gather`, `Parallel` | where the vectors lie, how the costs come back in any order, and a balanced generation |
| `Alter` | the sweep counter |

## What the proofs found

- **Split series LC.** For a band-pass or a band-stop, `qf_slc::dnrm` pairs every capacitor with the
  inverse of itself, where `qf_plc::dnrm` pairs crosswise. The pair then behaves as one element of
  the two: the capacitor of the prototype is lost in a band-pass, the inductor in a band-stop. So a
  transformed ladder means the same as its prototype **if and only if** it is a low-pass or a high-pass
  one or contains no series LC that takes current (`TransformedLadder.TransformExact`,
  `LadderEnds.SeenExact`). For filters that are synthesised here this means: always, **except** for dual
  filters with at least one finite pole that are transformed for a band, and for these never
  (`WholeFilter.FilterExact`); `PositiveFilters.ThirdOrder` gives examples with any values.
- **The order the optimiser keeps.** When the loop of the optimiser scores a ladder, the pole order has
  already moved on, so what it keeps is the order *after* the best one, and the last order is never
  scored; nor is any order from the first one on whose synthesis fails (`CauerSearch.SynthBest`).
  `OrderSearch.KeptIsLeast` says for any mixture of orders that work and orders that fail when the kept
  order is a best one all the same: if and only if it is worth no more than the order before it and no
  more than those that work but were not scored; and that its final synthesis fails if and only if it
  is that first failing order. So two poles of which the second order fails end without a filter
  although the first works (`OrderSearch.KeptFails`): with two poles the loop keeps the second order
  whatever the two are worth (`OrderSearch.TwoPoles`). With one pole it scores nothing and is left
  without an order for its final synthesis (`OrderSearch.OnePole`).
- **Filters that were given up.** A synthesis that gives up leaves the cells of the poles before the first
  negative value (`Cauer.QfCauer.SynthOdd`, `Synthesis.EmittedIs`), which mean what was asked for only in
  front of the network that was not synthesised (`Synthesis.GivenUpMeans`). The transformation looks at
  nothing but whether the list is empty, so it makes a filter with an end mark of them
  (`TransformedLadder.QfTform.constructor`).
- **The unset record of the master.** `t_avg[0]` is never set and yet is sorted with the records of
  the slaves. The balancer reaches the exit that "should never have happened" **if and only if** the sort
  puts that record on one of the places 1 .. |k| that are adjusted, and it names no slave or one that has
  fewer rows than are taken from it (`LoadBalancer.Succeeds`). The
  correction k depends on the averages alone, since the least average, by which the source measures
  speeds, cancels out (`Shares.ShareIsRelative`), and the sort is a function of the records, equal times
  included. So this is a condition on the averages and that record. When the record names no slave and no
  average equals its time, it says that the time is above at least one average, and above at most |k| of
  them (`LoadBalancer.DecidedBefore`). `LoadBalancer.LeftoverFails` is an example.
- **Zeros that the validator of the band forms accepts.** A stop-band edge of zero, by which the bandwidth
  of a band-stop is divided, and a bandwidth of zero, by which a band-pass divides
  (`TransformedLadder.EffectiveIsGood`, `TransformedLadder.ValidatorAcceptsZero`). A low-pass or a
  high-pass never reads its bandwidth, and all results about them hold for a bandwidth of zero too.
- **Seeds.** Only `seed > 0` is checked. The generator stays good over every sequence of calls if and only
  if the seed is neither 2147483563 nor 2147483399 (`RndUni.GoodForever`). With the first one the second
  call finds zero and seeds again with 1 (`RndUni.SeedLost`); with the second one the second generator
  is zero for ever (`RndUni.RunIsGood`).
- **Constants.** `slfodd` and `zerod` on a constant that is not zero leave `k` behind, and `*=` on the zero
  polynomial gives it a degree: the representation stays valid exactly under the conditions stated
  at `QfPoly.Poly.KeepOdd`, `QfPoly.Poly.DropTop` and `QfPoly.Poly.Multiply`.
- **The parity of the susceptance.** What pole removal needs of the parities of BN and BD holds exactly when
  the odd one of the two is not zero (`Susceptances.LosslessExactly`), and at a zero of
  transmission both ways to form BN and BD agree (`Susceptances.FormsAgreeAtPole`).
- **K and sn.** One level of the descending transformation in `sn` is one step of the means in `K`
  (`Elliptic.LandenIsStep`), so that `sn` is exactly 1 at the quarter period that `K` computes with as
  many steps as `sn` has levels (`Elliptic.KIsQuarter`, `Elliptic.SnAtQuarter`).

## Model

| member | source | states |
|---|---|---|
| `QfPoly.Poly.constructor` | qucs-filter-v2/qf_poly.cpp:46-79 | any three coefficients, zeros included, give a polynomial with a true degree and leading coefficient |
| `QfPoly.Poly.FindDegree` | qucs-filter-v2/qf_poly.cpp:152-168 | the degree after a cancellation; a constant is left alone |
| `QfPoly.Poly.Add` | qucs-filter-v2/qf_poly.cpp:184-215 | in-place sum, of either operand's length, with cancelled top coefficients dropped |
| `QfPoly.Poly.Subtract` | qucs-filter-v2/qf_poly.cpp:242-263 | in-place difference, likewise |
| `QfPoly.Poly.Multiply` | qucs-filter-v2/qf_poly.cpp:369-388 | in-place product; the object stays valid if and only if it was not zero or the factor is a constant |
| `QfPoly.Poly.Scaled` | qucs-filter-v2/qf_poly.cpp:330-348 | the four cases of a constant factor all give the same product |
| `QfPoly.Poly.ShiftDown` | qucs-filter-v2/qf_poly.cpp:415-431 | division by x^n where it is defined, and the source's result where it is not |
| `QfPoly.Poly.ShiftUp` | qucs-filter-v2/qf_poly.cpp:436-446 | multiplication by x^n |
| `QfPoly.Poly.KeepOdd` | qucs-filter-v2/qf_poly.cpp:463-467 | keeps the odd part; exactly when the result is not a valid object |
| `QfPoly.Poly.KeepEven` | qucs-filter-v2/qf_poly.cpp:483-489 | keeps the even part, always valid |
| `QfPoly.Poly.DropTop` | qucs-filter-v2/qf_poly.cpp:710-715 | erases the top coefficient; exactly when the result is not a valid object |
| `QfPoly.Poly.Mirrored` | qucs-filter-v2/qf_poly.cpp:493-503 | the coefficients of P(-x) |
| `Products.EvalMirror` | qucs-filter-v2/qf_poly.cpp:491-503 | those coefficients have the value P(-x) |
| `QfPoly.Poly.HalfSquare` | qucs-filter-v2/qf_poly.cpp:505-516 | P(x)P(-x) has no odd power, and clearing the odd powers changes nothing |
| `Products.MirrorProductIsEven` | qucs-filter-v2/qf_poly.cpp:507-515 | every odd coefficient of P(x)P(-x) vanishes, for every P |
| `QfPoly.Poly.HalfDegree` | qucs-filter-v2/qf_poly.cpp:518-532 | the coefficients of Q with P(x) == Q(x^2) |
| `PolyMath.EvensMean` | qucs-filter-v2/qf_poly.cpp:518-532 | and P(x) is Q(x^2) |
| `QfPoly.Poly.DivideBy` | qucs-filter-v2/qf_poly.cpp:538-584 | the quotient by the real factor of a root, for every degree and both refusals |
| `PolyMath.DivideEval` | qucs-filter-v2/qf_poly.cpp:565-580 | old == (x^2 + t x + u) quotient + remainder of degree below two, at every x |
| `PolyMath.DivideAtRoot` | qucs-filter-v2/qf_poly.cpp:534-580 | the remainder has the polynomial's value at z, so division is exact at a root |
| `Products.DivideLinearMeans` | qucs-filter-v2/qf_poly.cpp:565-580 | old == (x - r) quotient + remainder, and the remainder is the value at r |
| `QfPoly.Poly.ValueAt` | qucs-filter-v2/qf_poly.cpp:630-643 | Horner's loop and both shortcuts give the value |
| `PolyMath.AtImaginary` | qucs-filter-v2/qf_poly.cpp:645-650 | what evalX2 computes at -p^2 is the value of the polynomial at jp |
| `QfPoly.Poly.Compose` | qucs-filter-v2/qf_poly.cpp:763-775 | P(Q(x)) at every x |
| `QfPoly.Poly.ValueAndSlope` | qucs-filter-v2/qf_poly.cpp:891-904 | the value at a complex z and that of the formal derivative, by one loop |
| `Products.DerivativeStep` | qucs-filter-v2/qf_poly.cpp:891-904 | of which the derivative of a + x t is t + x t' |
| `Products.EvalMul` | qucs-filter-v2/qf_poly.cpp:310-328 | the value of a product is the product of the values |
| `QfPoly.Poly.FromRoots` | qucs-filter-v2/qf_poly.cpp:847-889 | the shift-and-add loop over real roots and conjugate pairs builds k times the product of their factors |
| `QfPoly.BuiltFromRoots` | qucs-filter-v2/qf_poly.cpp:847-889 | the square of whose value at x is k^2 times the squared distances of x from all the listed roots |
| `Products.EvalBuilt` | qucs-filter-v2/qf_poly.cpp:847-889 | whose value at x is k times the product of the factors' values |
| `Products.AnyRootDividesOut` | qucs-filter-v2/qf_poly.cpp:538-584 | any root, wherever it is in the list, divides out without remainder and leaves the polynomial of the others |
| `Products.AllRootsDivideOut` | qucs-filter-v2/qf_poly.cpp:538-584 | dividing out all the roots leaves the constant k |
| `Susceptances.ScptX2` | qucs-filter-v2/qf_filter.cpp:106-126 | BN and BD from E and F, in place, with the degree test that chooses between the two forms, and what they are at every x |
| `Susceptances.FromEFJoins` | qucs-filter-v2/qf_filter.cpp:116-125 | one of BN and BD is odd and one even, and they add up to E(x) - F(-x) in the first form and to E(x) + F(-x) in the second |
| `Susceptances.LosslessExactly` | qucs-filter-v2/qf_filter.cpp:106-126 | the parities that pole removal needs hold if and only if the odd one is not zero |
| `Susceptances.FormsAgreeAtPole` | qucs-filter-v2/qf_filter.cpp:116-125 | at a zero of transmission both forms give the same first value |
| `Filter.QfFilter.PoleFinite` | qucs-filter-v2/qf_filter.cpp:177-252 | the three values, the sign flag, and what is left of BN and BD in place |
| `Extraction.NumeratorDivides` | qucs-filter-v2/qf_filter.cpp:196-222 | the first division by s^2 + p^2 leaves no remainder |
| `Extraction.DenominatorDivides` | qucs-filter-v2/qf_filter.cpp:222-247 | nor does the second |
| `Extraction.ExtractionSplits` | qucs-filter-v2/qf_filter.cpp:177-252 | at every s, old BN and BD are those of the removed parts and of what is left |
| `Extraction.NextIsLossless` | qucs-filter-v2/qf_filter.cpp:177-252 | opposite parity is kept, so the next pole can be removed |
| `Extraction.CellRestores` | qucs-filter-v2/qf_filter.cpp:173-252 | the removed capacitor and parallel LC, in front of what is left, show the old BN/BD; dually as an impedance |
| `Analysis.ExtractionUndoes` | qucs-filter-v2/qf_filter.cpp:177-252 | removing the pole of a network built with a cell in front gives the cell's values and the network back |
| `Analysis.SynthesisUndoesAnalysis` | qucs-filter-v2/qf_cauer.cpp:366-398 | a whole run of removals gives back the cells a ladder was built from, and the network behind them |
| `Filter.QfFilter.PoleAtInfinity` | qucs-filter-v2/qf_filter.cpp:256-317 | the value of the pole at infinity and what is left, for both of its functions; exactly when what is left is no valid object |
| `Continued.FractionPeel` | qucs-filter-v2/qf_filter.cpp:256-317 | one element is peeled off a continued fraction with its value, its degree falling by two |
| `Filter.QfFilter.SynthLadder` | qucs-filter-v2/qf_filter.cpp:378-413 | from the continued fraction of g1 .. gn it emits exactly g1 .. gn over the scale, and never fails |
| `Continued.ElementsMean` | qucs-filter-v2/qf_filter.cpp:378-413 | that ladder has the continued fraction as its admittance, or as its impedance if dual |
| `Synthesis.CellsRestore` | qucs-filter-v2/qf_cauer.cpp:366-398 | whatever poles were removed in whatever order, the emitted cells in front of the rest have the susceptance of the start |
| `Synthesis.OddEnd` | qucs-filter-v2/qf_cauer.cpp:594-604 | the degrees alone leave a1 s / d0 after the last pole, so the values at 1 are its coefficients |
| `Synthesis.EvenEnd` | qucs-filter-v2/qf_cauer.cpp:399-415 | the degrees alone leave (a0 + a2 s^2) / (d1 s) where the assertion about the pole at infinity holds |
| `Cauer.QfCauer.SynthOdd` | qucs-filter-v2/qf_cauer.cpp:557-608 | odd orders, from the degrees and divisors that are not zero, as far as it gets: that it gives up exactly for a negative value while optimising, the ladder it emits otherwise, and the cells it leaves behind where it gives up |
| `Synthesis.EmittedIs` | qucs-filter-v2/qf_cauer.cpp:366-380 | those are the cells of the poles before the first one with a negative value |
| `Synthesis.GivenUpMeans` | qucs-filter-v2/qf_cauer.cpp:366-380 | and they have the susceptance of the start in front of what was not synthesised |
| `Synthesis.OddLadderMeans` | qucs-filter-v2/qf_cauer.cpp:557-608 | that list has input admittance BN/BD at Ws s, the dual one input impedance, for every order of removal |
| `Cauer.QfCauer.SynthEven` | qucs-filter-v2/qf_cauer.cpp:351-419 | even orders, with the last two elements, likewise; it also gives up for a negative last capacitor, and then leaves the cells of all finite poles |
| `Cauer.PolesAre` | qucs-filter-v2/qf_cauer.cpp:366-398 | the pole times its entry in the table of zeros is 1, or its square times two entries |
| `Synthesis.GivesUpExactly` | qucs-filter-v2/qf_cauer.cpp:366-380 | if all poles can be removed, it gives up exactly if it optimises and some removed value is negative |
| `Synthesis.NegativeIsComponent` | qucs-filter-v2/qf_filter.cpp:177-252 | a removed value is negative exactly if one of the three components is |
| `Synthesis.ProceedsToEnd` | qucs-filter-v2/qf_cauer.cpp:366-398 | if it does not give up, all poles were removed |
| `Synthesis.EvenLadderMeans` | qucs-filter-v2/qf_cauer.cpp:351-419 | the same meaning for even orders |
| `Synthesis.FactorsAreNonZero` | qucs-filter-v2/qf_cauer.cpp:351-419 | the common factor in those equalities of ratios is never zero |
| `Cauer.StepParity` | qucs-filter-v2/qf_cauer.cpp:588-592 | clearing the wrong parity after a removal never changes anything |
| `Cauer.QfCauer.SynthInverse` | qucs-filter-v2/qf_icheb.cpp:140-191 | the inverse Chebyshev loop with its inline index removes every pole once and emits the ladder |
| `PoleOrder.PoleOptimiser.PoleIdxNext` | qucs-filter-v2/qf_optimize.cpp:118-142 | the recursion by side effect yields the immediate successor, and false exactly on the last order |
| `PoleOrder.NextIsSuccessor` | qucs-filter-v2/qf_optimize.cpp:118-142 | the next order is greater in the order of a dictionary, and nothing lies between |
| `PoleOrder.NextNone` | qucs-filter-v2/qf_optimize.cpp:118-142 | there is no next order exactly for the last one |
| `PoleOrder.EveryOrderOnce` | qucs-filter-v2/qf_optimize.cpp:110-142 | from the first order every permutation is met, and none twice |
| `CauerSearch.SynthBest` | qucs-filter-v2/qf_cauer.cpp:697-720 | the whole search, with the syntheses it makes: it tries all orders, scores all ladders but the last up to the first failed synthesis, ends at a score of zero, else keeps the successor of the first of the best; whether the synthesis of that order works, and the list it leaves in either case |
| `OrderSearch.KeptIsLeast` | qucs-filter-v2/qf_cauer.cpp:697-720 | for any set of orders that fail: when the kept order works, and when it is of least worth among all that work, both if and only if |
| `OrderSearch.KeptFails` | qucs-filter-v2/qf_cauer.cpp:697-720 | with two poles the order that is kept can be the one that fails |
| `OrderSearch.TwoPoles` | qucs-filter-v2/qf_cauer.cpp:697-720 | with two poles the second order is kept for all scores |
| `OrderSearch.OnePole` | qucs-filter-v2/qf_cauer.cpp:697-720 | with one pole no order is kept |
| `PoleOrder.PoleIdxStd` | qucs-filter-v2/qf_optimize.cpp:98-108 | the zig-zag recurrence yields the standard order, a permutation for every number of poles |
| `PoleOrder.FixedOrdersArePermutations` | qucs-filter-v2/qf_icheb.cpp:152-176 | so does the inline recurrence that starts at the other end |
| `PoleOrder.OrdersTakeEnds` | qucs-filter-v2/qf_optimize.cpp:98-108 | each entry is the least number left or the greatest, in turn |
| `Transform.IndBecomes` | qucs-filter-v2/qf_tform.cpp:206-345 | a transformed inductor has r1 times its impedance at the mapped frequency, in all four forms |
| `Transform.CapBecomes` | qucs-filter-v2/qf_tform.cpp:212-354 | so has a transformed capacitor |
| `Transform.PlcSplits` | qucs-filter-v2/qf_tform.cpp:316-334 | the two parallel LC of a split are the partial fractions of the transformed one |
| `Transform.SlcSplits` | qucs-filter-v2/qf_tform.cpp:297-313 | the two series LC of a split together have the impedance of one element of the prototype only |
| `Transform.RootIs` | qucs-filter-v2/qf_tform.cpp:300 | the square root in a split is greater than 1, so both halves are positive |
| `TransformedLadder.DenormalMeans` | qucs-filter-v2/qf_tform.cpp:206-399 | every transformed component keeps its place in the ladder and has r1 times the impedance of what survives of it |
| `TransformedLadder.TransformMeans` | qucs-filter-v2/qf_tform.cpp:47-117 | whole ladders: at s the transformed ladder shows 1/r1 of what survives of the prototype at the mapped frequency |
| `TransformedLadder.TransformExact` | qucs-filter-v2/qf_tform.cpp:297-389 | with any load, none included, it shows the prototype itself if and only if it is a low-pass or high-pass or no series LC takes current |
| `TransformedLadder.SurvivorsAdmit` | qucs-filter-v2/qf_tform.cpp:297-313 | what is lost always makes the admittance greater, strictly so if and only if it took current |
| `TransformedLadder.QfTform.constructor` | qucs-filter-v2/qf_tform.cpp:47-117 | the loop over the prototype and its end mark, for a finished list, for one that was given up, and for an empty one; and the specification it goes by |
| `TransformedLadder.EffectiveSpecifies` | qucs-filter-v2/qf_tform.h:135-145 | termination and centre are those of the request, and so is the bandwidth, except that of a band-stop, for which bw fs is the distance of fs^2 from fc^2 |
| `TransformedLadder.MappedMeans` | qucs-filter-v2/qf_tform.cpp:206-399 | the mapped frequency is a ratio of polynomials in s, by which fs goes to the edge of the prototype |
| `TransformedLadder.EffectiveIsGood` | qucs-filter-v2/qf_tform.h:135-145 | for which accepted requests no formula of a component divides by zero: all for low-pass and high-pass, positive bandwidth for band-pass, positive stop-band edge for band-stop |
| `TransformedLadder.ValidatorAcceptsZero` | qucs-filter-v2/qf_tform.cpp:22-28 | the validator accepts an edge of zero, and a bandwidth of zero |
| `TransformedLadder.InputIsSiemens` | qucs-filter-v2/qf_tform.cpp:63-79 | the ratio that synthesis reasons about and the admittance that denormalisation reasons about are the same |
| `LadderEnds.ShortedMeans` | qucs-filter-v2/qf_tform.cpp:47-117 | the same in front of a far end that is tied to ground, as even direct and odd dual ladders have it |
| `LadderEnds.SeenExact` | qucs-filter-v2/qf_tform.cpp:297-389 | with an open or a grounded end, it is exact if and only if no series LC that takes current is split |
| `WholeFilter.PartsShape` | qucs-filter-v2/qf_cauer.cpp:366-415 | a series LC is emitted exactly by a dual synthesis with a finite pole, always tied to ground; and where the far end is grounded the last component is in series |
| `WholeFilter.FilterExact` | qucs-filter-v2/qf_tform.cpp:47-117 | from BN/BD to a real filter, odd or even, direct or dual, in any of the four forms: it shows 1/r1 of BN/BD at the mapped frequency if and only if it is not a dual one with finite poles transformed for a band |
| `WholeFilter.AllPoleFilterMeans` | qucs-filter-v2/qf_tform.cpp:47-117 | filters without finite poles, from any positive g1 .. gn: always, in all forms |
| `PositiveFilters.EveryPositiveFilter` | qucs-filter-v2/qf_cauer.cpp:351-419 | every network of positive cells, with any number of poles, that can be taken apart at all is synthesised without a division by zero and with positive components only |
| `PositiveFilters.ThirdOrder` | qucs-filter-v2/qf_cauer.cpp:557-608 | one cell in front of a capacitor always can, for any pole and any positive values |
| `Elliptic.K` | qucs-filter-v2/qf_cauer.cpp:57-69 | the loop ends after a known number of steps with means that enclose all later ones |
| `Elliptic.MeansNested` | qucs-filter-v2/qf_cauer.cpp:61-67 | after n steps the means are still nested and their distance has been halved n times |
| `Elliptic.FirstMeansAre` | qucs-filter-v2/qf_cauer.cpp:61 | the first two means are 1 and the complementary modulus |
| `Elliptic.MeansAre` | qucs-filter-v2/qf_cauer.cpp:65-67 | the step makes the arithmetic and the geometric mean of the old two: 4 (a'^2 - b'^2) == (a - b)^2 |
| `Elliptic.ParameterSquares` | qucs-filter-v2/qf_cauer.cpp:79-84 | each level of sn at least squares the parameter |
| `Elliptic.Descend` | qucs-filter-v2/qf_cauer.cpp:72-86 | so that the recursion reaches its base case for every parameter below 1 |
| `Elliptic.ParameterExists` | qucs-filter-v2/qf_cauer.cpp:72-86 | the condition it needs holds for every parameter below 1 |
| `Elliptic.SnIsOdd` | qucs-filter-v2/qf_cauer.cpp:72-86 | the computed sn is an odd function, at every depth |
| `Elliptic.LandenIs` | qucs-filter-v2/qf_cauer.cpp:79-81 | (1 + smu)^2 m == 4 smu |
| `Elliptic.AscendKeeps` | qucs-filter-v2/qf_cauer.cpp:84-85 | one level keeps 1 and the unit interval |
| `Elliptic.AscendIs` | qucs-filter-v2/qf_cauer.cpp:84-85 | one level carries (1 - y^2)(1 - m y^2), the right-hand side of the equation of sn, from one parameter to the next |
| `Elliptic.SnBaseIs` | qucs-filter-v2/qf_cauer.cpp:74-77 | the base case is the approximation sin u - m (u - sin u cos u) cos u / 4 |
| `Elliptic.LandenIsStep` | qucs-filter-v2/qf_cauer.cpp:57-86 | one Landen transformation is one step of the means of K |
| `Elliptic.SnAtQuarter` | qucs-filter-v2/qf_cauer.cpp:72-86 | the computed sn is 1 at the quarter period of the sine stretched by 1 + smu at every level |
| `Elliptic.KIsQuarter` | qucs-filter-v2/qf_cauer.cpp:57-86 | which is what K returns after as many steps as sn has levels |
| `RndUni.Step1` | asco/de36.c:172-174 | Schrage's step is x -> 40014 x mod 2147483563, every intermediate within 32 bits |
| `RndUni.Step2` | asco/de36.c:184-186 | the second generator's step, likewise |
| `RndUni.Generator1Bijective` | asco/de36.c:181-183 | the step is a bijection of 1 .. IM1 - 1, so zero is never reached |
| `RndUni.Generator2Bijective` | asco/de36.c:184-186 | so is the other one |
| `RndUni.NextIsSane` | asco/de36.c:158-194 | for every seed the table index is in range and iy lies between 1 and IM1 - 1 |
| `RndUni.OutputPicks` | asco/de36.c:191-192 | the result lies strictly between 0 and 1, and (int)(r NP) is an index |
| `RndUni.FirstCall` | asco/de36.c:164-187 | after the first call both generators run if and only if the seed is neither modulus |
| `RndUni.RunIsGood` | asco/de36.c:158-194 | over every sequence of calls all the state stays in range and the seeding branch is never entered again |
| `RndUni.GoodForever` | asco/de36.c:158-194 | this holds for ever if and only if the seed is neither modulus |
| `RndUni.SeedLost` | asco/de36.c:164-180 | with the seed IM1 the generator silently becomes that of the seed 1 |
| `RndUni.RunClosed` | asco/de36.c:181-186 | closed forms: powers of the multipliers times the seed |
| `RndUni.RndUni.Draw` | asco/de36.c:138-194 | one call, in signed 32-bit integers, is one step of the state machine; which table entry it uses and what it returns |
| `RndUni.NextShuffles` | asco/de36.c:187-190 | the one table entry in whose part iy lies is used and replaced, and what is left of the sum |
| `RndUni.PartExists` | asco/de36.c:187 | there is exactly one such entry |
| `RndUni.OutputReads` | asco/de36.c:191-192 | the number returned times IM1 is iy, or it is the cap below that |
| `RndUni.SeededIs` | asco/de36.c:164-180 | seeding drops eight numbers and fills the table from its end with the next 32 |
| `RndUni.TableConserves` | asco/de36.c:158-194 | over a whole run, what was used and what the table holds are together the consecutive numbers of the first generator |
| `Mutation.PickFive` | asco/de36.c:910-935 | five members, all different and different from the target, each the first that its numbers stand for; and that it fails exactly when they run out |
| `Mutation.PickIsFirst` | asco/de36.c:910-935 | a pick is the first number that stands for a member not taken |
| `Mutation.IndexIs` | asco/de36.c:912-914 | a number stands for the part of the unit interval in which it lies |
| `Mutation.CrossExponential` | asco/de36.c:957-1018 | changes 1 <= L <= D cyclically consecutive coordinates, each once, when it stops, and that it fails exactly when the random numbers run out |
| `Mutation.CrossBinomial` | asco/de36.c:1023-1085 | visits every coordinate once and changes at least one; it fails exactly when fewer than 1 + D random numbers are left |
| `Mutation.ChosenIs` | asco/de36.c:1023-1085 | trial k is about coordinate (n + k) mod D, and changes it if its number is below CR or it is the last |
| `Mutation.CrossedNext` | asco/de36.c:986-998 | reading the coordinate that is being written, as strategies 3 and 8 do, gives the formula over the old population |
| `Mutation.ArcSize` | asco/de36.c:957-1018 | an arc of L coordinates has L members |
| `Mutation.Trial` | asco/de36.c:908-1087 | every strategy makes a trial vector from five other members of the old population alone; which they are and which coordinates change is said by the random numbers it takes, and only their end makes it fail |
| `Mutation.MutantBase` | asco/de36.c:957-1085 | where the differenced members cancel, the mutant is the base of its strategy |
| `Mutation.MovingFirst` | asco/de36.c:957-1085 | how far the mutant moves with the first member picked, for every strategy |
| `Mutation.MovingSecond` | asco/de36.c:957-1085 | with the second |
| `Mutation.MovingThird` | asco/de36.c:957-1085 | with the third |
| `Mutation.MovingFourth` | asco/de36.c:957-1085 | with the fourth |
| `Mutation.MovingFifth` | asco/de36.c:957-1085 | with the fifth |
| `Mutation.MovingTarget` | asco/de36.c:957-1085 | with the target |
| `Mutation.MovingBest` | asco/de36.c:957-1085 | with the best member |
| `Mutation.MovingAll` | asco/de36.c:957-1085 | and that it moves along when all of them move |
| `Evolution.Optimiser.Select` | asco/de36.c:1196-1217 | selection in place, with the two arrays being one or two, is that over two buffers |
| `Evolution.StepIsSound` | asco/de36.c:1196-1217 | costs belong to members, the best has the least, nothing gets worse |
| `Evolution.StepSelects` | asco/de36.c:1196-1217 | a trial vector replaces its member if it costs no more, ties included, and the best becomes the first of the cheapest trials if that costs less |
| `Evolution.Optimiser.NextGeneration` | asco/de36.c:904-1217 | one generation of the program is one step of the two-buffer machine, made as the random numbers it takes say, unless they run out |
| `Evolution.CostsNeverRise` | asco/de36.c:904-1217 | over a whole run no member's cost and not the best cost ever rises |
| `Evolution.Optimiser.Start` | asco/de36.c:769-789 | the first generation and its best member: every coordinate is its random number spread over -10 .. 10 |
| `Evolution.Optimiser.Lowest` | asco/de36.c:884-891 | the first of the members with the lowest cost |
| `Evolution.Optimiser.Run` | asco/de36.c:893-1255 | a run that is not interrupted is a run of the two-buffer machine, when it stops, and that it fails only if the random numbers end within a generation it needs |
| `Evolution.Optimiser.CostVariance` | asco/de36.c:1221-1231 | the two loops compute the variance |
| `Evolution.VarianceMeans` | asco/de36.c:1221-1231 | it is zero exactly when all costs are equal |
| `Evolution.VarianceOfPairs` | asco/de36.c:1221-1231 | 2 n (n - 1) times it is the sum of the squared differences of all pairs |
| `LoadBalancer.LoadBalancer.Measure` | asco/de36.c:260-298 | every slave's average, the least of them, and what is remembered, each counted in rows in bound |
| `LoadBalancer.AverageMeans` | asco/de36.c:260-292 | the average times the number of rows that cost at most 1e50 is the elapsed time, or 1 if that is more; how the memory takes it up; and that without such a row both are what was remembered |
| `LoadBalancer.MeasuredIsPositive` | asco/de36.c:277-292 | an average is positive if and only if something was in bound, now or in an earlier run |
| `Shares.SharesTotal` | asco/de36.c:300-315 | the shares add up to the population |
| `Shares.ShareIsRelative` | asco/de36.c:300-313 | the least average by which the source measures speeds cancels out |
| `Shares.SharesTakeEqualTime` | asco/de36.c:300-313 | every slave needs the same time for its share |
| `Shares.ShareOrder` | asco/de36.c:313 | no slower slave has a greater share |
| `Rounding.CorrectionIsSmall` | asco/de36.c:309-318 | the correction is at most half the number of slaves; for a negative one twice as many shares were raised |
| `Rounding.RintOfTie` | asco/de36.c:313 | a tie is rounded to an even number |
| `ShellSort.Sort` | asco/de36.c:321-338 | the three nested loops compute a function of the records alone, in place |
| `ShellSort.ShellSortedSorts` | asco/de36.c:321-338 | whose result is sorted and a permutation |
| `ShellSort.Insert` | asco/de36.c:326-336 | one insertion with any gap, in place |
| `ShellSort.Inserted` | asco/de36.c:326-336 | keeps the records, and with gap 1 the order |
| `ShellSort.SlidInserts` | asco/de36.c:326-336 | it goes after all records of its chain that are not later, which move not at all, and before the others, which move by one gap |
| `ShellSort.FirstGapIs` | asco/de36.c:322-324 | the first gap is a power of two above a quarter of the length whose half is not |
| `Shares.FastHaveWork` | asco/de36.c:349-354 | every slave from which a row is taken has one |
| `Shares.EffectiveAll` | asco/de36.c:343-354 | an adjustment of every record takes effect exactly if all are of slaves and nobody runs out of rows |
| `Shares.RepairWorks` | asco/de36.c:340-369 | the repaired counts add up if and only if the master's record was not adjusted or names a slave that does not run out of rows, and what each slave gets |
| `LoadBalancer.LoadBalancer.Balance` | asco/de36.c:248-389 | the whole balancer: the error exit exactly then, the counts and the layout otherwise, as functions of the averages and the leftover record, equal times included |
| `LoadBalancer.DecidedBefore` | asco/de36.c:253-369 | the same condition without the sort, as a count of averages below the leftover time; bounds on both sides when averages equal that time or the record names a slave |
| `LoadBalancer.LeftoverFails` | asco/de36.c:253-369 | an input for which the error exit is taken |
| `LoadBalancer.LoadBalancer.LayOut` | asco/de36.c:358-385 | displs are the prefix sums of sendcount |
| `Layout.OwnerExists` | asco/de36.c:377-385 | every row belongs to a slave |
| `Layout.OwnerIsUnique` | asco/de36.c:377-385 | and to one only |
| `Gather.Master.Exchange` | asco/de36.c:844-881 | for every order of arrival every row's cost is in its slot, and every slot was written once |
| `Gather.Master.Scatter` | asco/de36.c:661-679 | what every slave receives and replies |
| `Gather.StoredRow` | asco/de36.c:661-679 | the row that is evaluated is the row that was stored |
| `Gather.Master.Batched` | asco/de36.c:791-818 | the same for rounds of one row to each slave, where the slot follows from the sender |
| `Gather.Master.ReceiveRound` | asco/de36.c:802-818 | in every round a reply is on its way whenever the master waits for one, in any order of arrival, and none is left at the end |
| `Parallel.EvaluateBalanced` | asco/de36.c:1155-1194 | balancing and exchange together: every row has its cost in its slot, and the next generation finds all that the balancer needs |
| `Alter.Sweeper.Create` | asco/auxfunc_alter.c:187-271 | the number of steps, the digits of each, and both refusals |
| `Alter.Sweeper.Count` | asco/auxfunc_alter.c:259-271 | one pass over the digits is the successor of the mixed-radix number |
| `Alter.ValueOrder` | asco/auxfunc_alter.c:257-271 | the numbers are in the order of a dictionary, and different for different digits |
| `Alter.EveryCombinationOnce` | asco/auxfunc_alter.c:257-271 | the steps go through every combination exactly once, in that order |

## Left out

- FilterExact: the ladder equalities are stated for components that are all positive and real s > 0, where every sub-impedance is positive; the identities at the imaginary axis are not stated.
- PoleFinite: requires that the two quotients it forms are not divisions by zero, for which the source has no test, and that the removed shunt value is not exactly zero, by which the source multiplies in place.
- SynthLadder: is stated for the polynomial pair of a continued fraction with elements that are not zero, for which the clean-up of round-off never fires.
- HalfSquare: requires a polynomial that is not zero, since the source multiplies in place by zero otherwise.
- Scale: multiplication in place by zero frees the buffer and goes on using it, and is excluded.
- Multiply: a factor that is the zero constant is such a multiplication, and is excluded.
- Compose: so is an inner polynomial that is the zero constant.
- EffectiveIsGood: `th ()`, which gives an elliptic prototype its selectivity, has divisors of its own, fs for a high-pass and fs and bw for a band form; it is not part of the model.
- SynthBest: what a ladder is worth is a parameter, below the greatest double; without a kept order the source goes on with an empty list of poles, and the model gives up.
- Balance: every slave was measured once, in this run or before, and the entry of the master holds an index of the counts.
- Exchange: the exit messages, whose mark is the greatest double in the first coordinate, and the interrupt that empties the population.
- Run: a run is not interrupted; the source also takes a cost of exactly zero for an interruption.
- Create: the product of the numbers of values is unbounded here, where the source computes it in an int; lines whose first value is empty shift the source's own indices.
- Sn: the sine and the cosine are parameters, so nothing is said about the distance from the elliptic function anywhere but at 0 and at the quarter period.
- Square roots are parameters with their defining property, random numbers an arbitrary tape between 0 and 1, times arbitrary reals, and the cost function an arbitrary function.
- An array of 500 entries cannot hold the master and 500 slaves; the number of processes is within the arrays here.
- sendcount[0] is not set before the first balancing in the source; it is part of the measured input here.
- Rounding of floating point, and what is done against it (`zerov`, `nrm`).
- Root finding: `roots`, `newton`, `hurw`, `rroot`, and the QR and matrix code; E, F and P are given.
- The polynomials of `scpt_b`, `scpt_c`, `scpt_odd` and the choice of the order.
- `qf_zigzag.cpp`, `qf_transform.cpp`, `qucs-filter`, `qucs-transcalc`, `qucs-attenuator`.
- All dialogs, settings and schematic output; running simulators; reading and rewriting netlists.
- `asco/nmlatest.c`, whose only call is commented out.
