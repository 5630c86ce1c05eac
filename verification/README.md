# Vetch: from measured energy to a priced call

Vetch turns hardware energy measurements into published coefficients and uses them to price
calls. This project models the five connected parts where its guarantees live and proves
those guarantees for all inputs, all runs or all reachable states.

- **Identifiability engine** (`Rungs`, `AxisGate`, `NestedFit`, `FitTheorems`, `RunTable`,
  `Aggregation`): a lattice of nested regressions. Each axis is judged inside the preferred
  usable rung, blind axes are pruned one a round unless load-bearing, and one rung is
  published. Its output meets the code that checks it: `RecordCheck` (record invariants) and
  `Restatement` (a stored record against a refit) and `Refits` (against the refit of its rows).
- **Metering and fitting** (`PowerIntegral`, `IntegralTheorems`, `CudaMeter`, `Amortization`):
  trapezoidal integration with interpolated edges against the exact integral of the
  piecewise-linear power curve, the counter and sampling meter, and the closed-form least
  squares of the amortization curve. `Grid` plans the runs.
- **Budget monitor** (`WarnedKeys`, `BudgetMonitor`, `BudgetRuns`): windowed accumulation,
  cooldown and a bounded recency set, over every run of events and every behaviour of the clock.
- **Calibration store and resolver** (`Text`, `Resolver`, `CalibrationStore`, `StoreRuns`,
  `ForeignChanges`): writes that archive, two caches, the label `exact` that must be earned, and
  what another process can do to a cached answer.
- **Pricing and energy** (`Cost`, `Energy`, `ModelLadder`): threshold pricing with cached
  tokens in two provider conventions, the energy formula, and the model-name ladder.
  `PricedAsFitted` follows a coefficient all the way: fitted, stored, checked, read back and
  priced.

Floats are modelled as `real`. What Vetch updates in place is a class here (`Report`,
`AppleSiliconMonitor`, `CudaEnergyMeter`, `Budget`, `Monitor`, `Store`, `InferenceMetrics`) or
a method with the same loops, proved against a specification function; the theorems are about
that function. A module's theorems about runs and tables sit in the module named after it
(`FitTheorems`, `IntegralTheorems`, `BudgetRuns`, `StoreRuns`). `Reals` holds shared arithmetic.

## Where the code and its documentation part

The model follows the code.

- Published numbers are said to come from the rung they were judged on. That holds exactly
  under the condition of `FitTheorems.PublishedWhereJudgedIff`; a rejected optional axis can
  break it (`FitTheorems.PublishedElsewhereExample`).
- An identified coefficient need not be positive: a bootstrap percentile interval is not forced
  to contain its own estimate (`AxisGate.NegativeEstimateCanPass`).
- `admit_rows` is meant to drop corrupt rows, but a missing field counts as zero there, so a row
  without `energy_wh` is admitted; with three admitted rows and a positive idle figure the fit
  then fails on the missing key (`RunTable.FailsOnMissingEnergyIff`,
  `RunTable.MissingEnergyExample`).
- `integrate` promises that window edges are not dropped. They are, past the first and last
  sample (`IntegralTheorems.LeadingEdgeIsDropped`, `IntegralTheorems.UncoveredEdgeIsDropped`).
- `_fit_amortization_curve` asks for two distinct concurrencies. Two large ones can still fall
  under the determinant threshold (`Amortization.NeighboursFallUnderThreshold`).
- The answer cache is dropped by the process's own writes only. A change by another process can
  leave a stale answer (`ForeignChanges.StaleAnswerExample`), exactly when
  `ForeignChanges.AfterForeignChangeIff` says; the index cache does follow the directory.
- The reported cache saving of a self-hosted call, which costs nothing, is the full list price
  (`Cost.SelfHostedSavingIsListPrice`); of an inclusive-convention call with more reads than
  input it is less than the reads are worth (`Cost.SavingIdentityIff`).
- A price row that stores a multiplier of zero bills long fresh input at nothing, but its cached
  tokens at the base rate (`Cost.ZeroMultiplierExample`).
- The shipped prompt-length rows are not monotone at the length boundaries
  (`Energy.LongerCheaperExample`), and the boundary itself belongs to the longer category.
- Reading a record back drops every coefficient that is not positive, so a fit with a negative
  one would be priced by another model (`PricedAsFitted.NegativeOutputExample`); the checks before
  writing keep such a record off the disk.
- The Apple lane fits with the image token count it probes and stores the one its table gives, and
  no check compares them. Where they differ, calls with images are not priced by the model that
  was fitted (`PricedAsFitted.StoredCountExample`, `PricedAsFitted.AppleRecordIff`), and the
  record is refitted with another count than it was written with
  (`Refits.WrittenRecordSurvivesRefit`). The CUDA lane stores none when its image runs failed
  (`PricedAsFitted.CudaRecordIff`).
- The energy formula leaves out a negative intercept of an explicit override
  (`PricedAsFitted.NegativeInterceptExample`), and leaves with the text the fraction of a visual
  token that `int()` drops; the fit does neither (`PricedAsFitted.PriceIsPrediction`).
- An override's negative visual coefficient is applied as it stands, although the helper that
  reports its presence ignores it; a registry row's is ignored in both places.

## Model

| member | source | states |
|---|---|---|
| Rungs.RungNameRoundTrip | src/vetch/calibrate_v2.py:81-136 | the interchange string written for a rung reads back as exactly the terms it was written for, for every subset of the optional terms |
| Rungs.RungNameInjective | src/vetch/calibrate_v2.py:96-108 | two rungs never share a name, so the table keyed by name holds every fitted model |
| Rungs.TermsForRungIsRung | src/vetch/calibrate_v2.py:111-136 | a string that denotes anything denotes a model containing the output slope |
| Rungs.NameDenotes | src/vetch/calibrate_v2.py:111-136 | a list of words spells a rung exactly when it has the output label and labels only, in any order and however often, and then holds exactly the terms spelled |
| Rungs.SpelledNames | src/vetch/calibrate_v2.py:96-108 | the names of the interchange format, spelled out |
| Rungs.BeforeTotal | src/vetch/calibrate_v2.py:1006-1018 | the preference among rungs (more terms, then the name) orders any two distinct rungs one way only, so each search has one winner |
| AxisGate.AxisStatus | src/vetch/calibrate_v2.py:713-778 | identified exactly when the design has leverage, an interval exists, it is not wholly negative and is at most a fifth of the estimate wide; rejected exactly when it has leverage and is wholly negative; a coefficient is carried exactly when identified |
| AxisGate.ReasonTellsWhy | src/vetch/calibrate_v2.py:713-778 | each status gives its own reason: the design's, no interval, an impossible sign or too wide an interval |
| AxisGate.GatePassedIsPositive | src/vetch/calibrate_v2.py:704-778 | an interval that passes the gate around its own estimate lies wholly above zero, within a fifth of it |
| AxisGate.NegativeEstimateOutsideInterval | src/vetch/calibrate_v2.py:713-778 | a negative estimate can pass the gate only below its own interval |
| AxisGate.NegativeEstimateCanPass | src/vetch/calibrate_v2.py:713-778 | such an estimate, by example: the gate alone does not force the sign |
| NestedFit.BestRungFor | src/vetch/calibrate_v2.py:997-1018 | the preferred one of the usable rungs that hold the term and nothing outside the allowed ones; none exactly when there is no such rung |
| FitTheorems.AssessIff | src/vetch/calibrate_v2.py:955-1056 | told from the table of rung fits: a term is identified exactly when the design resolves it and the largest rung of condition at most 30 and r2 at least 0.85 that holds it determines it to a fifth; rejected exactly when that rung puts it wholly below zero; and it carries that rung's estimate and interval |
| FitTheorems.FullRungIsBlamed | src/vetch/calibrate_v2.py:1026-1036 | a resolved term that no rung admits is put down to the full rung |
| NestedFit.PruneRounds | src/vetch/calibrate_v2.py:1058-1106 | the prune loop leaves by break within its fixed bound with the final allowed set, the assessments of that set and all recorded verdicts |
| NestedFit.PruneChoiceIsWorst | src/vetch/calibrate_v2.py:1080-1106 | a round removes a blind term that is not load-bearing, every worse-determined blind term is load-bearing, and the loop stops exactly when all blind terms are |
| NestedFit.PruneOne | src/vetch/calibrate_v2.py:1080-1106 | the inner loop of a round removes exactly the chosen term, or nothing |
| NestedFit.ChosenIsLargest | src/vetch/calibrate_v2.py:1138-1149 | the chosen rung is usable with every term identified, none preferred to it is, and none is chosen only when none exists |
| NestedFit.SelectAndPublish | src/vetch/calibrate_v2.py:1115-1225 | the publishing part of the fit computes the specified verdict from the assessments of the last round |
| NestedFit.FitNestedModels | src/vetch/calibrate_v2.py:868-1248 | the whole fit, barren exits included, computes the outcome the theorems below are about |
| FitTheorems.RoundsFollowTheRule | src/vetch/calibrate_v2.py:1058-1106 | over the whole loop each round removes exactly one term, blind when judged that round, never a load-bearing one; the one with no interval or the widest for its estimate goes first, and between equals the intercept, then input, then image; the last round is the final allowed set |
| FitTheorems.FinalAllowedIsStable | src/vetch/calibrate_v2.py:1058-1106 | rounds only remove, nothing is left to prune, and the output slope has a usable rung at the end exactly when it had one at the start |
| FitTheorems.SurvivingBlindTermIsLoadBearing | src/vetch/calibrate_v2.py:1096-1106 | a blind term that survives cannot be dropped without losing every usable model |
| FitTheorems.FinalAxisStatus | src/vetch/calibrate_v2.py:1108-1128 | surviving axes carry the verdict of the final model; a pruned axis ends not identified even when an earlier verdict is restored |
| FitTheorems.PrunedKeepsLastSight | src/vetch/calibrate_v2.py:1071-1128 | a term pruned after a round keeps what that round found, unless it had no interval there |
| FitTheorems.PublishedWhereJudgedIff | src/vetch/calibrate_v2.py:1136-1225 | every published number was judged on the rung it was read from exactly when the fallback branch was taken or, in the rung the output slope is judged in, no interval lies wholly below zero |
| FitTheorems.NoOptionalRejectionSuffices | src/vetch/calibrate_v2.py:1136-1225 | no rejected optional axis is enough for that |
| FitTheorems.PossibleSignsSuffice | src/vetch/calibrate_v2.py:1136-1225 | told from the table alone: with no interval of any rung wholly below zero they always do |
| FitTheorems.PublishedElsewhereExample | src/vetch/calibrate_v2.py:1136-1225 | with a rejected axis it fails: a record active with a number whose own interval fails the gate |
| FitTheorems.PublishedIntervalPassedGate | src/vetch/calibrate_v2.py:1194-1225 | when numbers are published where judged, each carries the very interval that passed the gate |
| FitTheorems.ChosenRungIsActiveAndLargest | src/vetch/calibrate_v2.py:1138-1183 | a chosen rung makes the record active, publishes all its terms, and no usable all-identified rung has more |
| FitTheorems.ActiveIff | src/vetch/calibrate_v2.py:1174-1183 | active exactly when some identified axis is published and no term of the published rung was rejected |
| FitTheorems.PublishedIff | src/vetch/calibrate_v2.py:1136-1225 | a number is published exactly for the identified terms of the published rung, with the estimate and interval of that rung |
| FitTheorems.FallbackRung | src/vetch/calibrate_v2.py:1150-1160 | with no usable all-identified rung, the rung the output slope was judged in is published, or the smallest when it was judged in none |
| FitTheorems.ActiveByRungIff | src/vetch/calibrate_v2.py:1174-1183 | active exactly when the published rung has an identified term and no rejected one |
| FitTheorems.VerdictReports | src/vetch/calibrate_v2.py:1185-1248 | r2 and condition are the published rung's, a reason is given exactly for the axes not identified, and rejected axes outside the rung are listed |
| FitTheorems.RefusedOutright | src/vetch/calibrate_v2.py:849-890 | under three rows, or without a positive idle figure, nothing is published and every axis is left open for that one reason; otherwise the search decides |
| RecordCheck.ReportedIffFires | src/vetch/calibration_invariants.py:176-254 | each violation code is reported exactly when its declarative condition holds of the record |
| RecordCheck.RecordInvariants | src/vetch/calibration_invariants.py:176-254 | the checks, appending to one list, produce the specified violations in order |
| RecordCheck.Report.CheckCoefficients | src/vetch/calibration_invariants.py:176-228 | the coefficient check appends exactly the violations of every axis and of the active flag |
| RecordCheck.Report.CheckEnergyBasis | src/vetch/calibration_invariants.py:231-254 | the energy-basis check appends exactly its violations |
| RecordCheck.LevelsInAnyOrder | src/vetch/calibration_invariants.py:244-254 | the attributed levels pass exactly when three of them are numbers and 0.2, 0.5 and 0.8 are among them |
| RecordCheck.FitterRecordIsCoherent | src/vetch/calibration_store.py:705-805 | a record built from any fit reports no coefficient or energy-basis violation other than a negative number |
| RecordCheck.BuiltSays | src/vetch/calibration_store.py:705-805 | a built record is active exactly when the fit is, the run is not rejected and a number is stored, and it states each status in its own word |
| RecordCheck.BracketedFitIsPositive | src/vetch/calibrate_v2.py:1136-1225 | with intervals around their own estimates, numbers published where judged are positive with their whole interval above zero |
| RecordCheck.BracketedRecordHasNoErrors | src/vetch/calibration_invariants.py:176-254 | then the built record passes the checks with no error at all |
| RecordCheck.SignCheckNeedsStrayInterval | src/vetch/calibration_invariants.py:198-204 | where numbers are published as judged, the sign check fires only on an estimate strictly below its own interval |
| RecordCheck.ReadBackIsExactIffPositive | src/vetch/calibration_store.py:1125-1182 | a stored record reads back to exactly the fitted coefficients if and only if all published ones are positive |
| Restatement.Restatements | src/vetch/calibrate_validate.py:361-455 | the two loops produce the specified errors and warnings in order |
| Restatement.NoErrorsIffSupported | src/vetch/calibrate_validate.py:361-455 | on the nested lane no error is raised exactly when every stored coefficient agrees with a recomputed published one, every stored identified status is recomputed as identified, and the stored rung is the recomputed one or strictly inside it |
| Restatement.NoFindingsIffRestates | src/vetch/calibrate_validate.py:361-455 | neither error nor warning exactly when the record restates the refit on every axis |
| Restatement.NoErrorsWithinTolerance | src/vetch/calibrate_validate.py:464-465 | without errors every stored number is within a millionth, or 1e-15, of the one its rows give again |
| Restatement.StoredRungNeverLarger | src/vetch/calibrate_validate.py:423-455 | a record without errors never claims a term the refit does not publish |
| Restatement.WrittenFitRestatesItself | src/vetch/calibrate_validate.py:361-455 | a record written from a fit gives no error against that fit, and no warning exactly when no published image number was withheld |
| Refits.WrittenRecordSurvivesRefit | src/vetch/calibrate_v2.py:1335-1359 | a record written from a table survives the refit with its stored token count exactly when the refit supports it, and always when that count leaves every admitted row the text it was fitted with |
| Refits.OwnCountSurvives | src/vetch/calibrate_v2.py:1338-1359 | so always when it stores the count it was fitted with, or none when there was none |
| Refits.SameTextSameFit | src/vetch/calibrate_v2.py:893-915 | two token counts that leave every admitted row the same text give the same fit of the table, for every estimator |
| RunTable.AdmitRows | src/vetch/calibrate_v2.py:409-477 | rows are admitted in order; each other row is counted under one reason |
| RunTable.NoRowIsLostSilently | src/vetch/calibrate_v2.py:409-477 | admitted rows and the three counts add up to the table |
| RunTable.FateIff | src/vetch/calibrate_v2.py:409-477 | which row meets which fate: no positive raw reading, a field that is no finite number or a request count not above zero, under two seconds on the sampled clock, or admitted |
| RunTable.PerRequestIs | src/vetch/calibrate_v2.py:622-643 | each of n requests gets an n-th of every total; a row without a positive count is one request |
| RunTable.InputArmIff | src/vetch/calibrate_v2.py:646-684 | the input axis has leverage exactly when two rows have at least 1024 prompt and at most 8 output tokens and two prompts are 1024 tokens apart |
| RunTable.ImageArmIff | src/vetch/calibrate_v2.py:687-701 | the image axis exactly when two rows carry images and two carry none |
| RunTable.StructuredIff | src/vetch/calibrate_v2.py:342-377 | residuals of eight rows or more are flagged exactly when, with and without images or with long and short answers, they balance on either side of zero more than 0.0005 apart |
| RunTable.CoefficientIsOfItsColumn | src/vetch/calibrate_v2.py:925-945 | every coefficient and interval of a rung is what the estimator gives for that term's own column, among the columns of exactly the rung's terms |
| RunTable.FitRunTable | src/vetch/calibrate_v2.py:823-1248 | admission, the missing-key failure, the lattice search and the residual flag compose to the specified result |
| RunTable.TableFitSays | src/vetch/calibrate_v2.py:823-1248 | the counts are those of the rows that met each fate, the verdict is the search's on the admitted ones, and the residual flag is that of the published rung, asked of three rows or more with a positive idle figure |
| RunTable.DesignOf | src/vetch/calibrate_v2.py:908-953 | the search sees the number of rows, whether any carries an image, both arm checks and one regression per rung |
| RunTable.FailsOnMissingEnergyIff | src/vetch/calibrate_v2.py:897-899 | the fit fails on a missing key exactly when idle power is known and positive, three rows or more are admitted, and one admitted row has no energy at all |
| RunTable.MissingEnergyExample | src/vetch/calibrate_v2.py:380-398 | three such rows, whatever the estimator |
| Aggregation.AggregateIsSameDesignPoint | src/vetch/calibrate_v2.py:622-643 | a k-fold aggregate has the same per-request energy, output, text and images as its row |
| Aggregation.AggregationInvariance | src/vetch/calibrate_v2.py:342-377 | replacing any admitted rows by aggregates leaves the whole result of the fit unchanged, for every estimator: drop counts, arm checks, residual flag, statuses, rung, coefficients |
| Aggregation.AttributedConservesIdleEnergy | src/vetch/calibrate_v2.py:787-820 | idle energy charged at a utilisation level, over the measured tokens, is exactly the idle energy of the measured hours divided by the level |
| Aggregation.AttributedNotInvariant | src/vetch/calibrate_v2.py:787-820 | the attributed levels, which use totals, do move under aggregation |
| PowerIntegral.AppleSiliconMonitor.CollectBatch | src/vetch/calibrate_metal.py:671-684 | a batch appends its samples backward-stamped from the return time |
| PowerIntegral.BatchEndsAtReturn | src/vetch/calibrate_metal.py:671-684 | readings keep their order, one interval apart, the last at the return |
| PowerIntegral.BatchKeepsOrderIff | src/vetch/calibrate_metal.py:671-684 | the trace stays in time order exactly when the batch does not start before the trace ends |
| PowerIntegral.AppleSiliconMonitor.Integrate | src/vetch/calibrate_metal.py:701-760 | the anchor scans, edge interpolation and trapezoid loop compute the specified energy |
| PowerIntegral.FindAnchors | src/vetch/calibrate_metal.py:711-726 | the scans find the last sample strictly before, the first strictly after, and all between |
| IntegralTheorems.IntegrateIsExact | src/vetch/calibrate_metal.py:701-760 | for every ordered trace and window the energy is the exact integral of the piecewise-linear power curve over the covered part; a lone sample in the window is held instead |
| IntegralTheorems.IntegrateAdditive | src/vetch/calibrate_metal.py:701-760 | energy is additive over any split of any window, on a sample or in a gap, unless the trace is one sample |
| IntegralTheorems.SingleSampleAdditiveIff | src/vetch/calibrate_metal.py:701-760 | exactly when additivity holds for a one-sample trace |
| IntegralTheorems.IntegrateBounded | src/vetch/calibrate_metal.py:701-760 | a covered window costs its duration times something between the least and greatest power |
| IntegralTheorems.IntegrateLessIdle | src/vetch/calibrate_metal.py:701-760 | subtracting a constant power shifts a covered window by exactly that power times its duration |
| IntegralTheorems.UncoveredEdgeIsDropped | src/vetch/calibrate_metal.py:701-760 | past the last sample the window adds nothing |
| IntegralTheorems.LeadingEdgeIsDropped | src/vetch/calibrate_metal.py:701-760 | nor does it add anything before the first |
| CudaMeter.CudaEnergyMeter.SampleOnce | src/vetch/calibrate_cuda.py:314-326 | a good reading is appended; a failed one latches the failure and appends nothing |
| CudaMeter.CudaEnergyMeter.EnergyBetween | src/vetch/calibrate_cuda.py:343-361 | counter difference, refusal on a decrease or a failed sampler, or the held integral |
| CudaMeter.CudaEnergyMeter.IntegrateHeld | src/vetch/calibrate_cuda.py:369-387 | the loop with both edges, or the nearest sample held, computes the specified energy |
| CudaMeter.ChainYieldsIffMonotone | src/vetch/calibrate_cuda.py:343-357 | a chain of windows has an energy exactly when the counter never decreases along it |
| CudaMeter.CounterTelescopes | src/vetch/calibrate_cuda.py:343-357 | the window energies of such a chain add up to the energy between its ends |
| CudaMeter.ResetNeverHidden | src/vetch/calibrate_cuda.py:343-357 | a net decrease is always refused by some window of the chain |
| CudaMeter.EndsCanMissAReset | src/vetch/calibrate_cuda.py:343-357 | measured end to end a reset can go unseen |
| CudaMeter.CounterAgreesWithCurve | src/vetch/calibrate_cuda.py:343-361 | a counter that rises by the integral of the power curve gives that curve's energy, so both modes and both meters measure one quantity |
| CudaMeter.CounterAtConstantPower | src/vetch/calibrate_cuda.py:355-358 | at constant power it is the power times the time, in watt-hours |
| CudaMeter.HeldIsExactOfHeldCurve | src/vetch/calibrate_cuda.py:369-387 | with two samples in the window the energy is the exact integral of the curve held flat to both edges |
| CudaMeter.HeldBounded | src/vetch/calibrate_cuda.py:363-387 | for every non-empty trace and window, short ones included, energy lies between the least and greatest sample power times the whole length |
| CudaMeter.NearestIsClosest | src/vetch/calibrate_cuda.py:363-367 | the sample held over a short window is the earliest of those closest to its middle |
| CudaMeter.ShortWindowIsHeld | src/vetch/calibrate_cuda.py:369-378 | under two samples inside, that sample's power is held over the whole window |
| CudaMeter.HeldAgreesOnSampleBoundaries | src/vetch/calibrate_cuda.py:369-387 | on windows that start and end on samples both meters agree |
| CudaMeter.HeldAdditiveOnSamples | src/vetch/calibrate_cuda.py:369-387 | there the sampled energy is additive |
| CudaMeter.HeldNotAdditiveInGap | src/vetch/calibrate_cuda.py:369-387 | split inside a gap it is not |
| CudaMeter.NetIsIntegralAboveIdle | src/vetch/calibrate_cuda.py:390-402 | where power never falls below idle, net energy is the integral of power above idle |
| CudaMeter.NetIsClamped | src/vetch/calibrate_cuda.py:390-402 | net energy is raw less idle, never below zero |
| Amortization.DetIsPairwiseSpread | src/vetch/calibrate_cuda.py:1240-1242 | the determinant is the sum of squared pairwise differences, positive exactly when two usable points differ in concurrency |
| Amortization.FitIsOptimal | src/vetch/calibrate_cuda.py:1224-1253 | on the solve branch no other pair has a smaller squared error, nor an equal one |
| Amortization.ExactPointsRecoveredIff | src/vetch/calibrate_cuda.py:1224-1253 | points on one curve give that curve back exactly when the solve branch is taken or the curve is flat |
| Amortization.R2IsProportion | src/vetch/calibrate_cuda.py:1247-1252 | r2 lies between 0 and 1 for every list of points |
| Amortization.R2IsExplainedShare | src/vetch/calibrate_cuda.py:1247-1252 | r2 times the squared deviation of the points is that of the fitted values, so it is one exactly when every usable point lies on the curve |
| Amortization.FlatBranchIff | src/vetch/calibrate_cuda.py:1224-1242 | no usable point gives zeros, one gives itself, and the solve branch is taken exactly from two points and a determinant of 1e-18 on |
| Amortization.FlatFallbackIsBestFlat | src/vetch/calibrate_cuda.py:1230-1242 | the fallback is the best flat line |
| Amortization.NeighboursFallUnderThreshold | src/vetch/calibrate_cuda.py:1240-1242 | two different large concurrencies can fall under the determinant threshold and lose their slope |
| BudgetMonitor.Budget.Check | src/vetch/budget.py:260-332 | one budget processes one event: reset, accumulation, three checks, alerts, exactly as specified |
| BudgetMonitor.Monitor.SetBudget | src/vetch/budget.py:115-174 | a budget of the same name is replaced where it stands, otherwise the new one goes last |
| BudgetMonitor.Monitor.CheckBudgets | src/vetch/budget.py:236-347 | every budget takes its step, any_exceeded is true exactly when some matching budget is at or over a positive threshold, alerts come out in order, and one key per alert enters the warned set |
| BudgetRuns.AlertCountIsEmitted | src/vetch/budget.py:321-322 | over every run the alert count is the number of alerts emitted |
| BudgetRuns.AlertsRespectCooldown | src/vetch/budget.py:303-322 | over every run, whatever the clock does, alerts of one budget on one metric are at least a positive cooldown apart |
| BudgetRuns.AlertsCarryMetric | src/vetch/budget.py:286-322 | an alert on a metric is raised exactly when that metric is armed, at its warning level and not cooling |
| BudgetRuns.FilterDecides | src/vetch/budget.py:260-300 | an event carrying every pair of the filter adds its values to the window and is exceeded exactly at a positive threshold; any other leaves the budget as it was, with no alert and nothing exceeded |
| BudgetRuns.FiresIff | src/vetch/budget.py:286-308 | in numbers: a metric fires exactly when the filter is met and its window total reaches the warning share of a positive threshold, a cooldown or more after its last alert |
| BudgetRuns.AlertSays | src/vetch/budget.py:289-320 | an alert states its budget, threshold, window total and the share of one in the other, and whether it is exceeded |
| BudgetRuns.SilencedBudgetStillExceeds | src/vetch/budget.py:295-308 | cooldown never hides an exceeded budget from any_exceeded |
| BudgetRuns.AccumulatorIsWindowTotal | src/vetch/budget.py:262-283 | over every run the accumulator is the sum of the matching values since the last reset |
| BudgetRuns.RequestAndSessionWindows | src/vetch/budget.py:262-283 | a request budget holds this event only, a session budget everything since its creation |
| BudgetRuns.WindowSpansLessThanPeriod | src/vetch/budget.py:266-271 | an hour or day budget holds only events less than its period after the reset that opened the window |
| BudgetRuns.BudgetKeepsItsPromises | src/vetch/budget.py:50-90 | of every budget object in use: the counter is the number of alerts it emitted, those on one metric are a positive cooldown apart, and the accumulator is the total of its window |
| WarnedKeys.AddWarnedKey | src/vetch/budget.py:221-233 | a key moves to the most recent place or enters there, the oldest leaves above the limit, and the answer says whether it was new |
| WarnedKeys.KeptIsMostRecent | src/vetch/budget.py:221-233 | after any history the kept keys are exactly the most recently used distinct ones |
| WarnedKeys.KeptByLastUse | src/vetch/budget.py:221-233 | kept keys stand in order of last use, all used later than any key that is gone, and none goes before the set is full |
| WarnedKeys.KeptInvariant | src/vetch/budget.py:221-233 | they are distinct, never above the limit, last used last |
| WarnedKeys.ThousandAreKept | src/vetch/budget.py:221-233 | the monitor keeps every distinct key used, up to a thousand |
| CalibrationStore.Store.ReadIndex | src/vetch/calibration_store.py:977-1018 | the index is rebuilt exactly when the directory fingerprint changed |
| CalibrationStore.Store.GetLocalCalibration | src/vetch/calculation.py:355-382 | a lookup answers from the cache, or resolves, falls back to the community prior only without hints, and caches |
| CalibrationStore.Store.WriteRecord | src/vetch/calibration_store.py:1021-1122 | a write refuses a record whose coefficient and energy-basis checks, or any remaining one, report an error, archives the file it replaces, writes, and drops both caches |
| StoreRuns.WriteRefusesIff | src/vetch/calibration_store.py:1021-1048 | a write is refused exactly for a check of error severity or a record without identity |
| StoreRuns.WriteArchives | src/vetch/calibration_store.py:1064-1122 | the replaced file is archived whole under the dated name, or the dated name with nanoseconds when that is taken; no other archive changes, and both caches are dropped |
| StoreRuns.IndexedIff | src/vetch/calibration_store.py:977-1018 | the index holds exactly the records of either schema stored under their own stem |
| StoreRuns.IndexAlwaysFresh | src/vetch/calibration_store.py:977-1018 | over any run, changes by other processes included, the index read is a fresh scan of the directory, if file stamps are not reused |
| StoreRuns.LookupsAlwaysFresh | src/vetch/calculation.py:355-382 | over any run of lookups and own writes, rewrites within one time stamp included, every answer is a fresh scan-and-resolve |
| StoreRuns.CachedAnswerIsFrozen | src/vetch/calculation.py:229-234 | without an own write a cached answer never changes, whatever other processes do |
| ForeignChanges.StaleAnswerExample | src/vetch/calculation.py:355-382 | an empty directory, a lookup, a record another process stores: the next lookup still finds nothing while a fresh one finds the record |
| ForeignChanges.AfterForeignChangeIff | src/vetch/calibration_store.py:1366-1472 | after a change by another process a cached answer is right exactly when the candidates gathered around the new file settle as those around the old one |
| ForeignChanges.UnrelatedChangeIsHarmless | src/vetch/calibration_store.py:1366-1472 | a change between two files that offer no candidate for the model never makes a cached answer wrong |
| ForeignChanges.FirstRecordIsMissedIff | src/vetch/calculation.py:355-382 | the first record of a model, stored by another process, is missed exactly when its label serves that of the event: the same provider, or both self-hosted |
| ForeignChanges.GatheredIff | src/vetch/calibration_store.py:1366-1472 | which candidates are gathered: those of index records under a variant of the name, and legacy files of a provider no such record covers |
| ForeignChanges.VariantsOfTag | src/vetch/calibrate.py:433-452 | a tagged name goes also by its base, or by the latest tag |
| StoreRuns.NothingIsLost | src/vetch/calibration_store.py:1064-1107 | every file ever active is still active or archived, while archive names are fresh |
| StoreRuns.WriteConservesFiles | src/vetch/calibration_store.py:1064-1107 | a write adds exactly one file exactly when its archive name is free; otherwise it overwrites that archived file |
| StoreRuns.ActiveIsLastWritten | src/vetch/calibration_store.py:1021-1122 | the active file of a key is the last coherent record written to it |
| StoreRuns.DiskStaysCoherent | src/vetch/calibration_store.py:1028-1037 | no run of lookups and writes brings a record with a coefficient, basis or other check error to disk |
| Resolver.ExactIffEarned | src/vetch/calibration_store.py:1502-1610 | exact is returned exactly when same-provider candidates meet all hints with one identity, hints ruled nothing out unless trusted, no cloud label, power cap confirmed, GPU known |
| Resolver.TierIsHonest | src/vetch/calibration_store.py:1475-1561 | coefficients are the pick's own, the tier never better than measured, and at least 1 unless exact |
| Resolver.AnswerLabel | src/vetch/calibration_store.py:1475-1610 | the label and tier of every answer: proxy exactly for several identities or an unlisted GPU that would have been exact, curated exactly for one identity short of exact, the measured tier floored at 1 without the label |
| Resolver.AnswerExistsIff | src/vetch/calibration_store.py:1564-1610 | an answer exists exactly when a candidate of the event's label meets the hints, or no candidate has that label, it is self-hosted and one under a self-hosted label does |
| Resolver.AnswerMeetsHints | src/vetch/calibration_store.py:1222-1247 | every answer to hints carries the coefficients of a candidate they describe by GPU, engine, precision, concurrency and cap, and none that some candidate of the label meets is refused |
| Resolver.BareCandidateIff | src/vetch/calibration_store.py:1222-1247 | a candidate that records none of these fields meets no named engine or precision, no concurrency but one and no cap |
| Resolver.CloudIsNeverExact | src/vetch/calibration_store.py:130-149 | traffic under a hosted vendor's name is never exact |
| Resolver.PickIsMinimal | src/vetch/calibration_store.py:1502-1528 | no qualifying candidate has a better tier, or the same and is newer |
| Resolver.BestIsPicked | src/vetch/calibration_store.py:1502-1528 | of those that meet the hints: the lowest tier, the newest of it, and the first gathered of the newest |
| Resolver.BorrowedIsNeverExact | src/vetch/calibration_store.py:1564-1610 | a calibration of another provider is never exact nor tier 0, and is lent to self-hosted labels only |
| Resolver.NewIdentityNeverCreatesExact | src/vetch/calibration_store.py:1502-1561 | a candidate with a new identity never turns a non-exact answer exact while another meets the hints |
| Resolver.NewIdentityMakesExactIff | src/vetch/calibration_store.py:1502-1610 | and in general does so exactly when none of its provider met the hints before and it earns the label alone |
| Resolver.FirstOfItsProviderCanBeExact | src/vetch/calibration_store.py:1564-1610 | which does happen: the first measurement under a label |
| Resolver.OwnHintsMatch | src/vetch/calibration_store.py:1222-1247 | a candidate always meets the hints that describe its own stack |
| Resolver.HintsMatchBothWaysIff | src/vetch/calibration_store.py:1222-1247 | between candidates that know the same dimensions matching is mutual exactly when it is for the GPU, which has aliases, or they differ elsewhere; and it means the same engine, precision, concurrency and cap |
| Cost.InputClosedFormIff | src/vetch/calculation.py:1729-1775 | the input cost is rate x multiplier of the whole input x (fresh + discounted reads + premium writes)/1000, exactly when no stored zero multiplier applies or no fresh token is billed |
| Cost.ZeroMultiplierExample | src/vetch/calculation.py:1707-1712 | a stored zero makes a long uncached input free |
| Cost.OneMoreRead | src/vetch/calculation.py:1743-1751 | one prompt token more read from the cache is billed at the discounted rate instead of the full one, and shows in the read part alone |
| Cost.OneMoreWrite | src/vetch/calculation.py:1753-1762 | one token more written costs the five-minute premium, and giving a write the longer life costs the difference of the premiums; nothing else moves |
| Cost.OutputTierByInput | src/vetch/calculation.py:1777-1783 | the prompt length alone sets the output rate: over the threshold the same output costs its multiplier times as much |
| Cost.EachSideHasItsMultiplier | src/vetch/calculation.py:1707-1724 | over the threshold each side is billed at its own multiplier, or at the shared one when its own is absent or zero |
| Cost.CachePricesByDefault | src/vetch/calculation.py:1718-1762 | with nothing stored a read costs a tenth of a token and a write of either life the whole |
| Cost.CachePricesAsGiven | src/vetch/calculation.py:1718-1762 | with prices stored each is billed at its own, the longer life at the shorter one's when it has none |
| Cost.InputNeverFallsIff | src/vetch/calculation.py:1601-1657 | more uncached input never costs less exactly when the token that crosses the threshold does not |
| Cost.BillNeverFalls | src/vetch/calculation.py:1729-1787 | with multipliers of at least one no side of a bill falls as input grows, caches included, and none is negative |
| Cost.FreshTokensAreBilledIff | src/vetch/calculation.py:2113-2121 | all fresh tokens are billed as fresh exactly for disjoint-convention providers or without reads; others bill none once reads reach the input |
| Cost.DisjointBillsEveryFreshToken | src/vetch/calculation.py:2113-2121 | a disjoint-convention bill has every fresh token at full rate however large the read |
| Cost.InferenceMetrics.PriceCall | src/vetch/calculation.py:2252-2309 | the branches on provider, the in-place price factor and the saving leave exactly the specified pricing |
| Cost.PricingAddsUp | src/vetch/calculation.py:2252-2309 | a known cost is the sum of its sides after the factor; unknown exactly for unknown-price providers; savings are non-negative and present exactly with reads and a cost |
| Cost.ProviderDecides | src/vetch/calculation.py:2252-2309 | self-hosted calls cost nothing, unpriceable ones have no cost, and every other side is its list price times the factor |
| Cost.SavingIsDisplacedLessReads | src/vetch/calculation.py:2295-2309 | outputs and writes cancel: the difference from the uncached bill is the displaced tokens less the discounted reads, at the input rate |
| Cost.SavingIdentityIff | src/vetch/calculation.py:2295-2309 | on list-billed calls with a positive rate, multiplier and factor and a discount below one, the saving is reads x rate x multiplier x (1 - discount) x factor exactly when reads are within the billed input |
| Cost.DisjointSavingIsExact | src/vetch/calculation.py:2295-2309 | so always for disjoint-convention providers, under the same conditions on the price |
| Cost.SelfHostedSavingIsListPrice | src/vetch/calculation.py:2252-2309 | a self-hosted call costs nothing, yet its saving is the whole uncached list price |
| Grid.RepeatsAreLeastFilling | src/vetch/calibrate_v2.py:1436-1451 | repeats fill the target window unless capped at 64, and one fewer would not |
| Grid.FasterNeedsNoFewer | src/vetch/calibrate_v2.py:1436-1451 | a faster accelerator never gets fewer repeats |
| Grid.PrefillFillsItsWindow | src/vetch/calibrate_v2.py:1496-1518 | only prefill points are repeated, each as often as fills four seconds, at most 64 times |
| Grid.PointsDouble | src/vetch/calibrate_v2.py:1482-1494 | the listed points: prompts doubling from 1024 to 32768, answers from 512 to 4096, and the mixed ones |
| Grid.V2GridDesign | src/vetch/calibrate_v2.py:1469-1553 | the loops build the specified grid and every point of it fits 90% of the limit |
| Grid.InGridIff | src/vetch/calibrate_v2.py:1469-1553 | the grid holds exactly the text design and, with vision, one image copy of each plain decode or verification point; all of them listed points that fit |
| Grid.InTextDesignIff | src/vetch/calibrate_v2.py:1501-1542 | the text design holds exactly the listed points that fit, replicated only at the ends of what fits |
| Grid.InputArmPassesIff | src/vetch/calibrate_v2.py:664-684 | the planned grid passes the input leverage check exactly without a limit or with one of 2560 tokens or more |
| Grid.ImageArmPassesIff | src/vetch/calibrate_v2.py:687-701 | a vision grid passes the image check exactly without a limit or with one of 1174 tokens (quick: 1707) or more |
| Energy.TextLeavesRoom | src/vetch/calculation.py:282-300 | text tokens are what the visual tokens leave of the input, up to the dropped fraction; none exactly when the visual tokens reach it |
| Energy.OverrideEnergyGrows | src/vetch/calculation.py:827-865 | on the override path energy is non-negative and never falls as input or output grow |
| Energy.RegistryEnergyGrowsWithOutput | src/vetch/calculation.py:870-957 | on the registry path it is non-negative and never falls as output grows |
| Energy.LongerNeverCheaperIff | src/vetch/calculation.py:878-903 | there a longer prompt never gets less energy exactly when the coefficients step up at both length boundaries |
| Energy.PromptLengthDecides | src/vetch/calculation.py:878-903 | a prompt under 1000 tokens is priced by the short row, one of 5000 or more by the long one, any other, or where that row is missing, by the medium |
| Energy.LongerCheaperExample | src/vetch/registry/energy.json:27-33 | the shipped gpt-4o row does not: 5000 prompt tokens get less energy than 4999 |
| Energy.CacheSavesExactly | src/vetch/calculation.py:2190-2203 | on both paths the uncached baseline is higher by exactly 0.85 of the input coefficient on the cached text tokens |
| Energy.RegistryPricesAsOverride | src/vetch/calculation.py:870-957 | both paths are one formula: a registry row prices every request as the override with its coefficients, its unit coefficient kept exactly when not negative |
| Energy.ImagesPriceAsTheirTokens | src/vetch/calculation.py:282-300 | reporting n images and reporting their tokens are priced alike |
| PricedAsFitted.PriceIsPrediction | src/vetch/calculation.py:827-865 | at a row's design point an override charges its own linear model, plus the input energy of the fraction of a visual token int() leaves with the text, plus what a negative intercept would take off |
| PricedAsFitted.OverridePredictsIff | src/vetch/calculation.py:827-865 | so an explicit override prices a call as its linear model exactly when its intercept is not negative and no fraction of a visual token is charged, or, under a negative input coefficient, when the two cancel |
| PricedAsFitted.NegativeInterceptExample | src/vetch/calculation.py:860-863 | an empty request under a negative intercept costs nothing |
| PricedAsFitted.LoadedPriceIsPrediction | src/vetch/calibration_store.py:1125-1182 | a call priced from a stored fit costs the prediction at the fitted token count, less exactly the terms stored as not positive, plus the input energy of the text tokens priced under the stored count beyond those fitted |
| PricedAsFitted.PricedAsFittedIff | src/vetch/calibration_store.py:1125-1182 | from fit through record to call, for every request and any two token counts, exactly when the price is what was fitted |
| PricedAsFitted.SameCountIff | src/vetch/calibration_store.py:1125-1182 | with the fitted count stored, fractional media units included: exactly when the call uses no coefficient stored below zero and no fraction of a visual token is charged as text |
| PricedAsFitted.NegativeOutputExample | src/vetch/calibration_store.py:1168-1182 | under a stored output coefficient of minus one, a thousand tokens cost nothing although the fit predicts minus one |
| PricedAsFitted.WrittenFitIsPricedAsFittedIff | src/vetch/calibration_store.py:1028-1037 | a record that passes the checks made before writing prices a call as fitted exactly when its input is free or the text tokens priced are those fitted |
| PricedAsFitted.WholeImagesIff | src/vetch/calculation.py:282-300 | with whole images that is: no image, equal counts, or an input no longer than the fewer visual tokens |
| PricedAsFitted.PricesAllAsFittedIff | src/vetch/calculation.py:827-865 | such a record prices all calls with whole images as fitted if and only if its input is free or it stores the count it was fitted with |
| PricedAsFitted.BracketedFitIsPricedAsFittedIff | src/vetch/calibrate_v2.py:1136-1225 | so for every fit whose intervals are around their own estimates and whose numbers are published where judged |
| PricedAsFitted.TextOnlyIsPricedAsFitted | src/vetch/calculation.py:282-300 | a call without images costs what was fitted, whatever the counts |
| PricedAsFitted.AppleRecordIff | src/vetch/calibrate_metal.py:1534-1551 | an Apple record, fitted with the probed count and stored with that of a table, does so exactly when its input is free, the model takes no images, or the two agree |
| PricedAsFitted.StoredCountExample | src/vetch/calibrate_metal.py:880-886 | all coefficients one, no probed image tokens, 729 stored: fitted at 2.0 Wh, priced at 1.271 |
| PricedAsFitted.CudaRecordIff | src/vetch/calibrate_cuda.py:1050-1054 | a CUDA record does when its image runs were measured, otherwise exactly if the probed growth is ten tokens or less or its input is free |
| Energy.TierIsNotBorrowed | src/vetch/calculation.py:908-919 | a tier better than 3 comes only from the row whose key the name itself is, or is an alias of |
| Energy.TierNeverImproves | src/vetch/calculation.py:908-919 | a known name never gets a better tier than its row, and a worse one only as a proxy |
| ModelLadder.ResolveModelMatch | src/vetch/calculation.py:473-549 | the nested early-return loops compute the specified match |
| ModelLadder.LongestPrefix | src/vetch/calculation.py:524-541 | the countdown over hyphen prefixes finds the specified hit of a form |
| ModelLadder.LadderOrder | src/vetch/calculation.py:506-549 | each rung fires exactly when it can and every earlier rung fails for every form |
| ModelLadder.BaseNameIsFound | src/vetch/calculation.py:498-510 | a name after an organisation and a slash is matched exactly when it is a key itself |
| ModelLadder.PrefixMatchIsFirst | src/vetch/calculation.py:524-541 | a prefix hit is first by form, then longest prefix, then undegraded before degraded |
| ModelLadder.NameOfMatch | src/vetch/calculation.py:506-549 | an exact match names the first form that is a key, an alias match what the first aliased form stands for, a family match the representative |
| ModelLadder.PrefixAtCut | src/vetch/calculation.py:524-528 | joining the first parts back gives exactly the prefixes that end before a hyphen or at the end |
| ModelLadder.DegradeCutsAt | src/vetch/calculation.py:530-532 | the substitution cuts a final minor version after a digit and dot, and nothing else |
| ModelLadder.MinorIsDropped | src/vetch/calculation.py:530-532 | a final dot and digits are dropped after a digit and kept after anything else |
| ModelLadder.KnownIsRegistryKey | src/vetch/calculation.py:473-549 | known exactly unless fallback; a known name is a registry key, an unknown one is returned as it came |
| ModelLadder.ResolveIsIdempotent | src/vetch/calculation.py:473-549 | with lower-case keys, resolving a known result again is exact with the same name |
| ModelLadder.CaseIsIgnored | src/vetch/calculation.py:498-510 | letter case never changes the match |

## Left out

- Floating-point rounding, NaN and infinities: numbers are exact reals, with non-finite values only where the code tests for them (r2, condition numbers, row fields).
- Least squares, condition numbers and the bootstrap (`_ols_with_bootstrap`): an arbitrary function of the columns and the response; the theorems hold for every one.
- Leverage ratios, idle-uncertainty terms and `predict_design_leverage`: reported figures that decide no status.
- The wording of reasons, warnings and violations: each is a constructor naming the branch that produced it.
- The other record checks (shape, rows, concurrency, idle, identity, measurement basis), schema and hash checks and the batched lane: independent tests of single fields.
- File handling of the store: operating-system errors, permissions, ownership, temporary files, JSON text and SHA-256; a slug is an abstract, ordered stem, and a missing directory is an empty one.
- StoreRuns.IndexAlwaysFresh: assumes a file's name, time and size determine its contents, which is what the fingerprint itself relies on.
- StoreRuns.NothingIsLost: assumes fresh archive names and no changes by other processes; `StoreRuns.WriteConservesFiles` says what happens to a name that is taken.
- CalibrationStore.Store.WriteRecord: the remaining self-consistency checks (shape, rows, concurrency, idle, identity, measurement basis) are one flag of the record.
- The directory's own modification time, which the fingerprint also holds: the modelled index is rebuilt no more often than Vetch's.
- Reading back records of the first schema, whose coefficients are taken as they stand.
- ForeignChanges.FirstRecordIsMissedIff: stated for an event without hints and a model without a community prior; `ForeignChanges.AfterForeignChangeIff` covers every event.
- PricedAsFitted.PricedAsFittedIff: its calls are uncached and count their images; `Energy.CacheSavesExactly` and `Energy.ImagesPriceAsTheirTokens` say what cached tokens and reported media tokens change.
- Legacy flat records are gathered in the order of the sorted files, whereas Vetch follows the order of an unsorted directory listing.
- Case folding and blankness cover ASCII; `Digit` covers ASCII digits, and a name ending in a newline is not given the special treatment the regular expression would.
- The families of unknown models (provider inference, size and tier hints) are an arbitrary function of the lower-case name; only the registry guard is modelled.
- Values of the wrong type (booleans as numbers, non-string model names, malformed registry rows such as a prompt-length row without its medium entry).
- BudgetMonitor.Monitor.CheckBudgets: the warning keys enter the recency set after the loop over the budgets instead of inside it, in the same order; log lines and callbacks are not modelled.
- `remove_budget`, budget status reports, automatic configuration from the environment, and callers who change the fields of a returned budget themselves.
- BudgetRuns.AlertsRespectCooldown: stated for a positive cooldown, as the code ignores any other.
- The sampling threads: a monitor's samples are the batches and readings it was given; `mean_watts` and the parsing of power lines are not modelled.
- Grid rows are planned rows: realised token counts are taken to be the requested ones.
- The carbon, water, PUE and embodied figures, the uncertainty floor and the degradation score of a call.
- Provider SDK patching, telemetry, capability extraction, audit reports, stall handling, advisory thresholds and training comparison.
