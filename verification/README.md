# Verified models of the DER26 battery management tools

This project models, in Dafny, seven parts of the DER26 accumulator management repository and proves what they
promise over whole runs:

- **Fuse thermal observer** (`FuseCurve`, `FuseLaws`, `FuseObserver`, `FuseProperties`, `FuseSteps`, `FuseHistory`,
  `FuseCaps`, `FuseConditions`, `HeunIntegrator`): the melting curve, the exact relaxation of thermal utilisation with its
  latch, the bisected current caps, and the trapezoidal integrator used as a cross-check.
- **Power-authority link** (`PowerFrames`, `PowerConsumer`, `PowerReceiver`, `PowerRuns`, `PowerAuthority`,
  `PowerRecovery`, `PowerTiming`, `PowerAnswers`, `PowerRules`, `PowerCounters`, `PowerSender`, `PowerLink`, with `Crc8`):
  the receive protocol of the ECU, which stages four checked frames per counter, grants authority after two bundles and
  expires it on a wrapping clock, and the packing of those frames on the side of the AMS. `PowerReceiver` holds the object
  that is updated in place; `PowerConsumer` its transition function; `PowerSender` the packing; the other modules reason
  about histories of frames.
- **State-of-Power reference solver** (`SopSchedule`, `SopThermal`, `SopModel`, `SopEvaluator`, `SopExact`,
  `SopClosedForm`, `SopMonotone`, `SopSolver`, `SopEnvelope`, `SopPublished`, `SopTolerance`): the adaptive step schedule,
  the electrothermal evaluation loop, the bisection and the clamp over horizons.
- **HIL image transmission** (`HilImage`, `HilTables`, `HilReassembly`, `HilTransmission`, with `Crc32`): packing, sending
  under arbitrary send failures, and what a receiver can rebuild.
- **SPI lock** (`SpiLock`): owner and depth bookkeeping around the RTOS mutex, as interleaved steps.
- **Heartbeat monitor** (`Heartbeat`, `HeartbeatRuns`): kicks and updates on wrapping ticks.
- **Thermistor lookup** (`Thermistor`): table validation and the interpolating binary search.

`Gf2` holds the algebra of serial CRC registers that both checksums share, `CrcMessages` the bits that they cover,
`Bisection` the search that both cap solvers share, `Elementary` the exponential and logarithm, `Reals` order facts about
products and quotients, `Ticks` the wrapping clocks, `Bytes` small numbers as bytes, and `Options` optional values.

Numbers that the sources keep in floating point are exact reals. `exp` and `ln` are any two functions that satisfy
`Elementary.Functions.Valid`: the functional equation, the tangent of `exp` at zero, and that `ln` is a right inverse
of `exp`. Counters, clocks and masks keep their widths.

Some properties hold only under a condition. Where it is proved to be exact:

- The heating rate, and with it the order of the fuse caps, is monotone exactly when the clamped low-current fit at
  154 A, taken as usable time, is at least the usable time of the table's first point
  (`FuseCurve.RateOrderIffFitMeetsTable`, `FuseCaps.CapsFollowOrderIffFitMeetsTable`). The same condition decides whether
  caps are sound, but for a configuration that clamps utilisation at 1 (`FuseConditions.CapsSoundIffFitMeetsTable`), and
  whether they are close to the greatest feasible current, but for a table clamped to the greatest time up to 308 A
  (`FuseConditions.CapsCloseIff`). A valid configuration can violate all of it
  (`FuseConditions.ValidConfigMayFallShort`).
- The trapezoidal integrator stays between start and equilibrium exactly for steps of at most twice the time constant, or
  from the equilibrium itself (`HeunIntegrator.StaysBetweenIffStepSmall`).
- Two bundles restore authority exactly when no stage with the first counter is open
  (`PowerRecovery.TwoBundlesRecoverIff`).
- The frames that the AMS packs from a snapshot within the contract make a bundle that the ECU accepts exactly if the
  snapshot is stale, or every direction that it inhibits has less than 0.5 A feasible for 10 s
  (`PowerLink.BundleCoheresIff`): an inhibited direction is sent as 0 A beside an envelope that is not inhibited.
- A shorter State-of-Power schedule is a prefix of a longer one exactly when its horizon is on the step grid
  (`SopSchedule.PrefixIffAligned`).
- The SPI bookkeeping tracks the mutex exactly while no task nests beyond 65535 (`SpiLock.RunTracksIff`);
  `SpiLock.OneLevelTooDeep` shows what happens then, and `SpiLock.ForeignOwnerUnreachable` what holds even so.

State-of-Power feasibility is downward closed under a sufficient condition (`SopMonotone.Tolerant`) that a caller can
evaluate. It holds by a wide margin for the default configuration (`SopTolerance.DefaultJobIsSound`), and some condition
is needed (`SopTolerance.WarmthBreaksClosure`).

`dafny verify dfyconfig.toml` checks the whole project.

## Model

| member | source | states |
|---|---|---|
| `FuseCurve.CurveThroughPoints` | Tools/fuse_replay/fuse_reference_oracle.c:63-69 | every digitised point of the melting curve is reproduced exactly |
| `FuseCurve.TableAntitone` | Tools/fuse_replay/fuse_reference_oracle.c:63-69 | within the digitised table a larger current never melts later |
| `FuseCurve.UsableAntitone` | Tools/fuse_replay/fuse_reference_oracle.c:63-79 | over the whole fit, table and extrapolation the usable melting time never rises with the current, given the low-current fit meets the table at 154 A; the times themselves are those of `FuseLaws.FitInLogarithms`, `TableIsLogLinear` and `TailIsLogLinear` |
| `FuseCurve.RateOrderIffFitMeetsTable` | Tools/fuse_replay/fuse_reference_oracle.c:63-83 | the heating rate is non-decreasing over every current exactly when the clamped usable fit at 154 A is at least the usable table time; otherwise a concrete pair of currents breaks the order |
| `FuseCurve.DeratingAntitone` | Tools/fuse_replay/fuse_reference_oracle.c:54-62 | a hotter fuse never gets a larger rating, and the derating stays within its floor and 1 |
| `FuseLaws.PublishedPoints` | Tools/fuse_replay/fuse_reference_oracle.c:9-16 | the melting time at each of the eighteen currents of the data sheet, in amperes and seconds |
| `FuseLaws.FitLaw` | Tools/fuse_replay/fuse_reference_oracle.c:68 | between the rating and 154 A the melting time is a power of the overload, limited to the configured times |
| `FuseLaws.FitInLogarithms` | Tools/fuse_replay/fuse_reference_oracle.c:68 | off the limits, the logarithm of the answered time is that of the fit scale less the fit exponent times the logarithm of the overload |
| `FuseLaws.FitRatio` | Tools/fuse_replay/fuse_reference_oracle.c:68 | the answered times of two such currents differ, in logarithms, by the exponent times the difference of their overloads' logarithms |
| `FuseLaws.TableIsLogLinear` | Tools/fuse_replay/fuse_reference_oracle.c:69 | between neighbouring points the time lies on a straight line on logarithmic scales |
| `FuseLaws.TailIsLogLinear` | Tools/fuse_replay/fuse_reference_oracle.c:70-73 | beyond 850 A the line through the last two points goes on, limited to the configured times |
| `FuseLaws.WhereTheCurveAnswers` | Tools/fuse_replay/fuse_reference_oracle.c:63-73 | no time for a negative current, none up to the rating, and extrapolation exactly between rating and 154 A and beyond 850 A |
| `FuseLaws.DeratingIsOneLine` | Tools/fuse_replay/fuse_reference_oracle.c:54-62 | the derating is 1.05 - 0.002 t, limited to 1 above and to the larger of 0.8 and the floor below |
| `FuseObserver.Observer.constructor` | Tools/fuse_replay/fuse_reference_oracle.c:48 | a fresh state is all zero |
| `FuseObserver.Observer.Seed` | Tools/fuse_replay/fuse_reference_oracle.c:49-53 | seeding is accepted exactly for a valid configuration and a utilisation in range, and sets utilisation, soak and latch; otherwise nothing changes |
| `FuseObserver.Observer.SolveCap` | Tools/fuse_replay/fuse_reference_oracle.c:88-132 | the bisection loop returns the cap of its specification, and its extrapolation flag is set exactly if some prediction it made left the digitised curve |
| `FuseObserver.Observer.HorizonCaps` | Tools/fuse_replay/fuse_reference_oracle.c:162 | all eight caps and the two conditions behind the derated and extrapolated reason flags |
| `FuseObserver.Observer.Integrate` | Tools/fuse_replay/fuse_reference_oracle.c:150-161 | counters, soak timer, clamped relaxation and latch after one valid step |
| `FuseObserver.Observer.Step` | Tools/fuse_replay/fuse_reference_oracle.c:134-164 | an invalid call only counts and reports a used-up budget, no caps and no authority; a valid one advances the state and reports exactly the specified result |
| `FuseObserver.ReportedReasons` | Tools/fuse_replay/fuse_reference_oracle.c:154-163 | each reason of a valid step is reported exactly under the condition that the source tests on input, state, caps and predictions |
| `FuseSteps.ReportedInputs` | Tools/fuse_replay/fuse_reference_oracle.c:155-158 | effective current, fuse temperature, derating, continuous and equivalent current of a report in the measured quantities |
| `FuseSteps.ReportedTimes` | Tools/fuse_replay/fuse_reference_oracle.c:75-83 | the reported typical time is the curve's at the reported equivalent current, and the usable time the configured fraction of it within the time limits |
| `FuseSteps.ReportedState` | Tools/fuse_replay/fuse_reference_oracle.c:161-163 | remaining utilisation, latch, and authority exactly for a validated model and an initialised state |
| `FuseSteps.StepInClosedForm` | Tools/fuse_replay/fuse_reference_oracle.c:159-160 | a step of length t and usable time v takes u to u a + (1 - a) / (1 - b), with a and b the decays over t and v, or to u a within the rating, before the clamp |
| `FuseSteps.PredictionIsTheStep` | Tools/fuse_replay/fuse_reference_oracle.c:84-87 | predicting a candidate current is the utilisation after a step that draws it for the horizon |
| `FuseSteps.ReportedCapsAreClose` | Tools/fuse_replay/fuse_reference_oracle.c:88-132 | given that the fit meets the table at 154 A, no input that could be held for the horizon exceeds the reported cap by more than the static limit over 2^64 |
| `FuseSteps.ExhaustedLeavesNothing` | Tools/fuse_replay/fuse_reference_oracle.c:96-99 | an exhausted budget reports zero caps |
| `FuseSteps.ProbesAreTried` | Tools/fuse_replay/fuse_reference_oracle.c:112-129 | the currents that the search tries are the middles of its brackets |
| `FuseSteps.CapExtrapolatedIff` | Tools/fuse_replay/fuse_reference_oracle.c:100-129 | a cap counts as extrapolated exactly if the search ran and the limit, or one of the 64 currents tried after it failed, lies off the curve |
| `FuseHistory.LatchedIffHighSince` | Tools/fuse_replay/fuse_reference_oracle.c:161 | after any run from a fresh or seeded state the budget is exhausted exactly if utilisation was at least 1 at some point and above one half ever since |
| `FuseHistory.InitializedIffSoaked` | Tools/fuse_replay/fuse_reference_oracle.c:156 | after any run from a fresh state it is initialised exactly if some stretch of quiet inputs covered the soak time |
| `FuseHistory.AuthorityIffSoaked` | Tools/fuse_replay/fuse_reference_oracle.c:156-163 | along any such run a valid step grants authority exactly for a validated model after a soak |
| `FuseHistory.RefusedIff` | Tools/fuse_replay/fuse_reference_oracle.c:134-152 | which steps are refused, and that they only count |
| `FuseHistory.RejectedIff` | Tools/fuse_replay/fuse_reference_oracle.c:29-47 | which configurations are rejected, in the numbers of the source |
| `FuseHistory.CountsAreTrue` | Tools/fuse_replay/fuse_reference_oracle.c:134-153 | after any run the two counters hold the numbers of valid and invalid inputs, up to 2^64 - 1 |
| `FuseProperties.AdvanceCoherent` | Tools/fuse_replay/fuse_reference_oracle.c:160-161 | one step keeps utilisation in range and the latch in step with it |
| `FuseProperties.RunCoherent` | Tools/fuse_replay/fuse_reference_oracle.c:134-164 | every run over valid and invalid inputs keeps: utilisation in range, at least 1 implies latched, at most one half implies unlatched |
| `FuseProperties.StartsCoherent` | Tools/fuse_replay/fuse_reference_oracle.c:48-53 | the initial and every seeded state satisfy the run invariant |
| `FuseProperties.TwoStepsAreOne` | Tools/fuse_replay/fuse_reference_oracle.c:150-161 | two steps under the same held input are one step over the summed interval, with the upper clamp and the latch included |
| `FuseProperties.SubdivisionInvariant` | Tools/fuse_replay/fuse_reference_oracle.c:150-161 | any split of an interval under constant inputs ends with the same utilisation and latch as one step |
| `FuseCaps.CapInRange` | Tools/fuse_replay/fuse_reference_oracle.c:88-132 | a cap lies between zero and its static limit, and a positive cap is predicted to keep utilisation at or below 1 |
| `FuseCaps.CapResolution` | Tools/fuse_replay/fuse_reference_oracle.c:110-130 | the final bracket is the static limit over 2^64 |
| `FuseCaps.CapIsClose` | Tools/fuse_replay/fuse_reference_oracle.c:88-132 | given that the fit meets the table at 154 A, no feasible current up to the static limit exceeds the cap by more than the final bracket |
| `FuseCaps.CapIsSound` | Tools/fuse_replay/fuse_reference_oracle.c:84-132 | given that the fit meets the table at 154 A, drawing any currents of magnitude up to a positive cap, in any steps within the horizon, keeps utilisation at or below 1 throughout |
| `FuseCaps.ReportedCapsAreSound` | Tools/fuse_replay/fuse_reference_oracle.c:134-164 | the same, under the same condition, for every cap that a valid step reports, charge and discharge |
| `FuseCaps.CapMonotone` | Tools/fuse_replay/fuse_reference_oracle.c:84-132 | given that the fit meets the table at 154 A, a situation that is no better never gets a larger cap |
| `FuseCaps.CapsFollowOrderIffFitMeetsTable` | Tools/fuse_replay/fuse_reference_oracle.c:63-132 | caps follow the order of situations for all of them exactly when the low-current fit meets the table at 154 A |
| `FuseCaps.RunKeepsOrder` | Tools/fuse_replay/fuse_reference_oracle.c:150-161 | given that the fit meets the table at 154 A, inputs that are never easier keep the state no better across two runs |
| `FuseCaps.HarderRunNeverGetsLargerCaps` | Tools/fuse_replay/fuse_reference_oracle.c:84-164 | given that the fit meets the table at 154 A, after any two runs of which the second is never easier, no reported cap is larger in the second |
| `FuseCaps.ReachesOneAtMeltTime` | Tools/fuse_replay/fuse_reference_oracle.c:63-86 | from zero utilisation at constant overcurrent, utilisation is at least 1 exactly from the usable melting time on |
| `FuseCaps.CoolsWithinRating` | Tools/fuse_replay/fuse_reference_oracle.c:63-83 | currents within the derated rating, however they vary, make utilisation decay exactly and never raise it |
| `FuseCaps.LatchClearsAfter` | Tools/fuse_replay/fuse_reference_oracle.c:160-161 | under such currents a set latch is still set exactly until tau * ln(2u) has passed |
| `FuseConditions.CapsSoundIffFitMeetsTable` | Tools/fuse_replay/fuse_reference_oracle.c:63-132 | caps are sound for every state, limit, horizon and draw exactly when the fit meets the table at 154 A, or the state is clamped at 1 anyway |
| `FuseConditions.CapsCloseIff` | Tools/fuse_replay/fuse_reference_oracle.c:63-132 | caps come within the final bracket of the greatest feasible current in every situation exactly when the fit meets the table at 154 A, or the table is usable for the greatest time all the way to 308 A |
| `FuseConditions.MismatchBreaksSoundness` | Tools/fuse_replay/fuse_reference_oracle.c:63-132 | where the fit falls short, a draw of a current below the cap exceeds 1 |
| `FuseConditions.ValidConfigMayFallShort` | Tools/fuse_replay/fuse_reference_oracle.c:31-47 | the checks of a configuration admit one whose fit falls short |
| `HeunIntegrator.Integrate` | Tools/fuse_replay/fuse_reference_oracle.c:165-169 | the n-step trapezoidal loop returns its closed form, and rejects exactly the invalid arguments |
| `HeunIntegrator.HeunStep` | Tools/fuse_replay/fuse_reference_oracle.c:168 | one predictor-corrector step multiplies the distance from equilibrium by 1 - z + z^2/2 |
| `HeunIntegrator.EquilibriumFixed` | Tools/fuse_replay/fuse_reference_oracle.c:165-169 | the equilibrium is a fixed point |
| `HeunIntegrator.StaysBetweenIffStepSmall` | Tools/fuse_replay/fuse_reference_oracle.c:165-169 | the integral stays between start and equilibrium exactly when the step is at most twice the time constant or it starts there |
| `HeunIntegrator.NeverCloserThanExact` | Tools/fuse_replay/fuse_reference_oracle.c:165-169 | its distance from equilibrium is never smaller than that of the exact step |
| `Elementary.DecayQuadratic` | Tools/fuse_replay/fuse_reference_oracle.c:165-169 | exp(-z) is at most 1 - z + z^2/2, derived from the functional equation and the tangent alone |
| `Gf2.RegisterIsRemainder` | Tools/sop_reference/ecu_power_consumer.c:43-55 | a serial register holds a value after a message, from any start, exactly when that value is the polynomial remainder of the dividend |
| `Gf2.ClearIffMultiple` | Tools/sop_reference/ecu_power_consumer.c:43-55 | a register stays clear after a message exactly when the message is a polynomial multiple of the divisor |
| `Gf2.FeedLinear` | Tools/sop_reference/ecu_power_consumer.c:43-55 | the register is linear in its start and its input together |
| `Gf2.FeedAtOnce` | Tools/sop_reference/ecu_power_consumer.c:43-55 | adding a byte to the register and shifting is feeding its bits one by one |
| `Gf2.BurstDetected` | Tools/sop_reference/ecu_power_consumer.c:43-55 | an error burst no longer than the register never goes unnoticed |
| `Gf2.MulIsConvolution` | Tools/sop_reference/ecu_power_consumer.c:43-55 | the polynomial product behind every remainder is the usual sum of products of coefficients |
| `Crc8.Compute` | Tools/sop_reference/ecu_power_consumer.c:34-57 | the byte and bit loops compute the specified checksum, whose message is pinned bit by bit in `CrcMessages.FrameChecksum` |
| `Crc8.ChecksumIsRemainder` | Tools/sop_reference/ecu_power_consumer.c:34-57 | a byte is the checksum exactly when its complement is the remainder modulo 0x11D of the covered bits with the first eight complemented |
| `CrcMessages.FrameChecksum` | Tools/sop_reference/ecu_power_consumer.c:34-57 | a byte is the checksum exactly when its complement is the remainder, modulo 0x11D, of a message whose bit k is bit 15 - k of the identifier for k below 16 and then bit 7 - j of payload byte i for k = 16 + 8 i + j, the first eight complemented |
| `CrcMessages.KnownFrame` | Tools/sop_reference/ecu_power_consumer.c:34-57 | identifier 0x684 with payload 20 00 00 00 00 00 00 has checksum 0x8D |
| `Crc8.UndetectedIffMultiple` | Tools/sop_reference/ecu_power_consumer.c:34-57 | a corrupted frame passes exactly when its error pattern is a multiple of 0x11D |
| `Crc8.SingleBitRejected` | Tools/sop_reference/ecu_power_consumer.c:456-507 | every one-bit error in identifier, payload and checksum is rejected |
| `Crc8.TwoBitsRejected` | Tools/sop_reference/ecu_power_consumer.c:456-507 | every two-bit error is rejected |
| `Crc8.BurstRejected` | Tools/sop_reference/ecu_power_consumer.c:456-507 | every burst within eight consecutive bits is rejected |
| `Crc8.OtherIdentifierRejected` | Tools/sop_reference/ecu_power_consumer.c:456-507 | a frame valid under one power identifier is rejected under any other |
| `PowerFrames.DecodedLimitsBounded` | Tools/sop_reference/ecu_power_consumer.c:95-137 | decoded limits equal the wire limits, stay within 120 A / 40 kW and 15 A / 5 kW, and are zero for an unauthorised direction |
| `PowerRules.LimitRules` | Tools/sop_reference/ecu_power_consumer.c:104-137 | which limit frames pass, in masks and big-endian words of the payload |
| `PowerRules.SohRules` | Tools/sop_reference/ecu_power_consumer.c:139-165 | which state-of-health frames pass |
| `PowerRules.EnvelopeRules` | Tools/sop_reference/ecu_power_consumer.c:167-178 | which envelope frames pass |
| `PowerRules.StrategyRules` | Tools/sop_reference/ecu_power_consumer.c:195-200 | which strategy frames pass |
| `PowerRules.BindingsRules` | Tools/sop_reference/ecu_power_consumer.c:202-230 | which bindings frames pass |
| `PowerRules.FirstFailedCheck` | Tools/sop_reference/ecu_power_consumer.c:486-513 | format, version, checksum and content are checked in this order, and the verdict names the first that fails |
| `PowerRules.Identifiers` | Tools/sop_reference/ecu_power_consumer.c:467-485 | the four identifiers of a bundle in the order of its places, the two advisory ones, and no other |
| `PowerReceiver.Receiver.constructor` | Tools/sop_reference/ecu_power_consumer.c:79-85 | an initialised consumer is empty |
| `PowerReceiver.Receiver.InvalidateTransport` | Tools/sop_reference/ecu_power_consumer.c:87-93 | invalidation clears authority, streak and the open stage, and nothing else |
| `PowerReceiver.Receiver.CountBundle` | Tools/sop_reference/ecu_power_consumer.c:260-334 | sequence check, streak and counters of a completed bundle |
| `PowerReceiver.Receiver.CompleteBundle` | Tools/sop_reference/ecu_power_consumer.c:246-341 | a full stage is published or, if incoherent, invalidated; `PowerAnswers.CoherentIffValid` says in decoded amperes which it is |
| `PowerReceiver.Receiver.IngestAdvisory` | Tools/sop_reference/ecu_power_consumer.c:343-465 | an advisory frame replaces or invalidates only its own channel and counts its first failed check |
| `PowerReceiver.Receiver.OpenStage` | Tools/sop_reference/ecu_power_consumer.c:515-532 | a new counter opens a stage, abandoning an unfinished one |
| `PowerReceiver.Receiver.PlaceCore` | Tools/sop_reference/ecu_power_consumer.c:533-554 | skew, duplicate, store and completion of a core frame |
| `PowerReceiver.Receiver.Ingest` | Tools/sop_reference/ecu_power_consumer.c:467-554 | the whole new state after any frame, and whether it was taken, equal the transition function |
| `PowerReceiver.Receiver.AnswersView` | Tools/sop_reference/ecu_power_consumer.c:556-585 | the getter answers what the state machine answers |
| `PowerAnswers.CoherentIffValid` | Tools/sop_reference/ecu_power_consumer.c:230-244 | two good limit frames and an envelope pass the bundle check exactly if in either direction the decoded limit is at most the current feasible for 0.1 s plus 0.5 A, and the one feasible for 10 s at most the limit plus 0.5 A |
| `PowerAnswers.AnswersAreCoherent` | Tools/sop_reference/ecu_power_consumer.c:230-341 | whenever limits and envelope are answered, after any history, they satisfy these four inequalities |
| `PowerAnswers.BundleAcceptedIffCoherent` | Tools/sop_reference/ecu_power_consumer.c:246-341 | four good frames that open their own stage publish their decoded values and continue the streak if they satisfy them, and revoke authority and clear the streak if not |
| `PowerAnswers.AnswersShareTheBundle` | Tools/sop_reference/ecu_power_consumer.c:556-673 | limits, envelope and state of health answered after any history decode one and the same bundle |
| `PowerAnswers.AnswersAreRecent` | Tools/sop_reference/ecu_power_consumer.c:556-565 | an answered authority is at most 250 ms old, and no stage has been open for more than 50 ms |
| `PowerAnswers.MetadataBelongs` | Tools/sop_reference/ecu_power_consumer.c:587-655 | bindings and resource state are answered only with the counter of the bundle beside them, at most 250 ms old and 50 ms after it |
| `PowerAnswers.NoAuthorityNoAnswer` | Tools/sop_reference/ecu_power_consumer.c:556-673 | without authority no getter answers |
| `PowerCounters.FrameCounts` | Tools/sop_reference/ecu_power_consumer.c:343-554 | what one frame adds to each of the eleven diagnostic counters, in facts about the frame and the open stage |
| `PowerCounters.CountersTell` | Tools/sop_reference/ecu_power_consumer.c:343-554 | after any history each counter holds the sum of what its frames added, modulo 2^32 |
| `PowerCounters.NoRefusalGoesUncounted` | Tools/sop_reference/ecu_power_consumer.c:343-554 | every refused power frame adds exactly one to the counters of its refusal, every frame taken none |
| `PowerCounters.CoreOutcomeIs` | Tools/sop_reference/ecu_power_consumer.c:486-554 | when a core frame is rejected, late, repeated, the accepted last of four, or the last of four that do not fit |
| `PowerRuns.AdvisoryNeverInterferes` | Tools/sop_reference/ecu_power_consumer.c:343-485 | deleting every advisory frame, good or corrupt, from any history leaves the core state and every authority answer unchanged |
| `PowerRuns.BundleCompletes` | Tools/sop_reference/ecu_power_consumer.c:508-554 | a clean bundle in any frame order that opens its own stage completes from every state |
| `PowerAuthority.TwoBundlesGrant` | Tools/sop_reference/ecu_power_consumer.c:314-340 | two clean bundles in sequence grant authority with the values of the second, from any state in which the first opens a stage |
| `PowerAuthority.HistoryTells` | Tools/sop_reference/ecu_power_consumer.c:467-554 | every reachable state is explained by a cut of its history into two bundles and an open stage |
| `PowerAuthority.AuthorityHasProvenance` | Tools/sop_reference/ecu_power_consumer.c:467-585 | an authority is answered if and only if the core frames received end in two consecutive clean bundles and at most a short open stage, recent enough; it decodes the second bundle |
| `PowerAuthority.GrantedLimits` | Tools/sop_reference/ecu_power_consumer.c:104-137 | granted limits never exceed the contract and are zero for an unauthorised direction |
| `PowerRecovery.ThreeBundlesRecover` | Tools/sop_reference/ecu_power_consumer.c:314-340 | from every state three clean bundles with consecutive counters grant authority, with advisory traffic mixed in at will |
| `PowerRecovery.TwoBundlesRecoverIff` | Tools/sop_reference/ecu_power_consumer.c:515-553 | two clean bundles are enough exactly when no stage with the first counter is open |
| `PowerRecovery.OpenStageIsNotEmpty` | Tools/sop_reference/ecu_power_consumer.c:515-554 | every open stage the consumer can reach holds a frame |
| `PowerTiming.FreshInTrueTime` | Tools/sop_reference/ecu_power_consumer.c:556-565 | with the standing bundle and an open stage less than one wrap old, authority stands exactly when its bundle is truly at most 250 ms old and no stage has truly been open for more than 50 ms |
| `PowerTiming.AuthorityReturnsAfterWrap` | Tools/sop_reference/ecu_power_consumer.c:556-565 | the bound of one wrap is needed: without another frame every answered authority is answered again one wrap later |
| `PowerTiming.ResourceIsSynchronised` | Tools/sop_reference/ecu_power_consumer.c:630-655 | with what the answer uses less than one wrap old, resource state is answered if and only if it decodes the most recent strategy frame, which carries the active counter and came within 50 ms after the bundle |
| `PowerTiming.BindingsAreSynchronised` | Tools/sop_reference/ecu_power_consumer.c:587-628 | with what the answer uses less than one wrap old, the envelope carries bindings if and only if they decode the most recent bindings frame, which belongs to the active bundle |
| `PowerSender.LimitArrives` | AMS/Core/Src/sop/ams_power_can.c:149-209 | a limit frame passes the consumer's rules and decodes to the sender's limit, to the nearest tenth of an ampere and ten watts, authorised exactly for a fresh snapshot and a direction not inhibited |
| `PowerSender.FlagsArrive` | AMS/Core/Src/sop/ams_power_can.c:55-98 | the eight flags that the consumer reads are those of the snapshot |
| `PowerSender.EnvelopeArrives` | AMS/Core/Src/sop/ams_power_can.c:240-259 | the envelope frame passes and decodes to the feasible currents of 0.1, 10 and 30 s, to the nearest ampere |
| `PowerSender.SohArrives` | AMS/Core/Src/sop/ams_power_can.c:211-238 | the state-of-health frame passes and decodes to the sender's estimates in per cent, with confidences and validity |
| `PowerSender.StrategyArrives` | AMS/Core/Src/sop/ams_power_can.c:277-316 | the strategy frame passes for every known profile and decodes to what was sent |
| `PowerSender.BindingsArrive` | AMS/Core/Src/sop/ams_power_can.c:318-372 | the bindings frame always passes; from a fresh snapshot it decodes to the bindings and segments of the wire horizons |
| `PowerLink.SentIsGood` | AMS/Core/Src/sop/ams_power_can.c:149-259 | each frame of a snapshot within the contract passes every check of the consumer |
| `PowerLink.BundleCoheresIff` | AMS/Core/Src/sop/ams_power_can.c:149-259 | the frames of a snapshot whose 1 s currents lie between those of 10 s and 0.1 s pass the consumer's bundle check exactly if the snapshot is stale, or every inhibited direction has less than 0.5 A feasible for 10 s |
| `PowerLink.LinkGrants` | AMS/Core/Src/sop/ams_power_can.c:149-259 | two coherent snapshots with consecutive counters, in any frame order, make a consumer with no such stage open answer the second one's limits, to within 0.05 A, for 250 ms |
| `Ticks.ElapsedIsTrue` | Tools/sop_reference/ecu_power_consumer.c:556-565 | wrapped differences are true differences below one wrap of the clock |
| `Ticks.ElapsedIsUnsigned` | Tools/sop_reference/ecu_power_consumer.c:556-565 | the wrapped difference is that of unsigned 32-bit subtraction |
| `SopSchedule.StepMakesProgress` | Tools/sop_reference/model.py:377-387 | every step is positive, within the horizon, and brings the loop closer to its end |
| `SopSchedule.StepIsGreatest` | Tools/sop_reference/model.py:377-387 | the step is the greatest that passes neither the horizon nor, before 1 s and before 10 s, the nominal length and the end of its phase |
| `SopSchedule.ScheduleReachesHorizon` | Tools/sop_reference/model.py:377-405 | the schedule ends, never crosses 1 s or 10 s, and reaches the horizon to within the tolerance without passing it |
| `SopSchedule.PrefixIffAligned` | Tools/sop_reference/model.py:377-405 | the schedule of a shorter horizon is a prefix of that of a longer one exactly when the shorter horizon is on the step grid |
| `SopSchedule.PublishedHorizonsAligned` | Tools/sop_reference/model.py:24 | the published horizons are all on the grid of the configured steps |
| `SopThermal.StepIsTrapezoidal` | Tools/sop_reference/model.py:355-374 | the thermal step is the trapezoidal rule: each node changes by the mean of its rates before and after, plus the heat |
| `SopThermal.OrderKeptIffDamped` | Tools/sop_reference/model.py:355-374 | the thermal step keeps the order of temperatures and heat exactly when its two self-weights are non-negative |
| `SopThermal.ShorterIsDamped` | Tools/sop_reference/model.py:355-374 | a step no longer than such a step has the property too |
| `SopThermal.StepWidens` | Tools/sop_reference/model.py:355-374 | a damped step widens the temperature gap of two runs by no more than the difference in heat warms the core alone |
| `SopModel.BadCellIsFirst` | Tools/sop_reference/model.py:472-490 | the cell scan finds the first cell that breaks its voltage limit |
| `SopModel.FaultIsFirst` | Tools/sop_reference/model.py:422-490 | the segment scan names the first segment and the first limit it breaks, in the order of the checks |
| `SopModel.EvaluationExplained` | Tools/sop_reference/model.py:390-500 | an evaluation stops at the first step, segment and limit that breaks, counts the steps that passed and reports the pack voltage of the last of them |
| `SopModel.FeasibleIffAlwaysWithin` | Tools/sop_reference/model.py:390-500 | feasible means that after every step every segment and cell is within every limit |
| `SopExact.ScheduleDoesNotMatter` | Tools/sop_reference/model.py:408-414 | after any schedule, charge is the start less current times elapsed time over capacity and polarisation is the exact exponential response; no constant changes |
| `SopExact.ElapsedIsTime` | Tools/sop_reference/model.py:403-405 | the summed steps are the time the loop keeps |
| `SopClosedForm.RequestInClosedForm` | Tools/sop_reference/model.py:390-500 | an evaluation of a requested current goes on as long as charge, temperatures and every cell voltage, the latter written out in the start values and the elapsed time, are within their limits, is feasible exactly if that is to the end, and otherwise names the first limit broken |
| `SopClosedForm.FeasibleInClosedForm` | Tools/sop_reference/model.py:390-500 | feasible means exactly that after every step ocv at the charge drawn and the core temperature, less both polarisations a v + r (1 - a) x, less r0 x, plus the cell's bias keeps its margin to the voltage limit, and charge and temperatures to theirs |
| `SopClosedForm.CheckedCurrent` | Tools/sop_reference/model.py:391-402 | the cells carry the requested current pushed outwards by the larger of its uncertainty and the floor, shared among the parallel cells |
| `SopClosedForm.PackInClosedForm` | Tools/sop_reference/model.py:491-500 | the pack voltage is the series sum of the same cell voltages after the last step that held |
| `SopClosedForm.StepBalancesHeat` | Tools/sop_reference/model.py:355-374 | a step conserves heat: each node stores what flows in across its resistances at the mean differences, and the core the ohmic heat of all three resistances |
| `SopClosedForm.RunIsStepwise` | Tools/sop_reference/model.py:403-421 | the state after k + 1 steps is one step from that after k |
| `SopEvaluator.UpdateSegment` | Tools/sop_reference/model.py:408-421 | the in-place update of a segment |
| `SopEvaluator.CheckSegment` | Tools/sop_reference/model.py:422-490 | the checks of a segment and its cell loop, with the voltage sum; the voltages that it compares are those of `SopClosedForm.FeasibleInClosedForm` |
| `SopEvaluator.StepSegments` | Tools/sop_reference/model.py:406-497 | the segment loop of one step, stopping at the first fault |
| `SopEvaluator.EvaluateCurrent` | Tools/sop_reference/model.py:390-500 | the whole evaluation loop returns the specified evaluation |
| `SopMonotone.AdvanceKeepsOrder` | Tools/sop_reference/model.py:408-421 | one step of a passive segment keeps a weaker current's segment no more strained than a stronger one's, whatever the signs of the open-circuit coefficients |
| `SopMonotone.WithinBetween` | Tools/sop_reference/model.py:422-490 | between an idle state that is warm enough and a strained state within every limit, every limit holds, given that the extra warmth gives back no more voltage than the extra current costs |
| `SopMonotone.RunKeepsOrder` | Tools/sop_reference/model.py:403-421 | at every step of a run over passive segments the weaker run is no more strained than the stronger one |
| `SopMonotone.RunWidens` | Tools/sop_reference/model.py:403-421 | after any number of steps the stronger run is warmer by no more than its extra heat over the elapsed time warms the core |
| `SopMonotone.FeasibleIsDownwardClosed` | Tools/sop_reference/model.py:390-500 | for temperature coefficients of either sign, a current is feasible whenever a larger one in the same direction is (for charge, once zero current is), given that the ohmic resistance outweighs what the heat of the largest current can give back over the horizon |
| `SopMonotone.LongerFeasibleIsShorterFeasible` | Tools/sop_reference/model.py:390-500 | a current feasible over a longer horizon is feasible over any shorter one on the step grid |
| `SopTolerance.DefaultJobIsSound` | Tools/sop_reference/model.py:76-108 | the default configuration meets every condition of the closure over every published horizon and cap, in both directions, for segments whose temperature coefficient is at most 13 mV per degree either way |
| `SopTolerance.WarmthBreaksClosure` | Tools/sop_reference/model.py:466-471 | without the tolerance closure fails: a cell and a configuration for which 0 A and 2 A are feasible and 0.5 A is not |
| `SopSolver.Bisect` | Tools/sop_reference/model.py:517-529 | the halving loop ends with the bisection answer and the evaluation at the infeasible upper end |
| `SopSolver.SolveDirection` | Tools/sop_reference/model.py:503-529 | zero, cap or bisection, as specified |
| `SopSolver.LimitIsTight` | Tools/sop_reference/model.py:503-529 | given the tolerance of the closure, a limit is feasible unless zero, no feasible current up to the cap exceeds it by more than the final bracket, and a limit below the cap comes with a failing evaluation that close above it |
| `SopEnvelope.SearchAll` | Tools/sop_reference/model.py:542-559 | the first loop searches every horizon in both directions |
| `SopEnvelope.ClampHorizon` | Tools/sop_reference/model.py:560-578 | the clamp of one entry, with its binding and recomputed power |
| `SopEnvelope.Solve` | Tools/sop_reference/model.py:532-580 | both loops publish the specified envelope |
| `SopEnvelope.SixteenHalvings` | Tools/sop_reference/model.py:25 | sixteen halvings leave the cap over 2^16 |
| `SopEnvelope.EnvelopeIsDeliverable` | Tools/sop_reference/model.py:560-578 | given searches that are closed up to their caps, after the clamp every non-zero current is feasible over its own horizon |
| `SopEnvelope.EnvelopeNeverGrows` | Tools/sop_reference/model.py:560-578 | published magnitudes never grow with the horizon, whatever the searches found |
| `SopEnvelope.PublishedIsSafe` | Tools/sop_reference/model.py:532-580 | given the tolerance of the closure, every published current is within its cap, feasible over its own horizon unless zero, and carries the power of an evaluation at itself |
| `SopEnvelope.PublishedIsTight` | Tools/sop_reference/model.py:532-580 | given the tolerance of the closure, no current that could be held over every horizon so far exceeds the published one by more than 2^-16 of the largest cap |
| `SopEnvelope.PublishedIsTightOnGrid` | Tools/sop_reference/model.py:532-580 | given the tolerance of the closure, on ascending grid-aligned horizons it is enough that the current is feasible over the last of them |
| `SopEnvelope.PublishedNeverGrows` | Tools/sop_reference/model.py:560-578 | the published currents of a solve never grow with the horizon, unconditionally |
| `SopPublished.PublishedInPlainTerms` | Tools/sop_reference/model.py:503-580 | given the tolerance of the closure, a published current lies in its direction within its path limit, is feasible unless zero, and comes with the pack voltage of its own evaluation times its magnitude, or no power if that is negative |
| `SopPublished.NothingMuchGreater` | Tools/sop_reference/model.py:503-580 | given the tolerance, no magnitude feasible over every horizon so far exceeds the published one by more than 1/65536 of the largest path limit |
| `SopPublished.BindingTellsWhatStops` | Tools/sop_reference/model.py:503-580 | a published binding is that of a repeated shorter horizon, of the path limit, or of an evaluation that fails within 1/65536 of the path limit beyond the entry |
| `SopPublished.PublishedIsLeastSearched` | Tools/sop_reference/model.py:560-578 | the published magnitude is the least that the searches up to this horizon found |
| `Crc32.UpdateByte` | HiL/common/ams_hil_image_protocol.h:79-89 | the branch-free bit loop is the byte step of the register |
| `Crc32.UpdateWord` | HiL/common/ams_hil_image_protocol.h:91-96 | a sample is fed high byte first |
| `Crc32.RegisterIsRemainder` | HiL/common/ams_hil_image_protocol.h:74-101 | a value is the register after an image exactly when it is the polynomial remainder of the image shifted up 32 places with the start added to its first 32 bits |
| `Crc32.SameChecksumIffMultiple` | HiL/common/ams_hil_image_protocol.h:74-101 | two images share a checksum exactly when their difference is a multiple of the polynomial |
| `Crc32.BurstChangesChecksum` | HiL/common/ams_hil_image_protocol.h:74-101 | a difference within 32 consecutive bits always changes the checksum |
| `Crc32.ChangedSampleDetected` | HiL/esp32_plant/main/main.c:427-455 | changing one 16-bit sample to any other value changes the checksum |
| `CrcMessages.ImageChecksum` | HiL/common/ams_hil_image_protocol.h:74-101 | a number is the checksum of an image exactly when its complement is the remainder, modulo 0x104C11DB7, of the bits of its samples, high byte and most significant bit first, shifted up 32 places with the first 32 complemented |
| `HilImage.AddressRoundTrip` | HiL/common/ams_hil_image_protocol.h:55-72 | segment and index survive packing below 8 and 32, and every byte is a packed address |
| `HilImage.U32RoundTrip` | HiL/common/ams_hil_image_protocol.h:103-117 | reading undoes writing and writing undoes reading |
| `HilImage.JoinSplit` | HiL/common/ams_hil_image_protocol.h:91-96 | a sample is rebuilt from its two bytes |
| `HilImage.CountFrames` | HiL/esp32_plant/main/main.c:403-425 | the announced count is the number of triplets, capped at a byte |
| `HilImage.PackStart` | HiL/esp32_plant/main/main.c:457-476 | the START payload |
| `HilImage.PackCommit` | HiL/esp32_plant/main/main.c:478-495 | the COMMIT payload |
| `HilImage.PackSamples` | HiL/esp32_plant/main/main.c:497-543 | the payload of a triplet, with zeros beyond the last channel |
| `HilReassembly.ImageCrc` | HiL/esp32_plant/main/main.c:427-455 | the four loops compute the checksum of all cells and then all temperatures |
| `HilReassembly.AnnouncedIsSent` | HiL/esp32_plant/main/main.c:403-425 | there are as many triplets as announced, and at most eleven a segment |
| `HilReassembly.CarriedOnce` | HiL/esp32_plant/main/main.c:773-803 | every channel is carried by exactly one frame |
| `HilReassembly.PlaneBuilds` | HiL/esp32_plant/main/main.c:497-543 | staging the frames by address yields exactly the existing channels with their samples |
| `HilReassembly.ReassemblyIsExact` | HiL/esp32_plant/main/main.c:497-543 | staging all frames gives back the image, and its checksum is that of the image; `HilTables.StagedFromTables` says in the topology tables what each staged value is |
| `HilTables.StagedFromTables` | HiL/esp32_plant/main/main.c:364-401 | after all frames of a plane, channel c of segment s and no other holds values[index[offset[s] + c]], or zero where the index names no value |
| `HilTables.StagingLosesNothing` | HiL/esp32_plant/main/main.c:364-401 | where the tables place every value, no other values stage alike |
| `HilTables.CellWordAt` | HiL/esp32_plant/main/main.c:427-455 | the checksum takes the cells first: channel c of segment s stands behind all channels of the segments before it |
| `HilTables.TempWordAt` | HiL/esp32_plant/main/main.c:427-455 | then the temperatures in the same order, and nothing more |
| `HilTables.TripletBytes` | HiL/esp32_plant/main/main.c:497-543 | a triplet carries the generation, the address 32 s + c, and three big-endian samples of the plane, zero past the last channel |
| `HilTables.TripletsAscend` | HiL/esp32_plant/main/main.c:773-803 | the triplets of a plane go out segment after segment, and within a segment channel after channel |
| `HilTables.StartBytes` | HiL/esp32_plant/main/main.c:457-476 | START is 0x212 with version 1, opcode 1, the generation and the three counts |
| `HilTables.CommitBytes` | HiL/esp32_plant/main/main.c:478-495 | COMMIT is 0x212 with version 1, opcode 2, the generation, a zero and the big-endian checksum |
| `HilTables.DataIdentifiers` | HiL/esp32_plant/main/main.c:497-543 | cell triplets go out as 0x210, temperature triplets as 0x211 |
| `HilTransmission.Bus.constructor` | HiL/esp32_plant/main/main.c:764-771 | a driver that has made no call yet |
| `HilTransmission.Bus.Send` | HiL/esp32_plant/main/main.c:769-771 | a driver call is logged with an answer decided elsewhere |
| `HilTransmission.SendSegment` | HiL/esp32_plant/main/main.c:777-786 | the inner loop tries every triplet of a segment, even after a failure |
| `HilTransmission.SendPlane` | HiL/esp32_plant/main/main.c:773-803 | the outer loop stops after the first segment with a failure |
| `HilTransmission.Transmit` | HiL/esp32_plant/main/main.c:759-811 | the log and the flag after the whole sequence |
| `HilTransmission.CommitOnlyAfterEverything` | HiL/esp32_plant/main/main.c:768-811 | COMMIT goes out if and only if START and every triplet succeeded, and then the calls are exactly all of them in order followed by COMMIT |
| `HilTransmission.StartAnnouncesData` | HiL/esp32_plant/main/main.c:457-476 | START announces the segments, channels and frames that the image has |
| `HilTransmission.CommitCarriesChecksum` | HiL/esp32_plant/main/main.c:478-495 | the checksum in COMMIT reads back as that of the samples sent |
| `SpiLock.Book.constructor` | AMS/Core/Src/app.c:300-346 | the bookkeeping starts free |
| `SpiLock.Book.Enter` | AMS/Core/Src/app.c:319-359 | the critical section of lock: ownership, statistics, and panic exactly for a foreign owner |
| `SpiLock.Book.Leave` | AMS/Core/Src/app.c:372-394 | the critical section of unlock: ownership, statistics, and panic exactly for a caller that is not the owner |
| `SpiLock.StepTracksIff` | AMS/Core/Src/app.c:300-400 | every step keeps the bookkeeping in step with the mutex, but for entering at the greatest depth, which loses it |
| `SpiLock.RunTracksIff` | AMS/Core/Src/app.c:300-400 | in every interleaving the bookkeeping tracks the mutex exactly as long as no task enters at depth 65535 |
| `SpiLock.ForeignOwnerUnreachable` | AMS/Core/Src/app.c:337-358 | in every interleaving, however deep it nests, no task ever meets a foreign owner in lock or is refused a release |
| `SpiLock.NonHolderIsStopped` | AMS/Core/Src/app.c:372-400 | while the depth counts, an unlock is stopped before the mutex is touched exactly when the caller does not hold it |
| `SpiLock.NonHolderNeverReleases` | AMS/Core/Src/app.c:372-400 | in every interleaving, however deep it nests, an unlock by a task that does not hold the mutex is stopped and touches neither mutex nor bookkeeping |
| `SpiLock.UnlockUndoesLock` | AMS/Core/Src/app.c:300-400 | a lock and its unlock leave owner, depth and mutex as they were |
| `SpiLock.OneLevelTooDeep` | AMS/Core/Src/app.c:343-349 | the bound is tight: one level deeper loses a release, and the mutex is held for ever |
| `Heartbeat.HeartbeatMonitor.constructor` | AMS/Core/Src/app.c:190-214 | the initial monitor |
| `Heartbeat.HeartbeatMonitor.Kick` | AMS/Core/Src/app.c:216-244 | a kick updates gap, maximum, tick, count and seen bit of its task only; an unknown task is ignored |
| `Heartbeat.HeartbeatMonitor.FindStale` | AMS/Core/Src/app.c:261-285 | the loop collects exactly the stale tasks |
| `Heartbeat.HeartbeatMonitor.Update` | AMS/Core/Src/app.c:246-298 | the stale, safety and logger masks and the two fault flags after an update |
| `HeartbeatRuns.RunRecordsKicks` | AMS/Core/Src/app.c:216-244 | after any history a task's seen bit is set exactly if it kicked, and count, last tick and gaps are those of its kicks |
| `HeartbeatRuns.MaxGapIsTrue` | AMS/Core/Src/app.c:226-234 | the recorded maximum is the greatest true gap between consecutive kicks below one wrap apart |
| `HeartbeatRuns.UpdateFlagsSilentTasks` | AMS/Core/Src/app.c:246-298 | an update flags a task exactly when it is unseen after the grace period or silent beyond its timeout, in true time below one wrap |
| `HeartbeatRuns.SilenceAllowed` | AMS/Core/Src/app.c:84-98 | the silence each task is allowed, in milliseconds, and the 3 s in which it must first be seen |
| `HeartbeatRuns.FlagsAreSelective` | AMS/Core/Src/app.c:261-298 | only the logger raises the logger flag, and only tasks of the safety mask the safety flag |
| `HeartbeatRuns.SilentForAWrapLooksFresh` | AMS/Core/Src/app.c:281 | a task silent for exactly one wrap is not flagged, so the bound on the gap is needed |
| `Thermistor.Validate` | Tools/thermistor_model/generate_thermistor_model.py:149-172 | validation returns the first problem in the order of its checks |
| `Thermistor.AcceptedIff` | Tools/thermistor_model/generate_thermistor_model.py:149-172 | validation accepts exactly 281 rows of the expected part on the half-degree grid from -20 to 120 C, positive, ordered in tolerance and falling |
| `Thermistor.RowProblem` | Tools/thermistor_model/generate_thermistor_model.py:158-172 | the problem named for a row is the first of grid, sign, tolerance and order |
| `Thermistor.AcceptedIsWellFormed` | Tools/thermistor_model/generate_thermistor_model.py:149-172 | every accepted table has strictly falling resistances and strictly rising temperatures |
| `Thermistor.Lookup` | Tools/thermistor_model/generate_thermistor_model.py:192-210 | the binary search ends in the right segment and interpolates in it |
| `Thermistor.ExactAtRows` | Tools/thermistor_model/generate_thermistor_model.py:192-210 | the lookup is exact at every row |
| `Thermistor.LookupFalls` | Tools/thermistor_model/generate_thermistor_model.py:192-210 | a higher resistance never reads hotter, and strictly colder inside the table |
| `Thermistor.LookupIsClamped` | Tools/thermistor_model/generate_thermistor_model.py:192-210 | readings stay within the table's temperatures |
| `Thermistor.LookupInterpolates` | Tools/thermistor_model/generate_thermistor_model.py:192-210 | between two rows temperature divides as resistance does, and beyond the ends it is that of the end |
| `Thermistor.CurveInvertsLookup` | Tools/thermistor_model/generate_thermistor_model.py:192-210 | inside the table the piecewise-linear resistance curve undoes the lookup |
| `Thermistor.LookupInvertsCurve` | Tools/thermistor_model/generate_thermistor_model.py:192-210 | and the lookup undoes the curve |

## Left out

- Floating-point rounding, NaN and infinity checks, and the `kernel <= LDBL_MIN` guard of the fuse oracle: reals are exact and inputs are numbers.
- Null-pointer arguments: objects exist; the calls that a null argument turns away are not modelled.
- Outputs cleared with `memset` before a refusal: a refused getter answers `None`.
- `der26_power_consumer_get_feasibility_envelope`, `get_resource_state` and `get_soh` are modelled as the answers `PowerConsumer.EnvelopeAnswer`, `ResourceAnswer` and `SohAnswer` on the state rather than as methods; they only read.
- The mission request encoder of the power consumer: a single frame layout without state.
- The packing of a missing snapshot, and the AMS's own decoders of these frames: the snapshot exists, and what its frames carry is stated at the ECU's decoders.
- BundleCoheresIff: states the sender's and consumer's bracket for snapshots whose 1 s currents lie between those of 10 s and 0.1 s and within the contract; the solver that fills them is not connected to the sender.
- `_initialize_model` and the calibration tables of the State-of-Power oracle: an evaluation starts from any list of segments; `SopTolerance.Calibrated` states what the default results use of the tables in `const_params.c`, whose temperature coefficients lie between -7.3 and 12.9 mV per degree and whose polarisation resistances stay below the ohmic one.
- The square root of a segment's charge variance: the segment carries the standard deviation.
- The minimum and maximum statistics that an evaluation collects: they decide nothing.
- FeasibleIsDownwardClosed: states a sufficient tolerance, not a necessary one: it counts the ohmic drop alone against all the extra heat staying in the core, although polarisation, charge and cooling help as well; it also needs passive resistances, an open-circuit voltage that grows with the charge, and a damped thermal step.
- Saturation of plant voltages and temperatures to 16 bits: a plane holds the samples as they go on the wire, cells and temperatures share one packing method.
- The measurement, truth and summary frames, transmit timing and diagnostics of the CAN task: they do not touch the image.
- The HIL image receiver is not part of this model; reassembly is what the frame layout determines.
- Waiting and priorities of the RTOS mutex: acquiring is enabled when the mutex is free or held by the caller, and may time out at any moment.
- The null-mutex checks of the SPI lock: the mutex exists.
- The mirrored copies `heartbeat_seen_mask` and `heartbeat_stale_mask` in the application data: they equal the masks that are modelled.
- Steinhart-Hart fits, header generation and CSV parsing of the thermistor tool: numeric data and file handling.
