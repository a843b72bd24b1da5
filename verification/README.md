# Loyalty Pro: a verified model

Loyalty Pro runs a loyalty scheme beside a shop's till. This project models the parts of it
whose correctness is not visible in any one function, and proves what they are for.

| modules | what they model |
|---|---|
| `UnlockNumeral`, `UnlockCode`, `UnlockChain` | emergency unlock codes: a base-30 numeral with a Luhn check symbol (after Annex B of ISO/IEC 7812-1), a tolerant reader, and a hash chain run backwards |
| `Payloads`, `LicenseStatus`, `ClockRuns`, `NativeStatus` | licence status over the system clock and the recorded time, the offline gate, the clock anchors over whole runs, and the composition the API calls |
| `Issuer`, `Text` | the licence issuer and its log, over every sequence of commands |
| `LicenseCode` | the pasted licence code: base64url, wrapping, and what a chat adds to it |
| `Code128` | the barcode on a customer card (subset C, clause 4 of ISO/IEC 15417) and a scanner that reads it back |
| `Discount` | the discount engine and its ladders |
| `Supervisor`, `CivilCalendar` | the Windows service's retry loop and its calendar arithmetic |
| `EscPos` | the scanner that strips printer commands from a captured print job |
| `CaptureSink`, `SinkRaces` | the relay and the capture sinks, as objects and as every interleaving of their threads |
| `CaptureProtocol`, `CaptureAgent` | captures on their way from the disk queue to the manager machine, as a protocol over every run and as the objects that take its steps |

Loops, arrays and objects of the original are loops, arrays and objects here, each proved
against a function of its inputs or of its old state; the theorems are about those functions.
The hashes, the binding of a device and the signature check are parameters of which nothing is
assumed. Child processes, printers, disks, clocks and the network are inputs: each theorem
quantifies over everything they might do.

`dafny verify dfyconfig.toml` checks the project.

## Where the code does not do what one would expect

Each of these is proved: an input that shows it, and the exact condition under which it happens.

- With the clock set back, an unlock code keeps a shop selling, and a sale queued then is refused
  when it arrives (`LicenseStatus.SetBackClockSplitsTheGates`): the offline gate looks 31 days
  ahead of the time of the sale, and the code may end later than that by a clock that is behind.
  `GatesSplitExactlyWhen` says exactly when; `GatesAgree` and `OnlyAClockBehindSplitsTheGates` say
  that an honest clock never does it.
- A licence that was issued and never entered brings back a shop in which everything has long
  lapsed, its own days included, under a clock set back to when it ran: entering it resets the
  recorded time (`ClockRuns.NeverEnteredLicenseBringsTheShopBack`). `ForgetsExactlyAtAReset` and
  `ResetWorksExactlyWhen` are exact, and `WoundBackClockBuysNothing` holds for everything that was
  entered before.
- An added unlock code can lower the end of the grace that the screen reports
  (`LicenseStatus.UnlockCanLowerGrace`): with the clock set back under a long trial, the shop
  goes from tampered, with the trial's end shown, to emergency, with the unlock's nearer end.
  `UnlockLowersGraceOnlyWhen` says exactly when.
- The drop counter of the capture sink is increased outside the lock on one of its two paths,
  so two drops at once can count as one (`SinkRaces.ADropCanGoUncounted`).
  `DropsAreAllCountedExactlyWhen` says that this is the only way to lose count, and
  `OneAtATimeLosesNoCount` how a caller avoids it.
- The length of a raster image is a 32-bit product. For the largest image it wraps, and the
  scanner jumps backwards, out of its buffer (`EscPos.LargestImageIsLost`) or, late enough in a
  job, back to its start for ever (`EndlessJobNeverEnds`,
  with `EndlessJobs` for the job: NULs, of which none is kept, and one header). `JumpAdvancesExactlyWhenItFits` and
  `StripsExactlyWhenCommandsFit` are the exact conditions.
- A job that breaks off inside the header of an image or of an extended command has what is
  there of the header read as text; broken off anywhere else it loses nothing but the command
  (`EscPos.CutJobStripsToItsText`, with `HeaderIsCut` for the places).
- Two faults of the supervised child count as one if the bar that parts exit and reason is also
  in the exit text (`Supervisor.BarsCanConfuseSignatures`); without one there
  `SignaturesAgreeExactlyWhen` says they are told apart.
- Two sales under one branch and invoice number are one to the manager, whatever their amounts:
  the second capture is answered as a duplicate and its file deleted
  (`CaptureProtocol.SecondSaleUnderOneNumberIsDeleted`). `SettledIsRecordedExactlyWhen` says when
  a deleted capture is itself recorded, and `DistinctNumbersAreAllRecorded` what a caller can
  count on.
- One capture answered with anything but a success, a 400 or a 422 holds back every file listed
  after it, pass after pass (`CaptureProtocol.OneAnswerHoldsBackTheRest`). `PassTakesExactly` says
  what each pass takes out.
- Tills that print at once share one sink, and one job can hold the receipts of two
  (`SinkRaces.ReceiptsCanMix`). `JobIsOneRelaysExactlyWhen` is the exact condition.
- A serial bridge whose source or printer fails completes what had gone through: a receipt cut
  off becomes a job like any other (`CaptureSink.CutOffReceiptIsAJob`; `Bridge` says which job,
  exactly).
- A ladder of discounts that passes every check can give a bigger invoice a smaller discount:
  by a tighter cap higher up (`Discount.TighterCapCanBeUnfair`), or by a change of type
  (`Discount.ChangeOfTypeCanBeUnfair`). `FairExactlyWhen` is a test of one comparison a rung.
- The issuer carries features forward from the entry its log lists last, which after its clock
  was set back is not the newest licence (`Issuer.ClockSetBackCarriesOlderFeatures`, for
  any shop, `SampleShopIsShop` being one). `ListedLastIsNewestExactlyWhen` is the exact condition.
- A licence stored ahead of its issue time by more than the tolerance can turn a working shop
  read-only until the clock catches up (`LicenseStatus.LicenseFromAheadStopsTheShop`,
  `NativeStatus.StoredCodeFromAheadStopsTheShop`); `StoredCodeStopsOnlyWhen` shows that this is
  the only stored text that can.
- One wrong symbol at the 103rd place of a barcode, or at a multiple of it, is not caught
  (`Code128.LongNumbersCanShareACheck`, `ChangeIsCaughtUnless`); card numbers are far shorter.

## Model

| member | source | states |
|---|---|---|
| `UnlockNumeral.SymbolsAreDistinct` | crates/loyalty-pro-license/src/device.rs:15 | looking a symbol of the alphabet up gives back its own digit, so no two digits share a symbol |
| `UnlockNumeral.ValueOfDigits` | crates/loyalty-pro-license/src/unlock.rs:176-187 | the base-30 digits of a number read back as it, whenever it fits in that many digits |
| `UnlockNumeral.DigitsOfValue` | crates/loyalty-pro-license/src/unlock.rs:206-216 | digits are the digits of the value they read as: accepted digit strings and values are in bijection |
| `UnlockNumeral.WordsFit` | crates/loyalty-pro-license/src/unlock.rs:38-40 | fourteen base-30 symbols hold every 64-bit word |
| `UnlockNumeral.FillDigits` | crates/loyalty-pro-license/src/unlock.rs:176-182 | the in-place loop fills the array with exactly the base-30 digits of the word |
| `UnlockNumeral.ComputeCheckSymbol` | crates/loyalty-pro-license/src/unlock.rs:163-173 | the backwards loop over `factor` and `sum` computes the check symbol of the digits |
| `UnlockNumeral.ChecksMeansSumIsZero` | crates/loyalty-pro-license/src/unlock.rs:163-173 | fifteen digits check exactly when their alternately weighted Luhn sum is a multiple of 30 |
| `UnlockNumeral.ChangeIsCaught` | crates/loyalty-pro-license/src/unlock.rs:163-173 | changing any one of the fifteen digits of a valid code, the check digit included, breaks the check |
| `UnlockNumeral.SwapIsCaughtUnless` | crates/loyalty-pro-license/src/unlock.rs:163-173 | swapping two different neighbours keeps the check exactly when they are the first and the last digit, 0 and 29 |
| `UnlockCode.SpellsIsNormalize` | crates/loyalty-pro-license/src/unlock.rs:189-198 | a text normalizes to given symbols exactly when it types them one by one, in any case or as Arabic-Indic digits, with any separators between |
| `UnlockCode.DecodesExactlyItsCode` | crates/loyalty-pro-license/src/unlock.rs:201-216 | `decode` answers x for exactly the texts that are ways of typing the fifteen symbols of x |
| `UnlockCode.PrintedCodeDecodes` | crates/loyalty-pro-license/src/unlock.rs:176-187 | the printed form normalizes to the symbols and decodes to the word it was made from, for every 64-bit word |
| `UnlockCode.EncodeCode` | crates/loyalty-pro-license/src/unlock.rs:176-187 | the digit loop, the check symbol and the three groups of five together print the code of the word |
| `UnlockCode.MisheardSymbolIsTypo` | crates/loyalty-pro-license/src/unlock.rs:201-216 | any one symbol of a valid code replaced by another symbol is reported as a typo, at every position |
| `UnlockCode.SwappedSymbolsAreTypoUnless` | crates/loyalty-pro-license/src/unlock.rs:201-216 | two different neighbours swapped are a typo unless they are '2' and 'Z', and never one if they are |
| `UnlockChain.MixUndoes` | crates/loyalty-pro-license/src/unlock.rs:219-221 | mixing a link with the device's word twice, by exclusive or on 64-bit words, gives the link back |
| `UnlockChain.MixBits` | crates/loyalty-pro-license/src/unlock.rs:219-221 | a bit of the mixture is set exactly where the link and the device's word differ |
| `UnlockChain.MixTellsMasksApart` | crates/loyalty-pro-license/src/unlock.rs:219-221 | one link mixed with two words gives the same exactly when the words are the same |
| `UnlockChain.ComputeLink` | crates/loyalty-pro-license/src/unlock.rs:149-155 | the hashing loop computes the link of the chain for the day |
| `UnlockChain.WalkToTip` | crates/loyalty-pro-license/src/unlock.rs:219-229 | the walk towards the tip returns the least day on which the link meets it, or nothing within the chain's length |
| `UnlockChain.ReadCode` | crates/loyalty-pro-license/src/unlock.rs:219-229 | reading a code by that walk is the specification `Read`, errors included |
| `UnlockChain.FindDayIsFirst` | crates/loyalty-pro-license/src/unlock.rs:219-229 | the day found is within the chain and is the first on which the link meets the tip; none is found only if none does |
| `UnlockChain.ReadIsFirstMeeting` | crates/loyalty-pro-license/src/unlock.rs:219-229 | the code of a link reads as day d exactly when d is the first day its link meets the tip; nothing is assumed of the hash |
| `UnlockChain.DerivedCodesDieEarlier` | crates/loyalty-pro-license/src/unlock.rs:219-240 | every code derived from a heard one by hashing k more times is a code for k days earlier, ends k days earlier, and is expired when the heard code ends |
| `UnlockChain.IssuesExactlyInRange` | crates/loyalty-pro-license/src/unlock.rs:244-262 | once its own checks pass, the issuer refuses exactly the ends outside the chain's range, and the end is the start of the UTC day after the last day granted |
| `UnlockChain.IssueErrsExactlyWhen` | crates/loyalty-pro-license/src/unlock.rs:244-262 | the number of days is checked first, then that the key is the chain's, then the end; which error is drawn says exactly which failed |
| `UnlockChain.NotValidExactlyWhen` | crates/loyalty-pro-license/src/unlock.rs:219-229 | a text that decodes is refused exactly when its link never meets the tip within the chain's length |
| `UnlockChain.CodeDependsOnDevice` | crates/loyalty-pro-license/src/unlock.rs:244-262 | for one end day, two devices are issued the same code exactly when their words are the same |
| `UnlockChain.ReadOnAnotherDevice` | crates/loyalty-pro-license/src/unlock.rs:219-229 | a code made for one device reads on another as day d exactly when d is the first day on which the link, mixed with both words, meets the tip |
| `UnlockChain.KeyServesFromItsDay` | crates/loyalty-pro-license/src/unlock.rs:46-49 | a key serves every grant of 1 to 30 days from the start of the day it was made; only the far end of its chain ever refuses |
| `UnlockChain.KeyBeginsTheDayBefore` | crates/loyalty-pro-license/src/unlock.rs:46-79 | the first window of a key ends as the day before it was made begins, each next one a day later, and the time it was made can be read off it |
| `UnlockChain.CodeDependsOnEndDay` | crates/loyalty-pro-license/src/unlock.rs:244-262 | two issues for one device give the same result exactly when their end days are the same |
| `UnlockChain.IssuedCodeVerifies` | crates/loyalty-pro-license/src/unlock.rs:234-262 | what was just issued verifies as the same day, end and printed code exactly when the tip does not turn up again among the links walked over |
| `UnlockChain.LaterCodeIsThePreimage` | crates/loyalty-pro-license/src/unlock.rs:149-155 | the code that ends a day later is a preimage, under the hash, of the one that ends a day earlier |
| `LicenseStatus.BestGoverns` | crates/loyalty-pro-license/src/status.rs:158-163 | the governing licence is in the list, is perpetual whenever one is, and otherwise ends last; there is none only for an empty list |
| `LicenseStatus.BestIsChosen` | crates/loyalty-pro-license/src/status.rs:158-163 | which entry of the list that is, between equals too: the first perpetual one, or else the last of those that end last |
| `LicenseStatus.WorksExactlyWhen` | crates/loyalty-pro-license/src/status.rs:224-275 | the installation works exactly when the licence by itself or some unlock by itself does, under any clock |
| `LicenseStatus.PerpetualExactlyWhen` | crates/loyalty-pro-license/src/status.rs:178-275 | perpetual exactly for a perpetual licence, with nothing counted and nothing shown |
| `LicenseStatus.TrialExactlyWhen` | crates/loyalty-pro-license/src/status.rs:107-275 | trial exactly while one that is not ahead of the clock, with the clock not behind, is before its end; the days count to that end by the system clock, and the warning is louder from fourteen, seven and three days left |
| `LicenseStatus.ConsistentTrialRuns` | crates/loyalty-pro-license/src/status.rs:178-275 | a consistent trial is issued before it ends, and runs from then to its end on a clock that was never ahead, whatever else is stored |
| `LicenseStatus.EmergencyExactlyWhen` | crates/loyalty-pro-license/src/status.rs:224-275 | emergency exactly when neither a perpetual licence nor a running trial governs and some unlock ends after both clocks; the days count to the last end by the later clock, and by how much the clock is behind is told |
| `LicenseStatus.TrialGraceExactlyWhen` | crates/loyalty-pro-license/src/status.rs:178-275 | grace on the trial exactly in the five days from its end, with no unlock that runs or whose grace lasts longer; the days count to the grace's end |
| `LicenseStatus.UnlockGraceExactlyWhen` | crates/loyalty-pro-license/src/status.rs:224-275 | grace on an unlock exactly when none runs, some is within five days of its end, and no trial runs or has the longer grace |
| `LicenseStatus.ExpiredExactlyWhen` | crates/loyalty-pro-license/src/status.rs:178-275 | expired exactly for a trial over for five days under a sound clock, with no unlock running or in grace |
| `LicenseStatus.TamperedExactlyWhen` | crates/loyalty-pro-license/src/status.rs:178-275 | tampered exactly for a trial under a clock that is behind, or without a licence but with a code that fails its check, and no unlock running or in grace |
| `LicenseStatus.UnlicensedExactlyWhen` | crates/loyalty-pro-license/src/status.rs:178-275 | unlicensed exactly without a licence, a code that fails its check, or an unlock running or in grace |
| `LicenseStatus.CeilDaysIsLeast` | crates/loyalty-pro-license/src/status.rs:170-172 | the days shown are the least whole number that covers the seconds left |
| `LicenseStatus.ReportsTheLongerGrace` | crates/loyalty-pro-license/src/status.rs:224-275 | the end reported in a window or its grace is the later of the licence's and the last unlock's, and the basis names which |
| `LicenseStatus.WarningsOnlyEscalate` | crates/loyalty-pro-license/src/status.rs:107-117 | as time passes under a trial the warning never gets quieter, the day count never rises, and read-only is not left |
| `LicenseStatus.GatesSplitExactlyWhen` | crates/loyalty-pro-license/src/status.rs:224-294 | for any clocks and lists: the live gate lets a sale through that the offline gate refuses exactly when no licence covers the moment, no unlock ends within 5 days before to 31 days after it, and some unlock that ends later than that is not over at the recorded time |
| `LicenseStatus.LiveImpliesOffline` | crates/loyalty-pro-license/src/status.rs:282-294 | where no unlock ends more than 31 days ahead of the system clock, what the live gate lets through the offline gate allows |
| `LicenseStatus.OfflineExactlyWhen` | crates/loyalty-pro-license/src/status.rs:282-294 | the offline gate is open exactly from a day before a trial was issued to five days past its end, from 31 days before an unlock ends to five days past it, and always under a perpetual licence |
| `LicenseStatus.OnlyAClockBehindSplitsTheGates` | crates/loyalty-pro-license/src/status.rs:221-294 | where every unlock is within the issuer's cap by the later of the two times, the gates split only if the clock is behind the recorded time |
| `LicenseStatus.SetBackClockSplitsTheGates` | crates/loyalty-pro-license/src/status.rs:224-294 | a set-back clock under which they do split, without a licence and with one |
| `LicenseStatus.GatesAgree` | crates/loyalty-pro-license/src/status.rs:224-294 | with an honest clock the live gate and the offline gate agree for every list of licences and unlocks |
| `LicenseStatus.InvalidCodeIsHarmless` | crates/loyalty-pro-license/src/status.rs:224-275 | a stored code that fails its check changes nothing of a working installation |
| `LicenseStatus.UnlockOnlyRaises` | crates/loyalty-pro-license/src/status.rs:224-275 | an unlock added anywhere never turns a working installation read-only, and leaves a trial or perpetual result identical |
| `LicenseStatus.UnlockLowersGraceOnlyWhen` | crates/loyalty-pro-license/src/status.rs:224-275 | an added unlock lowers the reported grace end exactly when the clock is behind, nothing covered that before, and the new unlock covers it but ends before the trial does |
| `LicenseStatus.UnlockCanLowerGrace` | crates/loyalty-pro-license/src/status.rs:224-275 | a concrete installation in which it does |
| `LicenseStatus.LicenseFromAheadStopsTheShop` | crates/loyalty-pro-license/src/status.rs:158-211 | a running trial, and one issued a day ahead of the clock that takes over and is tampered |
| `LicenseStatus.LicenseStopsOnlyWhen` | crates/loyalty-pro-license/src/status.rs:158-275 | a licence added anywhere stops a working installation exactly when it governs, is a trial issued more than two hours ahead of the clock, and no unlock works |
| `ClockRuns.ResolveIsMax` | crates/loyalty-pro-license/src/anchors.rs:24-30 | the resolved time is t exactly when some anchor holds t and none exceeds it |
| `ClockRuns.ConflictMeansTheyDiffer` | crates/loyalty-pro-license/src/anchors.rs:24-30 | a conflict is reported exactly when two readings differ, a missing one included |
| `ClockRuns.StartRecords` | apps/api/src/services/license.service.ts:525-545 | a start records the latest of the clock and all readings, or of the clock and 0 where there are none, in memory and in each place that can be written |
| `ClockRuns.TouchRecords` | apps/api/src/services/license.service.ts:357-365 | a touch records the later of the clock and the time remembered, in the same places |
| `ClockRuns.ActivateEnters` | apps/api/src/services/license.service.ts:1242-1287 | a licence is entered exactly when it is new and not a trial that is ahead of the clock, over, or under a perpetual licence; the recorded time becomes the later of the clock and its issue exactly when it is entered and was issued more than two hours before the recorded time |
| `ClockRuns.ForgetsExactlyAtAReset` | apps/api/src/services/license.service.ts:1272-1287 | one event that leaves an anchor holding t takes the recorded time below t exactly when it activates a licence issued more than the tolerance before the recorded time, with both its issue and the clock before t |
| `ClockRuns.RunRemembers` | apps/api/src/services/license.service.ts:337-365 | over every run of starts, touches, activations, failed writes, stops and edits that leave one anchor holding t, with no such activation, the recorded time never falls below t |
| `ClockRuns.NoClockHelpsExactlyWhenLapsed` | crates/loyalty-pro-license/src/status.rs:166-275 | the installation is read-only under every setting of the system clock exactly when, at the recorded time, every trial and every unlock has lapsed and no licence is perpetual |
| `ClockRuns.WoundBackClockBuysNothing` | crates/loyalty-pro-license/src/status.rs:166-275 | once everything entered has lapsed at a recorded time, no run that leaves one anchor holding it and enters nothing new, and no setting of the clock, brings the shop back |
| `ClockRuns.ResetWorksExactlyWhen` | apps/api/src/services/license.service.ts:1242-1287 | activating a trial that resets the recorded time has the shop working at once exactly when the licence that then governs was not issued ahead of the clock, or an unlock works |
| `ClockRuns.NeverEnteredLicenseBringsTheShopBack` | apps/api/src/services/license.service.ts:1242-1287 | a lapsed shop, and a lapsed licence never entered there, that works again under a clock set back to when it ran |
| `NativeStatus.ReadStored` | packages/license-native/src/lib.rs:118-134 | the loops collect exactly the licences and unlock ends that verify for the device, and count all the rest as invalid |
| `NativeStatus.ReadUnlocks` | packages/license-native/src/lib.rs:118-134 | the unlock half of that: the ends of the codes that read, in order, and the number that do not |
| `NativeStatus.LicenseStatusOf` | packages/license-native/src/lib.rs:165-190 | the composition the API calls is the evaluation of the best verified licence with the verified unlocks |
| `NativeStatus.StoredCodeStopsOnlyWhen` | packages/license-native/src/lib.rs:165-190 | any text stored among the codes of a working installation stops it exactly when it is a genuine trial, issued more than two hours ahead of the clock, that comes to govern with no unlock working |
| `NativeStatus.StoredCodeFromAheadStopsTheShop` | packages/license-native/src/lib.rs:165-190 | two genuine codes of which the second stops the shop the first keeps working |
| `NativeStatus.RecordingAllowedOf` | packages/license-native/src/lib.rs:229-232 | the offline call is the offline gate over what verifies |
| `NativeStatus.StoredGatesAgree` | packages/license-native/src/lib.rs:165-232 | with an honest clock the two calls agree, whatever texts are stored |
| `NativeStatus.IssuedUnlockCoversItsWindow` | packages/license-native/src/lib.rs:229-232 | a code just issued for a shop, stored there among any others, has the offline gate accept every sale from the issue to five days past the window, as no window is longer than the gate looks ahead |
| `NativeStatus.StoredUnlockOnlyRaises` | packages/license-native/src/lib.rs:165-190 | any text stored among the unlock codes keeps a working installation working |
| `NativeStatus.VerifyUnlockExactlyWhen` | packages/license-native/src/lib.rs:205-224 | an entered code is accepted exactly when it reads and ends after both clocks, is expired exactly when it reads and does not, and otherwise draws the error of reading it |
| `NativeStatus.StoredFormReadsBack` | packages/license-native/src/lib.rs:205-224 | the normalized form that is stored for an accepted code reads back as the same unlock |
| `NativeStatus.AcceptedUnlockRestoresTheShop` | packages/license-native/src/lib.rs:205-224 | an accepted unlock code, stored in its normalized form anywhere in the list, has the shop working at once whatever its licence |
| `Text.NormalizeDeviceIdTwice` | crates/loyalty-pro-license/src/device.rs:44-46 | normalizing a device ID twice is normalizing it once |
| `Text.TrimTakesOffBlanks` | crates/loyalty-pro-license/src/device.rs:44-46 | trimming takes off the white space at the two ends and nothing else |
| `Payloads.DeviceIdIs` | crates/loyalty-pro-license/src/device.rs:49-55 | a device ID is valid exactly when it is WL- and two groups of four of the 30 symbols with a dash between |
| `Issuer.FeatureSetIsASet` | tools/license-issuer/src/issue.rs:98-149 | the features built in are sorted, each once, and exactly those asked for |
| `Issuer.FeaturesSurviveRenewal` | tools/license-issuer/src/issue.rs:70-91 | a feature set written to the log as one text, split and carried into a renewal is the same set |
| `Issuer.BuildIs` | tools/license-issuer/src/issue.rs:98-149 | what `build` accepts is consistent, has the format version, the trimmed note and the normalized device, and ends its days after now or after the later of now and the previous end; it never ends in its inconsistency error |
| `Issuer.BuildExactlyWhen` | tools/license-issuer/src/issue.rs:98-149 | a request is built exactly when its device is well-formed, its features known, its trimmed note at most 120 characters, and its term without extension perpetual or 1 to 3650 days, added where it extends to a trial there was; and each error is drawn exactly when its condition is the first to fail |
| `Issuer.DefaultFeatures` | tools/license-issuer/src/issue.rs:105-109 | a request that names no features gets the two defaults |
| `Issuer.TidyNoteIs` | tools/license-issuer/src/issue.rs:117-121 | a note is kept trimmed, and is none exactly when nothing is left of it |
| `Issuer.RequestHas` | tools/license-issuer/src/issue.rs:40-91 | a command is refused by the log exactly when the device holds a perpetual licence, or has a row and is to be issued a first one, or has none and is to be renewed; its request carries the term, and the features and the note named or else those of the entry listed last |
| `Issuer.ExecuteExactlyWhen` | tools/license-issuer/src/issue.rs:40-149 | a command adds a row exactly when the log does not refuse it, the request can be built and the id is new; the row has those features and that note |
| `Issuer.ExecuteErrsExactlyWhen` | tools/license-issuer/src/issue.rs:40-149 | otherwise the error names the first of these that fails: the device's state, its ID, the features, the note, the days, the id |
| `Issuer.IssueLog.Record` | tools/license-issuer/src/log.rs:95-113 | a row is added at the end, and only if its licence id is new |
| `Issuer.IssueLog.Run` | tools/license-issuer/src/main.rs:376-414 | one command reads the log, refuses or builds, and records: the new rows are the specification's |
| `Issuer.ExecuteAdds` | tools/license-issuer/src/issue.rs:40-91 | a command that succeeds adds a row that comes after every earlier row of its device: those are all trials, and end earlier |
| `Issuer.ExecuteKeepsOrder` | tools/license-issuer/src/issue.rs:40-91 | the log stays in order: consistent rows, unique ids, and per device strictly later trial ends with a perpetual last |
| `Issuer.EveryRunIsInOrder` | tools/license-issuer/src/log.rs:95-133 | that holds after every sequence of issue and renew commands under any clock, and no row is ever changed |
| `Issuer.NoInternalErrors` | tools/license-issuer/src/issue.rs:70-149 | no command over such a log reaches the errors for a missing trial, days on a perpetual licence, or an inconsistent payload |
| `Issuer.FirstThenRenewals` | tools/license-issuer/src/issue.rs:54-91 | a command succeeds as a renewal exactly when the device already has a row, so each device has one first licence and then renewals, all of trials |
| `Issuer.RenewalAddsItsDays` | tools/license-issuer/src/issue.rs:98-149 | a renewal's days run from now or from the latest end the device ever had, whichever is later |
| `Issuer.NewestGoverns` | crates/loyalty-pro-license/src/status.rs:158-163 | however a shop enters the codes issued to it, in any order and number, the newest one entered governs |
| `Issuer.RenewalCarriesListedFeatures` | tools/license-issuer/src/issue.rs:70-91 | a renewal that names no features carries those of the entry the log lists last |
| `Issuer.ListedLastIsNewestExactlyWhen` | tools/license-issuer/src/log.rs:115-133 | that entry is the device's newest licence exactly when the issuer's clock had not gone back before it was issued |
| `Issuer.ClockSetBackCarriesOlderFeatures` | tools/license-issuer/src/issue.rs:40-91 | for any shop and times: a first licence with one feature, a renewal with another under a clock set back, and then a renewal that names none and gets the older feature |
| `LicenseCode.DecodeEncodes` | crates/loyalty-pro-license/src/code.rs:37-43 | base64url without padding gives back the bytes, for every byte sequence |
| `LicenseCode.EncodeDecodes` | crates/loyalty-pro-license/src/code.rs:61-76 | a text the strict decoder accepts is the encoding of what it decodes to (RFC 4648 sections 3.5 and 5) |
| `LicenseCode.CodeWritesTheNumber` | crates/loyalty-pro-license/src/code.rs:37-43 | read as a base-64 numeral a code is the number its bytes write in base 256, filled up with zero bits to a whole symbol (section 4 of RFC 4648) |
| `LicenseCode.LengthOfCode` | crates/loyalty-pro-license/src/code.rs:37-43 | n bytes take as many symbols as hold 8n bits |
| `LicenseCode.AlphabetIs` | crates/loyalty-pro-license/src/code.rs:37-43 | the symbols are those of table 2 of RFC 4648 |
| `LicenseCode.IgnoredAre` | crates/loyalty-pro-license/src/code.rs:19-34 | what normalizing takes away is exactly the white space of Unicode and twenty-one invisible marks, by code point |
| `LicenseCode.DecodesExactlyItsCode` | crates/loyalty-pro-license/src/code.rs:61-76 | a normalized text decodes to given parts exactly when the parts have licence sizes and the text is their encoding, up to '=' after either half |
| `LicenseCode.WrapNormalizes` | crates/loyalty-pro-license/src/code.rs:46-52 | wrapping at sixty columns and normalizing is normalizing |
| `LicenseCode.WrappedLinesFit` | crates/loyalty-pro-license/src/code.rs:46-52 | no line of a wrapped code is longer than sixty |
| `LicenseCode.WrapIs` | crates/loyalty-pro-license/src/code.rs:46-52 | every sixty-first character sent is a line break, and the others are the code in order |
| `LicenseCode.PastedCodeDecodes` | crates/loyalty-pro-license/src/code.rs:19-76 | a code wrapped, sent and pasted with any white space and invisible marks inserted gives back payload and signature |
| `Code128.PatternsAreSound` | packages/shared-types/src/barcode.ts:38-50 | each of the 106 patterns is six non-empty elements of eleven modules, and no two are the same |
| `Code128.Encode` | packages/shared-types/src/barcode.ts:95-132 | the encoder's loops compute the specified symbol, and refuse the empty, non-digit and odd-length inputs |
| `Code128.EncodesExactly` | packages/shared-types/src/barcode.ts:95-101 | encoded is exactly every even number of digits but none, and the two refusals are told apart |
| `Code128.Code128Bars` | packages/shared-types/src/barcode.ts:141-152 | the drawing loop gives every other element as a bar, at the sum of the widths before it |
| `Code128.BarcodeScansBack` | packages/shared-types/src/barcode.ts:95-132 | a scanner that reads six elements at a time, checks start and stop by their widths, and sums the weights itself from 105 on recovers the card number |
| `Code128.BarcodeWidth` | packages/shared-types/src/barcode.ts:95-132 | 2k digits print 11k + 55 modules wide, quiet zones included |
| `Code128.BarsFillTheSymbol` | packages/shared-types/src/barcode.ts:141-152 | the bars stand apart in order, start at the left quiet zone and end at the right one |
| `Code128.LargestModuleWidthIsLargest` | packages/shared-types/src/barcode.ts:165-167 | a module width fits the paper exactly when it is at most the one chosen |
| `Code128.ChangeIsCaughtUnless` | packages/shared-types/src/barcode.ts:95-132 | one wrong data symbol leaves the check unchanged exactly at places that are multiples of 103 |
| `Code128.LongNumbersCanShareACheck` | packages/shared-types/src/barcode.ts:95-132 | two numbers of 206 digits that differ in one symbol and share their check symbol |
| `Code128.SwapIsCaught` | packages/shared-types/src/barcode.ts:95-132 | swapping two different neighbouring data symbols always changes the check |
| `Discount.ComputeDiscount` | packages/shared-types/src/discount.ts:305-360 | filtering, sorting, scanning, rounding and capping compute the order-free specification |
| `Discount.ApplicableIs` | packages/shared-types/src/discount.ts:305-330 | the rule applied is an active one reached by the invoice, with the highest threshold of those; none only if none is reached |
| `Discount.UncappedIs` | packages/shared-types/src/discount.ts:331-337 | before any cap, a percentage is the whole part of that many hundredths of the invoice, and an amount is itself |
| `Discount.SortedFindsApplicable` | packages/shared-types/src/discount.ts:305-330 | the last rule reached in the sorted list is that rule |
| `Discount.DiscountIsBounded` | packages/shared-types/src/discount.ts:305-360 | discount and net make up the invoice, no cap is exceeded, and something is withheld only by a cap, the invoice or zero |
| `Discount.ComputationIs` | packages/shared-types/src/discount.ts:305-360 | without a rule nothing is taken off; with one, exactly the most that the rule, its cap, the ceiling and the invoice all allow, and the rule is named |
| `Discount.OrderDoesNotMatter` | packages/shared-types/src/discount.ts:305-360 | where no two active rules share a threshold the order of the rules decides nothing |
| `Discount.ValidateRulesAgainstSettings` | packages/shared-types/src/discount.ts:203-249 | the loop reports the specified violations, in order, with the index of each rule |
| `Discount.ViolationsAreTheFaults` | packages/shared-types/src/discount.ts:203-249 | a violation is reported exactly for a percentage out of range, an amount above the ceiling, or a cap above it, at the rule it names |
| `Discount.ViolationsAreInOrder` | packages/shared-types/src/discount.ts:203-249 | each once, rule by rule, and a rule's rate before its cap |
| `Discount.AcceptedExactlyWhen` | packages/shared-types/src/discount.ts:141-169 | a ladder is accepted exactly when its thresholds differ and each next rung of the same type has a higher rate, in whatever order it is given |
| `Discount.NoViolationsMeans` | packages/shared-types/src/discount.ts:203-249 | with no violation, percentages are in range and the absolute ceiling never lowers what an amount or a rule cap already allows |
| `Discount.FairExactlyWhen` | packages/shared-types/src/discount.ts:141-169 | a bigger invoice never earns a smaller discount exactly when no threshold, compared with the unit below it, loses anything |
| `Discount.OneTypeLadderIsFair` | packages/shared-types/src/discount.ts:141-169 | an accepted ladder of one type whose caps never tighten on the way up is fair |
| `Discount.TighterCapCanBeUnfair` | packages/shared-types/src/discount.ts:141-169 | an accepted ladder with a tighter cap higher up that is not fair |
| `Discount.ChangeOfTypeCanBeUnfair` | packages/shared-types/src/discount.ts:141-169 | an accepted ladder of two types that is not fair |
| `Supervisor.WatchChild` | packaging/service-host/src/main.rs:699-757 | the polling loop gives the verdict on one child, and clears the counter and the signature exactly when it was seen alive after a minute |
| `Supervisor.WatchEndsExactlyWhen` | packaging/service-host/src/main.rs:699-757 | of the polls the first that is a stop or not of a running child decides: a restart is an exit with 75, a death is any other exit or a failed wait, with its text |
| `Supervisor.SeenHealthyExactlyWhen` | packaging/service-host/src/main.rs:725-740 | the record is cleared exactly when some poll up to that one, which is no stop, finds the child a minute old |
| `Supervisor.AttemptMeans` | packaging/service-host/src/main.rs:655-790 | what one child adds to the history: nothing for a stop, a restart for an exit with 75, a death with its text and reason for any other end, long-lived from a minute on |
| `Supervisor.AttemptEnds` | packaging/service-host/src/main.rs:655-818 | how the attempt ends: for good by a stop or a fifth equal death, still watching while no poll decides, and otherwise with another attempt to come |
| `Supervisor.RunContinues` | packaging/service-host/src/main.rs:640-818 | a run over two stretches of attempts is the second run on from the first, unless the first ended for good or is still watching |
| `Supervisor.SignaturesAgreeExactlyWhen` | packaging/service-host/src/main.rs:771-779 | two deaths are the same fault exactly when exit and reason are the same, for exit texts without a bar |
| `Supervisor.BarsCanConfuseSignatures` | packaging/service-host/src/main.rs:771-772 | two different faults with one signature: with a bar in the exit text, the text and the reason run together |
| `Supervisor.Supervise` | packaging/service-host/src/main.rs:640-818 | the loop over counter, last signature and backoff reports the specified history and end; however it ends, the counter is the streak of the history, cleared while a child has been up for a minute, and the sleeps are the waits of the history |
| `Supervisor.StreakIsTheLastRun` | packaging/service-host/src/main.rs:640-818 | the counter is k exactly when the last run of equal deaths, cut by restarts and by children that lived a minute and blind to failed spawns, has length k |
| `Supervisor.GivesUpExactlyAtFive` | packaging/service-host/src/main.rs:640-818 | the supervisor goes terminal at the fifth equal death, the first time there are five, and starts nothing afterwards |
| `Supervisor.BackoffIsBounded` | packaging/service-host/src/main.rs:100-101 | every wait is 2, 4, 8, 16 or 30 seconds |
| `Supervisor.BackoffIsAPower` | packaging/service-host/src/main.rs:640-818 | the wait is two to the number of waits since the last reset plus one, up to the cap |
| `Supervisor.BackoffRestarts` | packaging/service-host/src/main.rs:640-818 | in every run, from each requested restart and each child that lived a minute the sleeps start over and are 2, 4, 8, 16 and then 30 seconds until the next one |
| `Supervisor.FixedFaultStartsFiveChildren` | packaging/service-host/src/main.rs:640-818 | a fault that never changes starts five children with waits of 2, 4, 8 and 16 seconds, and then nothing |
| `CivilCalendar.CivilIsValid` | packaging/service-host/src/main.rs:424-435 | every day number, negative ones included, names a date that exists in the proleptic Gregorian calendar (section 3.2.1 of ISO 8601:2004) |
| `CivilCalendar.DaysOfCivil` | packaging/service-host/src/main.rs:424-435 | the day number can be read back from its date |
| `CivilCalendar.CivilOfDays` | packaging/service-host/src/main.rs:424-435 | every date that exists is the date of its day number |
| `CivilCalendar.EpochIsDayZero` | packaging/service-host/src/main.rs:424-435 | day 0 is 1970-01-01 |
| `CivilCalendar.TomorrowIsNextDate` | packaging/service-host/src/main.rs:424-435 | day n + 1 is the date after day n, by month lengths and leap years |
| `EscPos.SkipUntilNul` | agent/src/Walaa.Agent/Parsing/EscPos.cs:245-254 | the loop stops after the first NUL, or at the end |
| `EscPos.SkipEsc` | agent/src/Walaa.Agent/Parsing/EscPos.cs:98-173 | the next index is the start plus the length of the ESC command, in 32-bit arithmetic, and the codepage operand is noted |
| `EscPos.SkipGs` | agent/src/Walaa.Agent/Parsing/EscPos.cs:176-243 | the same for GS commands |
| `EscPos.SkipRaster` | agent/src/Walaa.Agent/Parsing/EscPos.cs:208-215 | the same for a raster image, whose length is a 32-bit product |
| `EscPos.Strip` | agent/src/Walaa.Agent/Parsing/EscPos.cs:42-95 | the whole loop computes the specified scan, up to the first jump that does not go forward |
| `EscPos.JumpAdvancesExactlyWhenItFits` | agent/src/Walaa.Agent/Parsing/EscPos.cs:176-243 | a jump goes forward exactly when the index it should reach fits in 32 bits |
| `EscPos.JobStripsToItsText` | agent/src/Walaa.Agent/Parsing/EscPos.cs:42-254 | a job serialised byte by byte from text and from commands of every kind, each with operands of its own, strips to exactly its text, and reports the last codepage selected |
| `EscPos.CutJobStripsToItsText` | agent/src/Walaa.Agent/Parsing/EscPos.cs:42-254 | a job cut off anywhere in a last command strips to the text before that command, unless the cut is within a header that the scanner then reads on as text; exactly those headers are named |
| `EscPos.StrippedIsSomeOfTheText` | agent/src/Walaa.Agent/Parsing/EscPos.cs:42-95 | for arbitrary bytes the output is a subsequence of the input, printable bytes and line controls only |
| `EscPos.StripTwice` | agent/src/Walaa.Agent/Parsing/EscPos.cs:42-95 | stripping what is already stripped changes nothing |
| `EscPos.StripsExactlyWhenCommandsFit` | agent/src/Walaa.Agent/Parsing/EscPos.cs:42-95 | the scan of any input, truncated ones included, runs to the end exactly where its commands, laid end to end in plain numbers, end within 32 bits |
| `EscPos.StripsWhereImagesFit` | agent/src/Walaa.Agent/Parsing/EscPos.cs:42-95 | so it does where no place in the job, read as a header, asks for more |
| `EscPos.EndlessJobNeverEnds` | agent/src/Walaa.Agent/Parsing/EscPos.cs:42-95 | in a job of 131071 bytes, all NUL but a last command that jumps back to the first, the index stays inside the job after any number of turns and nothing is ever kept |
| `EscPos.LargestImageIsLost` | agent/src/Walaa.Agent/Parsing/EscPos.cs:208-215 | the header of the largest raster image, whose product wraps to a negative jump |
| `CaptureSink.CaptureHolds` | agent/src/Walaa.Agent/Capture/ChannelCaptureSink.cs:65-84 | the buffer holds exactly what was offered since the last completion, or knows it was more than the cap |
| `CaptureSink.TakeIsWhole` | agent/src/Walaa.Agent/Capture/ChannelCaptureSink.cs:87-124 | a job is taken exactly when between 1 byte and the cap was offered, and is then all of it |
| `CaptureSink.ChannelCaptureSink.TryCapture` | agent/src/Walaa.Agent/Capture/ChannelCaptureSink.cs:65-84 | bytes are appended to what is offered, and nothing else changes |
| `CaptureSink.ChannelCaptureSink.TryCompleteJob` | agent/src/Walaa.Agent/Capture/ChannelCaptureSink.cs:87-124 | what was offered is queued whole if it is within the cap and there is room, and otherwise dropped and counted |
| `CaptureSink.ChannelCaptureSink.ReadJob` | agent/src/Walaa.Agent/Capture/ChannelCaptureSink.cs:31-52 | the consumer takes the job that has waited longest |
| `CaptureSink.IdleJobSink.TryCapture` | agent/src/Walaa.Agent/Capture/SerialBridgeCapture.cs:189-206 | offering passes the bytes on and restarts the timer |
| `CaptureSink.IdleJobSink.TryCompleteJob` | agent/src/Walaa.Agent/Capture/SerialBridgeCapture.cs:209-218 | completing stops the timer and completes the job inside |
| `CaptureSink.IdleJobSink.OnIdle` | agent/src/Walaa.Agent/Capture/SerialBridgeCapture.cs:221-234 | the timer completes whatever was offered since the last completion, once |
| `CaptureSink.IdleJobSink.DisposeAsync` | agent/src/Walaa.Agent/Capture/SerialBridgeCapture.cs:236-241 | disposing completes whatever was offered since the last completion, and stops the timer |
| `CaptureSink.Bridge` | agent/src/Walaa.Agent/Capture/SerialBridgeCapture.cs:107-127 | the bridge makes one job of what went through, however its relay ends |
| `CaptureSink.CutOffReceiptIsAJob` | agent/src/Walaa.Agent/Capture/SerialBridgeCapture.cs:107-127 | a relay that fails after some bytes, which the bridge makes a job of |
| `CaptureSink.Pump` | agent/src/Walaa.Agent/Capture/PrintRelay.cs:65-123 | the read and write loop forwards the specified bytes and offers exactly those, in order, however it ends: a stop, the end of the source, a failed read or a failed write |
| `CaptureSink.ThroughExactly` | agent/src/Walaa.Agent/Capture/PrintRelay.cs:65-123 | what goes through is the chunks up to the first turn that is stopped, empty, cancelled, broken or not taken by the printer; the run fails exactly when that turn is broken or not taken, and was not asked to stop |
| `CaptureSink.Relay` | agent/src/Walaa.Agent/Capture/PrintRelay.cs:65-123 | a relay that ends normally also completes its job: all that was offered, whole, where it is within the cap and there is room; one that fails completes nothing |
| `SinkRaces.EveryStepKeeps` | agent/src/Walaa.Agent/Capture/ChannelCaptureSink.cs:65-124 | the invariant over every atomic step of any number of relays, completing threads and the consumer |
| `SinkRaces.EveryRunKeeps` | agent/src/Walaa.Agent/Capture/ChannelCaptureSink.cs:65-124 | and so over every interleaving |
| `SinkRaces.WhatTheConsumerReads` | agent/src/Walaa.Agent/Capture/ChannelCaptureSink.cs:31-124 | under every interleaving of any number of relays, what each offered is a prefix of what it forwarded, completions cut what was offered into segments, and at most 16 jobs wait, each a whole, distinct segment of at most 512 KiB |
| `SinkRaces.EveryRunExcludes` | agent/src/Walaa.Agent/Capture/ChannelCaptureSink.cs:65-124 | under every interleaving at most one thread is inside the lock, and while one is nothing is offered and nothing completed |
| `SinkRaces.ThreadCanFinish` | agent/src/Walaa.Agent/Capture/ChannelCaptureSink.cs:87-124 | from any state three steps of its own end a completing thread: its job is in the channel exactly when there was room, and otherwise dropped and counted |
| `SinkRaces.OfferFollowsForward` | agent/src/Walaa.Agent/Capture/PrintRelay.cs:100-115 | what a relay put through it offers in its next step exactly when no thread is inside the lock, and it alone |
| `SinkRaces.CompletionTakes` | agent/src/Walaa.Agent/Capture/ChannelCaptureSink.cs:87-124 | a completion takes all that was offered since the last one, as a job exactly when it is within the cap |
| `SinkRaces.JobIsOneRelaysExactlyWhen` | agent/src/Walaa.Agent/Capture/NetworkProxyCapture.cs:86-105 | a queued job holds the bytes of one relay alone exactly when no two relays offered between the completion that ended it and the one before |
| `SinkRaces.ReceiptsCanMix` | agent/src/Walaa.Agent/Capture/NetworkProxyCapture.cs:86-105 | two tills at once and one completion: a single job of both receipts |
| `SinkRaces.DropsAreAllCountedExactlyWhen` | agent/src/Walaa.Agent/Capture/ChannelCaptureSink.cs:87-124 | at rest, queued jobs and the drop counter account for every completion that found bytes exactly when no count was written between another one's reading and writing of the counter, and otherwise fall short |
| `SinkRaces.OneAtATimeLosesNoCount` | agent/src/Walaa.Agent/Capture/ChannelCaptureSink.cs:87-124 | where a completion starts only when none is under way, no drop goes uncounted |
| `SinkRaces.ADropCanGoUncounted` | agent/src/Walaa.Agent/Capture/ChannelCaptureSink.cs:87-124 | a run from the start that drops a job without counting it |
| `CaptureProtocol.EveryStepKeeps` | agent/src/Walaa.Agent/AgentWorker.cs:260-331 | the invariant over enqueue, sign-in, read, send, finish, failed disk operations and restarts |
| `CaptureProtocol.EveryRunKeeps` | agent/src/Walaa.Agent/AgentWorker.cs:260-331 | and so over every run |
| `CaptureProtocol.NothingIsLostOrDoubled` | agent/README.md:142-158 | after every run each enqueued capture is queued, set aside or settled; for a settled one the manager holds its branch and invoice number; it holds one transaction at most for each, a capture or one from elsewhere; signed in without a token only between a refused token and its being acted on |
| `CaptureProtocol.SettledIsRecordedExactlyWhen` | apps/api/src/services/ingestion.service.ts:61-125 | after every run a settled capture is itself among the transactions exactly when no other transaction has its branch and invoice number |
| `CaptureProtocol.DistinctNumbersAreAllRecorded` | agent/src/Walaa.Agent/AgentWorker.cs:280-296 | a capture that shares its branch and number with no other one, nor with one from elsewhere, is queued, set aside or itself recorded, after every run |
| `CaptureProtocol.SecondSaleUnderOneNumberIsDeleted` | apps/api/src/services/ingestion.service.ts:61-81 | two captures with one branch and number: both are settled and deleted, and only the first is recorded, whatever the amounts |
| `CaptureProtocol.PassTakesExactly` | agent/src/Walaa.Agent/AgentWorker.cs:277-308 | whatever goes wrong, a pass takes out exactly the files listed before its first stop whose content was sent, finally answered and could be deleted or moved |
| `CaptureProtocol.OneAnswerHoldsBackTheRest` | agent/src/Walaa.Agent/AgentWorker.cs:297-307 | a capture whose answer is not final holds back every file listed after it |
| `CaptureProtocol.AnswerMeans` | agent/src/Walaa.Agent/Delivery/IngestClient.cs:94-162 | settled exactly by an answer of success, which is a duplicate exactly when the manager held the number before; not to be sent again exactly then or when the content is refused |
| `CaptureProtocol.SignInMeans` | agent/src/Walaa.Agent/Delivery/IngestClient.cs:65-91 | a sign-in succeeds exactly by a token in the answer; an answer without one forgets the token there was, and a failure or no answer keeps it |
| `CaptureProtocol.OnlyARefusedTokenSignsOut` | agent/src/Walaa.Agent/AgentWorker.cs:280-308 | the worker stays signed in, and keeps its token, after every answer but a refused token |
| `CaptureProtocol.CarriedOutExactlyWhen` | apps/api/src/services/ingestion.service.ts:61-125 | a request adds the capture's transaction exactly when it was carried out, answered or not, and the number is new |
| `CaptureProtocol.TurnMeans` | agent/src/Walaa.Agent/AgentWorker.cs:277-308 | a file leaves the queue exactly when it can be read, its answer is final and the file operation works; the pass ends early exactly when the answer is not final or a file operation fails uncaught |
| `CaptureProtocol.CleanPassEmptiesTheQueue` | agent/src/Walaa.Agent/AgentWorker.cs:277-308 | a pass with only final answers and no file failure takes out every readable file pending at its start, whatever comes in meanwhile, so a refused capture blocks nothing |
| `CaptureProtocol.CleanTurnsEmptyTheQueue` | agent/src/Walaa.Agent/AgentWorker.cs:277-308 | as many turns as files, none with a fault, end the pass and leave exactly the files that cannot be read |
| `CaptureAgent.Manager.Ingest` | agent/README.md:142-158 | insert if absent, otherwise answer duplicate |
| `CaptureAgent.CaptureQueue.Enqueue` | agent/src/Walaa.Agent/Delivery/CaptureQueue.cs:115-163 | the capture is in the queue under its key if the write and the move work, and the queue is unchanged otherwise |
| `CaptureAgent.CaptureQueue.ReadPending` | agent/src/Walaa.Agent/Delivery/CaptureQueue.cs:166-194 | a file is read, passed over, or fails uncaught, and no file changes |
| `CaptureAgent.CaptureQueue.Settle` | agent/src/Walaa.Agent/Delivery/CaptureQueue.cs:197-209 | the file is deleted if the disk allows it, and only that file |
| `CaptureAgent.CaptureQueue.Quarantine` | agent/src/Walaa.Agent/Delivery/CaptureQueue.cs:220-233 | the file is moved to the rejected ones if the disk allows it, and only that file |
| `CaptureAgent.IngestClient.SignInAsync` | agent/src/Walaa.Agent/Delivery/IngestClient.cs:65-91 | a token is stored exactly as the protocol's sign-in step says, and true is returned only with a token |
| `CaptureAgent.IngestClient.DeliverAsync` | agent/src/Walaa.Agent/Delivery/IngestClient.cs:94-162 | the answer is classified, the token cleared on a refusal, and the manager changed, exactly as the protocol's send step says |
| `CaptureAgent.AgentWorker.TrySignIn` | agent/src/Walaa.Agent/AgentWorker.cs:262-273 | the worker signs in only when it is not, and its state follows the protocol's step |
| `CaptureAgent.AgentWorker.DeliverOne` | agent/src/Walaa.Agent/AgentWorker.cs:277-308 | one turn of the loop over real queue, client and manager objects is one turn of the protocol |
| `CaptureAgent.AgentWorker.DeliverPass` | agent/src/Walaa.Agent/AgentWorker.cs:277-308 | a whole pass is the protocol's sequence of turns: it leaves what `PassTakesExactly` says, and without a fault leaves exactly the files that cannot be read |

## Left out

- Hashing, signing, password sealing and random numbers: foreign libraries. `step`, `bind`, the first link and the verification of a signed code are arbitrary functions.
- The derivation of the device ID from machine facts: only its alphabet, its form and its normalization are modelled.
- Widths of times and day counts: times are unbounded integers, so an overflow of a 64-bit time or of the issuer's 32-bit day count is not modelled.
- ClockRuns: activating a licence records the time first, which is a touch of its own here; the mirror of stored codes and a commit that fails are not modelled.
- NativeStatus.ReadStored: which of the errors a refused code drew is not kept; the original counts it only.
- Issuer.FeatureSetIsASet: sorting and removing repeats is done on values, not in place in a vector; the text of an error (which feature was unknown, which licence stands in the way) is not modelled.
- Issuer.IssueLog.Record: the fingerprint and the code in a row are not modelled, nor is the log of unlock codes.
- Discount.ComputeDiscount: amounts are integers; the original's numbers are exact below 2^53.
- The margin assessment beside the discount engine: advice on the screen, with no state.
- Supervisor.Supervise: what a child writes on failing is an input; the status file, the logs and the spawning itself are not modelled.
- EscPos.Strip: ends at the first jump that does not go forward, with its place; what the original reads from then on is not modelled, but for the endless job.
- Decoding the stripped bytes by codepage and parsing the receipt: they rest on library tables and patterns.
- CaptureSink.ChannelCaptureSink.TryCapture: memory exhaustion while appending is not modelled.
- CaptureSink.ChannelCaptureSink.TryCompleteJob: an overflow by a first chunk above the cap leaves the buffer empty, and such a job is dropped without being counted, as in the original; only completions that find bytes are accounted for.
- CaptureSink.Relay: modelled over the idle sink; the network proxy hands its relays the sink inside directly, where what a failed one had offered stays for the next completion, of any relay (`SinkRaces` has that interleaving).
- SinkRaces.WhatTheConsumerReads: racing completions may queue their jobs in either order, so no order between them is claimed.
- CaptureAgent.CaptureQueue.Enqueue: one file per idempotency key, the temporary file included only as a failure to write, move or clean up; file contents and names are not modelled.
- CaptureProtocol.Apply: an idempotency key is taken to name one capture for good (it is a GUID), so an enqueue that would reuse one for another capture is not a step. Other agents and stations record transactions at any time (`Foreign`); none is ever removed.
- CaptureAgent.AgentWorker.DeliverPass: the interval between passes, cancellation, and a listing read lazily while files come in are not modelled; a pass works through the files that were there at its start.
- How the agent comes by its bytes (serial ports, sockets, spool files): to the sinks each capture mode is relays that offer and threads that complete, in any order. The React screens, the HTTP and database plumbing, settings, pairing and invoice numbers are plumbing or small.
- Day bounds by time zone: they rest on the platform's zone database.
