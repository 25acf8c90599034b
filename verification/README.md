# DigiRadio firmware: a verified model

DigiRadio is an ESP32 radio: it streams MP3 from the network, receives DAB slides, wakes its owner,
takes audio from a phone and drives a DSP. This project models the parts of it whose correctness
depends on more than one function or on a whole run, and proves what they promise.

Each module follows one component. Code that updates state in place is a class or a method with loops,
proved against a function of the old state; the properties are then proved about that function, over
runs. Protocols between tasks are state machines, one event per atomic step, and their theorems hold
for every interleaving.

| module | component | main results |
|---|---|---|
| AlarmSchedule | weekly alarm table | the search is the least firing over all time; the next row is the earliest due row |
| ScheduleRuns | the schedule check over a run | every table is kept if and only if no check straddles a minute, and one table if and only if its due minutes are each gone by once |
| AlarmClock | the alarm task | whole-run theorems on schedule, user volume, deadlines and wake-up; a fade-in reaches its volume if and only if its last write is taken and no step finds the gain far off |
| SlideFlash, SlideRuns, SlideReads | the NOR-flash slide store | a slide is a byte string, the one on show is never touched, a download is untorn if and only if nothing else is committed meanwhile, wear is spread |
| MotSlides | MOT objects to slides | from a carousel that does not reuse ids, what is on show is one whole broadcast object, and an object is on show exactly when all of it has come |
| MotVersions | objects that change under their id | the slide is the mixture of the versions its segments were first received in, which is one of them if and only if they all are |
| WebRadioPlayer | ring, input buffer, decoder loop | bytes are conserved and corrupt data cannot loop |
| WebRadioTasks | network task and player task | handshake, conservation and stopping over all interleavings |
| WebRadioFetch | connect loop | bounded opens, ordered back-off, no attempt after stop |
| IcyFilter | Shoutcast metadata removal | exactly the sent audio and blocks, however the stream is cut |
| PcmOutput | phone and radio PCM output | what is heard depends on the bytes, not on how they were cut |
| SinkOwnership | shared sink and borrowed DSP source | one owner, and exactly when the source is given back |
| OtaProbation | firmware probation | an image is confirmed if and only if the one check that ends probation finds it healthy |
| AntennaFit | antenna calibration line | least squares, uniquely |
| DspBlob | DSP program packer and parser | each undoes the other, on exactly the programs within the limits |
| MeshWeld | case mesh welding and placing | distinct vertices, proper triangles, orientation kept |

Nine properties one would expect turned out false of the code, and the model says exactly when they hold:

- **The schedule check reads the clock twice** (`Software/main/alarm_clock.cpp:291` for the minute,
  line 80 for the local time). A check whose two reads fall in different minutes marks the earlier
  minute as done but goes by the later one. The first time, the earlier minute's row is missed
  (`ScheduleRuns.StraddledMinuteIsMissed`), and the later one's acts early and once more at its own check
  (`StraddleActsTwice`). `ScheduleIsKeptIffNotStraddled` proves that every table is kept exactly when no
  check straddles a minute, and `TableIsKeptIff` says for one table which minutes matter.
- **A power write that fails leaves the radio on** (`AudioService::setPowerState` puts the previous
  state back), with its deadlines already cleared. `AlarmClock.SleepTimerTurnsOff` and
  `AlarmClock.DurationTurnsOff` give the condition over runs.
- **Gain writes that fail can end a fade-in short of its volume**, because the ramp remembers the gain
  it asked for and a later step takes the difference for the user's hand. It takes one refused step of
  more than 0.5 dB, several smaller ones in a row (`AlarmClock.TwoSmallRefusals`), the last write, or that of the turn-on itself, after
  which there may be no fade-in at all (`AlarmClock.FailedStartHasNoFadeIn`). `FadeInArrivesIff` and
  `WakeUpArrivesIff` give the condition for any pattern of failures and any moves of the user's.
- **A volume the user sets in the middle of a ramp step is overwritten**, however far off it is, between
  the look at the gain and the write (`Software/main/alarm_clock.cpp:249-253`):
  `AlarmClock.MoveInsideIsKeptIff`.
- **A source the user chooses while a switch is under way is overwritten**: between a claim's look and
  its switch (`Software/main/audio_routing.cpp:48-52`), or between a restore's look and its switch back
  (lines 68-69). `SinkOwnership.SourceIsGivenBackIff` says, for every run and with failing switches
  too, exactly when a stream leaves the source it should; `ChoiceDuringClaimIsLost` and
  `ChoiceDuringSwitchBackIsLost` are the two losing runs.
- **A download that spans a commit is torn.** No erase or write changes the slide on show, but each read
  takes whatever slot is shown by then (`Software/main/dab_slideshow.cpp:132-146`), so a client that
  started before a commit gets the front of one slide and the rest of another.
  `SlideReads.DownloadIsUntornIff` gives the exact condition, `DownloadWhileWriting` ties it to the
  store, and `TornDownload` is a torn run on it.
- **An object that changes under its transport id is shown as a mixture**, each segment in the version
  it first came in. `MotVersions.DeliverVersions` says which mixture, `MixtureIsOneVersionIff` when it is
  one of the versions whatever they hold, and `MotSlides.ReusedIdMixes` is a mixing run.
- **Boot counts as settled with the image still pending** when the flash state cannot be read:
  `OtaProbation.SettledIffEarnedOrUnreadable` proves that over a run this is the only way.
- **Probation gives a healthy image one chance.** One flash state that cannot be read, or one mark that
  fails, stops the timer for good (`Software/main/system_diag.cpp:135-151`):
  `OtaProbation.ConfirmedIffDecided`.

The last `return std::nullopt` of `minutesUntil` (`Software/components/core/src/AlarmSchedule.cpp:45`) is
reached by no row, since eight days hold every weekday: `AlarmSchedule.SomeDayFires`. So
`AlarmSchedule.MinutesUntil` answers `None` exactly for a row that is off or has no weekday.

## Model

| member | source | states |
|---|---|---|
| AlarmSchedule.AdvanceClosed | Software/components/core/src/AlarmSchedule.cpp:36-40 | the clock carried minute by minute through hour, day and week equals the day-and-minute arithmetic the search uses |
| AlarmSchedule.AdvanceAdds | Software/components/core/src/AlarmSchedule.cpp:36-40 | waiting a minutes and then b is waiting a + b |
| AlarmSchedule.EmptyMask | Software/components/core/src/AlarmSchedule.cpp:23-35 | the weekday mask test is exact: empty if and only if the row fires on no weekday |
| AlarmSchedule.MatchesOnItsDays | Software/components/core/src/AlarmSchedule.cpp:23-27 | a row whose mask is that of any choice of weekdays, Monday the lowest bit, matches at its own time on exactly those |
| AlarmSchedule.EveryMaskIsDays | Software/components/core/src/AlarmSchedule.cpp:23-27 | every mask is that of some choice of weekdays |
| AlarmSchedule.MatchesAhead | Software/components/core/src/AlarmSchedule.cpp:55-59 | a row matches k minutes ahead exactly at its own time of day on a firing weekday |
| AlarmSchedule.SomeDayFires | Software/components/core/src/AlarmSchedule.cpp:33-45 | a row with any weekday set fires on one of the eight days the search looks at, so the search never falls through |
| AlarmSchedule.FirstFiringAt | Software/components/core/src/AlarmSchedule.cpp:38-44 | the first hit of the search is the least firing minute, below one week |
| AlarmSchedule.MinutesUntil | Software/components/core/src/AlarmSchedule.cpp:30-46 | returns m exactly when m is the least future minute that matches, always below 10080, and nothing exactly when the row is off or has no weekday, and then no minute ever matches |
| AlarmSchedule.DueAlarm | Software/components/core/src/AlarmSchedule.cpp:61-70 | the first row that matches now, or none when none does |
| AlarmSchedule.SoonestOfOneMore | Software/components/core/src/AlarmSchedule.cpp:75-81 | a strict comparison keeps the lowest index: one more row keeps `best` the earliest due row of those seen |
| AlarmSchedule.NextAlarm | Software/components/core/src/AlarmSchedule.cpp:72-83 | the first future minute at which any row is due, with the row due then; none exactly when no row ever is |
| AlarmSchedule.SoonestIsUnique | Software/components/core/src/AlarmSchedule.cpp:72-83 | that specification admits one answer only |
| AlarmSchedule.SoonestNowIsDue | Software/components/core/src/AlarmSchedule.cpp:61-83 | the next alarm is 0 minutes away at row i exactly when row i is due now |
| AlarmSchedule.SoonestCountsDown | Software/components/core/src/AlarmSchedule.cpp:72-83 | one minute later the next alarm is the same row, one minute nearer |
| ScheduleRuns.LocalAtAdvances | Software/main/alarm_clock.cpp:89-96 | local time read k minutes later is the carried clock k minutes on, weekday conversion included |
| ScheduleRuns.EpochIsThursday | Software/main/alarm_clock.cpp:78-96 | minute 0 is Thursday midnight, weekday conversion included, and the clock runs on from there |
| ScheduleRuns.CheckedMinuteIsNew | Software/main/alarm_clock.cpp:291-296 | a check goes ahead only for a minute later than every minute checked before |
| ScheduleRuns.ActsWhenNotStraddled | Software/main/alarm_clock.cpp:289-312 | with no straddled check, each visited minute gets its first matching row exactly once and no other minute anything |
| ScheduleRuns.StraddledMinuteIsMissed | Software/main/alarm_clock.cpp:289-303 | the minute whose check is the first to read a later minute's local time is never acted on, whatever follows |
| ScheduleRuns.MissesWhenStraddled | Software/main/alarm_clock.cpp:289-303 | for every straddled run there is a table that it gets wrong |
| ScheduleRuns.ScheduleIsKeptIffNotStraddled | Software/main/alarm_clock.cpp:289-312 | every table is kept over a run if and only if no check reads the clock on both sides of a minute boundary |
| ScheduleRuns.ActsOncePerCheck | Software/main/alarm_clock.cpp:289-312 | for any clock at all, a minute's first matching row acts once for each check that goes by its local time |
| ScheduleRuns.TableIsKeptIff | Software/main/alarm_clock.cpp:289-312 | for any clock at all, one table is kept over a run if and only if each minute with a row due is gone by once when some check reads it and not at all otherwise |
| ScheduleRuns.StraddleActsTwice | Software/main/alarm_clock.cpp:289-303 | after a check that straddles into a minute, that minute's own check acts on its row a second time |
| ScheduleRuns.NextActionIsOnTime | Software/main/alarm_clock.cpp:289-312 | nothing acts before the minute `nextAlarm` names, and in that minute exactly its row does |
| AlarmClock.AlarmTask.SetMaster | Software/main/alarm_clock.cpp:152-158 | the gain changes only when it is in range and the write is taken |
| AlarmClock.AlarmTask.SetPowerState | Software/components/services/audio/src/AudioService.cpp:311-325 | the power state changes only when the write is taken; a failed one puts the old state back |
| AlarmClock.AlarmTask.StartSource | Software/main/alarm_clock.cpp:169-182 | web radio on with the row's URL, or web radio off and the row's preset with its gain, each only when its service agrees |
| AlarmClock.AlarmTask.WakeSpeaker | Software/main/alarm_clock.cpp:185-191 | the speaker link is asked back exactly when it is seen to be down |
| AlarmClock.AlarmTask.TurnOff | Software/main/alarm_clock.cpp:193-204 | no ramp, no deadline, web radio off and standby, as far as the services agree |
| AlarmClock.AlarmTask.TurnOn | Software/main/alarm_clock.cpp:206-227 | the whole state after a row turns the radio on: source, start gain, power, speaker link, ramp, duration deadline |
| AlarmClock.AlarmTask.StepRamp | Software/main/alarm_clock.cpp:237-261 | the whole state after one ramp step, with the elapsed seconds cut to 32 bits and a volume the user may set between its look and its write |
| AlarmClock.AlarmTask.CheckDeadlines | Software/main/alarm_clock.cpp:268-287 | standby drops both deadlines; a passed one turns the radio off; otherwise nothing changes |
| AlarmClock.AlarmTask.CheckSchedule | Software/main/alarm_clock.cpp:289-312 | the whole state after a check: it acts on the first due row once per minute read, and not at all before the clock is set |
| AlarmClock.AlarmTask.Pass | Software/main/alarm_clock.cpp:314-322 | one uninterrupted tick is ramp, then deadlines, then schedule |
| AlarmClock.AlarmTask.SetSleep | Software/main/alarm_clock.cpp:380-396 | the sleep deadline is so many minutes from now, or none for zero, and nothing else changes |
| AlarmClock.TickIsThreeEvents | Software/main/alarm_clock.cpp:314-322 | such a tick is a run of its three parts, between any two of which a run may put what the user does |
| AlarmClock.CheckTurnsOn | Software/main/alarm_clock.cpp:206-227 | a check whose first matching row turns the radio on leaves the gain at the foot of the ramp, the power on, the row's source, stream and preset, the speaker woken and the duration armed to the microsecond, each as far as its service agrees |
| AlarmClock.CheckTurnsOff | Software/main/alarm_clock.cpp:193-204 | one whose row turns it off ends ramp and deadlines, stops the web radio and switches off, as far as the services agree, and changes nothing else |
| AlarmClock.CheckPasses | Software/main/alarm_clock.cpp:289-306 | any other check at most notes the minute |
| AlarmClock.RunFollowsSchedule | Software/main/alarm_clock.cpp:289-322 | whatever the user does in between, a run acts on exactly the rows its clock reads select |
| AlarmClock.RunKeepsTableIff | Software/main/alarm_clock.cpp:289-322 | over whole runs of the task, ramps, deadlines and user requests included, every table is kept if and only if no check straddles a minute |
| AlarmClock.RunKeepsThisTableIff | Software/main/alarm_clock.cpp:289-322 | the condition for one table, carried to runs of the whole task |
| AlarmClock.RampClimbs | Software/components/core/src/AlarmSchedule.cpp:85-95 | the ramp never falls with time, never passes its target and never starts below -45 dB |
| AlarmClock.RampIsLinear | Software/components/core/src/AlarmSchedule.cpp:85-95 | between its ends the ramp is the straight line from -45 dB to its target |
| AlarmClock.RampRunClimbs | Software/main/alarm_clock.cpp:237-261 | as long as the user leaves the volume alone and gains are taken, whatever sleep timers they set and however they switch power, the gain never drops from event to event, never passes the target, and is exactly the target with the ramp finished once its time is over |
| AlarmClock.VolumeIsUsers | Software/main/alarm_clock.cpp:237-261 | with no ramp, over any run in which no row turns the radio on, the gain is the one the user last chose |
| AlarmClock.UserMoveEndsRamp | Software/main/alarm_clock.cpp:231-261 | a ramp step that finds the gain more than 0.5 dB away ends the ramp for good: from then on the gain is the user's until a row turns the radio on |
| AlarmClock.MoveIsKeptIff | Software/main/alarm_clock.cpp:231-254 | a volume set before a step of a fade-in is kept by it if it is more than 0.5 dB from the gain last asked for, and is otherwise replaced by the ramp's |
| AlarmClock.MoveInsideIsKeptIff | Software/main/alarm_clock.cpp:249-254 | a volume set in the middle of a step, however far off, is kept exactly when that step writes nothing or its write fails |
| AlarmClock.FadeInGoesOn | Software/main/alarm_clock.cpp:237-261 | whichever writes fail and whatever the user sets, as long as no step finds the gain further than 0.5 dB from the one last asked for, the fade-in goes on, with the gain where it was last taken or set |
| AlarmClock.FadeInIsDropped | Software/main/alarm_clock.cpp:237-261 | from the first step that finds it further off, the gain stays as it stood there, or as the user sets it, for the rest of the run |
| AlarmClock.FadeInEndsOn | Software/main/alarm_clock.cpp:237-261 | the gain any fade-in ends on, from any start, for any failures and moves |
| AlarmClock.FadeInArrivesIff | Software/main/alarm_clock.cpp:237-261 | a fade-in ends on its volume if and only if its last write is taken and no step finds the gain further than 0.5 dB from the one last asked for |
| AlarmClock.OneRefusedWrite | Software/main/alarm_clock.cpp:237-261 | in a fade-in the user leaves alone, a single refused write keeps it from its volume if and only if it is the last or a step of more than 0.5 dB |
| AlarmClock.TwoSmallRefusals | Software/main/alarm_clock.cpp:237-261 | two refused writes in a row, each of 0.4 dB and neither the last, end a fade-in where it began: a concrete run |
| AlarmClock.DeadlineTickTurnsOff | Software/main/alarm_clock.cpp:263-287 | a tick past a live deadline leaves no ramp and no deadline and stops the web radio, and it reaches standby if and only if a power write is taken |
| AlarmClock.DeadlinesWait | Software/main/alarm_clock.cpp:263-287 | whatever volume the user sets and however they switch power between checks, the sleep timer is ended only by a new sleep request, a check past a deadline or while off, or a row that turns the radio off; a duration by any of these but the request, or by a row |
| AlarmClock.PowerStaysOn | Software/main/alarm_clock.cpp:263-312 | in such a run the radio stays on unless the user switches it off |
| AlarmClock.OffStaysOff | Software/main/alarm_clock.cpp:193-312 | once off with no ramp, the radio stays off until the user or a row turns it on, whatever sleep timers are set and whatever fails |
| AlarmClock.SleepTimerTurnsOff | Software/main/alarm_clock.cpp:268-287 | over a whole run with volume moves, power switches and rows that turn the radio on in between, the first check past the sleep deadline that finds the radio on ends all that is pending, and the radio is off if and only if the power write is taken |
| AlarmClock.SleepTimerIsExact | Software/main/alarm_clock.cpp:263-287 | a sleep timer set while nothing else is pending leaves the radio on at every check before so many minutes are over and turns it off at the first one after, if and only if the power write is taken; one of no minutes never does |
| AlarmClock.StandbyForgets | Software/main/alarm_clock.cpp:268-276 | switching off by hand, for one check, forgets both timers and nothing else |
| AlarmClock.WakeUpReachesVolume | Software/main/alarm_clock.cpp:206-261 | from the check that wakes the radio, with every gain write taken and the volume left alone, the user free to set sleep timers and switch power, the gain climbs step by step and is the row's volume from the end of the fade-in on |
| AlarmClock.WakeUpArrivesIff | Software/main/alarm_clock.cpp:206-261 | from the check that wakes the radio, whose own gain write may fail, for any failures and moves: the fade-in ends on the row's volume if and only if its last write is taken and no step finds the gain further than 0.5 dB from the one last asked for |
| AlarmClock.FailedStartHasNoFadeIn | Software/main/alarm_clock.cpp:206-261 | a turn-on whose own gain write fails with the old volume far off has no fade-in: the old volume stays until the user changes it |
| AlarmClock.DurationTurnsOff | Software/main/alarm_clock.cpp:206-312 | from the check that wakes the radio, with volume moves, power switches and sleep requests in between, the first check past the duration that finds the radio on ends all that is pending, and the radio is off if and only if the power write is taken |
| AlarmClock.DurationIsExact | Software/main/alarm_clock.cpp:206-287 | so does the duration of the row that woke the radio, to the microsecond |
| AlarmClock.GainStaysInRange | Software/main/alarm_clock.cpp:152-158 | whatever volumes the rows ask for, the task never takes the gain out of -96 to 12 dB |
| SlideFlash.ProgrammedHolds | Software/main/dab_slideshow.cpp:97-107 | on flash that only clears bits, a write into erased sectors stores exactly its bytes, ANDed where the slide wrote before |
| SlideFlash.ErasedHolds | Software/main/dab_slideshow.cpp:154-172 | erasing a sector this slide has not erased destroys none of its bytes, even when the erase fails half-way |
| SlideFlash.FlashSlideStore.BeginSlide | Software/main/dab_slideshow.cpp:84-95 | the writing slot moves on, past the shown one; the slide on show is untouched; a refused begin still moves on |
| SlideFlash.FlashSlideStore.EraseSectors | Software/main/dab_slideshow.cpp:154-172 | every sector of the range is erased once; none is erased twice in one slide; only the writing slot changes; it fails exactly on a flash fault |
| SlideFlash.FlashSlideStore.WriteSlide | Software/main/dab_slideshow.cpp:97-107 | the slide holds what it held with the new bytes merged in; the shown slot keeps every byte; it fails exactly without a flash area, out of range or on a flash fault, and then loses only what it touched |
| SlideFlash.FlashSlideStore.CommitSlide | Software/main/dab_slideshow.cpp:109-118 | the slide just written is on show and reads back what its writes stored |
| SlideFlash.FlashSlideStore.ClearSlides | Software/main/dab_slideshow.cpp:120-124 | nothing is on show; the slide being written goes on |
| SlideFlash.FlashSlideStore.Read | Software/main/dab_slideshow.cpp:132-146 | exactly the requested part of the slide on show, cut at its end; nothing without a slide, past its end or from unreadable flash |
| SlideFlash.FlashSlideStore.Download | Software/components/net/src/SetupWebServer.cpp:2495-2506 | sends the front of the slide that the buffers add up to before the first read that fails |
| SlideRuns.AgreeingWritesReadBack | Software/main/dab_slideshow.cpp:97-107 | writes that agree where they overlap, in any order and repeated at will, all read back |
| SlideRuns.WritesReadBackIffAgree | Software/main/dab_slideshow.cpp:97-107 | every write of a slide reads back if and only if no two of its writes disagree on a byte |
| SlideRuns.StoreWrites | Software/main/dab_slideshow.cpp:97-107 | the store refines the AND-merge of a slide's writes, and stops early exactly on a misfit or a flash fault |
| SlideRuns.StoreSlide | Software/main/dab_slideshow.cpp:84-118 | begin, agreeing writes in any order, commit: the slide on show reads back byte for byte, or on failure the old one is still whole |
| SlideRuns.NotChosenAgain | Software/main/dab_slideshow.cpp:84-95 | once chosen, a slot is skipped by each of the next fourteen begins: the shown slot costs at most one skip per lap |
| SlideRuns.WearSpreads | Software/main/dab_slideshow.cpp:84-124 | whatever commits and clears come between, any fifteen consecutive begins choose fifteen different slots |
| SlideReads.OneSlideComesWhole | Software/components/net/src/SetupWebServer.cpp:2495-2506 | reads that all find one slide send it from the front, exactly as far as they reach |
| SlideReads.DownloadIsUntornIff | Software/components/net/src/SetupWebServer.cpp:2486-2506 | whatever the slides hold, what the loop sends is a front of one slide if and only if no read finds another on show |
| SlideReads.ReadOnce | Software/main/dab_slideshow.cpp:132-146 | a round of the loop on the store is a round of its specification with the slide then on show, and the last one when the flash does not answer |
| SlideReads.DownloadWhileWriting | Software/main/dab_slideshow.cpp:84-146 | on the store itself, with any begins, writes, commits, clears and failed flash reads between and at the reads: what is sent depends only on what the reads find, that changes only with a commit, and without one it is a front of the slide asked for |
| SlideReads.StoreThenDownload | Software/main/dab_slideshow.cpp:84-146 | a slide stored in agreeing writes of any order and then read in parts of any sizes comes back byte for byte, unless the flash faults |
| SlideReads.TornDownload | Software/main/dab_slideshow.cpp:132-146 | a run on the store, with a commit between two reads, whose download is half of one slide and half of the next |
| MotSlides.MotSlideAssembler.Apply | Software/components/core/src/MotSlideAssembler.cpp:82-101 | a header begins its object exactly when it is a new, small enough image, on a new service too; a wanted segment of a carousel's object is counted and the last one missing publishes it, any other changes nothing; what is on show changes only under a new id or goes with its service, and for any order, loss or repetition of a carousel's groups it is one whole object of the current service, byte for byte |
| MotSlides.MotSlideAssembler.OnHeader | Software/components/core/src/MotSlideAssembler.cpp:103-126 | an object is begun exactly for a new, small enough image; what is on show stays |
| MotSlides.MotSlideAssembler.OffsetOf | Software/components/core/src/MotSlideAssembler.cpp:158-176 | a segment of the object in progress goes exactly where the object has it, and fixes the object's segment size unless it is the last; any other either stays within the body or is refused |
| MotSlides.MotSlideAssembler.OnBody | Software/components/core/src/MotSlideAssembler.cpp:128-156 | a wanted segment of the object is counted, or a flash fault drops the object; the one that completes it publishes all of it under the next id; an unwanted one changes nothing at all; what is on show never changes without a new id |
| MotSlides.SegmentOf | Software/components/core/src/MotSlideAssembler.cpp:158-176 | every byte of an object lies in some segment, so all segments together are all bytes |
| MotSlides.Pigeonhole | Software/components/core/src/MotSlideAssembler.cpp:178-182 | counting is enough: as many different segments as the object has are all of them |
| MotSlides.StoredOneMore | Software/components/core/src/MotSlideAssembler.cpp:142-146 | storing a segment, first or last received, adds its bytes and changes none |
| MotSlides.AllStored | Software/components/core/src/MotSlideAssembler.cpp:150-155 | when the count is reached every byte of the object is stored |
| MotSlides.DeliverObject | Software/components/core/src/MotSlideAssembler.cpp:82-182 | group by group through the assembler's entry, from any service before: from its header on, among segments of any objects in any order, and with repeats of any content, an object is on show, whole and as what its header said, exactly when all of its segments have come (at most 1024), unless the flash faults |
| MotSlides.ReusedIdMixes | Software/components/core/src/MotSlideAssembler.cpp:128-156 | an object that changes under its transport id half-way is shown as a mixture of both: a concrete run |
| MotVersions.FirstIsFirst | Software/components/core/src/MotSlideAssembler.cpp:131-146 | the version a segment is stored in is the one it was first received in |
| MotVersions.SegmentOfMixture | Software/components/core/src/MotSlideAssembler.cpp:158-176 | each segment of the mixture is that segment of its version, byte for byte |
| MotVersions.MixtureIsOneVersionIff | Software/components/core/src/MotSlideAssembler.cpp:128-156 | whatever the versions hold, the mixture is one of them if and only if all its segments come from one |
| MotVersions.DeliverVersions | Software/components/core/src/MotSlideAssembler.cpp:103-182 | for any object that changes version while it comes in, cut up alike: what is on show once all segments have come is the mixture of the versions each was first received in, unless the flash faults |
| WebRadioPlayer.InputBuffer.Compact | Software/main/web_radio_stream.cpp:163-169 | sliding in place moves the unread bytes to the front unchanged |
| WebRadioPlayer.Player.Refill | Software/main/web_radio_stream.cpp:163-175 | the buffer gains the ring's front and nothing else moves; it always has room for at least one byte |
| WebRadioPlayer.Player.DecodeAndPlay | Software/main/web_radio_stream.cpp:237-276 | the read position stays inside the buffer and moves by exactly what the branch taken consumes |
| WebRadioPlayer.Player.Step | Software/main/web_radio_stream.cpp:296-312 | one step of the play loop: where every byte is afterwards, and exactly when it stops to refill the ring |
| WebRadioPlayer.Advance | Software/main/web_radio_stream.cpp:242-261 | the read position never passes the unread bytes, and moves unless the decoder lacks data |
| WebRadioPlayer.StepKeepsBytes | Software/main/web_radio_stream.cpp:296-312 | a step loses, adds and reorders no byte and keeps the buffer within 4096 |
| WebRadioPlayer.StepMakesProgress | Software/main/web_radio_stream.cpp:296-302 | with no new bytes, each step short of a rebuffer lowers (ring, unread) lexicographically |
| WebRadioPlayer.RunIsBounded | Software/main/web_radio_stream.cpp:356-360 | so no run of steps, however corrupt the stream, outlasts the bytes at hand |
| WebRadioPlayer.StepTopsUp | Software/main/web_radio_stream.cpp:296-298 | a step tops up exactly with less than 1940 bytes at hand, and then until the buffer is full or the ring empty |
| WebRadioPlayer.RebuffersIffDry | Software/main/web_radio_stream.cpp:298-303 | it stops to refill the ring if and only if the ring is empty and the decoder has nothing or too little |
| WebRadioPlayer.SoundStreamIsAllFrames | Software/main/web_radio_stream.cpp:237-276 | over a run of good frames the read position passes exactly the frames: no byte is skipped |
| WebRadioPlayer.CorruptHeaderLosesOneByte | Software/main/web_radio_stream.cpp:253-262 | only an error at which the decoder took nothing more makes it skip, and then one byte |
| WebRadioPlayer.StatusTellsOutput | Software/main/web_radio_stream.cpp:286-309 | the output is shown at fault from a frame it refuses to the next it takes, whatever comes between |
| WebRadioTasks.HandshakeKept | Software/main/web_radio_stream.cpp:314-345 | starts, gives and takes of `done` stay matched across every step of both tasks |
| WebRadioTasks.ConservedKept | Software/main/web_radio_stream.cpp:163-175 | every step keeps accepted bytes equal to passed, unread and ring, and both buffers within their sizes |
| WebRadioTasks.PushingKept | Software/main/web_radio_fetch.cpp:226-236 | at every step of a push the ring has taken exactly the sent front of its chunk |
| WebRadioTasks.RingIsPlayersAlone | Software/main/web_radio_stream.cpp:325-404 | in every interleaving the ring is created, reset, deleted or started on only when no network task exists and no `done` is pending |
| WebRadioTasks.GivesAndTakesAlternate | Software/main/web_radio_fetch.cpp:336-360 | every start has exactly one give and one take; no give finds the semaphore full |
| WebRadioTasks.StreamIsConserved | Software/main/web_radio_session.hpp:42-55 | in every reachable state of a session, the bytes the ring took are those passed, unread and in the ring, in order |
| WebRadioTasks.PushPutsItAllIn | Software/main/web_radio_fetch.cpp:226-236 | a push that reports success put its whole chunk in, after what was there |
| WebRadioTasks.PushDecides | Software/main/web_radio_fetch.cpp:226-262 | a push goes on exactly while bytes are left and no stop is seen, and its connection ends exactly when one is |
| WebRadioTasks.StepIsTwoEvents | Software/main/web_radio_stream.cpp:296-312 | a play-loop step is one top-up and one move of the read position of the protocol |
| WebRadioTasks.StopIsHonoured | Software/main/web_radio_fetch.cpp:226-262 | once the stop flag is up each step of the network task brings its give nearer |
| WebRadioTasks.StopNeverHangs | Software/main/web_radio_stream.cpp:314-323 | while the player waits, `done` can be taken or the network task can move |
| WebRadioTasks.NetworkNeverStuck | Software/main/web_radio_fetch.cpp:226-360 | in every reachable state the network task has a step to take until it has given `done` |
| WebRadioTasks.WholeSession | Software/main/web_radio_stream.cpp:325-404 | the protocol does go through: for any chunk the input buffer can hold, a session that pushes it, passes it on, and ends with no ring, no task and no pending semaphore |
| WebRadioTasks.FailedSession | Software/main/web_radio_stream.cpp:325-355 | a session that fails before its network task starts: a run of it, at the end of which all is as at start-up |
| WebRadioFetch.OpenFollowingRedirects | Software/main/web_radio_fetch.cpp:169-186 | at most five opens, each but the last redirected; the last answer, or failure when it redirects too |
| WebRadioFetch.StreamOnce | Software/main/web_radio_fetch.cpp:293-318 | what an attempt opens, what it comes to, and that only a resolved playlist changes the URL |
| WebRadioFetch.NextStep | Software/main/web_radio_fetch.cpp:349-355 | the back-off index stays within its table |
| WebRadioFetch.PausesBackOff | Software/main/web_radio_fetch.cpp:347-356 | in figures: one second after a stream, thirty after a refusal for good, and two, five, ten, ten... for each failure in a row |
| WebRadioFetch.OutcomeInFigures | Software/main/web_radio_fetch.cpp:161-186 | which codes are followed, and what an attempt comes to for each answer and kind of content |
| WebRadioFetch.AttemptFollows | Software/main/web_radio_fetch.cpp:342-346 | an attempt starts at the session's URL or the one just resolved and leaves the back-off alone |
| WebRadioFetch.AppendUnpaused | Software/main/web_radio_fetch.cpp:342-346 | opens since the last pause and attempts started add up over a stretch without a pause |
| WebRadioFetch.StretchesOpenFew | Software/main/web_radio_fetch.cpp:336-360 | if no moment has had more than 20 opens since its last pause, no stretch between two pauses has |
| WebRadioFetch.Pause | Software/main/web_radio_fetch.cpp:321-327 | a pause lasts what it should to the next 200 ms, or ends at the look that sees the stop flag |
| WebRadioFetch.FetchTask | Software/main/web_radio_fetch.cpp:336-360 | at most 20 opens between two pauses; URLs follow each attempt's outcome, and pauses the count of failures; a playlist's stream is gone on to at once, up to the third in a row; one attempt at each loop head before stop and none after; every pause lasts but one that stop cuts short, and nothing follows that one |
| IcyFilter.StripIsChunkwise | Software/components/core/src/IcyStreamFilter.cpp:132-154 | where the stream is cut changes neither the audio nor the state |
| IcyFilter.AudioRun | Software/components/core/src/IcyStreamFilter.cpp:144-151 | copying a run at once equals taking its bytes one by one |
| IcyFilter.RoundIsRecovered | Software/components/core/src/IcyStreamFilter.cpp:132-186 | one round as a server sends it gives back its audio and its block, and the filter is ready for the next |
| IcyFilter.StreamIsRecovered | Software/components/core/src/IcyStreamFilter.cpp:132-186 | decoding what a server encodes yields exactly its audio and exactly its metadata blocks |
| IcyFilter.IcyStreamFilter.ConsumeControlByte | Software/components/core/src/IcyStreamFilter.cpp:161-176 | one length or metadata byte moves the cycle on |
| IcyFilter.IcyStreamFilter.FinishMetadata | Software/components/core/src/IcyStreamFilter.cpp:178-186 | the finished block is handed over and the audio run starts over |
| IcyFilter.IcyStreamFilter.Filter | Software/components/core/src/IcyStreamFilter.cpp:132-154 | compacting a chunk in place leaves exactly its audio and the state byte-by-byte decoding gives |
| PcmOutput.I2sSink.WriteSamples | Software/main/esp32_i2s_sink.cpp:107-120 | for any pattern of timeouts: all samples in order, or some front of them and an error |
| PcmOutput.WriteBatches | Software/main/phone_stream.cpp:27-51 | for any batch size the sink gets each sample as the top half of its slot with zeros below, in order; it fails only at a write that fails, with a front of them sent |
| PcmOutput.WritePcm16Stereo | Software/main/phone_stream.cpp:27-51 | the phone's 1024-frame loop sends exactly that |
| PcmOutput.WriteI2s | Software/main/web_radio_stream.cpp:178-192 | the radio's 480-frame loop sends the same; an odd last sample is dropped |
| PcmOutput.SamplesAppend | Software/main/phone_pcm_server.cpp:91 | samples of joined byte strings are the joined samples when the cut is even |
| PcmOutput.PlayedIsHeard | Software/main/phone_pcm_server.cpp:89-92 | the slots of received bytes, figure by figure: low byte times 2^16, high byte times 2^24, less 2^32 when its top bit is set, for each two bytes of the whole frames |
| PcmOutput.PlayReceived | Software/main/phone_pcm_server.cpp:89-98 | the whole frames received so far are played and fewer than four bytes are kept for later |
| PcmOutput.Pump | Software/main/phone_pcm_server.cpp:77-100 | however `recv` cuts the stream, what is heard is the samples of the longest prefix of whole frames received; at the first failed write it stops, with a front of that heard and all of the first `total` bytes; without one it plays to the end of the stream |
| SinkOwnership.AudioOutput.TryAcquire | Software/main/esp32_i2s_sink.cpp:91-95 | taken afterwards, and got exactly when it was free |
| SinkOwnership.AudioOutput.ClaimEsp32Input | Software/main/audio_routing.cpp:43-59 | the old source is remembered exactly when this call switched away from it; a failed switch changes nothing |
| SinkOwnership.AudioOutput.RestorePreviousSource | Software/main/audio_routing.cpp:61-74 | only its own switch is undone, and nothing stays remembered |
| SinkOwnership.ClaimInSteps | Software/main/audio_routing.cpp:43-59 | a claim in its steps, alone, comes to the claim at once |
| SinkOwnership.RestoreInSteps | Software/main/audio_routing.cpp:61-74 | so does giving the source back |
| SinkOwnership.AudioOutput.Stream | Software/main/phone_pcm_server.cpp:102-119 | one undisturbed stream gives the source back, or keeps another one the user chose; a busy sink is left alone |
| SinkOwnership.SinkHasOneOwner | Software/main/esp32_i2s_sink.cpp:91-105 | over every interleaving of both producers and the user, at most one is between acquire and release, the flag says so, and a source is remembered only by it |
| SinkOwnership.RunStaysBorrowed | Software/main/audio_routing.cpp:43-74 | at each point of every run, whatever the user chooses and whichever switches fail, the active and remembered source follow from what the claim found, how the switches went, and where the owner stood at the latest choice |
| SinkOwnership.SourceIsGivenBackIff | Software/main/audio_routing.cpp:43-74 | in every run, when a restore ends the source is the one its claim found, or another the user has since chosen, if and only if no switch under way overwrote that choice, no switch failed that it needed, and its own input was not chosen after the switch back |
| SinkOwnership.SourceIsGivenBack | Software/main/audio_routing.cpp:43-74 | in particular when both switches work and the user chooses while the stream plays, if at all |
| SinkOwnership.ChoiceDuringClaimIsLost | Software/main/audio_routing.cpp:48-56 | a choice between the look and the switch of a claim is lost: a concrete run |
| SinkOwnership.ChoiceDuringSwitchBackIsLost | Software/main/audio_routing.cpp:68-69 | so is one between the look and the switch back of a restore |
| OtaProbation.SystemDiag.ConfirmNow | Software/components/services/ota/src/OtaService.cpp:47-72 | the image is confirmed only when its state can be read and the mark is taken |
| OtaProbation.SystemDiag.Json | Software/main/system_diag.cpp:166-172 | a health read counts only from 60 s of uptime on |
| OtaProbation.SystemDiag.ProbationCheck | Software/main/system_diag.cpp:132-152 | what each periodic check does to image and timer |
| OtaProbation.SystemDiag.ConfirmOtaAfterProbation | Software/main/system_diag.cpp:196-216 | probation starts once; without a timer the image is confirmed at once |
| OtaProbation.SeenMeansServed | Software/main/system_diag.cpp:166-170 | in every run the flag stands for a health read served at 60 s or later |
| OtaProbation.OneWay | Software/main/system_diag.cpp:118-152 | a confirmed image stays confirmed, and the lowest free heap never rises |
| OtaProbation.ConfirmationWasEarned | Software/main/system_diag.cpp:132-152 | in every run a confirmed image was confirmed by one periodic check, after a health read at 60 s or later, with the heap never below the limit until then |
| OtaProbation.LowHeapIsNeverConfirmed | Software/main/system_diag.cpp:139-149 | once the heap was too low while pending, nothing that follows confirms the image |
| OtaProbation.ConfirmedIffDecided | Software/main/system_diag.cpp:132-152 | in every run at most one check ends probation, and the image is confirmed if and only if that check has come, could read the state, found the heap intact and had its mark taken |
| OtaProbation.HealthyImageIsConfirmed | Software/main/system_diag.cpp:132-152 | in every run, a late health read and a next check that can read the state, with the heap intact, confirm the image exactly when the mark is taken |
| OtaProbation.ConfirmedIff | Software/main/system_diag.cpp:118-216 | in every run, whatever the timer service does, the image is confirmed if and only if a check found it healthy, with its state readable and the mark taken, or a start of probation got no running timer and the same replies |
| OtaProbation.TimerRunsIff | Software/main/system_diag.cpp:196-216 | the timer runs if and only if some start got it made and running, the first to get it made, and no check has stopped it |
| OtaProbation.SettledIffEarnedOrUnreadable | Software/main/system_diag.cpp:174-178 | in every run boot counts as settled after 20 s if and only if the image has earned its confirmation or its state cannot be read |
| OtaProbation.SettledEarlyIffUnreadable | Software/main/system_diag.cpp:166-178 | in every run, between 20 s and 60 s the image is pending, and boot counts as settled if and only if its state cannot be read |
| AntennaFit.NoLineIff | Software/tools/si4684_antenna_calibration.py:207-216 | no line exactly with fewer than two points or all at one x |
| AntennaFit.ErrorMoves | Software/tools/si4684_antenna_calibration.py:217-219 | how the squared error changes from any line to any other |
| AntennaFit.FitHasNoMoment | Software/tools/si4684_antenna_calibration.py:211-219 | the fit satisfies the normal equations |
| AntennaFit.FitIsBest | Software/tools/si4684_antenna_calibration.py:207-219 | no line has a smaller sum of squared residuals, and no other line has as small a one |
| AntennaFit.CollinearGivesBackLine | Software/tools/si4684_antenna_calibration.py:207-219 | points on a line give back that line |
| DspBlob.PackWrites | Software/tools/pack_dsp_program.py:33-47 | packs exactly the lists whose fields fit, into the documented layout; when the first entry that does not fit is empty, and only then, that is the error, with its address |
| DspBlob.ParseBlocks | Software/components/core/src/DspProgramBlob.cpp:120-149 | the loop finds the blocks the format's recursive reading finds, or none |
| DspBlob.ParseDspProgramBlob | Software/components/core/src/DspProgramBlob.cpp:90-150 | accepts or rejects each blob with the first error in the source's order |
| DspBlob.BlocksRoundTrip | Software/components/core/src/DspProgramBlob.cpp:124-147 | packed blocks parse back exactly when none is over-long |
| DspBlob.BlobFields | Software/tools/pack_dsp_program.py:43-47 | the length is 12 plus the sum of 4 + len, and every header field reads back |
| DspBlob.FirmwareRecoversProgramIff | Software/components/core/src/DspProgramBlob.cpp:90-150 | the firmware gets back what the tool packed if and only if it is within the firmware's limits, and otherwise says which limit class failed |
| DspBlob.FirmwareGetsEntries | Software/tools/pack_dsp_program.py:33-47 | the firmware parses the tool's input back: each entry's address, and its data up to multiples of 256 |
| DspBlob.BytesComeBack | Software/tools/pack_dsp_program.py:33-37 | a parsed write that carries an entry whose data are bytes is that entry, byte for byte |
| DspBlob.PackAndParse | Software/tools/pack_dsp_program.py:33-47 | packing any list and parsing the result gives it back within the limits and an error otherwise |
| DspBlob.HeaderBytes | Software/tools/pack_dsp_program.py:43-47 | the header byte by byte: the letters DRAD, version 1, count and checksum, low bytes first |
| DspBlob.BlockLayout | Software/tools/pack_dsp_program.py:36-41 | a block byte by byte: address and length, low bytes first, then the data |
| DspBlob.RefusedFor | Software/components/core/src/DspProgramBlob.cpp:93-118 | for each error, exactly the blobs refused with it |
| DspBlob.PackingIsInjective | Software/tools/pack_dsp_program.py:33-47 | two different programs never pack to the same blob |
| DspBlob.AcceptedIsPacked | Software/components/core/src/DspProgramBlob.cpp:90-150 | a blob the firmware accepts is byte for byte the packing of what it parsed |
| MeshWeld.WeldVertices | Hardware-v2/enclosure/digiradio_v2_case.py:350-357 | distinct rounded vertices, all of them and no others, and each vertex mapped to its own |
| MeshWeld.KeepTriangles | Hardware-v2/enclosure/digiradio_v2_case.py:358-361 | exactly the triangles whose three rounded corners differ, in order and orientation |
| MeshWeld.KeptOfOne | Hardware-v2/enclosure/digiradio_v2_case.py:358-361 | one triangle is kept, with its corners in their order, exactly when its three rounded corners differ |
| MeshWeld.KeptOfBoth | Hardware-v2/enclosure/digiradio_v2_case.py:358-361 | of two lists in a row, what is kept is what is kept of each, in order |
| MeshWeld.MeshOf | Hardware-v2/enclosure/digiradio_v2_case.py:347-362 | both together, for any rounding |
| MeshWeld.ProperIffCornersDiffer | Hardware-v2/enclosure/digiradio_v2_case.py:359-361 | three different indices mean three different vertices |
| MeshWeld.PlacementsKeepOrientation | Hardware-v2/enclosure/digiradio_v2_case.py:365-374 | both placements keep every signed volume, so no triangle turns inside out |
| MeshWeld.PlacementsAreRigid | Hardware-v2/enclosure/digiradio_v2_case.py:365-374 | the lower shell is only moved, the upper one turned half round the y direction and moved |
| MeshWeld.PlacementsLieOnPlate | Hardware-v2/enclosure/digiradio_v2_case.py:365-374 | each shell lies in its own half of the plate, the margins and the gap kept, on or above the bed |
| MeshWeld.PlacementsFillTheirRoom | Hardware-v2/enclosure/digiradio_v2_case.py:365-374 | the lower one stands on its bottom, the upper one on its roof, each with its own edge at its margin |

## Left out

Contracts weaker than the code:

- AlarmClock.AlarmTask.Pass: each part of a tick but the ramp step is atomic; a sleep request, power switch or volume move that lands inside one, between its lock sections, is not modelled.
- AlarmClock.AlarmTask.StartSource: of a recalled preset, its station and its gain are modelled, and that the profile may fail after the tuning; the rest of its sound profile is not.
- AlarmClock.RampRunClimbs: gains are real numbers and the ramp is shorter than 2^32 seconds; float rounding is not modelled. What failing writes do is said by `AlarmClock.FadeInArrivesIff`.
- ScheduleRuns.ScheduleIsKeptIffNotStraddled: the local offset is fixed, the clock never runs backwards and is not first set between the two reads of one check; daylight-saving jumps are not modelled.
- SlideFlash.FlashSlideStore.WriteSlide: offset plus length lies between 1 and 2^32: at 0 the source's last-sector arithmetic underflows, beyond 2^32 its sum wraps, and both index past its table of erased sectors; its one caller excludes them.
- SlideFlash.FlashSlideStore.Download: the slide on show does not change between two reads of one download; `SlideReads.DownloadWhileWriting` lets it.
- MotSlides.MotSlideAssembler.Apply: groups arrive parsed, and the 32-bit wrap of offsets and of the next slide id is not modelled; that an object does not change under its transport id is the condition of the whole-object clause, and `MotVersions` says what happens otherwise.
- MotVersions.DeliverVersions: the versions of an object have the same length and the same segment size; for others the code refuses or misplaces segments, within the slot.
- WebRadioPlayer.Player.DecodeAndPlay: the MP3 decoder is a contract: its pointer stays in the unread span, a frame or a skip consumes bytes, and it lacks no data with 1940 bytes at hand.
- WebRadioFetch.FetchTask: what the network answers, and when the stop flag is first seen, are parameters.
- PcmOutput.WriteBatches: the two loops share one body with the batch size as its parameter, and the phone's fixed buffers are allocated per call.
- OtaProbation.ConfirmationWasEarned: asks that the timer service works; `OtaProbation.ConfirmedIff` says what happens without.
- AntennaFit.FitIsBest: sums are over the reals, and the two lists are one list of points, so of the same length.
- DspBlob.PackWrites: the checksum is any function of the payload, so nothing is said about CRC-32 (section 8 of RFC 1952) finding damage.
- MeshWeld.MeshOf: the rounding is any function; the tessellation that yields the mesh is not modelled.

Not modelled:

- HTTP, TLS, sockets, mDNS, NVS, SNTP, GPIO, I2S set-up, task creation and logging: calls into other software, replaced by their possible answers.
- The MP3 decoder, the resampler and the drift trim: library code and float interpolation.
- `waitForFill`, `publish` and the status pages: timing and reporting only.
- `chooseWebRadioRing`: the ring's capacity is any number.
- Reading MSC data groups, MOT headers, ICY titles, playlists and JSON from text or bytes: parsers whose results are parameters here.
- The I2S test-tone build, which ignores the in-use flag.
- The case geometry and the 3MF writer: library calls and file layout.
- Task stack reports and the task registry: tables without further logic.
