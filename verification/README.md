# A verified model of the reTerminal e-paper signage system

The system shows meeting-room schedules on battery-powered e-paper panels. A broker written in Go polls
calendars, renders each room's day, quantizes it to the six Spectra 6 inks, packs, compresses and caches it;
firmware written in C++ wakes, asks for the frame with a conditional GET, draws it if it changed, reports its
health and goes back to sleep for as long as the broker says. This project models that path end to end in
Dafny 4.11 and proves what it promises.

| file | models |
|---|---|
| `Arith`, `Bytes`, `Wrappers` | shared arithmetic, bytes, little-endian words, in-place copies, option and result types |
| `PackBits`, `PackBitsTheorems` | the run-length codec (section 9 of TIFF Revision 6.0) and its guarantees |
| `Ink`, `Frame`, `Mdpf` | palette codes, 4-bit packing, the MDPF wire format, the firmware's parse, slice and decode |
| `Quantize`, `Dither`, `DitherLaw`, `DitherTheorems` | nearest ink, Floyd-Steinberg dithering and the law that determines it, conservation and identity |
| `Nvs`, `NvsBuilder`, `NvsReader` | the provisioning image format, the page writer, an independent reader |
| `Calendar`, `Wake`, `WakePlan` | room status and its transitions, the wake grid, the two wake strategies and what one sleep guarantees |
| `SmartRuns`, `FlatRuns` | whole runs of a device on either strategy, on snapshots of any age |
| `Latch`, `Charging`, `Alerts` | the alert latch, charge tracking, and the manager that interleaves them |
| `Fleet` | in-memory telemetry, the stale threshold, the offline checker |
| `TelemetryQueue` | the durable telemetry queue under every interleaving |
| `ETags`, `Cache`, `Poller`, `Coherence`, `PanelHistory`, `RepaintHistory`, `DisplayCycle` | the cache, the poller, and the conditional-GET protocol (section 13.1.2 and section 15.4.5 of RFC 9110) between broker and panel |
| `RateLimiter` | the fixed-window limiter |

Conventions. Instants and durations are integers, in nanoseconds as in Go. CRC-32 is a function parameter: no
result depends on which function it is, and collision freedom is assumed only where a statement says so. Loops
and objects that change in place are methods and classes whose `ensures` equate the result or new state with a
specification function; the theorems are about those functions.

Results that go beyond, or against, what the code's own text suggests:

- A fixed window of the limiter lets at most `2 * limit - 1` calls through in any span of one window, not
  `2 * limit`, and that is attained for every limit and window.
- "At most one forced refresh per local day" (`cache.go:59-65`) holds only between polls: the poller stores entries that
  were never forced, so each poll re-arms it. `Cache.ForcedIsHistory` is the exact condition, `Cache.ForcedTwiceInADay`
  a run. And a repaint is spent by its request being served, drawn or not: a lost response, a body cut short or a
  refresh that fails loses it (`RepaintHistory.RepaintIsExact`) until the next poll (`RepaintHistory.DueIsHistory`).
- The panel can contradict the broker after a refresh that times out with the new frame already sent, because the
  old hash is still remembered. `PanelHistory.StallBreaksCoherence` is the run; `PanelHistory.StallIsExact` says before
  a wake whether it can happen in it, `PanelHistory.CoherenceIsHistory` after any run whether it has.
- The sleep the broker expects is the sleep the device takes for every header but 0. `WakePlan.DisagreementIsExact` says
  when a header is 0: an expired snapshot (`WakePlan.StaleSnapshotIsIgnored`), but also a fresh look at an empty day in
  the last second before opening (`WakePlan.OpeningIsIgnored`).
- A wake computed from a snapshot up to a poll interval old is not "always correct" (`config.go:964-968`): while the
  change the snapshot foresees is ahead it is, but a device that wakes just after that change, as planned, may sleep
  its whole last interval again with the old status on its panel, whether that status is wrong already
  (`SmartRuns.StartIsMissed`) or has come round to being right for a while (`SmartRuns.EndIsMissed`).
  `SmartRuns.SnapshotIsExact` is the exact condition, for every schedule, snapshot and later wake.
- The checker announces devices that are not overdue: one whose next sleep is less than half its present one and its
  delay (`Fleet.HalvingIsNeeded`), and one that was sent a header of 0 and repeats a longer sleep
  (`Fleet.SilenceIsAnnounced`). `Fleet.AnnouncedIsExact` with `Fleet.CoverIsExact` is the exact condition.
- The grid arithmetic misses its boundary only before 1970-01-01 00:05 UTC or for intervals so near 2^32 that a
  second grid step overflows (`Wake.BoundaryIsExact`; `Wake.BoundaryMissedBeforeOrigin` and
  `Wake.BoundaryMissedByOverflow` are such inputs).
- `payload_len` is checked with a sum that wraps in the firmware's 32-bit `size_t`; `Mdpf.LengthCheckIsExact` says
  which lengths that concerns, `Mdpf.LengthCheckIsFooled` shows one, and `Coherence.OutcomeIsExact` that no frame the
  broker caches is one of them.
- Of raw calendar events, only ones that end no later than they start can make the filter change a room's status
  (`Calendar.StatusIsOrderFree`; `Calendar.EmptyEventIsDropped` is one).

## Model

| member | source | states |
|---|---|---|
| PackBits.PackBits | backend/internal/render/packbits.go:8-41 | the encoder loops produce the packet-by-packet encoding that the theorems below invert and measure |
| PackBits.RunLength | backend/internal/render/packbits.go:13-18 | the counting loop finds the longest run, capped at 128 |
| PackBits.LiteralLength | backend/internal/render/packbits.go:26-36 | the literal loop stops exactly at a triple, at 128 bytes or at the end |
| PackBits.RunFrom | backend/internal/render/packbits.go:13-18 | the run is all one byte and cannot be extended |
| PackBits.LiteralFrom | backend/internal/render/packbits.go:26-36 | no triple starts inside the literal, and one starts right after it unless it is full or last |
| PackBits.HeadLength | backend/internal/render/packbits.go:12-39 | every outer iteration advances, by at most 128 bytes |
| PackBits.PackBitsDecode | firmware/main/protocol.hpp:50-73 | the decoder terminates on any bytes, reads only inside them, writes exactly the decoded prefix of the screen and nothing beyond it |
| PackBits.CopyLiteral | firmware/main/protocol.hpp:55-60 | a literal stops at its packet, at the input or at a full screen, whichever is first |
| PackBits.Replicate | firmware/main/protocol.hpp:61-69 | a run stops at its packet or at a full screen |
| PackBits.Decode | firmware/main/protocol.hpp:50-73 | never more bytes than there is room for |
| PackBitsTheorems.RoundTrip | backend/internal/render/packbits.go:8-41 | decoding an encoding gives back the source exactly, for every source and any room that can hold it |
| PackBitsTheorems.PrefixDecodesToPrefix | firmware/main/protocol.hpp:50-73 | for arbitrary bytes, the decode of a prefix is a prefix of the decode |
| PackBitsTheorems.TruncationIsCaught | firmware/main/epd_spectra6.cpp:130-143 | every strict prefix of an encoding decodes to strictly fewer bytes than the source has |
| PackBitsTheorems.NeverEmitsNoOp | backend/internal/render/packbits.go:19-38 | the output splits into whole packets and 0x80 is never a control byte |
| PackBitsTheorems.SizeBound | backend/internal/render/packbits.go:8-41 | at most one byte more per started block of 128, and one fewer when a triple comes first |
| PackBitsTheorems.SizeBoundIsTight | backend/internal/render/packbits.go:8-41 | the bound is met by every source with no two equal neighbours |
| PackBitsTheorems.LiteralMeansTiff | firmware/main/protocol.hpp:55-60 | a control byte n - 1 announces n literal bytes, as in section 9 of TIFF Revision 6.0 |
| PackBitsTheorems.RunMeansTiff | firmware/main/protocol.hpp:61-69 | a control byte 257 - n announces the next byte n times |
| PackBitsTheorems.NoOpMeansTiff | firmware/main/protocol.hpp:61-62 | and 0x80 announces nothing |
| Ink.CodeFor | backend/internal/render/spectra6.go:187-192 | a nibble; anything outside the palette is white |
| Ink.CodesAreDistinct | backend/internal/render/spectra6.go:30-37 | a code identifies its ink |
| Frame.Pack | backend/internal/render/spectra6.go:171-185 | the raster loop produces the row-by-row packed framebuffer, of half the image's area in bytes |
| Frame.PackedPixel | backend/internal/render/spectra6.go:169-185 | for every pixel, its code is in the nibble of byte (y*w+x)/2 that its column parity selects |
| Mdpf.Encode | backend/internal/render/payload.go:30-62 | the buffer filled field by field is the specified wire image, with PackBits exactly when it is smaller |
| Mdpf.WireLayout | backend/internal/render/payload.go:14-62 | every byte of the wire image: magic, version, both flags, geometry, lengths, wake and hash least significant byte first, then the smaller of the two bodies |
| Mdpf.ParseHeader | firmware/main/protocol.hpp:37-44 | accepts exactly full-length headers with the right magic, version and depth |
| Mdpf.HeaderRoundTrip | firmware/main/protocol.hpp:19-44 | every header field survives the little-endian wire whatever follows it |
| Mdpf.ExtractBody | firmware/main/net_client.cpp:288-298 | the in-place slice leaves the body at the front of the buffer, or reports why not |
| Mdpf.LengthCheckIsExact | firmware/main/net_client.cpp:292-294 | which payload lengths make the 32-bit length sum wrap past the check |
| Mdpf.LengthCheckIsFooled | firmware/main/net_client.cpp:292-294 | a bare header claiming 2^32 - 1 bytes passes the check |
| Mdpf.FetchesWhatWasSent | firmware/main/net_client.cpp:288-298 | the device recovers exactly the header and body the broker built, compressed or raw |
| Mdpf.CutResponseIsRefused | firmware/main/net_client.cpp:288-293 | a response cut anywhere is refused, and the wake in its header is obeyed if the header is whole |
| Mdpf.Show | firmware/main/epd_spectra6.cpp:121-143 | the decode-or-copy into the framebuffer yields the specified frame or refuses |
| Mdpf.ShowsWhatWasSent | firmware/main/epd_spectra6.cpp:121-143 | a frame of the panel's geometry is reproduced byte for byte on both paths |
| Mdpf.ShowRefusesTruncation | firmware/main/epd_spectra6.cpp:139-143 | a body cut short anywhere is refused, on both paths |
| Mdpf.DeliversWhatWasSent | backend/internal/render/payload.go:30-62 | encode, parse, slice, decode is the identity on frames of the panel's size, and the header is the broker's |
| Mdpf.Pipeline | backend/internal/render/spectra6.go:171-192 | image to screen: each pixel's ink code arrives in its own nibble |
| Quantize.FindNearest | backend/internal/render/spectra6.go:91-104 | the search loop returns the first of the nearest candidates |
| Quantize.NearestIsNearest | backend/internal/render/spectra6.go:91-104 | no candidate is nearer, and no earlier one as near |
| Quantize.NearestIndex | backend/internal/render/spectra6.go:83-89 | greys can only become black or white |
| Quantize.NearestIndexIsNearest | backend/internal/render/spectra6.go:62-104 | the index is the first at the least weighted distance, among black and white only when no two channels differ by more than 12, and no other index is |
| Quantize.EachInkIsSent | backend/internal/render/spectra6.go:10-37 | each ink's colour reaches the controller as that ink's code |
| Quantize.InkIsNearestToItself | backend/internal/render/spectra6.go:30-37 | each of the six inks quantizes to itself |
| Quantize.QuantizeFlat | backend/internal/render/spectra6.go:113-121 | each pixel becomes its nearest ink |
| Dither.QuantizeDithered | backend/internal/render/spectra6.go:123-166 | the raster loops over the error buffer compute the specified walk |
| Dither.DitherPixel | backend/internal/render/spectra6.go:144-164 | one pixel: choose, then spread four shares in order over the neighbours that exist |
| DitherLaw.ClampIsCut | backend/internal/render/spectra6.go:132-140 | a value is cut to the greatest byte not above it, or to 0 below zero |
| DitherLaw.DitherIsExact | backend/internal/render/spectra6.go:123-166 | the output is the one image in which each pixel is the nearest ink to its source plus 7/16, 1/16, 5/16 and 3/16 of the errors of its left, upper-left, upper and upper-right neighbours, cut to bytes |
| DitherLaw.FlatIsExact | backend/internal/render/spectra6.go:113-121 | without dithering it is the one image of nearest inks |
| DitherTheorems.SpreadConserves | backend/internal/render/spectra6.go:153-160 | a share raises the sum of the unprocessed pixels or falls off the image; processed pixels never change |
| DitherTheorems.StepConserves | backend/internal/render/spectra6.go:144-164 | one pixel conserves emitted ink plus remaining colour plus what falls off |
| DitherTheorems.ConservedAtEveryPixel | backend/internal/render/spectra6.go:143-166 | the conservation law holds at every raster position |
| DitherTheorems.Conservation | backend/internal/render/spectra6.go:123-166 | per channel, source colour equals emitted ink colour plus exactly the shares that fell outside |
| DitherTheorems.InteriorLosesNothing | backend/internal/render/spectra6.go:153-164 | only the left, right and bottom edges lose colour |
| DitherTheorems.IdentityOnInks | backend/internal/render/spectra6.go:108-167 | an image drawn in exact inks comes out as those inks, dithered or not, at every size |
| NvsBuilder.Build | backend/internal/nvs/nvs.go:69-110 | succeeds exactly on a size of whole pages and at least two, short non-empty distinct keys and at most 126 slots, and then returns exactly the format's image; otherwise reports the first thing wrong: size, namespace, then the first entry that cannot be stored |
| NvsBuilder.StoreAll | backend/internal/nvs/nvs.go:96-108 | the entry loop stops at the first bad key, repeat or full page, and says which |
| NvsBuilder.Page.constructor | backend/internal/nvs/nvs.go:129-136 | the header over an erased buffer is the image with no slots |
| NvsBuilder.Page.Reserve | backend/internal/nvs/nvs.go:138-152 | marks exactly n more slots, or changes nothing when they do not fit |
| NvsBuilder.Page.WriteNamespace | backend/internal/nvs/nvs.go:182-195 | appends exactly the namespace entry to the page |
| NvsBuilder.Page.WriteString | backend/internal/nvs/nvs.go:197-218 | appends exactly the header entry and padded value to the page |
| NvsBuilder.SealEntry | backend/internal/nvs/nvs.go:172-179 | the checksum lands in its field and covers everything else |
| NvsBuilder.NewEntry | backend/internal/nvs/nvs.go:154-170 | erased bytes but for the index, the chunk marker and the zero-padded key |
| Nvs.ClearSlot | backend/internal/nvs/nvs.go:146-149 | clearing one bit extends the written slots by one |
| NvsReader.KeyReadsBack | backend/internal/nvs/nvs.go:163-168 | a key field reads back exactly when the key has no NUL |
| NvsReader.EntryReadsBack | backend/internal/nvs/nvs.go:154-179 | every entry's fields are where a reader looks and its checksum holds |
| NvsReader.ItemReadsBack | backend/internal/nvs/nvs.go:197-218 | a reader following span, length and value checksum recovers key and value, untruncated |
| NvsReader.UsedSlotsAreMarked | backend/internal/nvs/nvs.go:138-152 | exactly the used slots are marked written |
| NvsReader.UnusedBytesAreErased | backend/internal/nvs/nvs.go:67-83 | every byte past the used slots is 0xFF |
| NvsReader.BuiltImageReads | backend/internal/nvs/nvs.go:20-23 | every built image reads without error: all entries in order, values whole, names up to their first NUL |
| NvsReader.ReadUndoesBuild | backend/internal/nvs/nvs.go:20-23 | reading the built image gives back the namespace and all entries in order exactly when no name has a NUL in it |
| NvsReader.ImageBytes | backend/internal/nvs/nvs.go:32-46 | the fixed bytes of every image: page state, sequence, version and the namespace entry |
| NvsReader.StringBytes | backend/internal/nvs/nvs.go:197-218 | and of every string entry: index, type, span and length |
| Calendar.FindCurrent | backend/internal/calendar/calendar.go:31-38 | the loop finds the first event covering the instant, and none only if none covers it |
| Calendar.FindNext | backend/internal/calendar/calendar.go:41-48 | the loop finds the first event not yet started, and none only if all have |
| Calendar.NextIsSoonest | backend/internal/calendar/calendar.go:40-48 | in a sorted schedule no later-starting event is skipped for it |
| Calendar.StatusHoldsToHorizon | backend/internal/calendar/calendar.go:64-75 | what a snapshot says stays true to the end of its meeting or to the next change it foresees, overlaps included, and forever if it foresees none |
| Calendar.StatusHolds | backend/internal/calendar/calendar.go:89-119 | for any sorted schedule, overlaps included, the status is constant until the transition less its buffer, and forever if there is none |
| Calendar.CurrentPersists | backend/internal/calendar/calendar.go:31-38 | in a sorted schedule a meeting stays the current one until it ends |
| Calendar.TransitionIsAhead | backend/internal/calendar/calendar.go:60-63 | a fresh snapshot never announces a transition under 30 s away |
| Calendar.SoonPointIsExact | backend/internal/calendar/calendar.go:109-114 | from an empty room the status changes at exactly that instant |
| Calendar.MeetingStartIsExact | backend/internal/calendar/calendar.go:109-115 | once starting soon, the meeting takes over at exactly that instant |
| Calendar.PreviewInstantIsExact | backend/internal/calendar/calendar.go:97-108 | during a meeting the announced instant, less 30 s, is five minutes before its end exactly if it is not that late yet and some event starts between now and five minutes after the end, and otherwise the end |
| Calendar.PreviewIsFirstChange | backend/internal/calendar/calendar.go:77-108 | it is then the first instant at which the status or the previewed follower changes, if the follower has not begun by then |
| Calendar.PreviewIsAnnounced | backend/internal/calendar/calendar.go:77-108 | at a wake before the meeting ends that meeting is still on and its follower still the one to preview |
| Calendar.MeetingEndIsExact | backend/internal/calendar/calendar.go:99-108 | the meeting stays on until its end, which is the announced instant unless a preview comes first, and there the status changes exactly if no event covers it |
| Calendar.WhatFollowsIsKnown | backend/internal/calendar/calendar.go:64-108 | with nothing overlapping, the snapshot taken during a meeting already gives the status at its end |
| Calendar.Normalize | backend/internal/calendar/calendar.go:127-137 | the in-place filter and sort leave a sorted permutation of the events not yet over |
| Calendar.StatusIsOrderFree | backend/internal/calendar/calendar.go:31-75 | for any raw events in any order and any sort, the status is that of the kept events: in meeting iff one covers t, else starting soon iff one starts within ten minutes; it is that of the raw events exactly unless all that start soon ended before the window |
| Calendar.EmptyEventIsDropped | backend/internal/calendar/calendar.go:127-137 | an event of no length at the filter's own instant is such a one |
| Calendar.HoldsThroughout | backend/internal/calendar/calendar.go:64-75 | in a sorted schedule a status that holds now and at every start, end and starting-soon point since holds throughout |
| Wake.ClampsAgree | backend/internal/config/config.go:1061-1078 | broker and firmware clamp alike exactly for non-zero wakes |
| Wake.ClampWake | firmware/main/app_main.cpp:41-46 | always between one minute and six hours |
| Wake.FirmwareSleep | firmware/main/app_main.cpp:119-136 | whatever the header and the memory, the sleep is between one minute and six hours |
| Wake.BoundaryIsExact | backend/internal/config/config.go:1044-1059 | the result is the least grid instant at or after the earliest allowed one exactly under the stated condition, for every clock and interval |
| Wake.NextBoundary | backend/internal/config/config.go:1034-1059 | for any clock from 1970-01-01 00:05 on and interval up to 2^32-60, the least grid instant a minute away, or strictly later for short intervals |
| Wake.BoundaryIsMonotone | backend/internal/config/config.go:1044-1059 | asking later never yields an earlier wake |
| Wake.BoundaryMissedBeforeOrigin | backend/internal/config/config.go:1049-1051 | at the epoch a quarter-hour grid skips its first boundary |
| Wake.BoundaryMissedByOverflow | backend/internal/config/config.go:1055-1058 | ten seconds before a boundary of the longest interval the second step overflows to nine seconds |
| Wake.GridZeroIsExact | backend/internal/config/config.go:1044-1059 | the result is 0 exactly for no interval or a second step that lands on 2^32 |
| WakePlan.ModeDecides | backend/internal/config/config.go:941-953 | a room is smart if it says so, or says nothing and the fleet does; only then does its wake depend on the calendar |
| WakePlan.FlatWakeIsExact | backend/internal/config/config.go:980-990 | any other room is sent to the next boundary of its own positive interval, else of the business or off-hours interval by whether the offices are open |
| WakePlan.HeaderIsLongestInTime | backend/internal/config/config.go:1003-1022 | the header is the longest whole sleep that ends by the transition and, in business hours, within the check-in interval |
| WakePlan.HeaderWithoutTransition | backend/internal/config/config.go:1006-1032 | with nothing scheduled: the next grid check-in in business hours, else the last second by the next opening |
| WakePlan.SleepIsNeverLongStale | backend/internal/config/config.go:1003-1022 | within one sleep on a fresh snapshot the drawn status is wrong for at most the last minute |
| WakePlan.ZeroHeaderIsExact | backend/internal/config/config.go:969-1059 | in both modes, for every configuration, snapshot and clock, the header is 0 exactly under a condition on these alone |
| WakePlan.DisagreementIsExact | backend/internal/server/handlers.go:47-50 | the broker expects another sleep than the device takes exactly then, unless the remembered sleep was a minute or less |
| WakePlan.FreshHeaderIsObeyed | backend/internal/server/handlers.go:47-50 | a fresh snapshot's header is obeyed whatever the device remembers exactly if it has a transition ahead (not a multiple of 2^32 s away) or, having none, the grid or the opening is at least a second away |
| WakePlan.StaleSnapshotIsIgnored | firmware/main/app_main.cpp:119-136 | after an ended meeting, whatever comes next, the device repeats its last sleep where the broker expects a minute |
| WakePlan.OpeningIsIgnored | backend/internal/config/config.go:1026-1032 | on an empty day, in the last second before opening, a device that slept six hours sleeps six hours again |
| SmartRuns.StillTrueIsOnTime | backend/internal/config/config.go:964-968 | on a snapshot of any age whose foreseen change is still ahead, the panel is wrong for at most the last minute of the sleep |
| SmartRuns.OvertakenIsExact | backend/internal/config/config.go:964-968 | for a panel already wrong when it wakes, exactly which distance to the old transition, remembered sleep and check-in interval put it right within a minute |
| SmartRuns.ComeRoundIsExact | backend/internal/config/config.go:964-968 | for a panel whose snapshot is overtaken but right again when it wakes, exactly which of these, or which later changes, keep it right |
| SmartRuns.SnapshotIsExact | backend/internal/config/config.go:964-968 | for every schedule, snapshot and later wake, exactly when the panel is wrong for at most the last minute of the sleep |
| SmartRuns.StartIsMissed | backend/internal/config/config.go:1014-1021 | the wake planned for a meeting's start, served a snapshot one poll interval old, leaves the announcement up for the whole last sleep again |
| SmartRuns.EndIsMissed | backend/internal/config/config.go:1014-1021 | the wake planned for a meeting's end, with another starting at once and a snapshot of the first, leaves the room taken past the second one's end |
| SmartRuns.StalenessIsBounded | backend/internal/config/config.go:992-1022 | in every run, for any sorted schedule and any business hours, a panel whose status is out of date is woken within a minute if the wake before it met that condition, and, woken by the timer, only then |
| SmartRuns.FreshRunsAreOnTime | backend/internal/config/config.go:992-1022 | a run on fresh snapshots, or with each foreseen change still ahead, is never out of date for more than a minute |
| SmartRuns.WakesAreSpaced | firmware/main/app_main.cpp:41-46 | in every run consecutive wakes are at most six hours apart, and a timer wake at least a minute after the one before |
| SmartRuns.TimerWakesAreRare | firmware/main/app_main.cpp:41-46 | over any run the timer wakes number at most the minutes gone by |
| FlatRuns.FlatSleepIsExact | backend/internal/config/config.go:980-990 | for intervals of 61 to 21541 s both clamps leave the grid distance alone |
| FlatRuns.FlatWakesStayOnGrid | backend/internal/config/config.go:976-990 | in every run, with any delays and any business hours, each wake but for its own cycle's delay is the next boundary of the interval in force at its fetch: the room's own, else the business or the off-hours one |
| FlatRuns.WakesAreIntervalsApart | backend/internal/config/config.go:974-990 | wakes fetched on one interval are whole intervals apart however far apart they are: nothing accumulates |
| Latch.StateIsHistory | backend/internal/notify/notify.go:126-128 | the latch bit and time are exactly the last alert since the last recovery |
| Latch.AlertIsHistory | backend/internal/notify/notify.go:238-264 | an alert fires exactly on a bad sample with none since the last recovery, or the last one long enough ago |
| Latch.ClearIsHistory | backend/internal/notify/notify.go:303-312 | a recovery is announced exactly on a good sample while an alert stands |
| Latch.ClearsAlternate | backend/internal/notify/notify.go:290-312 | between two recoveries there is always an alert |
| Latch.AlertsAreBounded | backend/internal/notify/notify.go:142-142 | alerts are at most one, plus one per recovery, plus one per renotify interval elapsed |
| Charging.StateIsHistory | backend/internal/notify/charge.go:40-59 | charging means a rise since the last reset, told means a message since then, and told implies charging |
| Charging.MessageIsHistory | backend/internal/notify/charge.go:23-59 | a message goes out exactly when full, seen rising and not yet announced for this charge |
| Charging.OneMessagePerCharge | backend/internal/notify/charge.go:23-59 | between two messages there is a drop or a silence, and after it a rise |
| Charging.MessageInNumbers | backend/internal/notify/charge.go:15-26 | every message is at 4099 mV or more, after a rise of 15 mV with no 40 mV drop and no 45 minutes of silence since |
| Charging.FullIsAnnounced | backend/internal/notify/charge.go:23-59 | every charge that is seen rising and reaches 4099 mV is announced |
| Alerts.Manager.EvaluateBattery | backend/internal/notify/notify.go:242-265 | one latch step on this device's entry only; garbage readings change nothing |
| Alerts.Manager.EvaluateStale | backend/internal/notify/notify.go:295-313 | one latch step on this device's offline entry only |
| Alerts.Manager.EvaluateCharging | backend/internal/notify/charge.go:28-74 | one charge step on this device's entry only; non-positive voltages change nothing |
| Alerts.NoInterference | backend/internal/notify/notify.go:126-135 | in any interleaving over any devices, the shared state is each evaluation's own history side by side |
| Alerts.BatteryAlertIsHistory | backend/internal/notify/notify.go:242-265 | interleaved with anything, a battery alert follows the history rule of its own samples |
| Alerts.BatteryRule | backend/internal/notify/notify.go:238-264 | over any run, a valid reading alerts exactly at or below the low mark when, since the device's last alert, some reading was above it and at or above the clear mark, or the renotify interval has passed |
| Alerts.AlertsNeedACharge | backend/internal/notify/notify.go:238-264 | two alerts closer than the renotify interval have a reading at or above the clear mark between them |
| Alerts.ChargeMessageIsHistory | backend/internal/notify/charge.go:28-74 | interleaved with anything, a charge message follows the history rule of its own readings |
| Alerts.ToldImpliesCharging | backend/internal/notify/charge.go:46-59 | in every reachable state, told implies charging |
| Alerts.BatteryAlertsAreBounded | backend/internal/notify/notify.go:238-264 | over any run with fixed settings and an ordered clock, the count of alerts is bounded by recoveries and elapsed renotify intervals |
| Alerts.StaleEventIsHistory | backend/internal/notify/notify.go:290-313 | over any run of checks of any devices, offline and recovered events follow the history rule |
| Alerts.OfflineMessagesAreBounded | backend/internal/notify/notify.go:290-313 | over any run of checks, offline messages about a device are bounded by recoveries and elapsed renotify intervals |
| Alerts.RecoveriesAlternate | backend/internal/notify/notify.go:290-313 | between two recoveries of a device there is an offline message about it |
| Fleet.TelemetryStore.Ingest | backend/internal/telemetry/telemetry.go:125-138 | a report replaces everything but the room status, the expected wake and, unless it rendered, the last render |
| Fleet.TelemetryStore.SetExpectedWake | backend/internal/telemetry/telemetry.go:273-287 | notes the sleep of one device; zero is ignored |
| Fleet.TelemetryStore.SetRoomStatus | backend/internal/telemetry/telemetry.go:258-271 | notes the status of one device without making it reported |
| Fleet.ReportIsHistory | backend/internal/telemetry/telemetry.go:125-138 | over any calls the store has the last report and its time, and is reported exactly if there was one |
| Fleet.RenderIsHistory | backend/internal/telemetry/telemetry.go:132-137 | and the time of the last report that rendered |
| Fleet.StatusIsHistory | backend/internal/telemetry/telemetry.go:258-271 | and the last room status, which no report disturbs |
| Fleet.ExpectedIsHistory | backend/internal/telemetry/telemetry.go:273-287 | and the last announced sleep that was not 0 |
| Fleet.CheckStale | backend/internal/server/notifications.go:146-156 | the sweep over the rooms drives exactly the latches of the reported ones |
| Fleet.SweepIsExact | backend/internal/server/notifications.go:146-156 | each reported room is checked once, against its own threshold and its own latch, whatever the other rooms do |
| Fleet.SweepInOrder | backend/internal/server/notifications.go:146-156 | one outcome for each reported room, in the order of the list |
| Fleet.OfflineMeansStale | backend/internal/server/notifications.go:146-156 | only a reported room past its own threshold is ever called offline |
| Fleet.CoverIsExact | backend/internal/status/status.go:89-100 | each fetch and each report of a device alone decides whether its threshold covers the sleep it really takes |
| Fleet.ThresholdCoversSleep | backend/internal/status/status.go:89-100 | along every run in which they all agree, the threshold covers the sleep the device really takes and its delay |
| Fleet.OnScheduleIsNeverOffline | backend/internal/server/notifications.go:128-156 | in every run of fetches, reports and checks from any store, a device that keeps to the sleeps it really takes is never announced offline if each fetch announces at least half of the present sleep and delay and each sleep fits twice the announced one |
| Fleet.AnnouncedIsExact | backend/internal/server/notifications.go:146-156 | after any run no check before the device is overdue announces it offline exactly if its threshold covers its sleep |
| Fleet.ObeyedSleepIsCovered | backend/internal/server/handlers.go:47-50 | the sleep a device takes on a header fits what the broker notes exactly if its delay does, or, for a header of 0, if its old sleep and delay fit two minutes |
| Fleet.StartIsExact | backend/internal/telemetry/telemetry.go:88-123 | an empty store starts no run with a false alarm; a warm-started one exactly if the device's sleep and delay fit the configured fallback |
| Fleet.HalvingIsNeeded | backend/internal/server/handlers.go:47-48 | for every two sleeps and delay, a run in which a device that is not overdue is announced offline exactly if its new sleep is less than half its present one and the delay |
| Fleet.SilenceIsAnnounced | backend/internal/server/handlers.go:47-50 | for every remembered sleep and delay, a run in which a device sent a header of 0 is announced offline without being overdue exactly if they exceed two minutes |
| TelemetryQueue.StepKeepsLockInv | backend/internal/telemetry/telemetry.go:74-83 | every step keeps senders and the closer apart |
| TelemetryQueue.StepKeepsOrderInv | backend/internal/telemetry/telemetry.go:190-220 | every step keeps accepted = tried + in hand + queued |
| TelemetryQueue.RunsKeepInv | backend/internal/telemetry/telemetry.go:125-256 | all invariants hold after every interleaving of any length |
| TelemetryQueue.NeverPanics | backend/internal/telemetry/telemetry.go:145-159 | nothing is ever sent on, or closed twice, after the queue is closed |
| TelemetryQueue.NothingIsLost | backend/internal/telemetry/telemetry.go:125-256 | every call is appended, failed, dropped, queued, in the writer's one hand, or still on its way |
| TelemetryQueue.CountersAreExact | backend/internal/telemetry/telemetry.go:190-237 | appended, failed and prune-error counts are the numbers of such outcomes in the run |
| TelemetryQueue.PrunesAreExact | backend/internal/telemetry/telemetry.go:182-200 | the writer prunes once at its start and once for every tick |
| TelemetryQueue.SinkSeesEnqueueOrder | backend/internal/telemetry/telemetry.go:190-220 | the sink sees a prefix of the accepted records in enqueue order |
| TelemetryQueue.CloseDrains | backend/internal/telemetry/telemetry.go:239-256 | if Run was started before Close came to wait and nothing was cancelled, the sink closes with the queue empty; cancelled or not, it is never used afterwards |
| TelemetryQueue.LeftBehindIsExact | backend/internal/telemetry/telemetry.go:202-218 | what is left in the queue is exactly the records accepted after the writer exited, in order |
| TelemetryQueue.WithoutRunAllIsLeft | backend/internal/telemetry/telemetry.go:242-256 | and without Run everything accepted |
| TelemetryQueue.LostWithoutRun | backend/internal/telemetry/telemetry.go:242-256 | without Run an accepted record can be left behind |
| TelemetryQueue.LostAfterCancel | backend/internal/telemetry/telemetry.go:202-218 | after a cancellation an accepted record can be left behind |
| ETags.ETagsCompareCrcs | backend/internal/poller/poller.go:141-141 | comparing ETags as strings is comparing CRCs |
| ETags.ETagSpells | backend/internal/poller/poller.go:141-141 | an ETag is eight lower-case hex digits in quotes that spell the CRC |
| Cache.Store.SetError | backend/internal/cache/cache.go:51-57 | a failed poll keeps whatever was being served |
| Cache.Store.ShouldForceFullRefresh | backend/internal/cache/cache.go:66-82 | answers and marks exactly the asked device's entry |
| Cache.ForcedIsHistory | backend/internal/cache/cache.go:59-82 | a repaint is forced exactly in its hour with no mark of that day still standing |
| Cache.OncePerDayBetweenPolls | backend/internal/cache/cache.go:59-65 | two repaints on one day need a replaced entry or another day's repaint in between |
| Cache.ForcedTwiceInADay | backend/internal/cache/cache.go:59-82 | poll, fetch, poll, fetch: two repaints in one hour of one day |
| Poller.GroupByRoomAddress | backend/internal/poller/poller.go:83-96 | one group per address in order of appearance, each the rooms of that address in order |
| Poller.EveryRoomIsGroupedOnce | backend/internal/poller/poller.go:80-96 | every room is in exactly one group, with exactly the rooms of its address |
| Poller.MembersInOrder | backend/internal/poller/poller.go:83-96 | a group is exactly its address's rooms in configuration order |
| Poller.KeysInOrder | backend/internal/poller/poller.go:83-96 | groups come in the order in which their addresses first appear |
| Poller.RefreshRoom | backend/internal/poller/poller.go:101-172 | notes the room status of each display, composes, packs and encodes once per distinct name, and leaves every display with a frame and the schedule's current and next event; a failed fetch fails the whole group |
| Poller.NotedStatus | backend/internal/poller/poller.go:126-128 | the status noted says in_meeting, starting_soon or available by what the schedule has on at that moment |
| Poller.RefreshedServes | backend/internal/poller/poller.go:126-171 | each display serves its own name's frame and displays outside the group what they served before |
| Poller.RefreshedDelivers | backend/internal/poller/poller.go:134-166 | from what is cached the device can show the image composed for its own name, and learns that image's hash |
| Poller.FailedKeepsServing | backend/internal/poller/poller.go:107-113 | a failed poll marks every display and changes nothing that is served |
| Poller.PollIsARun | backend/internal/poller/poller.go:126-171 | what a refresh does to the cache is, seen from any device, a run of the protocol's polls |
| Poller.FailureIsARun | backend/internal/poller/poller.go:107-113 | and so is a failed one |
| Poller.PollReArmsRepaint | backend/internal/poller/poller.go:154-166 | after a refresh the next fetch in the hour repaints again, for every display of the group |
| Coherence.CachedFrameIsShown | backend/internal/poller/poller.go:139-141 | the device can always parse, slice and decode what is cached, and learns its hash |
| Coherence.ReceiveIsSound | firmware/main/app_main.cpp:138-156 | a complete response renders the cached frame, or is a 304 exactly when the remembered non-zero hash is the cached one and nothing forces a fetch |
| Coherence.OutcomeIsExact | firmware/main/app_main.cpp:103-200 | whether a wake renders, fails or is told nothing changed, what it leaves on the panel and in memory, exactly, from what was cached, remembered and forced before it |
| RepaintHistory.RepaintIsExact | backend/internal/server/handlers.go:52-78 | a due repaint is drawn exactly if everything gets through and the hardware shows it, and is still due right afterwards exactly if the request was not served |
| RepaintHistory.DueIsExact | backend/internal/server/handlers.go:52-58 | a repaint is due exactly in the configured hour, if there is one, for a device with a frame not repainted that day |
| RepaintHistory.DueIsHistory | backend/internal/cache/cache.go:59-82 | over any run within the repaint hour, a repaint is due exactly if no request was served and the broker not restarted since the last poll |
| Coherence.WakeIsSound | firmware/main/app_main.cpp:103-200 | from an invariant state a wake of any kind ends with the panel and the remembered hash in step |
| Coherence.StepKeepsInv | backend/internal/server/handlers.go:31-78 | every event keeps the invariant but a timed-out refresh by a device that remembers a frame and is sent another |
| Coherence.DeviceKnowsItsPanel | firmware/main/app_state.hpp:17-20 | in every such run the remembered hash is the hash of the frame on the panel |
| Coherence.PanelShowsCachedFrame | backend/internal/server/handlers.go:42-66 | after any wake that rendered or got 304 the panel shows the frame cached at that fetch, up to a CRC collision |
| Coherence.EverySleepIsBounded | firmware/main/app_main.cpp:119-192 | every wake of every kind sleeps between one minute and six hours |
| Coherence.AnsweredWakeSleepsAsTold | backend/internal/server/handlers.go:42-50 | an answered device sleeps as the header says, since cached payloads name no wake of their own |
| Coherence.UnansweredSleepIsExact | firmware/main/app_main.cpp:119-153 | without Wi-Fi ten minutes, or forty after more than four failures; without an answer the last sleep again; without a frame one minute |
| PanelHistory.StallIsExact | firmware/main/epd_spectra6.cpp:158-161 | no time-out can leave the device wrong exactly if the wake sends no whole frame or finds nothing remembered, told from the state before it |
| PanelHistory.MemoryIsHistory | firmware/main/app_main.cpp:142-146 | in every run what the device remembers is exactly the last frame rendered since the last cold boot |
| PanelHistory.PanelIsHistory | firmware/main/epd_spectra6.cpp:145-166 | in every run the panel shows the last frame rendered, or what the last time-out since then left |
| PanelHistory.CoherenceIsHistory | firmware/main/app_state.hpp:17-20 | in every run, time-outs included, the device is right about its panel exactly if it remembers nothing, nothing timed out since it rendered, or what the last time-out left has the same hash |
| PanelHistory.NotModifiedIsRight | backend/internal/server/handlers.go:60-66 | in every run a 304 is right, up to hashes, under exactly that condition |
| PanelHistory.RenderRestoresCoherence | firmware/main/app_main.cpp:142-146 | any rendered wake restores coherence from any state |
| PanelHistory.StallBreaksCoherence | firmware/main/epd_spectra6.cpp:158-161 | a concrete run in which a timed-out refresh ends in a 304 with the wrong frame shown |
| DisplayCycle.Broker.ServeDisplay | backend/internal/server/handlers.go:18-81 | the handler's response, cache marks and expected wake are the protocol's |
| DisplayCycle.ServedFromSnapshot | backend/internal/server/handlers.go:42-47 | polled at p and fetched at now, a smart room's header is that of the schedule's snapshot at p, which carries the smart-wake theorems to the handler; any other room's comes from the clock |
| DisplayCycle.NoFrameMeansNothingScheduled | backend/internal/server/handlers.go:33-41 | without a frame the header is that of an empty day |
| DisplayCycle.NotedIsFetch | backend/internal/server/handlers.go:48-48 | what the handler notes is the fetch of the offline theorems |
| DisplayCycle.Broker.ServeTelemetry | backend/internal/server/handlers.go:94-113 | a report reaches the store, the battery latch and the charge tracker in that order |
| DisplayCycle.Unit.AppMain | firmware/main/app_main.cpp:103-200 | the wake program takes exactly the protocol's wake step, and the broker notes the expected sleep exactly if the request was served, response lost or not |
| DisplayCycle.Unit.FetchDisplay | firmware/main/app_main.cpp:130-156 | the request and the switch on its status are the protocol's response step |
| DisplayCycle.Unit.Render | firmware/main/app_main.cpp:142-150 | the hash is remembered only if the frame reached the panel |
| RateLimiter.Limiter.Allow | backend/internal/server/forgot_password.go:101-114 | counts every call, allowed or not, in the key's current window |
| RateLimiter.KeyInvHolds | backend/internal/server/forgot_password.go:103-114 | what is known of one key's windows after any run of calls for any keys |
| RateLimiter.WindowIsBounded | backend/internal/server/forgot_password.go:86-88 | no fixed window admits more than the limit |
| RateLimiter.SpanIsBounded | backend/internal/server/forgot_password.go:103-114 | no closed span of one window length admits more than 2 * limit - 1 calls of a key |
| RateLimiter.SpanBoundIsTight | backend/internal/server/forgot_password.go:103-114 | that many are admitted by some run, for every limit and window |

## Left out

- Dither.QuantizeDithered: the float64 error buffer is modelled with exact reals, so rounding is not captured; the size of the error is not bounded, because the source takes it from the unclamped value.
- Calendar.Normalize: sort.Slice is library code, represented by an insertion sort; the theorems hold for every sorted permutation. Subjects, organizers and privacy are carried but not interpreted.
- SmartRuns.StalenessIsBounded: time zones and daylight saving enter only as two arbitrary functions, business hours and next opening; the schedule is fixed.
- WakePlan.HeaderIsLongestInTime: float64 seconds are exact here; past about 97 days the source may round up by one second, and past 2^32 s its conversion is platform-defined (taken as the low 32 bits).
- TelemetryQueue.CloseDrains: states safety, not that Close returns; locks are modelled without fairness, and a second Close, which does nothing, is not a step.
- Coherence.PanelShowsCachedFrame: a refresh that times out over a remembered frame is excluded, because the claim is false for it; PanelHistory.NotModifiedIsRight covers every run.
- Poller.RefreshRoom: the preview image, the render time and the logs are not modelled; the composed image is any function of the room name, of the panel's geometry.
- DisplayCycle.Unit.AppMain: the opportunistic firmware update, the sensors and the telemetry request are not part of the wake step; the Wi-Fi failure counter is whatever the radio code left.
- Mdpf.ExtractBody: what a copy past the receive buffer would do is not modelled, only when the check lets it through.
- Frame.Pack: an odd width makes the source index past its last row, so even widths are required.
- HTTP parsing, TLS, Wi-Fi, SPI, ADC, SQLite, Prometheus text, message wording, templates, configuration parsing and editing, sessions and provisioning: foreign calls, user interface or plumbing. Their outcomes are inputs of the models.
- Rendering of text and layout: any image is an input of the frame pipeline.
- The rows of the status page: they read the same threshold as the checker.
