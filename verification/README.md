# Wedding invitation page: a Dafny model of its client logic

The invitation page exists in two versions:

- `scriptjq.js` is the jQuery page: background music, gallery images, and an RSVP form that posts to an attendance API.
- `script.js` is the plain DOM page: images only, and a form that does not post.

This project models the logic both scripts carry out beyond drawing:

- **Countdown.** The remaining milliseconds are rounded up to whole seconds and split into days, hours, minutes and seconds. Each field is written as a two-digit zero-padded numeral. The two pages reschedule differently, and they also end differently. A run is recorded as the number of whole seconds it shows, and `Countdown.Written` gives the four texts it writes.
- **Asset preloading.** A counter is incremented once per loaded asset and shown as a whole percentage. The assets load in stages: music (jQuery page only), then main images, then cat frames. A failing stage stops the later ones.
- **Cat frame names.** Files are named `frame_0001` to `frame_0010`.
- **Walking cat.** Scroll reports record a delta and a direction. A refresh tick advances a fractional frame index by `|delta| * 0.05` modulo 10 and draws frame `floor(index) % 10`. Each page has its own guard that decides whether a frame can be drawn.
- **Attendance buttons.** A click sets the hidden input and leaves exactly one button active.
- **RSVP client (jQuery page only).** This covers the submitted payload, the pagination cursor with the enabled state of the prev and next buttons, and the submit life cycle.

Everything is written as pure functions over immutable datatypes:

- Numbers that the scripts hold as integers are `int`/`nat`.
- Fractional quantities are exact `real`s: the frame index and the progress fraction.
- JavaScript's truncating `%` is modelled explicitly in `JsNumber`.
- Clocks, the asset host, the browser's codec support, `parseInt` and the network are parameters:
  - the current time and the target time are `int` milliseconds;
  - the asset host is the set of paths it serves;
  - `parseInt` of the guest field is an `Option<int>`;
  - a server answer is a `Response` value.

Modules:

- `Decimal`: `String(n)` and `padStart`.
- `Countdown`: the shared countdown arithmetic.
- `JqCountdown` and `PlainCountdown`: each page's update loop.
- `Progress`: the counter percentage.
- `CatFrames`: frame names.
- `JqPreload` and `PlainPreload`: each page's manifests and staged loading.
- `Sprite`: the walking cat.
- `Attendance`: the attendance buttons.
- `Rsvp`: the RSVP client.
- `JsNumber`, `Arith`, `Wrappers` and `Pages`: helpers.

## Model

| member | source | states |
|---|---|---|
| Decimal.NatToString | scriptjq.js:307-310 | `String(n)` is a canonical decimal numeral: digits only, non-empty, no leading zero unless it is "0" |
| Decimal.ValueOfNatToString | scriptjq.js:307-310 | reading `String(n)` back as a decimal numeral gives `n` |
| Decimal.NatToStringOfValue | scriptjq.js:307-310 | every canonical numeral is `String` of its own value, so `String` is a bijection between numbers and canonical numerals |
| Decimal.PadStart | script.js:318-321 | `padStart` with one pad character: the length is the larger of the two, the original is a suffix, and everything before it is the pad character |
| Decimal.ZeroPad | scriptjq.js:85 | `String(n).padStart(w, '0')` is a numeral of value `n`, at least `w` long, exactly `w` long when `n` has at most `w` digits, and plain `String(n)` when `n` has `w` digits or more, including 0 padded to width 0 |
| JsNumber.RemInt | script.js:323 | JavaScript's `%` for a positive divisor: the remainder has the dividend's sign and magnitude below the divisor, and it completes the truncating quotient |
| JsNumber.RemReal | scriptjq.js:209 | JavaScript's `%` on fractional numbers: the remainder differs from the dividend by a whole multiple of the divisor |
| Countdown.CeilSeconds | script.js:311 | `Math.ceil(ms / 1000)` is the unique `s` with `(s-1)*1000 < ms <= s*1000`, and it is at least 1 when `ms > 0` |
| Countdown.Split | script.js:313-316 | days, hours, minutes and seconds recombine to the total, and hours < 24, minutes < 60, seconds < 60 |
| Countdown.SplitOfTotal | script.js:313-316 | splitting inverts recombining: any in-range decomposition is the split of its own total |
| Countdown.Show | script.js:318-321 | each field is the two-digit zero-padded numeral of its value, and is never cut short for a value of 100 or more |
| Countdown.ShowInjective | scriptjq.js:307-310 | no two different decompositions write the same four texts, so the fields lose nothing |
| Countdown.ShowSeconds | script.js:313-321 | the four fields for `s` seconds are padded numerals that read back as an in-range decomposition of `s` |
| Countdown.ShowRemaining | scriptjq.js:306-310 | the four written fields read back as an in-range decomposition of `ceil(ms/1000)` seconds |
| Countdown.Written | script.js:302-321 | a run's texts read back as the seconds it shows. The final run's "00" fields read as 0 seconds |
| Countdown.NoSecondsShowAllZero | scriptjq.js:306-310 | when the remaining time rounds up to no seconds, every field reads "00" |
| Countdown.LastSecondShowsOne | scriptjq.js:306-310 | from 1 to 1000 ms before the target the fields read 00 00 00 01 |
| JqCountdown.Update | scriptjq.js:303-312 | a negative remainder writes nothing and schedules nothing. Otherwise the run shows `ceil(ms/1000)` seconds, never ends the countdown, and the next run is 1000 ms later |
| JqCountdown.ZeroRemainingReschedules | scriptjq.js:305-311 | at exactly 0 ms the fields show all zeros and one more run is scheduled |
| JqCountdown.Settle | scriptjq.js:303-312 | the last run that writes anything, with runs 1000 ms apart: for a start after the target nothing new is written, and otherwise it shows the seconds of `ms % 1000`, the leftover below a whole second |
| JqCountdown.WritingRuns | scriptjq.js:303-312 | a start `ms` before the target writes the fields `floor(ms/1000) + 1` times, and a start after it writes nothing |
| JqCountdown.SettlesOnOneSecond | scriptjq.js:305-311 | when the first run is not a whole number of seconds before the target, the last run that writes anything shows one second, not zero |
| JqCountdown.FreezesOnOneSecond | scriptjq.js:305-311 | in that case the fields are left reading 00:00:00:01 for good |
| JqCountdown.HalfSecondBeforeTargetFreezes | scriptjq.js:305 | a first run 500 ms before the target leaves 00:00:00:01 on screen for good |
| JqCountdown.UpdateSettled | script.js:302-309 | corrected ending: a passed target writes "00" into every field and stops. Otherwise it behaves as the page does |
| JqCountdown.SettleFixed | scriptjq.js:303-312 | with the corrected ending the last run is always the final one |
| JqCountdown.SettledEndsAtZero | scriptjq.js:303-312 | with the corrected ending the fields are left reading "00" |
| PlainCountdown.NextDelay | script.js:323-324 | the delay before the next run is at least 7 ms, and at most 1006 ms for a non-negative clock |
| PlainCountdown.NextDelayLands | script.js:323-324 | the next run falls 6 ms after a whole second. For a non-negative clock that is the next whole second |
| PlainCountdown.Update | script.js:298-325 | a remainder of at most 0 is the final run, which writes "00" everywhere and stops. Otherwise the run shows `ceil(ms/1000) >= 1` seconds and the next run is at `NextDelay` |
| PlainCountdown.TicksOneSecondApart | script.js:311-324 | for a target on a whole second, successive runs show exactly one second less each time, with none skipped or repeated |
| PlainCountdown.Settle | script.js:298-325 | from any start, following each run's own delay, the last run is the final one |
| PlainCountdown.WritingRuns | script.js:298-325 | for a target on a whole second, the runs before the final one number exactly the seconds remaining at the start |
| PlainCountdown.RunStep | script.js:311-324 | each run takes exactly one second off the seconds still to be written, and the last one leaves none |
| PlainCountdown.SettlesAtZero | script.js:302-309 | from any start the fields are left reading "00" |
| Progress.Percent | scriptjq.js:95 | the whole percentage `p` satisfies `p*total <= loaded*100 < (p+1)*total` |
| Progress.PercentMonotone | scriptjq.js:93-96 | more loaded assets never show a smaller percentage |
| Progress.PercentRange | scriptjq.js:88-95 | for `loaded <= total` the percentage is at most 100, and it is 100 exactly when everything has loaded |
| Progress.Reports | scriptjq.js:93-96 | successive progress calls show the percentages of 1, 2, 3, ... loaded assets, in non-decreasing order |
| Progress.ReportsInRange | script.js:90-92 | from an empty counter every shown percentage is in 0..100, and only the last of `total` reaches 100 |
| Progress.Text | scriptjq.js:95 | the indicator text is the canonical numeral of the percentage, `String(p)` with no leading zero, followed by '%' |
| Progress.CountServed | scriptjq.js:98-107 | the number of loads in a stage is at most its size, and equals its size exactly when every path is served |
| Progress.CountServedCounts | scriptjq.js:98-107 | the number of loads in a stage is the number of its positions whose path is served |
| CatFrames.FrameNumber | scriptjq.js:85 | the frame's number is four digits of value `i + 1` |
| CatFrames.FramePaths | scriptjq.js:83-86 | there are ten frame paths, the `i`-th being the folder, the number of frame `i`, and the extension |
| CatFrames.NumberInPath | script.js:59-62 | the four characters after the folder prefix read back as `i + 1` |
| CatFrames.FramePathsDistinct | script.js:59-62 | the ten frame paths are pairwise different |
| JqPreload.GalleryPaths | scriptjq.js:79 | gallery path `i` is `/images/gallery` + `String(i+1)` + `.webp` |
| JqPreload.TotalLoadAssetIs33 | scriptjq.js:88 | 2 music files, 21 main images and 10 cat frames make 33 assets |
| JqPreload.PreloadAll | scriptjq.js:125-134 | the page starts iff every stage's paths are served (music only when audio is supported), iff the counter reaches 33. Without audio support both music entries still count. The counter ends at the loads of the first stage that fails, plus the full sizes of the stages before it. The `k`-th percentage shown is that of `k` loaded assets out of 33: rising, at most 100, and 100 only at the 33rd |
| JqPreload.PercentMatchesPage | scriptjq.js:95 | `Math.floor(loaded/33*100)` in exact arithmetic equals the integer percentage |
| PlainPreload.TotalImagesIs22 | script.js:63 | 12 main images and 10 cat frames make 22 images |
| PlainPreload.Fractions | script.js:72-73 | the fractions reported are `k/22` for the `k`-th load: strictly increasing, in (0, 1], and 1 only at the 22nd |
| PlainPreload.PreloadAll | script.js:94-99 | the page starts iff both stages are fully served, iff the counter reaches 22. The counter ends at the main images loaded, plus the cat frames loaded when every main image was served. The `k`-th report is `k/22` and its text is `Math.floor` of a hundred times it: rising, and 100 only at the 22nd image |
| PlainPreload.Percentages | script.js:90-92 | the `k`-th text is `Math.floor` of a hundred times the `k`-th fraction: non-decreasing, in 0..100, and 100 only at the 22nd |
| PlainPreload.ShownAreReports | script.js:90-92 | the plain page's `Math.floor(p*100)` of each reported fraction is the integer percentage of the counter |
| PlainPreload.PercentMatchesPage | script.js:91 | `Math.floor(loaded/22*100)` in exact arithmetic equals the integer percentage |
| Sprite.OnScroll | scriptjq.js:218-224 | a scroll report sets the delta to the move, faces forward iff the move is positive, records the position, requests a render, and leaves the frame index alone |
| Sprite.Advance | scriptjq.js:209 | from a non-negative index, the advanced frame index lies in [0, 10), and it differs from `index + abs(delta) * 0.05` by a whole number of ten-frame cycles |
| Sprite.AdvanceDetermined | scriptjq.js:209 | those two facts fix the advanced index: any value in [0, 10) a whole number of cycles from the sum is it |
| Sprite.Slot | scriptjq.js:192 | the drawn frame is one of 0..9, and is the integer part of an index in [0, 10) |
| Sprite.Render | script.js:183-199 | a frame is drawn only if it exists and passes the page's guard (the plain page also refuses zero natural width). It is the selected frame, mirrored iff the cat faces forward |
| Sprite.PlainGuardIsStricter | script.js:185 | whatever the plain page draws, the jQuery page draws identically |
| Sprite.Tick | script.js:209-216 | without a pending render a tick changes nothing and draws nothing. With one it sets the index to `Advance` of the old index and delta, which lies in [0, 10), clears the flag, keeps everything else, and draws the new frame |
| Sprite.Setup | script.js:218-219 | the plain page renders once at setup (frame 0, when it is drawable), and the jQuery page draws nothing until the first scroll |
| Sprite.TickSettles | scriptjq.js:207-214 | a second tick without a scroll in between does nothing |
| Sprite.ScrollsCoalesce | scriptjq.js:207-224 | of two scroll reports before a tick only the last move advances the frame |
| Sprite.RunKeepsCoherent | scriptjq.js:207-224 | over any sequence of scrolls and ticks, the index stays in [0, 10), the facing matches the sign of the last move, and every drawn frame is one of the ten |
| Sprite.TwentiethsAgree | scriptjq.js:209 | for whole-number scroll positions the index is `pos/20` for an integer `pos`. A tick maps `pos` to `(pos + abs(delta)) % 200` and draws frame `pos / 20` |
| Sprite.FiveHundredForward | scriptjq.js:209 | from rest, a 500-unit scroll and one tick land on index 5.0 (25 frames, two and a half cycles), frame 5, facing forward |
| Attendance.ActiveCount | scriptjq.js:363-364 | the active count is at most the number of buttons, and is 0 exactly when no button carries the active class |
| Attendance.Click | scriptjq.js:360-368 | a click copies the button's value into the input and makes that button the only active one, without changing any value. The jQuery page shows the guest field iff the value is not "no", and the plain page leaves the guest field alone |
| Attendance.ClickLeavesOneActive | script.js:336-341 | after any click exactly one button is active, the clicked one |
| Attendance.LastClickWins | script.js:336-341 | two clicks leave the form as the second alone would |
| Attendance.RunOfClicks | script.js:336-341 | any non-empty run of clicks leaves the form as its last click alone would |
| Attendance.Reset | scriptjq.js:390-391 | the reset leaves no button active, and keeps the hidden input's value, the button values and the guest field's visibility |
| Attendance.ChoiceOutlivesReset | scriptjq.js:360-391 | after a click and a reset the input still holds the clicked button's value, with no button active |
| Rsvp.BuildPayload | scriptjq.js:375-380 | the guest count is 0 iff the raw field is "no". Otherwise it is the parsed count, or 1 when that is NaN or 0. An empty field is sent as "no" |
| Rsvp.EmptyChoiceCountsGuests | scriptjq.js:377-378 | with no attendance chosen the payload says "no" yet carries a non-zero guest count |
| Rsvp.BuildPayloadFixed | scriptjq.js:377-378 | corrected payload: the guest count is 0 iff the attendance sent is "no" |
| Rsvp.FixedAgreesWhenChosen | scriptjq.js:377-378 | the corrected payload differs from the page's exactly when no attendance was chosen |
| Rsvp.Request | scriptjq.js:323-326 | a request disables both pagination buttons, keeps cursor and list, and asks for the given page with limit 5 |
| Rsvp.Receive | scriptjq.js:327-353 | only a success whose entries all carry a formattable timestamp replaces list and cursor and sets each button from its flag. An empty success or an unformattable timestamp changes nothing, and a failure changes nothing but shows "Failed to get the messages." |
| Rsvp.UnformattableEntryChangesNothing | scriptjq.js:56-58 | one entry whose `updatedAt` is missing or not a date is enough to leave the board as it was |
| Rsvp.ClickPrev | scriptjq.js:398 | a disabled prev button does nothing. An enabled one requests the page before the cursor |
| Rsvp.ClickNext | scriptjq.js:399 | a disabled next button does nothing. An enabled one requests the page after the cursor |
| Rsvp.ClicksStayInRange | scriptjq.js:398-399 | on a consistent board prev asks for a page from 1 up, and next asks for one no later than the last page |
| Rsvp.RunBoardConsistent | scriptjq.js:323-353 | any run of clicks and answers from a server that sends well-formed cursors keeps the board consistent, even when stale answers arrive out of order, and never queries a page below 1 or past the last |
| Rsvp.Opening | scriptjq.js:317-326 | start-up loads page 1 without focusing, from a consistent board |
| Rsvp.FailureLocksPaging | scriptjq.js:324-353 | after a failed or empty answer, or one with an unformattable timestamp, neither prev nor next does anything |
| Rsvp.ReceiveFixed | scriptjq.js:327-353 | corrected handler: an answer that changes nothing keeps the list and cursor, re-enables each button from the kept cursor, shows the same toast, and does not focus the section |
| Rsvp.FixedReopensPaging | scriptjq.js:324-353 | with the corrected handler every answer leaves prev enabled iff there is a previous page, and next iff there is a next one |
| Rsvp.Submit | scriptjq.js:370-380 | submitting disables the submit button and builds the payload from the form |
| Rsvp.SubmitSucceeded | scriptjq.js:388-392 | success thanks the guest, empties the text fields, leaves no attendance button active but the hidden input holding the last choice, enables submit, keeps the message list and cursor while page 1 loads with both paging buttons disabled, and asks for page 1 to be focused |
| Rsvp.SubmitFailed | scriptjq.js:394-395 | failure shows "Failed to submit form." and enables submit again |
| Rsvp.FailedSubmitRestores | scriptjq.js:394-395 | a failed submission returns the section to its state before the submit, so it can be retried |
| Rsvp.SubmitAlwaysReenables | scriptjq.js:395 | whichever way the POST ends, the submit button is enabled again |
| Rsvp.SucceededBoardConsistent | scriptjq.js:392 | the page-1 reload after a successful submit keeps the board consistent |

## Left out

- GSAP and ScrollTrigger tweens, the horizontal scroll panels, the Vanta birds and the Notyf toasts. These are third-party libraries. A toast is modelled only as the `Notice` value carrying its text.
- Canvas drawing, the mirroring transform and DPI scaling. A draw is modelled as the frame number and whether it is mirrored.
- `Intl.DateTimeFormat`, the text `formatTimestamp` produces and `updateDateTimeElements`, which are locale library calls. `formatTimestamp` throws on a missing `updatedAt` or on one that is not a date, and that is modelled: the entry's `Timestamp` records whether the string is present and whether `new Date` makes a valid date of it. The time zone of the target date is also left out: the target is a millisecond parameter.
- The AJAX and `fetch` transport, `Image`/`Audio` loading and the order in which promises settle. A load succeeds iff its path is in the served set. The counter moves one step per completed load, so the order of completions does not change what is shown.
- `parseInt`. Its result enters as an `Option<int>`, with `None` for NaN.
- IEEE-754 rounding. `|delta| * 0.05`, the modulo and `loaded / total * 100` are exact rational arithmetic. For the totals 33 and 22, `PercentMatchesPage` shows that the exact floor equals the integer percentage.
- JsNumber.RemReal: states only that the remainder is a whole multiple of the divisor away from the dividend. Its range is stated for the one divisor the page uses, 10, in `Sprite.Advance`.
- Timer lateness. Each countdown run happens exactly at the time it scheduled.
- The HTML built in `loadMessages`, the "Page x of y" text, the intro gate, the `beforeunload` scroll reset and the music player.
- The plain page's submit handler. It only logs the fields to the console.
- The HTML defaults of the form. The text fields are taken to have no default value, so the reset empties them. The attendance input is taken to be hidden, so the reset keeps its value.
- The initial enabled state of the pagination buttons. Start-up disables both at once, so the model starts from that request.

## Findings

| source | as written | input that shows it | evidently intended | confidence | as-written member | corrected member |
|---|---|---|---|---|---|---|
| scriptjq.js:305 | once the remaining time is negative the update returns without writing, so the last text written stays | first run 500 ms before the target: it shows 00:00:00:01, and the next run has -500 ms and writes nothing | write "00" into every field when the time is up, as script.js:302-309 does | not executed; high | JqCountdown.FreezesOnOneSecond | JqCountdown.SettleFixed |
| scriptjq.js:377-378 | the attendance sent defaults an empty field to "no", but the guest count tests the raw field | submit without clicking an attendance button and with an empty guest field: the payload is attendance "no" with totalGuests 1 | a declining payload carries 0 guests | not executed; medium | Rsvp.EmptyChoiceCountsGuests | Rsvp.BuildPayloadFixed |
| scriptjq.js:324-353 | the buttons are disabled before every request and re-enabled only by a success with entries | click next while the message request fails: both buttons stay disabled, and paging is impossible until a later submit succeeds | restore the buttons from the kept cursor when the answer changes nothing | not executed; medium | Rsvp.FailureLocksPaging | Rsvp.FixedReopensPaging |
