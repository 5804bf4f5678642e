# Zoom meeting detector — a Dafny model

The Electron main process of this app polls the process table every five
seconds with `ps aux | grep 'zoom.us'` and, from that one listing, decides
whether a Zoom meeting is running. It splits the output into lines, keeps
the lines that mention `zoom.us`, and looks for the first kept line naming
the main executable (`/MacOS/zoom.us`) and the first naming the meeting
helper (`/Frameworks/aomhost.app`). Both present: a "Meeting Detected"
notification is shown. Only the main executable: Zoom is running without a
meeting. No main executable: Zoom is not running. If the query reported an
error or wrote to stderr, the tick is abandoned.

The model is pure, as the source is (constant bindings over `split`,
`filter` and `find`, and nested `if`s):

- `wrappers.dfy` — `Option`, standing for a JavaScript `T | undefined`.
- `js_string.dfy` — `Split` (`String.prototype.split` with a one-character
  separator, so `"".split('\n')` is `[""]` and a trailing `'\n'` gives a
  trailing `""`), its inverse `Join`, and `Contains`
  (`String.prototype.includes`) with its index-based reference `OccursAt`.
- `js_array.dfy` — `Filter` and `FindFirst` (`Array.prototype.filter` and
  `find`), with the reference `Positions` (the indices a filter keeps) and
  `FirstAt` (the first index a find stops at).
- `zoom_monitor.dfy` — `Classify`, one tick of the detector, over
  `TickInput(errPresent, stderr, stdout)`, returning one of `Skipped`,
  `NotRunning`, `RunningNoMeeting`, `MeetingDetected`; and `Outcomes` and
  `Notifications`, which fold a run of ticks into what each tick decides
  and which notifications are shown.

JavaScript truthiness is written out: `err || stderr` is `Abandoned`
(error present, or stderr non-empty), and `if (zoomMainProcess)` is
`Truthy` (found and not the empty string). `FoundLineIsTruthy` shows that a
found line is never empty, so the tests reduce to "found".

The code keeps no state between ticks: `src/electron/main.ts` has no
presence state, no recording and no transcription, and it shows a
notification on every tick that sees a meeting (src/electron/main.ts:41-44;
`NotificationsAppend`, `RepeatedMeetingTicks`). The companion is searched
for among the filtered lines, so its line must also contain `zoom.us`
(src/electron/main.ts:36-39; `AomHostIsFirstZoomCompanionLine`,
`BareCompanionLineIgnored`).

## Model

| member | source | states |
|---|---|---|
| `ZoomMonitor.Classify` | src/electron/main.ts:29-51 | Skipped iff `err` is set or stderr is non-empty; otherwise MeetingDetected iff some line names `/MacOS/zoom.us` and some line (possibly another) holds both `zoom.us` and `/Frameworks/aomhost.app`; RunningNoMeeting iff the main line is there and no such companion line; NotRunning iff no line names the main executable, whatever companion lines exist |
| `ZoomMonitor.Abandoned` | src/electron/main.ts:30 | defines the truthiness of the `err`, `stderr` test: an error is present or stderr is non-empty; `Classify` proves a tick is Skipped exactly then |
| `ZoomMonitor.Truthy` | src/electron/main.ts:41-42 | defines the truthiness of a `find` result: found and not `""`; `FoundLineIsTruthy` proves it means "found" for every found line |
| `ZoomMonitor.Processes` | src/electron/main.ts:36 | the kept lines are no more than the lines, and a string is kept iff it is a line of the output containing `zoom.us`; order and positions are given by `ProcessesAreZoomSegments` |
| `ZoomMonitor.MainProcess` | src/electron/main.ts:38 | a found main process is a line of the output containing `/MacOS/zoom.us`, and nothing is found iff no line contains it; `MainProcessIsFirstMainLine` adds that it is the first such line |
| `ZoomMonitor.AomHostProcess` | src/electron/main.ts:39 | a found companion is a line of the output containing both `zoom.us` and `/Frameworks/aomhost.app`, and nothing is found iff no line contains both; `AomHostIsFirstZoomCompanionLine` adds that it is the first such line |
| `ZoomMonitor.ProcessesAreZoomSegments` | src/electron/main.ts:36 | the kept lines are exactly the `'\n'`-separated segments that contain `zoom.us`, at increasing positions, in their original order |
| `ZoomMonitor.MainLinesAreZoomLines` | src/electron/main.ts:36-38 | every line containing `/MacOS/zoom.us` contains `zoom.us`, so the filter never drops it |
| `ZoomMonitor.MainProcessIsFirstMainLine` | src/electron/main.ts:36-38 | the main process found is the first line of the whole output containing `/MacOS/zoom.us`; it is found iff such a line exists, and it is then truthy |
| `ZoomMonitor.AomHostIsFirstZoomCompanionLine` | src/electron/main.ts:36-39 | the companion found is the first line containing both `zoom.us` and `/Frameworks/aomhost.app`; it is found iff such a line exists, and it is then truthy |
| `ZoomMonitor.FoundLineIsTruthy` | src/electron/main.ts:41-42 | a found line containing a non-empty marker is truthy, so the `if` tests mean "found" |
| `ZoomMonitor.EmptyOutputNotRunning` | src/electron/main.ts:49-50 | an empty stdout, with no error, gives NotRunning |
| `ZoomMonitor.TrailingNewlineIgnored` | src/electron/main.ts:36 | a trailing newline on stdout never changes the outcome |
| `ZoomMonitor.MeetingFromTwoLines` | src/electron/main.ts:38-44 | a listing with the main executable on one line and the helper on another gives MeetingDetected |
| `ZoomMonitor.BareCompanionLineIgnored` | src/electron/main.ts:36-47 | a helper line without `zoom.us` is filtered out, so main line plus bare helper path gives RunningNoMeeting |
| `ZoomMonitor.Outcomes` | src/electron/main.ts:28-53 | each tick's outcome is `Classify` of that tick's input alone, whatever came before |
| `ZoomMonitor.Shown` | src/electron/main.ts:41-44 | a run of outcomes shows at most one notification per outcome, and none iff no outcome is MeetingDetected; the exact count is `ShownCount` |
| `ZoomMonitor.Notifications` | src/electron/main.ts:28-53 | a run of ticks shows at most one notification per tick, and none iff no tick classifies as MeetingDetected |
| `ZoomMonitor.OutcomesAppend` | src/electron/main.ts:28-53 | the outcomes of concatenated runs are those of each run in turn |
| `ZoomMonitor.NotificationsAppend` | src/electron/main.ts:28-53 | notifications of a run are those of its first part followed by those of the rest: no state crosses ticks |
| `ZoomMonitor.NotificationCount` | src/electron/main.ts:41-44 | the number of notifications equals the number of MeetingDetected ticks |
| `ZoomMonitor.ShownAppend` | src/electron/main.ts:41-44 | the notifications of concatenated outcome runs are those of each run in turn |
| `ZoomMonitor.ShownCount` | src/electron/main.ts:41-44 | a run of outcomes shows exactly one notification per MeetingDetected |
| `ZoomMonitor.RepeatedMeetingTicks` | src/electron/main.ts:41-44 | any run of ticks that each classify as MeetingDetected, whatever their listings, shows one notification per tick: no edge triggering |
| `ZoomMonitor.AbandonedTicksShowNothing` | src/electron/main.ts:30-33 | ticks whose query failed show no notification |
| `JsString.Split` | src/electron/main.ts:36 | `split('\n')` always yields at least one part; its meaning is given by `SplitParts`, `JoinSplit` and `SplitJoin` |
| `JsString.Contains` | src/electron/main.ts:36-39 | `includes` holds for the empty needle and never for a needle longer than the string; `ContainsIff` equates it with an occurrence at some index |
| `JsString.SplitParts` | src/electron/main.ts:36 | no part of a split holds the separator, and there is one part more than separators |
| `JsString.JoinSplit` | src/electron/main.ts:36 | joining the parts of a split gives back the string |
| `JsString.SplitJoin` | src/electron/main.ts:36 | splitting the join of separator-free parts gives back the parts |
| `JsString.SplitAroundSeparator` | src/electron/main.ts:36 | the split of `a + sep + b` is the split of `a` followed by the split of `b` |
| `JsString.TrailingSeparator` | src/electron/main.ts:36 | a trailing separator adds exactly one trailing empty part |
| `JsString.ContainsIff` | src/electron/main.ts:36 | `includes` holds iff the needle occurs at some index |
| `JsString.ContainsTransitive` | src/electron/main.ts:36-38 | a string containing `m` contains everything `m` contains |
| `JsString.ContainsInfix` | src/electron/main.ts:36 | a string contains each of its infixes |
| `JsString.ContainsCharacterOf` | src/electron/main.ts:36 | a string containing a needle contains each of the needle's characters |
| `JsString.EmptyContainsOnlyEmpty` | src/electron/main.ts:36 | `"".includes(n)` holds iff `n` is empty |
| `JsArray.Filter` | src/electron/main.ts:36 | the result is no longer than the input and holds exactly the input's elements that satisfy the callback |
| `JsArray.FilterConcat` | src/electron/main.ts:36 | filtering a concatenation filters each side |
| `JsArray.FilterIsPositions` | src/electron/main.ts:36 | the filter keeps exactly the elements at the positions that satisfy the callback, in order |
| `JsArray.FindFirst` | src/electron/main.ts:38-39 | nothing is found iff no element satisfies the callback; a found value is an element that satisfies it |
| `JsArray.FindFirstIsFirst` | src/electron/main.ts:38-39 | the value found is the element at the first satisfying index |
| `JsArray.FindFirstFilter` | src/electron/main.ts:36-39 | finding with `q` in `filter(p)` finds the first element satisfying both `p` and `q` |
| `JsArray.FindFirstFilterImplied` | src/electron/main.ts:36-38 | when `q` implies `p`, filtering by `p` first does not change what `find(q)` returns |

## Left out

- The Electron app and window lifecycle (`ready`, `window-all-closed`,
  `activate`, the `BrowserWindow`): UI and foreign library calls.
- Building, showing and handling clicks on the notification
  (`showZoomNotification`): the model records that a notification is shown,
  as the value `MeetingNotification`, and nothing about its title, body or
  click handler.
- The `setInterval` timer and the `child_process.exec` call: OS I/O and
  timing. A tick's result is a parameter (`TickInput`); the `err` object is
  reduced to whether it is present. What `ps` and `grep` print, and grep's
  exit status, are outside the model. `Outcomes` and `Notifications` take
  the callbacks in tick order; the timer does not wait for `exec`, so real
  callbacks could complete out of order, which only reorders notifications
  because no state is kept.
- Console logging.
- `video.ts`: every line is commented out (FFmpeg capture, cloud storage
  upload, video analysis), so it has no behaviour to model.
- `types.d.ts` and `mic.d.ts`: type and ambient-module declarations only.
- Strings are sequences of Unicode scalar values, where JavaScript strings
  are UTF-16 code units; the separator and all markers are ASCII, for which
  splitting and substring search agree in both.
