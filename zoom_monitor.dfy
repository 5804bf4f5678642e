/** The Zoom meeting detector of the Electron main process
    (`monitorZoomProcesses`). Every five seconds the output of
    `ps aux | grep 'zoom.us'` is classified on its own; when both the Zoom
    main executable and its `aomhost` helper show up, a "Meeting Detected"
    notification is shown. Nothing is remembered from one tick to the next. */
module ZoomMonitor {
  import opened Wrappers
  import opened JsString
  import opened JsArray

  /** A line is kept when it contains this. */
  const ProcessMarker := "zoom.us"
  /** Path segment of the Zoom main executable. */
  const MainMarker := "/MacOS/zoom.us"
  /** Path segment of the helper that runs only during a meeting. */
  const CompanionMarker := "/Frameworks/aomhost.app"

  /** What one `exec` callback receives: whether `err` was set, and the
      captured stderr and stdout text. */
  datatype TickInput = TickInput(errPresent: bool, stderr: string, stdout: string)

  /** The four ways a tick can end. */
  datatype TickOutcome =
    | Skipped            // the query failed; the tick is abandoned
    | NotRunning         // "Zoom is not running."
    | RunningNoMeeting   // "Zoom is running, but no meeting detected."
    | MeetingDetected    // the notification is shown

  /** The notification a meeting tick shows ("Meeting Detected"). */
  datatype Notification = MeetingNotification

  predicate IsZoomLine(line: string) { Contains(line, ProcessMarker) }

  predicate IsMainLine(line: string) { Contains(line, MainMarker) }

  predicate IsCompanionLine(line: string) { Contains(line, CompanionMarker) }

  /** A line that passes the `zoom.us` filter and names the companion. */
  predicate IsZoomCompanionLine(line: string) { IsZoomLine(line) && IsCompanionLine(line) }

  /** JavaScript truthiness of `err || stderr`: an error object is truthy,
      and so is every non-empty string. */
  predicate Abandoned(t: TickInput) { t.errPresent || t.stderr != "" }

  /** JavaScript truthiness of a `find` result: `undefined` and `""` are
      falsy, every other string is truthy. */
  predicate Truthy(v: Option<string>) { v.Some? && v.value != "" }

  /** Some line of the listing satisfies `p`. */
  ghost predicate HasLine(stdout: string, p: string -> bool)
  {
    exists line :: line in Split(stdout, '\n') && p(line)
  }

  /** The lines of the process listing that mention `zoom.us`. */
  function Processes(stdout: string): (kept: seq<string>)
    ensures |kept| <= |Split(stdout, '\n')|
    ensures forall line :: line in kept <==> line in Split(stdout, '\n') && IsZoomLine(line)
  {
    Filter(Split(stdout, '\n'), IsZoomLine)
  }

  /** The first kept line naming the main executable: a line of the listing
      that names it, found exactly when some line does. */
  function MainProcess(stdout: string): (found: Option<string>)
    ensures found.Some? ==> found.value in Split(stdout, '\n') && IsMainLine(found.value)
    ensures found.None? <==> !HasLine(stdout, IsMainLine)
  {
    MainLinesAreZoomLines();
    FindFirst(Processes(stdout), IsMainLine)
  }

  /** The first kept line naming the companion helper: a line of the listing
      holding both `zoom.us` and the companion's path, found exactly when
      some line does. */
  function AomHostProcess(stdout: string): (found: Option<string>)
    ensures found.Some? ==> found.value in Split(stdout, '\n') && IsZoomCompanionLine(found.value)
    ensures found.None? <==> !HasLine(stdout, IsZoomCompanionLine)
  {
    FindFirst(Processes(stdout), IsCompanionLine)
  }

  /** One tick of the detector. A failed query abandons the tick; otherwise
      the meeting is detected exactly when some line names the main
      executable and some line (the same one or another) contains both
      `zoom.us` and the companion's path; a line naming only the companion
      never counts. */
  function Classify(t: TickInput): (o: TickOutcome)
    ensures o == Skipped <==> Abandoned(t)
    ensures o == MeetingDetected <==>
      !Abandoned(t) && HasLine(t.stdout, IsMainLine) && HasLine(t.stdout, IsZoomCompanionLine)
    ensures o == RunningNoMeeting <==>
      !Abandoned(t) && HasLine(t.stdout, IsMainLine) && !HasLine(t.stdout, IsZoomCompanionLine)
    ensures o == NotRunning <==> !Abandoned(t) && !HasLine(t.stdout, IsMainLine)
  {
    MainProcessIsFirstMainLine(t.stdout);
    AomHostIsFirstZoomCompanionLine(t.stdout);
    if Abandoned(t) then Skipped
    else
      var zoomMain := MainProcess(t.stdout);
      var aomHost := AomHostProcess(t.stdout);
      if Truthy(zoomMain) then
        if Truthy(aomHost) then MeetingDetected else RunningNoMeeting
      else NotRunning
  }

  /** The main-executable marker passes the `zoom.us` filter. */
  lemma MainMarkerIsZoomLine()
    ensures IsZoomLine(MainMarker)
  {
    assert OccursAt(MainMarker, ProcessMarker, 7);
    ContainsIff(MainMarker, ProcessMarker);
  }

  /** Every line naming the main executable passes the `zoom.us` filter. */
  lemma MainLinesAreZoomLines()
    ensures forall line :: IsMainLine(line) ==> IsZoomLine(line)
  {
    forall line | IsMainLine(line)
      ensures IsZoomLine(line)
    {
      MainMarkerIsZoomLine();
      ContainsTransitive(line, MainMarker, ProcessMarker);
    }
  }

  /** A found line is never the empty string, so the truthiness tests in
      the tick reduce to "found". */
  lemma FoundLineIsTruthy(line: Option<string>, needle: string)
    requires |needle| > 0
    requires line.Some? ==> Contains(line.value, needle)
    ensures Truthy(line) <==> line.Some?
  {
    if line.Some? && line.value == "" {
      EmptyContainsOnlyEmpty(needle);
    }
  }

  /** The kept lines are exactly the `'\n'`-separated segments of the
      output that contain `zoom.us`, in their original order. */
  lemma ProcessesAreZoomSegments(stdout: string)
    ensures var lines, idx := Split(stdout, '\n'), Positions(Split(stdout, '\n'), IsZoomLine);
      && |Processes(stdout)| == |idx|
      && (forall k :: 0 <= k < |idx| ==> Processes(stdout)[k] == lines[idx[k]])
      && (forall k, l :: 0 <= k < l < |idx| ==> idx[k] < idx[l])
      && (forall i :: 0 <= i < |lines| ==> (i in idx <==> IsZoomLine(lines[i])))
  {
    var lines := Split(stdout, '\n');
    var idx := Positions(lines, IsZoomLine);
    FilterIsPositions(lines, IsZoomLine);
    forall i | 0 <= i < |lines| && i in idx
      ensures IsZoomLine(lines[i])
    {
      var k :| 0 <= k < |idx| && idx[k] == i;
    }
  }

  /** The main process is the first line of the whole listing that names
      the main executable: the filter never drops such a line. It is found
      exactly when some line names it, and it is then truthy. */
  lemma MainProcessIsFirstMainLine(stdout: string)
    ensures MainProcess(stdout) == FindFirst(Split(stdout, '\n'), IsMainLine)
    ensures MainProcess(stdout).Some? <==> HasLine(stdout, IsMainLine)
    ensures Truthy(MainProcess(stdout)) <==> MainProcess(stdout).Some?
  {
    MainLinesAreZoomLines();
    FindFirstFilterImplied(Split(stdout, '\n'), IsZoomLine, IsMainLine);
    FoundLineIsTruthy(MainProcess(stdout), MainMarker);
  }

  /** The companion process is the first line of the whole listing that
      contains both `zoom.us` and the companion's path. It is found exactly
      when some line does, and it is then truthy. */
  lemma AomHostIsFirstZoomCompanionLine(stdout: string)
    ensures AomHostProcess(stdout) == FindFirst(Split(stdout, '\n'), IsZoomCompanionLine)
    ensures AomHostProcess(stdout).Some? <==> HasLine(stdout, IsZoomCompanionLine)
    ensures Truthy(AomHostProcess(stdout)) <==> AomHostProcess(stdout).Some?
  {
    FindFirstFilter(Split(stdout, '\n'), IsZoomLine, IsCompanionLine, IsZoomCompanionLine);
    FoundLineIsTruthy(AomHostProcess(stdout), CompanionMarker);
  }

  /** An empty listing means Zoom is not running. */
  lemma EmptyOutputNotRunning()
    ensures Classify(TickInput(false, "", "")) == NotRunning
  {
    assert Split("", '\n') == [""];
    assert !IsMainLine("");
  }

  /** A trailing newline adds an empty line, which the filter drops, so it
      never changes the outcome. */
  lemma TrailingNewlineIgnored(t: TickInput)
    ensures Classify(t.(stdout := t.stdout + "\n")) == Classify(t)
  {
    var lines := Split(t.stdout, '\n');
    TrailingSeparator(t.stdout, '\n');
    FilterConcat(lines, [""], IsZoomLine);
    EmptyContainsOnlyEmpty(ProcessMarker);
    assert Filter([""], IsZoomLine) == [];
    assert Processes(t.stdout + "\n") == Processes(t.stdout);
  }

  // A sample listing, built from short pieces: the installed bundle, the
  // main executable's line and the companion helper's line.
  const AppRoot := "/Applications"
  const AppBundle := "/zoom.us.app"
  const BundleContents := "/Contents"
  const HelperTail := "/Contents/MacOS/aomhost"
  const SampleMainLine := AppRoot + AppBundle + BundleContents + MainMarker
  const SampleAomHostLine := AppRoot + AppBundle + BundleContents + CompanionMarker + HelperTail

  /** The sample lines hold no line break. */
  lemma SampleLinesUnbroken()
    ensures '\n' !in SampleMainLine && '\n' !in SampleAomHostLine && '\n' !in CompanionMarker
  {
    assert '\n' !in AppRoot && '\n' !in AppBundle && '\n' !in BundleContents;
    assert '\n' !in MainMarker && '\n' !in CompanionMarker && '\n' !in HelperTail;
  }

  /** The bare companion path is not a `zoom.us` line: it has no `z`. */
  lemma BareCompanionIsNotZoomLine()
    ensures !IsZoomLine(CompanionMarker)
  {
    assert 'z' !in CompanionMarker;
    if IsZoomLine(CompanionMarker) {
      ContainsCharacterOf(CompanionMarker, ProcessMarker, 0);
    }
  }

  /** The sample main line does not name the companion: it has no `F`. */
  lemma SampleMainLineIsNotCompanion()
    ensures !IsCompanionLine(SampleMainLine)
  {
    assert 'F' !in AppRoot && 'F' !in AppBundle && 'F' !in BundleContents && 'F' !in MainMarker;
    if IsCompanionLine(SampleMainLine) {
      ContainsCharacterOf(SampleMainLine, CompanionMarker, 1);
    }
  }

  /** The sample main line names the main executable and so passes the
      filter; the sample helper line passes the filter and names the
      companion. */
  lemma SampleLinesMatch()
    ensures IsMainLine(SampleMainLine)
    ensures IsZoomLine(SampleAomHostLine) && IsCompanionLine(SampleAomHostLine)
  {
    var bundlePath := AppRoot + AppBundle + BundleContents;
    ContainsInfix(bundlePath, MainMarker, "");
    assert bundlePath + MainMarker + "" == SampleMainLine;
    ContainsInfix(bundlePath, CompanionMarker, HelperTail);
    ContainsInfix(AppRoot, AppBundle, BundleContents + CompanionMarker + HelperTail);
    assert AppRoot + AppBundle + (BundleContents + CompanionMarker + HelperTail) == SampleAomHostLine;
    assert OccursAt(AppBundle, ProcessMarker, 1);
    ContainsIff(AppBundle, ProcessMarker);
    ContainsTransitive(SampleAomHostLine, AppBundle, ProcessMarker);
  }

  /** A two-line listing has a line satisfying `p` exactly when one of its
      two lines does. */
  lemma TwoLineListing(a: string, b: string, p: string -> bool)
    requires '\n' !in a && '\n' !in b
    ensures HasLine(a + "\n" + b, p) <==> p(a) || p(b)
  {
    var parts := [a, b];
    assert Join(parts, '\n') == a + "\n" + b;
    SplitJoin(parts, '\n');
    assert forall line :: line in parts <==> line == a || line == b;
  }

  /** The two markers may come from different lines of one listing. */
  lemma MeetingFromTwoLines()
    ensures Classify(TickInput(false, "", SampleMainLine + "\n" + SampleAomHostLine)) == MeetingDetected
  {
    SampleLinesUnbroken();
    SampleLinesMatch();
    TwoLineListing(SampleMainLine, SampleAomHostLine, IsMainLine);
    TwoLineListing(SampleMainLine, SampleAomHostLine, IsZoomCompanionLine);
  }

  /** A companion line without a `zoom.us` path is dropped by the filter,
      so it never makes a meeting. */
  lemma BareCompanionLineIgnored()
    ensures Classify(TickInput(false, "", SampleMainLine + "\n" + CompanionMarker)) == RunningNoMeeting
  {
    SampleLinesUnbroken();
    SampleLinesMatch();
    BareCompanionIsNotZoomLine();
    SampleMainLineIsNotCompanion();
    TwoLineListing(SampleMainLine, CompanionMarker, IsMainLine);
    TwoLineListing(SampleMainLine, CompanionMarker, IsZoomCompanionLine);
  }

  /** The outcome of every tick in a run, each computed from that tick's
      input alone. */
  function Outcomes(ticks: seq<TickInput>): (os: seq<TickOutcome>)
    ensures |os| == |ticks|
    ensures forall i :: 0 <= i < |ticks| ==> os[i] == Classify(ticks[i])
    decreases |ticks|
  {
    if ticks == [] then [] else [Classify(ticks[0])] + Outcomes(ticks[1..])
  }

  /** The notifications that a run of outcomes shows: one for each
      MeetingDetected, in order. There are never more notifications than
      outcomes, and none exactly when no outcome is a meeting. */
  function Shown(os: seq<TickOutcome>): (shown: seq<Notification>)
    ensures |shown| <= |os|
    ensures shown == [] <==> MeetingDetected !in os
    decreases |os|
  {
    if os == [] then []
    else (if os[0] == MeetingDetected then [MeetingNotification] else []) + Shown(os[1..])
  }

  /** The notifications shown over a run of ticks: at most one per tick,
      and none exactly when no tick sees a meeting. */
  function Notifications(ticks: seq<TickInput>): (shown: seq<Notification>)
    ensures |shown| <= |ticks|
    ensures shown == [] <==> forall i :: 0 <= i < |ticks| ==> Classify(ticks[i]) != MeetingDetected
  {
    Shown(Outcomes(ticks))
  }

  /** Showing notifications for a concatenation of outcome runs shows those
      of each run in turn. */
  lemma {:induction false} ShownAppend(a: seq<TickOutcome>, b: seq<TickOutcome>)
    ensures Shown(a + b) == Shown(a) + Shown(b)
    decreases |a|
  {
    if a == [] {
      assert a + b == b;
    } else {
      assert (a + b)[0] == a[0] && (a + b)[1..] == a[1..] + b;
      ShownAppend(a[1..], b);
    }
  }

  /** A run of outcomes shows one notification per MeetingDetected. */
  lemma {:induction false} ShownCount(os: seq<TickOutcome>)
    ensures |Shown(os)| == multiset(os)[MeetingDetected]
    decreases |os|
  {
    if os != [] {
      ShownCount(os[1..]);
      assert os == [os[0]] + os[1..];
    }
  }

  /** No state is carried across ticks: the notifications of a run are those
      of its first part followed by those of the rest. */
  lemma NotificationsAppend(a: seq<TickInput>, b: seq<TickInput>)
    ensures Notifications(a + b) == Notifications(a) + Notifications(b)
  {
    OutcomesAppend(a, b);
    ShownAppend(Outcomes(a), Outcomes(b));
  }

  /** The outcomes of a concatenation of runs are those of each run in turn. */
  lemma OutcomesAppend(a: seq<TickInput>, b: seq<TickInput>)
    ensures Outcomes(a + b) == Outcomes(a) + Outcomes(b)
  {
    var ab := Outcomes(a + b);
    forall i | 0 <= i < |ab|
      ensures ab[i] == (Outcomes(a) + Outcomes(b))[i]
    {
      if i < |a| {
        assert (a + b)[i] == a[i];
      } else {
        assert (a + b)[i] == b[i - |a|];
      }
    }
  }

  /** One notification per meeting tick, with no edge triggering. */
  lemma NotificationCount(ticks: seq<TickInput>)
    ensures |Notifications(ticks)| == multiset(Outcomes(ticks))[MeetingDetected]
  {
    ShownCount(Outcomes(ticks));
  }

  /** A run made only of MeetingDetected outcomes counts one per outcome. */
  lemma {:induction false} AllMeetingsCount(os: seq<TickOutcome>)
    requires forall i :: 0 <= i < |os| ==> os[i] == MeetingDetected
    ensures multiset(os)[MeetingDetected] == |os|
    decreases |os|
  {
    if os != [] {
      assert os == [os[0]] + os[1..];
      AllMeetingsCount(os[1..]);
    }
  }

  /** Consecutive ticks that each see a meeting show one notification each,
      however their listings differ: there is no edge triggering. */
  lemma RepeatedMeetingTicks(ticks: seq<TickInput>)
    requires forall i :: 0 <= i < |ticks| ==> Classify(ticks[i]) == MeetingDetected
    ensures |Notifications(ticks)| == |ticks|
  {
    NotificationCount(ticks);
    AllMeetingsCount(Outcomes(ticks));
  }

  /** Ticks whose query failed show nothing. */
  lemma AbandonedTicksShowNothing(ticks: seq<TickInput>)
    requires forall i :: 0 <= i < |ticks| ==> Abandoned(ticks[i])
    ensures Notifications(ticks) == []
  {
    assert MeetingDetected !in Outcomes(ticks);
    ShownCount(Outcomes(ticks));
  }
}
