/** The record of a halt: `core/src/halt.rs`, `cli/src/halted.rs` and the starts it refuses in `cli/src/main.rs`. */
module HaltRecord {
  import opened Wrappers
  import Text
  import opened Disk
  import opened DurableWrite
  import opened BatteryGovernor

  // ---------------------------------------------------------------- a halt and its text

  datatype Halted = Halted(reason: string)

  datatype HaltError = Empty | Control

  predicate HasControl(s: string) {
    exists i :: 0 <= i < |s| && Text.IsControl(s[i])
  }

  function New(raw: string): Result<Halted, HaltError> {
    var reason := Text.Trim(raw);
    if reason == "" then Err(Empty) else if HasControl(reason) then Err(Control) else Ok(Halted(reason))
  }

  function Render(h: Halted): string {
    h.reason + "\n"
  }

  /** A reason that can be recorded: not blank, nothing to trim, and nothing that rewrites a terminal. */
  predicate Usable(reason: string) {
    reason != "" && Text.Trimmed(reason) && forall i :: 0 <= i < |reason| ==> !Text.IsControl(reason[i])
  }

  /** A text is a halt exactly when it is a usable reason with white space around it. */
  lemma NewExactly(raw: string, h: Halted)
    ensures New(raw) == Ok(h) <==>
            Usable(h.reason) && exists a, z :: Text.AllSpace(a) && Text.AllSpace(z) && raw == a + h.reason + z
  {
    var a, z := Text.TrimSplits(raw);
    if Usable(h.reason) {
      forall b, y | Text.AllSpace(b) && Text.AllSpace(y) && raw == b + h.reason + y
        ensures New(raw) == Ok(h)
      {
        Text.TrimPadded(b, h.reason, y);
      }
    }
  }

  /** A blank text is complained about first, then one that would rewrite a terminal. */
  lemma NewErrors(raw: string)
    ensures New(raw) == Err(Empty) <==> Text.AllSpace(raw)
    ensures New(raw) == Err(Control) <==>
            !Text.AllSpace(raw) && exists i :: 0 <= i < |Text.Trim(raw)| && Text.IsControl(Text.Trim(raw)[i])
  {
    Text.NoWords(raw);
  }

  /** What is recorded is read back as it was. */
  lemma RoundTrip(raw: string)
    requires New(raw).Ok?
    ensures New(Render(New(raw).value)) == New(raw)
  {
    var h := New(raw).value;
    NewExactly(raw, h);
    assert "" + h.reason + "\n" == Render(h);
    assert Text.AllSpace("") && Text.AllSpace("\n");
    NewExactly(Render(h), h);
  }

  // ---------------------------------------------------------------- what the record says

  datatype Standing = Clear | Stands(halt: Halted) | Unreadable

  predicate MayStartServing(s: Standing) {
    match s
    case Clear => true
    case Stands(_) => false
    case Unreadable => false
  }

  function Floor(s: Standing): Level {
    match s
    case Clear => Normal
    case Stands(_) => Halt
    case Unreadable => Halt
  }

  /** What reading the record comes to; `opens` is whether the filesystem lets it be read at all. */
  function StandingOf(found: Option<Content>, opens: bool): Standing {
    if !opens then Unreadable
    else match found
      case None => Clear
      case Some(NotText(_)) => Unreadable
      case Some(Text(raw)) => match New(raw)
        case Err(_) => Unreadable
        case Ok(h) => Stands(h)
  }

  /** Only an absence that was seen lets a device serve. */
  lemma ServesExactly(found: Option<Content>, opens: bool)
    ensures MayStartServing(StandingOf(found, opens)) <==> opens && found == None
    ensures Floor(StandingOf(found, opens)) == Normal <==> opens && found == None
  {
  }

  method Read(dev: Drive, path: string, opens: bool) returns (s: Standing)
    requires dev.Held().Valid()
    ensures s == StandingOf(dev.Held().Read(path), opens)
  {
    if !opens {
      return Unreadable;
    }
    var found := dev.disk.Read(path);
    if found.None? {
      return Clear;
    }
    if found.value.NotText? {
      return Unreadable;
    }
    var halt := New(found.value.text);
    return if halt.Err? then Unreadable else Stands(halt.value);
  }

  function RecordText(h: Halted): Content {
    Content.Text(Render(h))
  }

  /** The flush of the directory that a bare name has none of: opening the empty path fails. */
  function Reached(path: string, fault: Fault): Fault {
    if fault.NoFault? && !HasDirectory(path) then DirectoryFails else fault
  }

  /** Whether there is a directory to write into: its making did not fail, and a bare name has nothing made. */
  predicate Enters(m: Medium, path: string, made: bool) {
    HasParent(path) && made && (m.home.Absent? ==> HasDirectory(path))
  }

  /** Where recording leaves the medium; `made` is whether `create_dir_all` succeeded. */
  function Recorded(m: Medium, path: string, h: Halted, made: bool, fault: Fault): (next: Medium)
    requires m.Valid()
    ensures next.Valid()
  {
    if !Enters(m, path, made) then m
    else m.Made().WithDisk(Attempt(m.disk, path, TemporaryOf(path), RecordText(h), Reached(path, fault), false))
  }

  /** The recording returned `Ok`. */
  predicate RecordedOk(m: Medium, path: string, made: bool, fault: Fault) {
    Enters(m, path, made) && HasDirectory(path) && fault.NoFault?
  }

  /**
   Makes the directory, then writes the record in the vault's order. A failed rename leaves the
   temporary where it is, and a bare name is written but never reported as recorded. A symbolic
   link is an entry for the file it leads to.
   */
  method Record(dev: Drive, path: string, halt: Halted, made: bool, fault: Fault) returns (ok: bool)
    requires dev.Held().Valid()
    modifies dev`home, dev`disk, dev`seen
    ensures ok <==> RecordedOk(old(dev.Held()), path, made, fault)
    ensures ok <==> HasDirectory(path) && made && fault.NoFault?
    ensures !made ==> dev.Held() == old(dev.Held())
    ensures dev.Held() == Recorded(old(dev.Held()), path, halt, made, fault)
    ensures GrewSafely(dev, old(dev.disk), path, TemporaryOf(path), RecordText(halt))
  {
    if !HasParent(path) || !made {
      return false;
    }
    if dev.home.Absent? {
      if !HasDirectory(path) {
        return false;
      }
      dev.home := Pending;
    }
    ghost var d, n := dev.disk, |dev.seen|;
    var temporary, content := TemporaryOf(path), RecordText(halt);
    var reached := Prepare(dev, path, temporary, content, fault);
    if reached < 3 {
      return false;
    }
    if fault.RenameFails? {
      return false;
    }
    StageSafe(d, path, temporary, content, 4);
    OneMoreSafe(d, dev.seen, n, Stage(d, path, temporary, content, 4), path, temporary, content);
    dev.Rename(temporary, path);
    if fault.DirectoryFails? || !HasDirectory(path) {
      return false;
    }
    StageSafe(d, path, temporary, content, 5);
    OneMoreSafe(d, dev.seen, n, Stage(d, path, temporary, content, 5), path, temporary, content);
    dev.SyncDirectory();
    return true;
  }

  /** Under a bare name no directory is flushed: whatever a power cut could leave before, it still can, and now the new record too. */
  lemma BareNameKeepsOld(m: Medium, path: string, h: Halted, c: Option<Content>)
    requires m.Valid() && !m.home.Absent? && HasParent(path) && !HasDirectory(path) && Ready(m.disk, path, TemporaryOf(path))
    ensures Recorded(m, path, h, true, NoFault).disk.MayLeave(path, c) <==>
            m.disk.MayLeave(path, c) || c == Some(RecordText(h))
  {
    StageOldOrNew(m.disk, path, TemporaryOf(path), RecordText(h), 3);
    StageKeeps(m.disk, path, path, TemporaryOf(path), RecordText(h), 3);
    RenameAdds(Stage(m.disk, path, TemporaryOf(path), RecordText(h), 3), path, TemporaryOf(path));
  }

  function Cleared(m: Medium, path: string, fails: bool): (next: Medium)
    requires m.Valid()
    ensures next.Valid()
  {
    if fails || path !in m.disk.Now() then m else m.WithDisk(m.disk.Removed(path))
  }

  /** Removes the record. One that is not there is no error; the directory is not flushed. */
  method ClearRecord(dev: Drive, path: string, fails: bool) returns (ok: bool)
    requires dev.Held().Valid()
    modifies dev`disk, dev`seen
    ensures ok <==> !fails
    ensures dev.Held() == Cleared(old(dev.Held()), path, fails)
  {
    if fails {
      return false;
    }
    if path in dev.disk.Now() {
      dev.Remove(path);
    }
    return true;
  }

  /** Asked before anything that serves traffic starts. */
  method RefuseIfHalted(dev: Drive, path: string, opens: bool) returns (refused: bool)
    requires dev.Held().Valid()
    ensures refused <==> !opens || dev.Held().Read(path).Some?
  {
    var standing := Read(dev, path, opens);
    ServesExactly(dev.Held().Read(path), opens);
    return !MayStartServing(standing);
  }

  /** A person looked at the phone. Only a phone that lies flat has its record removed. */
  method Inspect(dev: Drive, path: string, seen: Inspection, fails: bool, th: Thresholds) returns (resumed: bool)
    requires dev.Held().Valid()
    modifies dev`disk, dev`seen
    ensures resumed <==> seen.LiesFlat? && !fails
    ensures dev.Held() == if seen.LiesFlat? then Cleared(old(dev.Held()), path, fails) else old(dev.Held())
  {
    var governor := new Governor(th);
    var flat := governor.Inspect(seen);
    if !flat {
      return false;
    }
    resumed := ClearRecord(dev, path, fails);
  }

  // ---------------------------------------------------------------- whole runs

  /** What may happen to the record: a halt is written down, a person inspects, the power is cut. */
  datatype Event =
    | Recording(raw: string, made: bool, fault: Fault)
    | Inspected(seen: Inspection, fails: bool)
    | PowerCut(after: Medium)

  ghost predicate Happens(m: Medium, event: Event, next: Medium, path: string)
    requires m.Valid()
  {
    match event
    case Recording(raw, made, fault) =>
      next == (match New(raw)
               case Err(_) => m
               case Ok(h) => Recorded(m, path, h, made, fault))
    case Inspected(seen, fails) => next == if seen.LiesFlat? then Cleared(m, path, fails) else m
    case PowerCut(after) => m.Crash(after) && next == after
  }

  /** Each state of a run and the event that led to the next. */
  ghost predicate Run(states: seq<Medium>, events: seq<Event>, path: string) {
    && |states| == |events| + 1
    && (forall k :: 0 <= k < |states| ==> states[k].Valid())
    && forall k :: 0 <= k < |events| ==> Happens(states[k], events[k], states[k + 1], path)
  }

  /** A usable halt was written down, and that returned `Ok`. */
  predicate Succeeds(m: Medium, event: Event, path: string) {
    event.Recording? && New(event.raw).Ok? && RecordedOk(m, path, event.made, event.fault)
  }

  predicate IsRecorded(event: Event, c: Content) {
    event.Recording? && New(event.raw).Ok? && c == RecordText(New(event.raw).value)
  }

  ghost predicate SomeRecorded(events: seq<Event>, c: Option<Content>) {
    c.Some? && exists k :: 0 <= k < |events| && IsRecorded(events[k], c.value)
  }

  /** The directory stays, and whatever a power cut leaves under the path is a halt that one of the events recorded. */
  ghost predicate Protected(m: Medium, path: string, events: seq<Event>) {
    && m.Valid() && m.home.Durable? && Ready(m.disk, path, TemporaryOf(path))
    && forall c :: m.disk.MayLeave(path, c) ==> SomeRecorded(events, c)
  }

  lemma RecordedMore(events: seq<Event>, event: Event, c: Option<Content>)
    ensures SomeRecorded(events + [event], c) <==> SomeRecorded(events, c) || (c.Some? && IsRecorded(event, c.value))
  {
    var all := events + [event];
    assert all[|events|] == event;
    if SomeRecorded(events, c) {
      var k :| 0 <= k < |events| && IsRecorded(events[k], c.value);
      assert all[k] == events[k];
    }
  }

  predicate Clears(event: Event) {
    event.Inspected? && event.seen.LiesFlat? && !event.fails
  }

  /** What one event may newly leave under the path: the halt it recorded, if it recorded one. */
  lemma EventAdds(m: Medium, event: Event, next: Medium, path: string)
    requires m.Valid() && m.home.Durable? && Ready(m.disk, path, TemporaryOf(path))
    requires Happens(m, event, next, path) && !Clears(event)
    ensures next.Valid() && next.home.Durable? && Ready(next.disk, path, TemporaryOf(path))
    ensures forall c :: next.disk.MayLeave(path, c) ==> m.disk.MayLeave(path, c) || (c.Some? && IsRecorded(event, c.value))
  {
    match event {
      case Recording(raw, made, fault) =>
        if New(raw).Ok? {
          AttemptOldOrNew(m.disk, path, TemporaryOf(path), RecordText(New(raw).value), Reached(path, fault), false);
        }
      case Inspected(seen, fails) =>
      case PowerCut(after) => CrashSettles(m.disk, after.disk, path, TemporaryOf(path));
    }
  }

  /** Nothing but a phone seen to lie flat takes the protection away: no fault, power cut or restart does. */
  lemma EventKeepsProtected(m: Medium, event: Event, next: Medium, path: string, events: seq<Event>)
    requires Protected(m, path, events) && Happens(m, event, next, path) && !Clears(event)
    ensures Protected(next, path, events + [event])
  {
    EventAdds(m, event, next, path);
    forall c | next.disk.MayLeave(path, c)
      ensures SomeRecorded(events + [event], c)
    {
      RecordedMore(events, event, c);
    }
  }

  /** A recording that returned `Ok` lands, whatever the record was before. */
  lemma OkLands(m: Medium, event: Event, next: Medium, path: string)
    requires m.Valid() && Happens(m, event, next, path) && Succeeds(m, event, path)
    ensures next.home == m.Made().home && Landed(next.disk, path, TemporaryOf(path), RecordText(New(event.raw).value))
  {
    LastStageLands(m.disk, path, TemporaryOf(path), RecordText(New(event.raw).value));
    assert |TemporaryOf(path)| > |path|;
  }

  /** A phone seen to lie flat, whose record could be removed, may serve at once. */
  lemma FlatServes(m: Medium, event: Event, next: Medium, path: string)
    requires m.Valid() && Happens(m, event, next, path) && Clears(event)
    ensures next.Valid() && next.Read(path) == None && MayStartServing(StandingOf(next.Read(path), true))
  {
  }

  lemma {:induction false} RunProtects(states: seq<Medium>, events: seq<Event>, path: string, r: nat, k: nat)
    requires Run(states, events, path) && r < k < |states|
    requires Succeeds(states[r], events[r], path) && states[r].home.Durable?
    requires forall j :: r < j < k ==> !Clears(events[j])
    ensures Protected(states[k], path, events[r..k])
  {
    if k == r + 1 {
      OkLands(states[r], events[r], states[k], path);
      forall c | states[k].disk.MayLeave(path, c)
        ensures SomeRecorded(events[r..k], c)
      {
        assert IsRecorded(events[r..k][0], c.value);
      }
    } else {
      RunProtects(states, events, path, r, k - 1);
      EventKeepsProtected(states[k - 1], events[k - 1], states[k], path, events[r..k - 1]);
      assert events[r..k - 1] + [events[k - 1]] == events[r..k];
    }
  }

  /** What stands is a halt that was recorded, read back as it was written. */
  lemma RecordedStands(events: seq<Event>, c: Option<Content>)
    requires SomeRecorded(events, c)
    ensures StandingOf(c, true).Stands?
    ensures exists k :: 0 <= k < |events| && events[k].Recording? && New(events[k].raw) == Ok(StandingOf(c, true).halt)
  {
    var k :| 0 <= k < |events| && IsRecorded(events[k], c.value);
    RoundTrip(events[k].raw);
    assert events[k].Recording? && New(events[k].raw) == Ok(StandingOf(c, true).halt);
  }

  /**
   A halt whose recording returned `Ok`, in a directory whose own entry was on the medium, blocks
   every start that serves, whatever faults, later halts, restarts and power cuts follow, until a
   phone that lies flat is inspected. What the next start reads is one of the halts recorded since,
   or that the record cannot be read.
   */
  lemma HaltOutlivesThePower(states: seq<Medium>, events: seq<Event>, path: string, r: nat, k: nat, opens: bool)
    requires Run(states, events, path) && r < k < |states|
    requires Succeeds(states[r], events[r], path) && states[r].home.Durable?
    requires forall j :: r < j < k ==> !Clears(events[j])
    ensures var standing := StandingOf(states[k].Read(path), opens);
            && !MayStartServing(standing) && Floor(standing) == Halt
            && (opens ==> standing.Stands? && exists j :: r <= j < k && events[j].Recording? && New(events[j].raw) == Ok(standing.halt))
  {
    RunProtects(states, events, path, r, k);
    NowIsLeft(states[k].disk, path);
    RecordedStands(events[r..k], states[k].Read(path));
    var j :| 0 <= j < k - r && events[r..k][j].Recording? && New(events[r..k][j].raw) == Ok(StandingOf(states[k].Read(path), true).halt);
    assert events[r..k][j] == events[r + j];
  }

  /** No run that starts by recording this halt, and never clears it, lets the device serve again. */
  ghost predicate BlocksEveryStart(m: Medium, event: Event, path: string) {
    forall states: seq<Medium>, events: seq<Event> ::
      Run(states, events, path) && |events| > 0 && states[0] == m && events[0] == event
      && (forall j :: 0 < j < |events| ==> !Clears(events[j])) ==>
        !MayStartServing(StandingOf(states[|events|].Read(path), true))
  }

  /**
   `Ok` blocks every later start exactly when the directory's own entry was on the medium before
   the call: `record` may create the directory, and flushes only what is in it.
   */
  lemma OkBlocksExactly(m: Medium, event: Event, path: string)
    requires m.Valid() && Succeeds(m, event, path)
    ensures BlocksEveryStart(m, event, path) <==> m.home.Durable?
  {
    if m.home.Durable? {
      forall states: seq<Medium>, events: seq<Event> | Run(states, events, path) && |events| > 0 && states[0] == m && events[0] == event
                              && (forall j :: 0 < j < |events| ==> !Clears(events[j]))
        ensures !MayStartServing(StandingOf(states[|events|].Read(path), true))
      {
        HaltOutlivesThePower(states, events, path, 0, |events|, true);
      }
    } else {
      var states, events := LostRun(m, event, path);
      assert Run(states, events, path) && states[0] == m && events[0] == event;
    }
  }

  /** The run in which the directory that held the halt is lost with the power. */
  lemma LostRun(m: Medium, event: Event, path: string) returns (states: seq<Medium>, events: seq<Event>)
    requires m.Valid() && Succeeds(m, event, path) && !m.home.Durable?
    ensures |events| == 2 && Run(states, events, path) && states[0] == m && events[0] == event && events[1].PowerCut?
    ensures MayStartServing(StandingOf(states[2].Read(path), true))
  {
    var h := New(event.raw).value;
    var lost := Medium(Absent, EMPTY);
    var next := Recorded(m, path, h, event.made, event.fault);
    assert next.home.Pending? && next.Crash(lost);
    states, events := [m, next, lost], [event, PowerCut(lost)];
    assert Happens(m, event, next, path) && Happens(next, events[1], lost, path);
  }

  /** The first halt of a device on which nothing was ever kept: recorded, then gone with the power. */
  lemma FirstHaltMayBeLost()
    ensures var path, m := ".vayucell/halted", Medium(Absent, EMPTY);
            var event := Recording("hot", true, NoFault);
            m.Valid() && Succeeds(m, event, path) && !BlocksEveryStart(m, event, path)
  {
    var path, m := ".vayucell/halted", Medium(Absent, EMPTY);
    var event := Recording("hot", true, NoFault);
    assert Begins(path, 10);
    Text.TrimOfTrimmed("hot");
    OkBlocksExactly(m, event, path);
  }

  /**
   Clearing does not flush the directory. The device serves at once, and until something flushes
   the directory a power cut may bring the halt back, never anything else.
   */
  lemma ClearedMayReturn(m: Medium, path: string, h: Content)
    requires m.Valid() && Landed(m.disk, path, TemporaryOf(path), h)
    ensures var e := Cleared(m, path, false);
            && e.Read(path) == None
            && (forall c :: e.MayLeave(path, c) <==> c == None || c == Some(h))
            && exists after: Medium :: e.Crash(after) && after.Read(path) == Some(h)
  {
    NowIsLeft(m.disk, path);
    var e := Cleared(m, path, false);
    RemoveAdds(m.disk, path, path, TemporaryOf(path));
    MediumExactly(e, path, TemporaryOf(path), Some(h));
  }
}
