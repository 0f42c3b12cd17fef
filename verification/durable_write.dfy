/** The vault's write order, `write_durably` of `cli/src/listen.rs`, cut short at any point. */
module DurableWrite {
  import opened Wrappers
  import opened Disk

  /** The step the filesystem refuses, and what that leaves half done. */
  datatype Fault = NoFault | OpenFails | WriteFails(left: Content) | FlushFails | RenameFails | DirectoryFails

  datatype StorageFailure = Conflict | Failed

  function TemporaryOf(path: string): string {
    path + ".partial"
  }

  /** A component of the path begins here: a run without separators, and not a `.` behind one. */
  predicate Begins(path: string, j: nat)
    requires j < |path|
  {
    && path[j] != '/' && (j > 0 ==> path[j - 1] == '/')
    && !(j > 0 && path[j] == '.' && (j + 1 == |path| || path[j + 1] == '/'))
  }

  /** `Path::parent` gives a directory to flush: the last component has something before it, a component or the root. */
  predicate HasDirectory(path: string) {
    exists j :: 0 < j < |path| && Begins(path, j)
  }

  /** `Path::parent` gives anything at all: for a bare name it is the empty path, for a root nothing. */
  predicate HasParent(path: string) {
    exists j :: 0 <= j < |path| && Begins(path, j)
  }

  /** Paths with and without a directory, and with nothing above them at all. */
  lemma Parents()
    ensures HasDirectory("/x") && HasDirectory("a/x") && HasDirectory("./x") && HasDirectory("../x")
    ensures HasParent("x") && HasParent("x/") && HasParent(".") && HasParent("x/.")
    ensures !HasDirectory("x") && !HasDirectory("x/") && !HasDirectory(".") && !HasDirectory("x/.") && !HasDirectory("//")
    ensures !HasParent("") && !HasParent("/") && !HasParent("//") && !HasParent("/.")
    ensures TemporaryOf("devices") == "devices.partial"
  {
    assert Begins("/x", 1) && Begins("a/x", 2) && Begins("./x", 2) && Begins("../x", 3);
    assert Begins("x", 0) && Begins("x/", 0) && Begins(".", 0) && Begins("x/.", 0);
  }

  // ---------------------------------------------------------------- the disk after each step

  /** Open and truncate the temporary, write it, flush it, rename it, flush the directory. */
  function Stage(d: Disk, destination: string, temporary: string, content: Content, k: nat): (e: Disk)
    requires d.Valid() && k <= 5
    ensures e.Valid() && (1 <= k <= 3 ==> temporary in e.Now())
    ensures 2 <= k <= 3 ==> e.files[e.Now()[temporary]] == File(content, k == 3)
  {
    match k
    case 0 => d
    case 1 => d.Opened(temporary)
    case 2 => Stage(d, destination, temporary, content, 1).Written(temporary, content)
    case 3 => Stage(d, destination, temporary, content, 2).Flushed(temporary)
    case 4 => Stage(d, destination, temporary, content, 3).Renamed(temporary, destination)
    case 5 => Stage(d, destination, temporary, content, 4).DirectoryFlushed()
  }

  /** Where an attempt leaves the disk, by the step that failed. */
  function Attempt(d: Disk, destination: string, temporary: string, content: Content, fault: Fault, tidies: bool): (e: Disk)
    requires d.Valid()
    ensures e.Valid()
  {
    match fault
    case OpenFails => d
    case WriteFails(left) => Stage(d, destination, temporary, content, 1).Written(temporary, left)
    case FlushFails => Stage(d, destination, temporary, content, 2)
    case RenameFails =>
      var e := Stage(d, destination, temporary, content, 3);
      if tidies then e.Removed(temporary) else e
    case DirectoryFails => Stage(d, destination, temporary, content, 4)
    case NoFault => Stage(d, destination, temporary, content, 5)
  }

  /** A rename that fails leaves the temporary behind exactly when nobody tidies it away. */
  lemma TidiedExactly(d: Disk, destination: string, temporary: string, content: Content, tidies: bool)
    requires d.Valid()
    ensures temporary in Attempt(d, destination, temporary, content, RenameFails, tidies).Now() <==> !tidies
  {
  }

  // ---------------------------------------------------------------- wholly old or wholly new

  /** A power cut now leaves under the destination what it could leave before, or the new content. */
  ghost predicate OldOrNew(d: Disk, e: Disk, name: string, temporary: string, content: Content)
    requires d.Valid()
  {
    Ready(e, name, temporary) && forall c :: e.MayLeave(name, c) ==> d.MayLeave(name, c) || c == Some(content)
  }

  /** Another name reads the same, and a power cut leaves nothing new under it. */
  ghost predicate Untouched(d: Disk, e: Disk, other: string, temporary: string)
    requires d.Valid()
  {
    Ready(e, other, temporary) && e.Read(other) == d.Read(other) && forall c :: e.MayLeave(other, c) ==> d.MayLeave(other, c)
  }

  lemma {:induction false} StageKeeps(d: Disk, name: string, destination: string, temporary: string, content: Content, k: nat)
    requires Ready(d, name, temporary) && k <= 3
    ensures var e := Stage(d, destination, temporary, content, k); Ready(e, name, temporary) && LeaveSame(d, e, name) && e.Read(name) == d.Read(name)
    decreases k
  {
    if k > 0 {
      StageKeeps(d, name, destination, temporary, content, k - 1);
      var before := Stage(d, destination, temporary, content, k - 1);
      match k {
        case 1 => OpenKeeps(d, name, temporary);
        case 2 => SetKeeps(before, name, temporary, File(content, false));
        case 3 => SetKeeps(before, name, temporary, File(content, true));
      }
    }
  }

  /** Until the rename nothing can be found under the destination that could not be found before. */
  lemma StageOldOrNew(d: Disk, destination: string, temporary: string, content: Content, k: nat)
    requires Ready(d, destination, temporary) && k <= 5
    ensures OldOrNew(d, Stage(d, destination, temporary, content, k), destination, temporary, content)
    ensures k <= 3 ==> LeaveSame(d, Stage(d, destination, temporary, content, k), destination)
    ensures k == 5 ==> forall c :: Stage(d, destination, temporary, content, k).MayLeave(destination, c) <==> c == Some(content)
  {
    StageKeeps(d, destination, destination, temporary, content, if k <= 3 then k else 3);
    if k > 3 {
      var flushed := Stage(d, destination, temporary, content, 3);
      RenameAdds(flushed, destination, temporary);
      FlushSettles(flushed.Renamed(temporary, destination), destination, temporary);
    }
  }

  lemma AttemptOldOrNew(d: Disk, destination: string, temporary: string, content: Content, fault: Fault, tidies: bool)
    requires Ready(d, destination, temporary)
    ensures var e := Attempt(d, destination, temporary, content, fault, tidies);
            && OldOrNew(d, e, destination, temporary, content)
            && (fault.NoFault? ==> forall c :: e.MayLeave(destination, c) <==> c == Some(content))
            && (!fault.NoFault? && !fault.DirectoryFails? ==> LeaveSame(d, e, destination))
  {
    match fault {
      case OpenFails =>
      case WriteFails(left) =>
        StageOldOrNew(d, destination, temporary, content, 1);
        SetKeeps(Stage(d, destination, temporary, content, 1), destination, temporary, File(left, false));
      case FlushFails => StageOldOrNew(d, destination, temporary, content, 2);
      case RenameFails =>
        StageOldOrNew(d, destination, temporary, content, 3);
        RemoveAdds(Stage(d, destination, temporary, content, 3), temporary, destination, temporary);
      case DirectoryFails => StageOldOrNew(d, destination, temporary, content, 4);
      case NoFault => StageOldOrNew(d, destination, temporary, content, 5);
    }
  }

  lemma StageUntouched(d: Disk, other: string, destination: string, temporary: string, content: Content, k: nat)
    requires Ready(d, other, temporary) && other != destination && k <= 5
    ensures Untouched(d, Stage(d, destination, temporary, content, k), other, temporary)
  {
    StageKeeps(d, other, destination, temporary, content, if k <= 3 then k else 3);
    if k > 3 {
      var flushed := Stage(d, destination, temporary, content, 3);
      RenameKeepsOthers(flushed, other, destination, temporary);
      var renamed := flushed.Renamed(temporary, destination);
      FlushSettles(renamed, other, temporary);
      NowIsLeft(renamed, other);
    }
  }

  lemma AttemptUntouched(d: Disk, other: string, destination: string, temporary: string, content: Content, fault: Fault,
                         tidies: bool)
    requires Ready(d, other, temporary) && other != destination
    ensures Untouched(d, Attempt(d, destination, temporary, content, fault, tidies), other, temporary)
  {
    match fault {
      case OpenFails =>
      case WriteFails(left) =>
        StageUntouched(d, other, destination, temporary, content, 1);
        SetKeeps(Stage(d, destination, temporary, content, 1), other, temporary, File(left, false));
      case FlushFails => StageUntouched(d, other, destination, temporary, content, 2);
      case RenameFails =>
        StageUntouched(d, other, destination, temporary, content, 3);
        RemoveAdds(Stage(d, destination, temporary, content, 3), temporary, other, temporary);
      case DirectoryFails => StageUntouched(d, other, destination, temporary, content, 4);
      case NoFault => StageUntouched(d, other, destination, temporary, content, 5);
    }
  }

  /** The name is settled, and a power cut leaves the content and nothing else. */
  ghost predicate Landed(d: Disk, name: string, temporary: string, content: Content) {
    Ready(d, name, temporary) && forall c :: d.MayLeave(name, c) <==> c == Some(content)
  }

  /** After the last step the new content has landed, whatever stood there before and however unflushed it was. */
  lemma LastStageLands(d: Disk, destination: string, temporary: string, content: Content)
    requires d.Valid()
    ensures destination != temporary ==> Landed(Stage(d, destination, temporary, content, 5), destination, temporary, content)
  {
    if destination != temporary {
      RenameLands(Stage(d, destination, temporary, content, 3), destination, temporary);
    }
  }

  // ---------------------------------------------------------------- the writer

  /** A state a power cut may strike: the destination is old or new, and no other name is touched. */
  ghost predicate Safe(d: Disk, e: Disk, name: string, temporary: string, content: Content)
    requires d.Valid()
  {
    && (Ready(d, name, temporary) ==> OldOrNew(d, e, name, temporary, content))
    && forall other :: Ready(d, other, temporary) && other != name ==> Untouched(d, e, other, temporary)
  }

  ghost predicate AllSafe(d: Disk, states: seq<Disk>, name: string, temporary: string, content: Content)
    requires d.Valid()
  {
    forall k :: 0 <= k < |states| ==> Safe(d, states[k], name, temporary, content)
  }

  lemma StageSafe(d: Disk, destination: string, temporary: string, content: Content, k: nat)
    requires d.Valid() && k <= 5
    ensures Safe(d, Stage(d, destination, temporary, content, k), destination, temporary, content)
  {
    if Ready(d, destination, temporary) {
      StageOldOrNew(d, destination, temporary, content, k);
    }
    forall other | Ready(d, other, temporary) && other != destination
      ensures Untouched(d, Stage(d, destination, temporary, content, k), other, temporary)
    {
      StageUntouched(d, other, destination, temporary, content, k);
    }
  }

  lemma AttemptSafe(d: Disk, destination: string, temporary: string, content: Content, fault: Fault, tidies: bool)
    requires d.Valid()
    ensures Safe(d, Attempt(d, destination, temporary, content, fault, tidies), destination, temporary, content)
  {
    if Ready(d, destination, temporary) {
      AttemptOldOrNew(d, destination, temporary, content, fault, tidies);
    }
    forall other | Ready(d, other, temporary) && other != destination
      ensures Untouched(d, Attempt(d, destination, temporary, content, fault, tidies), other, temporary)
    {
      AttemptUntouched(d, other, destination, temporary, content, fault, tidies);
    }
  }

  /** A run of states that grew by safe states is all safe. */
  twostate predicate GrewSafely(dev: Drive, d: Disk, name: string, temporary: string, content: Content)
    requires d.Valid()
    reads dev
  {
    old(dev.seen) <= dev.seen && AllSafe(d, dev.seen[|old(dev.seen)|..], name, temporary, content)
  }

  lemma OneMoreSafe(d: Disk, states: seq<Disk>, from: nat, e: Disk, name: string, temporary: string, content: Content)
    requires d.Valid() && from <= |states|
    requires AllSafe(d, states[from..], name, temporary, content) && Safe(d, e, name, temporary, content)
    ensures AllSafe(d, (states + [e])[from..], name, temporary, content)
  {
    assert (states + [e])[from..] == states[from..] + [e];
  }

  /** Opens, writes and flushes the temporary; the number of the step that was reached, 3 when all were. */
  method Prepare(dev: Drive, destination: string, temporary: string, content: Content, fault: Fault) returns (k: nat)
    requires dev.disk.Valid()
    modifies dev`disk, dev`seen
    ensures k == match fault case OpenFails => 0 case WriteFails(_) => 1 case FlushFails => 2 case _ => 3
    ensures k == 3 ==> dev.disk == Stage(old(dev.disk), destination, temporary, content, 3)
    ensures k < 3 ==> dev.disk == Attempt(old(dev.disk), destination, temporary, content, fault, false)
    ensures GrewSafely(dev, old(dev.disk), destination, temporary, content)
  {
    ghost var d, n := dev.disk, |dev.seen|;
    if fault.OpenFails? {
      return 0;
    }
    StageSafe(d, destination, temporary, content, 1);
    OneMoreSafe(d, dev.seen, n, Stage(d, destination, temporary, content, 1), destination, temporary, content);
    dev.Open(temporary);
    if fault.WriteFails? {
      AttemptSafe(d, destination, temporary, content, fault, false);
      OneMoreSafe(d, dev.seen, n, Attempt(d, destination, temporary, content, fault, false), destination, temporary, content);
      dev.Write(temporary, fault.left);
      return 1;
    }
    StageSafe(d, destination, temporary, content, 2);
    OneMoreSafe(d, dev.seen, n, Stage(d, destination, temporary, content, 2), destination, temporary, content);
    dev.Write(temporary, content);
    if fault.FlushFails? {
      return 2;
    }
    StageSafe(d, destination, temporary, content, 3);
    OneMoreSafe(d, dev.seen, n, Stage(d, destination, temporary, content, 3), destination, temporary, content);
    dev.SyncFile(temporary);
    return 3;
  }

  /**
   Writes through a temporary and makes it the destination. Links under either name are refused
   before anything is touched. At every state on the way a power cut leaves the destination
   wholly old or wholly new, and wholly new once `Ok` is returned.
   */
  method WriteDurably(dev: Drive, destination: string, temporary: string, content: Content, fault: Fault, tidied: bool)
    returns (r: Result<(), StorageFailure>)
    requires dev.disk.Valid()
    modifies dev`disk, dev`seen
    ensures r == Err(Conflict) <==> temporary in dev.links || destination in dev.links
    ensures r == Err(Conflict) ==> dev.disk == old(dev.disk) && dev.seen == old(dev.seen)
    ensures r != Err(Conflict) ==> dev.disk == Attempt(old(dev.disk), destination, temporary, content, fault, tidied)
    ensures r.Ok? <==> fault.NoFault? && r != Err(Conflict)
    ensures GrewSafely(dev, old(dev.disk), destination, temporary, content)
    ensures r.Ok? && destination != temporary ==> Landed(dev.disk, destination, temporary, content)
  {
    if temporary in dev.links || destination in dev.links {
      return Err(Conflict);
    }
    ghost var d, n := dev.disk, |dev.seen|;
    var reached := Prepare(dev, destination, temporary, content, fault);
    if reached < 3 {
      return Err(Failed);
    }
    if fault.RenameFails? {
      if tidied {
        AttemptSafe(d, destination, temporary, content, fault, true);
        OneMoreSafe(d, dev.seen, n, Attempt(d, destination, temporary, content, fault, true), destination, temporary, content);
        dev.Remove(temporary);
      }
      return Err(Failed);
    }
    StageSafe(d, destination, temporary, content, 4);
    OneMoreSafe(d, dev.seen, n, Stage(d, destination, temporary, content, 4), destination, temporary, content);
    dev.Rename(temporary, destination);
    if fault.DirectoryFails? {
      return Err(Failed);
    }
    StageSafe(d, destination, temporary, content, 5);
    OneMoreSafe(d, dev.seen, n, Stage(d, destination, temporary, content, 5), destination, temporary, content);
    dev.SyncDirectory();
    LastStageLands(d, destination, temporary, content);
    return Ok(());
  }
}
