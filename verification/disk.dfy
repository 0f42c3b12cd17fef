/**
 A directory on a medium that can lose power.

 Only flushed bytes and flushed directory entries surely survive. Changes to the directory
 reach the medium in the order they were made and each of them whole, so a rename is atomic:
 a power cut leaves the directory as it stood at some moment since it was last flushed.
 A file that was written and not flushed may hold anything afterwards.
 */
module Disk {
  import opened Wrappers
  import opened Bytes

  /** The bytes of a file: the UTF-8 of one text, or of none. */
  datatype Content = Text(text: string) | NotText(bytes: seq<Byte>)

  const NOTHING := Text("")

  /** A file's contents, and whether the medium has them. */
  datatype File = File(content: Content, flushed: bool)

  type Directory = map<string, nat>

  /** The files by number, and the directory at each moment since it was last flushed. */
  datatype Disk = Disk(files: seq<File>, moments: seq<Directory>) {
    predicate Valid() {
      moments != [] && forall i, name :: 0 <= i < |moments| && name in moments[i] ==> moments[i][name] < |files|
    }

    function Now(): Directory
      requires Valid()
    {
      moments[|moments| - 1]
    }

    function At(i: nat, name: string): Option<Content>
      requires Valid() && i < |moments|
    {
      if name in moments[i] then Some(files[moments[i][name]].content) else None
    }

    /** What is read under a name while the power stays on. */
    function Read(name: string): Option<Content>
      requires Valid()
    {
      At(|moments| - 1, name)
    }

    // ---------------------------------------------------------------- single steps

    /** `open` with create and truncate. */
    function Opened(name: string): (d: Disk)
      requires Valid()
      ensures d.Valid() && name in d.Now()
    {
      if name in Now() then SetFile(Now()[name], File(NOTHING, false))
      else Disk(files + [File(NOTHING, false)], moments + [Now()[name := |files|]])
    }

    function SetFile(id: nat, f: File): (d: Disk)
      requires Valid() && id < |files|
      ensures d.Valid() && d.moments == moments
    {
      Disk(files[id := f], moments)
    }

    function Written(name: string, content: Content): (d: Disk)
      requires Valid() && name in Now()
      ensures d.Valid() && d.moments == moments
    {
      SetFile(Now()[name], File(content, false))
    }

    /** `sync_all` on a file. */
    function Flushed(name: string): (d: Disk)
      requires Valid() && name in Now()
      ensures d.Valid() && d.moments == moments
    {
      SetFile(Now()[name], File(files[Now()[name]].content, true))
    }

    function Renamed(from: string, to: string): (d: Disk)
      requires Valid() && from in Now()
      ensures d.Valid()
    {
      Disk(files, moments + [(Now() - {from})[to := Now()[from]]])
    }

    function Removed(name: string): (d: Disk)
      requires Valid()
      ensures d.Valid()
    {
      Disk(files, moments + [Now() - {name}])
    }

    /** `sync_all` on the directory. */
    function DirectoryFlushed(): (d: Disk)
      requires Valid()
      ensures d.Valid()
    {
      Disk(files, [Now()])
    }

    // ---------------------------------------------------------------- losing power

    /** The disk `after` the power came back, one of all that the medium may then hold. */
    predicate Crash(after: Disk)
      requires Valid()
    {
      && |after.moments| == 1 && after.moments[0] in moments
      && |after.files| == |files|
      && forall id :: 0 <= id < |files| ==> after.files[id].flushed && (files[id].flushed ==> after.files[id] == files[id])
    }

    predicate Apart(i: nat, name: string, temporary: string)
      requires Valid() && i < |moments|
    {
      name in moments[i] ==>
        && files[moments[i][name]].flushed
        && (temporary in Now() ==> moments[i][name] != Now()[temporary])
        && (temporary in moments[i] ==> moments[i][name] != moments[i][temporary])
    }

    /** The name and the temporary never stand for one file, as two hard links would. */
    predicate Unshared(name: string, temporary: string)
      requires Valid()
    {
      name != temporary && forall i :: 0 <= i < |moments| && name in moments[i] ==>
                             && (temporary in Now() ==> moments[i][name] != Now()[temporary])
                             && (temporary in moments[i] ==> moments[i][name] != moments[i][temporary])
    }

    /** A name that a power cut cannot spoil: its files are flushed, and none is the temporary's. */
    predicate Settled(name: string, temporary: string)
      requires Valid()
    {
      name != temporary && forall i :: 0 <= i < |moments| ==> Apart(i, name, temporary)
    }

    /** What may be found under a settled name after a power cut now. */
    predicate MayLeave(name: string, c: Option<Content>)
      requires Valid()
    {
      exists i :: 0 <= i < |moments| && At(i, name) == c
    }
  }

  predicate Ready(d: Disk, name: string, temporary: string) {
    d.Valid() && d.Settled(name, temporary)
  }

  /** A power cut leaves what `MayLeave` says, and nothing it says is impossible. */
  lemma CrashExactly(d: Disk, name: string, temporary: string, c: Option<Content>)
    requires Ready(d, name, temporary)
    ensures d.MayLeave(name, c) <==> exists after: Disk :: d.Crash(after) && after.Valid() && after.Read(name) == c
  {
    if d.MayLeave(name, c) {
      var i :| 0 <= i < |d.moments| && d.At(i, name) == c;
      var after := AfterCut(d, i);
      assert after.Read(name) == c;
    }
    forall after: Disk | d.Crash(after) && after.Valid() && after.Read(name) == c
      ensures d.MayLeave(name, c)
    {
      var i :| 0 <= i < |d.moments| && d.moments[i] == after.moments[0];
      assert d.Apart(i, name, temporary);
      assert d.At(i, name) == c;
    }
  }

  lemma AfterCut(d: Disk, i: nat) returns (after: Disk)
    requires d.Valid() && i < |d.moments|
    ensures d.Crash(after) && after.Valid() && after.moments == [d.moments[i]]
    ensures forall id :: 0 <= id < |d.files| ==> after.files[id].content == d.files[id].content
  {
    after := Disk(seq(|d.files|, id requires 0 <= id < |d.files| => File(d.files[id].content, true)), [d.moments[i]]);
  }

  /** After a power cut nothing is pending: every name not shared with the temporary is settled. */
  lemma CrashSettles(d: Disk, after: Disk, name: string, temporary: string)
    requires Ready(d, name, temporary) && d.Crash(after) && after.Valid()
    ensures Ready(after, name, temporary)
    ensures forall c :: after.MayLeave(name, c) ==> d.MayLeave(name, c)
  {
    var i :| 0 <= i < |d.moments| && d.moments[i] == after.moments[0];
    assert d.Apart(i, name, temporary);
    forall c | after.MayLeave(name, c)
      ensures d.MayLeave(name, c)
    {
      CrashExactly(d, name, temporary, c);
      assert after.At(0, name) == c;
    }
  }

  // ---------------------------------------------------------------- the directory itself

  /** Whether the directory is there, and whether its own entry, in the directory above, is on the medium. */
  datatype Home = Absent | Pending | Durable

  const EMPTY := Disk([], [map[]])

  /** A directory and its files. One that was created and whose entry nobody flushed may be gone after a power cut. */
  datatype Medium = Medium(home: Home, disk: Disk) {
    predicate Valid() {
      disk.Valid() && (home.Absent? ==> disk == EMPTY)
    }

    predicate Crash(after: Medium)
      requires Valid()
    {
      && after.Valid()
      && match home
         case Durable => after.home.Durable? && disk.Crash(after.disk)
         case Pending => (after.home.Durable? && disk.Crash(after.disk)) || after == Medium(Absent, EMPTY)
         case Absent => after == this
    }

    function Read(name: string): Option<Content>
      requires Valid()
    {
      disk.Read(name)
    }

    predicate MayLeave(name: string, c: Option<Content>)
      requires Valid()
    {
      disk.MayLeave(name, c) || (home.Pending? && c == None)
    }

    /** `create_dir_all`; nobody flushes the entry it makes. */
    function Made(): (m: Medium)
      requires Valid()
      ensures m.Valid() && !m.home.Absent? && m.disk == disk
    {
      if home.Absent? then Medium(Pending, disk) else this
    }

    function WithDisk(d: Disk): (m: Medium)
      requires Valid() && !home.Absent? && d.Valid()
      ensures m.Valid() && m.home == home && m.disk == d
    {
      Medium(home, d)
    }
  }

  /** Under a settled name a power cut leaves what `MayLeave` says, and nothing it says is impossible. */
  lemma MediumExactly(m: Medium, name: string, temporary: string, c: Option<Content>)
    requires m.Valid() && Ready(m.disk, name, temporary)
    ensures m.MayLeave(name, c) <==> exists after: Medium :: m.Crash(after) && after.Read(name) == c
  {
    CrashExactly(m.disk, name, temporary, c);
    if m.disk.MayLeave(name, c) {
      var d: Disk :| m.disk.Crash(d) && d.Valid() && d.Read(name) == c;
      var after := if m.home.Absent? then m else Medium(Durable, d);
      AbsentIsEmpty(m, d);
      assert m.Crash(after) && after.Read(name) == c;
    } else if m.MayLeave(name, c) {
      assert m.Crash(Medium(Absent, EMPTY)) && Medium(Absent, EMPTY).Read(name) == c;
    }
    forall after: Medium | m.Crash(after) && after.Read(name) == c
      ensures m.MayLeave(name, c)
    {
      if m.home.Absent? {
        NowIsLeft(m.disk, name);
      } else if after != Medium(Absent, EMPTY) {
        assert m.disk.Crash(after.disk) && after.disk.Valid() && after.disk.Read(name) == c;
      }
    }
  }

  lemma AbsentIsEmpty(m: Medium, d: Disk)
    requires m.Valid() && d.Valid() && m.disk.Crash(d)
    ensures m.home.Absent? ==> d == EMPTY
  {
  }

  /** After a power cut a directory that is there is on the medium, and one that was on it is there. */
  lemma SeenAfterRestart(m: Medium, after: Medium)
    requires m.Valid() && m.Crash(after)
    ensures !after.home.Pending?
    ensures m.home.Durable? ==> after.home.Durable?
  {
  }

  // ---------------------------------------------------------------- what each step may leave behind

  /** Two disks that a power cut would leave the same under a name. */
  ghost predicate LeaveSame(d: Disk, e: Disk, name: string)
    requires d.Valid() && e.Valid()
  {
    forall c :: e.MayLeave(name, c) <==> d.MayLeave(name, c)
  }

  lemma SameMoments(d: Disk, e: Disk, name: string)
    requires d.Valid() && e.Valid() && |e.moments| == |d.moments|
    requires forall i :: 0 <= i < |d.moments| ==> e.At(i, name) == d.At(i, name)
    ensures LeaveSame(d, e, name)
  {
    forall c
      ensures e.MayLeave(name, c) <==> d.MayLeave(name, c)
    {
      if d.MayLeave(name, c) {
        var i :| 0 <= i < |d.moments| && d.At(i, name) == c;
        assert e.At(i, name) == c;
      }
    }
  }

  /** One more moment adds what that moment shows. */
  lemma OneMoreMoment(d: Disk, e: Disk, name: string)
    requires d.Valid() && e.Valid() && |e.moments| == |d.moments| + 1
    requires forall i :: 0 <= i < |d.moments| ==> e.At(i, name) == d.At(i, name)
    ensures forall c :: e.MayLeave(name, c) <==> d.MayLeave(name, c) || c == e.Read(name)
  {
    forall c
      ensures e.MayLeave(name, c) <==> d.MayLeave(name, c) || c == e.Read(name)
    {
      if d.MayLeave(name, c) {
        var i :| 0 <= i < |d.moments| && d.At(i, name) == c;
        assert e.At(i, name) == c;
      }
      assert e.At(|d.moments|, name) == e.Read(name);
    }
  }

  lemma NowIsLeft(d: Disk, name: string)
    requires d.Valid()
    ensures d.MayLeave(name, d.Read(name))
  {
    assert d.At(|d.moments| - 1, name) == d.Read(name);
  }

  lemma OpenKeeps(d: Disk, name: string, temporary: string)
    requires Ready(d, name, temporary)
    ensures var e := d.Opened(temporary); Ready(e, name, temporary) && LeaveSame(d, e, name) && e.Read(name) == d.Read(name)
  {
    var e := d.Opened(temporary);
    if temporary in d.Now() {
      SetKeeps(d, name, temporary, File(NOTHING, false));
    } else {
      forall i | 0 <= i < |e.moments|
        ensures e.Apart(i, name, temporary)
        ensures i < |d.moments| ==> e.At(i, name) == d.At(i, name)
      {
        assert i < |d.moments| ==> d.Apart(i, name, temporary);
        assert d.Apart(|d.moments| - 1, name, temporary);
      }
      OneMoreMoment(d, e, name);
      assert e.Read(name) == d.Read(name);
      NowIsLeft(d, name);
    }
  }

  lemma SetKeeps(d: Disk, name: string, temporary: string, f: File)
    requires Ready(d, name, temporary) && temporary in d.Now()
    ensures var e := d.SetFile(d.Now()[temporary], f);
            Ready(e, name, temporary) && LeaveSame(d, e, name) && e.Read(name) == d.Read(name)
  {
    var e := d.SetFile(d.Now()[temporary], f);
    forall i | 0 <= i < |d.moments|
      ensures e.Apart(i, name, temporary) && e.At(i, name) == d.At(i, name)
    {
      assert d.Apart(i, name, temporary);
    }
    SameMoments(d, e, name);
  }

  /** The rename is the one step that adds something a power cut may leave. */
  lemma RenameAdds(d: Disk, name: string, temporary: string)
    requires Ready(d, name, temporary) && temporary in d.Now() && d.files[d.Now()[temporary]].flushed
    ensures var e := d.Renamed(temporary, name);
            && Ready(e, name, temporary) && e.Read(name) == d.Read(temporary)
            && forall c :: e.MayLeave(name, c) <==> d.MayLeave(name, c) || c == d.Read(temporary)
  {
    var e := d.Renamed(temporary, name);
    forall i | 0 <= i < |e.moments|
      ensures e.Apart(i, name, temporary)
      ensures i < |d.moments| ==> e.At(i, name) == d.At(i, name)
    {
      assert i < |d.moments| ==> d.Apart(i, name, temporary);
    }
    OneMoreMoment(d, e, name);
  }

  /** A flushed file that is renamed and whose directory is then flushed has landed, whatever was there before. */
  lemma RenameLands(d: Disk, name: string, temporary: string)
    requires d.Valid() && name != temporary && temporary in d.Now() && d.files[d.Now()[temporary]].flushed
    ensures var e := d.Renamed(temporary, name).DirectoryFlushed();
            Ready(e, name, temporary) && forall c :: e.MayLeave(name, c) <==> c == d.Read(temporary)
  {
    var e := d.Renamed(temporary, name).DirectoryFlushed();
    assert e.At(0, name) == d.Read(temporary);
    assert e.Apart(0, name, temporary);
  }

  lemma RenameKeepsOthers(d: Disk, other: string, name: string, temporary: string)
    requires Ready(d, other, temporary) && other != name && temporary in d.Now()
    ensures var e := d.Renamed(temporary, name);
            Ready(e, other, temporary) && LeaveSame(d, e, other) && e.Read(other) == d.Read(other)
  {
    var e := d.Renamed(temporary, name);
    assert name == temporary || temporary !in e.Now();
    forall i | 0 <= i < |e.moments|
      ensures e.Apart(i, other, temporary)
      ensures i < |d.moments| ==> e.At(i, other) == d.At(i, other)
    {
      assert i < |d.moments| ==> d.Apart(i, other, temporary);
      assert d.Apart(|d.moments| - 1, other, temporary);
    }
    OneMoreMoment(d, e, other);
    assert e.Read(other) == d.Read(other);
    NowIsLeft(d, other);
  }

  lemma RemoveAdds(d: Disk, gone: string, name: string, temporary: string)
    requires Ready(d, name, temporary)
    ensures var e := d.Removed(gone);
            && Ready(e, name, temporary)
            && (gone != name ==> LeaveSame(d, e, name) && e.Read(name) == d.Read(name))
            && (gone == name ==> forall c :: e.MayLeave(name, c) <==> d.MayLeave(name, c) || c == None)
  {
    var e := d.Removed(gone);
    forall i | 0 <= i < |e.moments|
      ensures e.Apart(i, name, temporary)
      ensures i < |d.moments| ==> e.At(i, name) == d.At(i, name)
    {
      assert i < |d.moments| ==> d.Apart(i, name, temporary);
      assert d.Apart(|d.moments| - 1, name, temporary);
    }
    OneMoreMoment(d, e, name);
    if gone != name {
      assert e.Read(name) == d.Read(name);
      NowIsLeft(d, name);
    }
  }

  /** Flushing the directory leaves one answer for every name: what is read now. */
  lemma FlushSettles(d: Disk, name: string, temporary: string)
    requires Ready(d, name, temporary)
    ensures var e := d.DirectoryFlushed();
            && Ready(e, name, temporary) && e.Read(name) == d.Read(name)
            && forall c :: e.MayLeave(name, c) <==> c == d.Read(name)
  {
    var e := d.DirectoryFlushed();
    assert d.Apart(|d.moments| - 1, name, temporary);
    assert e.At(0, name) == d.Read(name);
  }

  // ---------------------------------------------------------------- the device

  /** The medium as a program meets it. `seen` is every state it has been in since the program began. */
  class Drive {
    var disk: Disk
    var home: Home
    var links: set<string>
    ghost var seen: seq<Disk>

    constructor (m: Medium, symbolicLinks: set<string>)
      ensures Held() == m && links == symbolicLinks && seen == [m.disk]
    {
      home, disk, links, seen := m.home, m.disk, symbolicLinks, [m.disk];
    }

    ghost function Held(): Medium
      reads this
    {
      Medium(home, disk)
    }

    method Open(name: string)
      requires disk.Valid()
      modifies this`disk, this`seen
      ensures disk == old(disk).Opened(name) && seen == old(seen) + [disk]
    {
      if name in disk.Now() {
        disk := disk.SetFile(disk.Now()[name], File(NOTHING, false));
      } else {
        disk := Disk(disk.files + [File(NOTHING, false)], disk.moments + [disk.Now()[name := |disk.files|]]);
      }
      seen := seen + [disk];
    }

    method Write(name: string, content: Content)
      requires disk.Valid() && name in disk.Now()
      modifies this`disk, this`seen
      ensures disk == old(disk).Written(name, content) && seen == old(seen) + [disk]
    {
      disk := disk.SetFile(disk.Now()[name], File(content, false));
      seen := seen + [disk];
    }

    method SyncFile(name: string)
      requires disk.Valid() && name in disk.Now()
      modifies this`disk, this`seen
      ensures disk == old(disk).Flushed(name) && seen == old(seen) + [disk]
    {
      var id := disk.Now()[name];
      disk := disk.SetFile(id, File(disk.files[id].content, true));
      seen := seen + [disk];
    }

    method Rename(from: string, to: string)
      requires disk.Valid() && from in disk.Now()
      modifies this`disk, this`seen
      ensures disk == old(disk).Renamed(from, to) && seen == old(seen) + [disk]
    {
      var now := disk.Now();
      disk := Disk(disk.files, disk.moments + [(now - {from})[to := now[from]]]);
      seen := seen + [disk];
    }

    method Remove(name: string)
      requires disk.Valid()
      modifies this`disk, this`seen
      ensures disk == old(disk).Removed(name) && seen == old(seen) + [disk]
    {
      disk := Disk(disk.files, disk.moments + [disk.Now() - {name}]);
      seen := seen + [disk];
    }

    method SyncDirectory()
      requires disk.Valid()
      modifies this`disk, this`seen
      ensures disk == old(disk).DirectoryFlushed() && seen == old(seen) + [disk]
    {
      disk := Disk(disk.files, [disk.Now()]);
      seen := seen + [disk];
    }
  }
}
