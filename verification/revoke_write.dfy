/** A revocation's way to the medium: the rewritten store goes through the vault's write order, `cli/src/enrol.rs`. */
module RevokeWrite {
  import opened Wrappers
  import Text
  import Auth
  import Enrol
  import opened Disk
  import opened DurableWrite

  /** The store without a device, as a revocation writes it. */
  function Revoked(text: string, name: string): Content {
    Content.Text(Text.Unlines(Enrol.Others(Text.Lines(text), name)))
  }

  /** Where rewriting the store leaves the disk: for a path without a directory part no directory is flushed. */
  function Rewritten(d: Disk, path: string, content: Content, fault: Fault, tidied: bool): (e: Disk)
    requires d.Valid()
    ensures e.Valid()
  {
    if fault.NoFault? && !HasDirectory(path) then Stage(d, path, TemporaryOf(path), content, 4)
    else Attempt(d, path, TemporaryOf(path), content, fault, tidied)
  }

  /** The steps of a revocation once it has found the device; `true` is its `Ok`. */
  method Rewrite(dev: Drive, path: string, content: Content, fault: Fault, tidied: bool) returns (ok: bool)
    requires dev.disk.Valid()
    modifies dev`disk, dev`seen
    ensures ok <==> fault.NoFault? || (fault.DirectoryFails? && !HasDirectory(path))
    ensures dev.disk == Rewritten(old(dev.disk), path, content, fault, tidied)
    ensures GrewSafely(dev, old(dev.disk), path, TemporaryOf(path), content)
  {
    ghost var d, n := dev.disk, |dev.seen|;
    var temporary := TemporaryOf(path);
    var reached := Prepare(dev, path, temporary, content, fault);
    if reached < 3 {
      return false;
    }
    if fault.RenameFails? {
      if tidied {
        AttemptSafe(d, path, temporary, content, fault, true);
        OneMoreSafe(d, dev.seen, n, Attempt(d, path, temporary, content, fault, true), path, temporary, content);
        dev.Remove(temporary);
      }
      return false;
    }
    StageSafe(d, path, temporary, content, 4);
    OneMoreSafe(d, dev.seen, n, Stage(d, path, temporary, content, 4), path, temporary, content);
    dev.Rename(temporary, path);
    if HasDirectory(path) {
      if fault.DirectoryFails? {
        return false;
      }
      StageSafe(d, path, temporary, content, 5);
      OneMoreSafe(d, dev.seen, n, Stage(d, path, temporary, content, 5), path, temporary, content);
      dev.SyncDirectory();
    }
    return true;
  }

  // ---------------------------------------------------------------- what is read after a power cut

  predicate ReadsAs(c: Option<Content>, store: seq<Auth.Credential>) {
    c.Some? && c.value.Text? && Auth.Store(c.value.text) == Ok(store)
  }

  predicate StillEnrolled(c: Option<Content>, name: string) {
    c.Some? && c.value.Text? && Auth.Store(c.value.text).Ok? && Auth.Enrolled(Auth.Store(c.value.text).value, name)
  }

  /** The store a revocation finds: it reads, it holds the device, and it is no hard link to the temporary. */
  predicate Found(m: Medium, path: string, text: string, name: string) {
    && m.Valid() && m.Read(path) == Some(Content.Text(text))
    && Auth.Store(text).Ok? && Auth.Enrolled(Auth.Store(text).value, name)
    && m.disk.Unshared(path, TemporaryOf(path))
  }

  lemma FoundIsThere(m: Medium, path: string, text: string, name: string)
    requires Found(m, path, text, name)
    ensures !m.home.Absent? && path in m.disk.Now()
  {
  }

  /** The medium after a revocation. */
  function After(m: Medium, path: string, text: string, name: string, fault: Fault, tidied: bool): (e: Medium)
    requires Found(m, path, text, name)
    ensures e.Valid() && e.home == m.home
  {
    FoundIsThere(m, path, text, name);
    m.WithDisk(Rewritten(m.disk, path, Revoked(text, name), fault, tidied))
  }

  lemma RevokedReads(text: string, name: string)
    requires Auth.Store(text).Ok? && Auth.Enrolled(Auth.Store(text).value, name)
    ensures ReadsAs(Some(Revoked(text, name)), Enrol.Rest(Auth.Store(text).value, name))
    ensures !StillEnrolled(Some(Revoked(text, name)), name)
    ensures Auth.Store(text).value != Enrol.Rest(Auth.Store(text).value, name)
    ensures StillEnrolled(Some(Content.Text(text)), name)
    ensures !ReadsAs(Some(Content.Text(text)), Enrol.Rest(Auth.Store(text).value, name))
  {
    Enrol.RevokeExactly(text, name);
    Enrol.RestIs(Auth.Store(text).value, name);
  }

  // ---------------------------------------------------------------- once it has returned

  ghost predicate StaysRevoked(e: Medium, path: string, name: string)
    requires e.Valid()
  {
    forall after: Medium :: e.Crash(after) ==> !StillEnrolled(after.Read(path), name)
  }

  ghost predicate StoreSurvives(e: Medium, path: string, store: seq<Auth.Credential>)
    requires e.Valid()
  {
    forall after: Medium :: e.Crash(after) ==> ReadsAs(after.Read(path), store)
  }

  lemma CrashOfLanded(e: Medium, path: string, content: Content, after: Medium)
    requires e.Valid() && Landed(e.disk, path, TemporaryOf(path), content) && e.Crash(after)
    ensures after.Read(path) == Some(content) || (e.home.Pending? && after.Read(path) == None)
  {
    MediumExactly(e, path, TemporaryOf(path), after.Read(path));
  }

  /** With the flush of the directory, `Ok` lands, however unflushed the store was before. */
  lemma OkLands(m: Medium, path: string, text: string, name: string, tidied: bool, after: Medium)
    requires Found(m, path, text, name) && HasDirectory(path)
    requires After(m, path, text, name, NoFault, tidied).Crash(after)
    ensures after.Read(path) == Some(Revoked(text, name)) || (m.home.Pending? && after.Read(path) == None)
  {
    var e := After(m, path, text, name, NoFault, tidied);
    LastStageLands(m.disk, path, TemporaryOf(path), Revoked(text, name));
    CrashOfLanded(e, path, Revoked(text, name), after);
  }

  /** Without it, a power cut may leave the store as it was: the rename is still only in memory. */
  lemma OldStoreReturns(m: Medium, path: string, text: string, name: string, tidied: bool) returns (after: Medium)
    requires Found(m, path, text, name) && !HasDirectory(path)
    ensures After(m, path, text, name, NoFault, tidied).Crash(after) && after.Read(path) == Some(Content.Text(text))
  {
    var e := After(m, path, text, name, NoFault, tidied);
    var i := FlushedStageKeeps(m.disk, path, Revoked(text, name));
    var d := AfterCut(e.disk, i);
    after := Medium(Durable, d);
  }

  /** Before the rename the path still leads to its old file, and after it the directory remembers. */
  lemma FlushedStageKeeps(d: Disk, path: string, content: Content) returns (i: nat)
    requires d.Valid() && path in d.Now() && d.Unshared(path, TemporaryOf(path))
    ensures var e := Stage(d, path, TemporaryOf(path), content, 4); i < |e.moments| && e.At(i, path) == d.Read(path)
  {
    var temporary := TemporaryOf(path);
    var s1 := Stage(d, path, temporary, content, 1);
    assert s1.Read(path) == d.Read(path) && s1.Now()[path] != s1.Now()[temporary];
    var s2 := Stage(d, path, temporary, content, 2);
    assert s2 == s1.Written(temporary, content);
    var s3 := Stage(d, path, temporary, content, 3);
    assert s3 == s2.Flushed(temporary);
    assert s3.moments == s1.moments && s3.Read(path) == d.Read(path);
    assert Stage(d, path, temporary, content, 4) == s3.Renamed(temporary, path);
    i := |s3.moments| - 1;
  }

  lemma LostHome(e: Medium)
    requires e.Valid() && e.home.Pending?
    ensures e.Crash(Medium(Absent, EMPTY)) && forall name :: Medium(Absent, EMPTY).Read(name) == None
  {
  }

  /**
   Once a revocation has returned `Ok` the device stays revoked on every power cut exactly when the
   path of the store has a directory part: only then is the directory flushed.
   */
  lemma StaysRevokedExactly(m: Medium, path: string, text: string, name: string, tidied: bool)
    requires Found(m, path, text, name)
    ensures StaysRevoked(After(m, path, text, name, NoFault, tidied), path, name) <==> HasDirectory(path)
  {
    var e := After(m, path, text, name, NoFault, tidied);
    RevokedReads(text, name);
    if HasDirectory(path) {
      forall after: Medium | e.Crash(after)
        ensures !StillEnrolled(after.Read(path), name)
      {
        OkLands(m, path, text, name, tidied, after);
      }
    } else {
      var after := OldStoreReturns(m, path, text, name, tidied);
      assert StillEnrolled(after.Read(path), name);
    }
  }

  /** The other devices survive with it exactly when the directory's own entry was on the medium too. */
  lemma StoreSurvivesExactly(m: Medium, path: string, text: string, name: string, tidied: bool)
    requires Found(m, path, text, name)
    ensures StoreSurvives(After(m, path, text, name, NoFault, tidied), path, Enrol.Rest(Auth.Store(text).value, name)) <==>
            HasDirectory(path) && m.home.Durable?
  {
    var e := After(m, path, text, name, NoFault, tidied);
    RevokedReads(text, name);
    FoundIsThere(m, path, text, name);
    if m.home.Pending? {
      LostHome(e);
    } else if HasDirectory(path) {
      forall after: Medium | e.Crash(after)
        ensures ReadsAs(after.Read(path), Enrol.Rest(Auth.Store(text).value, name))
      {
        OkLands(m, path, text, name, tidied, after);
      }
    } else {
      var after := OldStoreReturns(m, path, text, name, tidied);
      assert !ReadsAs(after.Read(path), Enrol.Rest(Auth.Store(text).value, name));
    }
  }

  // ---------------------------------------------------------------- cut short anywhere

  /** A power cut after any step, failed or not, leaves the store as it read before, or without the device. */
  ghost predicate Atomic(m: Medium, path: string, text: string, name: string)
    requires Found(m, path, text, name)
  {
    forall fault, tidied, after: Medium :: After(m, path, text, name, fault, tidied).Crash(after) ==>
      OldOrRevoked(after.Read(path), text, name)
  }

  predicate OldOrRevoked(c: Option<Content>, text: string, name: string)
    requires Auth.Store(text).Ok?
  {
    ReadsAs(c, Auth.Store(text).value) || ReadsAs(c, Enrol.Rest(Auth.Store(text).value, name))
  }

  /** Every store that the directory may lead to after a power cut is flushed, and reads as this one or without the device. */
  predicate OnTheMedium(m: Medium, path: string, text: string, name: string)
    requires m.Valid() && Auth.Store(text).Ok?
  {
    && m.home.Durable?
    && forall i :: 0 <= i < |m.disk.moments| ==>
         && path in m.disk.moments[i] && m.disk.files[m.disk.moments[i][path]].flushed
         && OldOrRevoked(m.disk.At(i, path), text, name)
  }

  /** A revocation is atomic exactly when the store it started from was flushed. */
  lemma AtomicExactly(m: Medium, path: string, text: string, name: string)
    requires Found(m, path, text, name)
    ensures Atomic(m, path, text, name) <==> OnTheMedium(m, path, text, name)
  {
    if OnTheMedium(m, path, text, name) {
      forall fault, tidied, after: Medium | After(m, path, text, name, fault, tidied).Crash(after)
        ensures OldOrRevoked(after.Read(path), text, name)
      {
        FlushedIsAtomic(m, path, text, name, fault, tidied, after);
      }
    } else {
      var after := Spoiled(m, path, text, name);
      assert After(m, path, text, name, OpenFails, false).Crash(after);
    }
  }

  lemma FlushedIsAtomic(m: Medium, path: string, text: string, name: string, fault: Fault, tidied: bool, after: Medium)
    requires Found(m, path, text, name) && OnTheMedium(m, path, text, name)
    requires After(m, path, text, name, fault, tidied).Crash(after)
    ensures OldOrRevoked(after.Read(path), text, name)
  {
    var temporary, content := TemporaryOf(path), Revoked(text, name);
    var e := After(m, path, text, name, fault, tidied);
    assert Ready(m.disk, path, temporary) by {
      forall i | 0 <= i < |m.disk.moments|
        ensures m.disk.Apart(i, path, temporary)
      {
      }
    }
    AttemptOldOrNew(m.disk, path, temporary, content, fault, tidied);
    StageOldOrNew(m.disk, path, temporary, content, 4);
    RevokedReads(text, name);
    MediumExactly(e, path, temporary, after.Read(path));
    if m.disk.MayLeave(path, after.Read(path)) {
      var i :| 0 <= i < |m.disk.moments| && m.disk.At(i, path) == after.Read(path);
    }
  }

  /** From any other store a power cut before the first step already leaves something else. */
  lemma Spoiled(m: Medium, path: string, text: string, name: string) returns (after: Medium)
    requires Found(m, path, text, name) && !OnTheMedium(m, path, text, name)
    ensures m.Crash(after) && !OldOrRevoked(after.Read(path), text, name)
  {
    FoundIsThere(m, path, text, name);
    if m.home.Pending? {
      LostHome(m);
      after := Medium(Absent, EMPTY);
    } else {
      var i :| 0 <= i < |m.disk.moments|
               && !(path in m.disk.moments[i] && m.disk.files[m.disk.moments[i][path]].flushed
                    && OldOrRevoked(m.disk.At(i, path), text, name));
      if path in m.disk.moments[i] && !m.disk.files[m.disk.moments[i][path]].flushed {
        var d := Garbled(m.disk, i, path);
        after := Medium(Durable, d);
      } else {
        var d := AfterCut(m.disk, i);
        after := Medium(Durable, d);
      }
    }
  }

  /** A file that was not flushed may hold anything. */
  lemma Garbled(d: Disk, i: nat, name: string) returns (after: Disk)
    requires d.Valid() && i < |d.moments| && name in d.moments[i] && !d.files[d.moments[i][name]].flushed
    ensures d.Crash(after) && after.Valid() && after.Read(name) == Some(NotText([]))
  {
    var cut := AfterCut(d, i);
    var id := d.moments[i][name];
    after := Disk(cut.files[id := File(NotText([]), true)], cut.moments);
  }

  /**
   An enrolment appends and flushes nothing to the medium. A store whose last change was one is not
   safe from a power cut, and so no revocation of it is atomic; the `Ok` of one still holds.
   */
  lemma NotAfterEnrolment(m: Medium, path: string, text: string, name: string)
    requires m.Valid() && path in m.disk.Now() && m.disk.Unshared(path, TemporaryOf(path))
    requires Auth.Store(text).Ok? && Auth.Enrolled(Auth.Store(text).value, name)
    ensures !m.home.Absent?
    ensures var appended := m.WithDisk(m.disk.Written(path, Content.Text(text)));
            && Found(appended, path, text, name) && !Atomic(appended, path, text, name)
            && (StaysRevoked(After(appended, path, text, name, NoFault, false), path, name) <==> HasDirectory(path))
  {
    var appended := m.WithDisk(m.disk.Written(path, Content.Text(text)));
    assert Found(appended, path, text, name);
    assert !OnTheMedium(appended, path, text, name) by {
      var i := |appended.disk.moments| - 1;
      assert !appended.disk.files[appended.disk.moments[i][path]].flushed;
    }
    AtomicExactly(appended, path, text, name);
    StaysRevokedExactly(appended, path, text, name, false);
  }

  lemma FirstStore(name: string, secret: string)
    requires Auth.NewDeviceName(name).Ok? && Auth.IsSecret(secret) && name[0] != '#'
    ensures var text := Enrol.Appended("", name, secret);
            Auth.Store(text).Ok? && Auth.Enrolled(Auth.Store(text).value, name)
  {
    Enrol.EmptyStore();
    Enrol.EnrolExactly("", name, secret);
    assert Text.Tail("") == "" && Text.AllSpace("");
    var cs := [] + [Auth.Credential(name, secret)];
    assert Auth.Store(Enrol.Appended("", name, secret)) == Ok(cs) && cs[0].device == name;
  }

  /** A disk that holds one flushed file. */
  function OneFile(name: string, content: Content): (d: Disk)
    ensures d.Valid() && d.Read(name) == Some(content)
    ensures d.Unshared(name, TemporaryOf(name))
  {
    var d := Disk([File(content, true)], [map[name := 0]]);
    assert |TemporaryOf(name)| > |name|;
    d
  }

  /** In any store named without a directory, a device that comes back with the power after its revocation. */
  lemma BareNameReturns(path: string, name: string, secret: string)
    requires '/' !in path
    requires Auth.NewDeviceName(name).Ok? && Auth.IsSecret(secret) && name[0] != '#'
    ensures var text := Enrol.Appended("", name, secret);
            var m := Medium(Durable, OneFile(path, Content.Text(text)));
            && Found(m, path, text, name)
            && !StaysRevoked(After(m, path, text, name, NoFault, true), path, name)
  {
    var text := Enrol.Appended("", name, secret);
    FirstStore(name, secret);
    var m := Medium(Durable, OneFile(path, Content.Text(text)));
    StaysRevokedExactly(m, path, text, name, true);
  }
}
