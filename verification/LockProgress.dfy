/**
 * What a handle gets done: the protocol that lets nobody in between also lets the one
 * that holds the lock through, and each of its steps does what the store's calls do.
 */
module LockProgress {
  import opened Base
  import opened StoreFormat
  import opened StoreHistory
  import opened LockProtocol
  import Model = StoreModel
  import FS = FileSystem

  /** Two steps, one after the other. */
  lemma Then(s: System, a: Action, acts: seq<Action>)
    requires Enabled(s, a) && CanRun(Apply(s, a), acts)
    ensures CanRun(s, [a] + acts) && After(s, [a] + acts) == After(Apply(s, a), acts)
  {
    assert ([a] + acts)[1..] == acts;
  }

  lemma Last(s: System, a: Action)
    requires Enabled(s, a)
    ensures CanRun(s, [a]) && After(s, [a]) == Apply(s, a)
  {
    assert [a][1..] == [];
  }

  // ---------------------------------------------------------------------
  // Opening
  // ---------------------------------------------------------------------

  /** Nobody has a lock, and `ino` is the lock file, or will be. */
  predicate LockIsFree(s: System, ino: Ino) {
    s.owner == map[] && (s.lockPath == None || s.lockPath == Some(ino))
  }

  function OpeningSteps(h: Pid, ino: Ino): seq<Action> {
    [Start(h), OpenLock(h, ino), TryLock(h), Check(h)]
  }

  /** A new handle that nobody is in the way of takes the lock, and nothing else changes. */
  lemma FreeLockIsTaken(s: System, h: Pid, ino: Ino)
    requires LockIsFree(s, ino) && h !in s.procs
    ensures CanRun(s, OpeningSteps(h, ino))
    ensures var t := After(s, OpeningSteps(h, ino));
      t == s.(lockPath := Some(ino), owner := map[ino := h], procs := s.procs[h := Reading(ino)])
  {
    hide ReadStore, ImageOf, Writable, Applied, Proper;
    var s1 := Apply(s, Start(h));
    var s2 := Apply(s1, OpenLock(h, ino));
    var s3 := Apply(s2, TryLock(h));
    assert s3.procs[h] == Checking(ino, TRIES, s.replaced) && s3.owner == map[ino := h];
    var s4 := Apply(s3, Check(h));
    assert s4.procs == s.procs[h := Reading(ino)];
    hide Enabled, Apply, CanRun, After;
    Last(s3, Check(h));
    Then(s2, TryLock(h), [Check(h)]);
    Then(s1, OpenLock(h, ino), [TryLock(h)] + [Check(h)]);
    Then(s, Start(h), [OpenLock(h, ino)] + ([TryLock(h)] + [Check(h)]));
    assert OpeningSteps(h, ino) == [Start(h)] + ([OpenLock(h, ino)] + ([TryLock(h)] + [Check(h)]));
  }

  /**
   * With the lock, it opens just what `open` opens: it is idle with the contents that
   * some legal record list spells, or, if the file is too long or nothing spells it,
   * gone, with its lock let go. The file is not touched.
   */
  lemma ReadingOpens(s: System, h: Pid, c: Contents)
    requires In(s, h) && s.procs[h].Reading? && s.file.Some? && s.file in s.may
    ensures Enabled(s, ReadFile(h))
    ensures var t := Apply(s, ReadFile(h));
      && t.file == s.file && t.may == s.may && t.acks == s.acks
      && (Model.Accepts(s.file.value, c) ==>
            t == s.(procs := s.procs[h := Idle(s.procs[h].fd, c, s.may[s.file], false)]))
      && ((t.procs[h].Idle? && t.procs[h].held == c) ==> Model.Accepts(s.file.value, c))
      && (!t.procs[h].Idle? ==>
            t == s.(procs := s.procs[h := Gone], owner := s.owner - {s.procs[h].fd}))
  {
    ReadStoreIff(s.file.value, c);
    hide ReadStore, Spells;
  }

  /** It is what `open` of the store's class does with such a file. */
  lemma ReadingIsOpen(s: System, h: Pid, fs: FS.Fs, e: Model.OpenEnv, c: Contents)
    requires In(s, h) && s.procs[h].Reading? && s.file.Some? && s.file in s.may
    requires FS.ReadName(fs, FS.StoreFile) == s.file && !e.readFails && !e.privateFails
    ensures Model.Open(fs, e).1 == Ok(c) <==>
      Apply(s, ReadFile(h)).procs[h].Idle? && Apply(s, ReadFile(h)).procs[h].held == c
  {
    ReadingOpens(s, h, c);
    Model.OpenLeavesAFile(fs, e, s.file.value, c);
    hide Model.Open, ReadStore, Apply, Model.Accepts, FS.ReadName;
  }

  // ---------------------------------------------------------------------
  // Writing
  // ---------------------------------------------------------------------

  /** Where there is no store, a handle with the lock can make one, and has it. */
  lemma CreatingCompletes(s: System, h: Pid, target: Contents)
    requires Inv(s) && In(s, h) && s.procs[h].Reading? && s.file.None? && Writable(target) && target.entries == map[]
    ensures var acts := [CreateStore(h, target), RenameTmp(h), SyncDone(h)];
      CanRun(s, acts) &&
      var t := After(s, acts);
      && t.file == Some(ImageOf(target)) && t.may.Keys == {t.file} && t.acks == s.acks + [Create(target)]
      && In(t, h) && t.procs[h].Idle? && t.procs[h].held == target && !t.procs[h].astray
      && t.owner == s.owner
  {
    CreateBegins(s, h, target);
    hide *;
    var s1 := Apply(s, CreateStore(h, target));
    WriteCompletes(s1, h);
    Then(s, CreateStore(h, target), [RenameTmp(h), SyncDone(h)]);
    assert [CreateStore(h, target)] + [RenameTmp(h), SyncDone(h)]
      == [CreateStore(h, target), RenameTmp(h), SyncDone(h)];
  }

  lemma CreateBegins(s: System, h: Pid, target: Contents)
    requires Inv(s) && In(s, h) && s.procs[h].Reading? && s.file.None? && Writable(target) && target.entries == map[]
    ensures Enabled(s, CreateStore(h, target))
    ensures var t := Apply(s, CreateStore(h, target));
      && In(t, h) && t.procs[h].Writing? && t.procs[h].fd == s.procs[h].fd
      && t.procs[h].target == target && t.procs[h].purpose == Creating
      && t.acks == s.acks && t.owner == s.owner && ChangeOf(target, Creating) == Create(target)
  {
    hide Writable, ImageOf, ReadStore, ValidContents;
  }

  lemma WriteCompletes(s: System, h: Pid)
    requires In(s, h) && s.procs[h].Writing?
    requires s.procs[h].purpose.Rotating? ==> s.procs[h].purpose.heir !in s.procs
    ensures var acts := [RenameTmp(h), SyncDone(h)];
      CanRun(s, acts) &&
      var p, t := s.procs[h], After(s, acts);
      var g := if p.purpose.Rotating? then p.purpose.heir else h;
      && t.file == Some(ImageOf(p.target)) && t.may.Keys == {t.file}
      && t.acks == s.acks + [ChangeOf(p.target, p.purpose)]
      && In(t, g) && t.procs[g].Idle? && t.procs[g].held == p.target && !t.procs[g].astray
      && t.owner == (if p.purpose.Rotating? then s.owner[p.fd := g] else s.owner)
      && (p.purpose.Rotating? && In(t, h) ==> t.procs[h] == Gone)
  {
    hide ImageOf, Made, Enabled, Apply, CanRun, After, ChangeOf;
    WriteGoesOn(s, h);
    var s1 := Apply(s, RenameTmp(h));
    RenameEffect(s, h);
    SyncEffect(s1, h);
    Last(s1, SyncDone(h));
    Then(s, RenameTmp(h), [SyncDone(h)]);
    assert [RenameTmp(h)] + [SyncDone(h)] == [RenameTmp(h), SyncDone(h)];
  }

  lemma WriteGoesOn(s: System, h: Pid)
    requires In(s, h) && s.procs[h].Writing?
    requires s.procs[h].purpose.Rotating? ==> s.procs[h].purpose.heir !in s.procs
    ensures Enabled(s, RenameTmp(h)) && Enabled(Apply(s, RenameTmp(h)), SyncDone(h))
  {
    hide ImageOf, Made, Applied;
  }

  /**
   * An idle handle can put, delete and rotate: its change is written and
   * acknowledged, and it, or its heir, then holds the changed contents and the lock.
   */
  lemma UpdateCompletes(s: System, h: Pid, purpose: Purpose)
    requires In(s, h) && s.procs[h].Idle? && Proper(s.procs[h].held, purpose)
    requires Writable(Applied(s.procs[h].held, purpose.change))
    requires purpose.Rotating? ==> purpose.heir !in s.procs
    ensures var acts := [Begin(h, purpose), RenameTmp(h), SyncDone(h)];
      CanRun(s, acts) &&
      var target, t := Applied(s.procs[h].held, purpose.change), After(s, acts);
      var g := if purpose.Rotating? then purpose.heir else h;
      && t.file == Some(ImageOf(target)) && t.may.Keys == {t.file} && t.acks == s.acks + [purpose.change]
      && In(t, g) && t.procs[g].Idle? && t.procs[g].held == target && !t.procs[g].astray
      && t.owner == (if purpose.Rotating? then s.owner[s.procs[h].fd := g] else s.owner)
  {
    var p := s.procs[h];
    assert Enabled(s, Begin(h, purpose));
    var s1 := Apply(s, Begin(h, purpose));
    assert s1 == s.(procs := s.procs[h := Writing(p.fd, p.held, p.built, p.astray,
                                                  Applied(p.held, purpose.change), purpose)]);
    hide Writable, ImageOf, Applied, Enabled, Apply;
    WriteCompletes(s1, h);
    Then(s, Begin(h, purpose), [RenameTmp(h), SyncDone(h)]);
    assert [Begin(h, purpose)] + [RenameTmp(h), SyncDone(h)] == [Begin(h, purpose), RenameTmp(h), SyncDone(h)];
    hide CanRun, After;
  }

  // ---------------------------------------------------------------------
  // Failing
  // ---------------------------------------------------------------------

  /** A put or delete that fails before its rename leaves everything just as it was. */
  lemma FailedUpdateIsUndone(s: System, h: Pid, purpose: Purpose)
    requires In(s, h) && s.procs[h].Idle? && Enabled(s, Begin(h, purpose)) && purpose.Updating?
    ensures Enabled(Apply(s, Begin(h, purpose)), WriteFails(h))
    ensures Apply(Apply(s, Begin(h, purpose)), WriteFails(h)) == s
  {
    hide Writable, Applied, Proper;
    assert Apply(Apply(s, Begin(h, purpose)), WriteFails(h)).procs == s.procs;
  }

  /** One that fails after its rename leaves its handle as it was, but astray, beside the new file. */
  lemma FailedSyncGoesAstray(s: System, h: Pid, purpose: Purpose)
    requires In(s, h) && s.procs[h].Idle? && Enabled(s, Begin(h, purpose)) && purpose.Updating?
    ensures var p, target := s.procs[h], Applied(s.procs[h].held, purpose.change);
      var renamed := Apply(Apply(s, Begin(h, purpose)), RenameTmp(h));
      Enabled(renamed, SyncFails(h)) &&
      var t := Apply(renamed, SyncFails(h));
      && t.procs == s.procs[h := Idle(p.fd, p.held, p.built, true)]
      && t.owner == s.owner && t.acks == s.acks && t.lockPath == s.lockPath
      && t.file == Some(ImageOf(target)) && t.may.Keys == s.may.Keys + {t.file}
  {
    hide Writable, Applied, Proper, ImageOf;
    RenameEffect(Apply(s, Begin(h, purpose)), h);
  }

  /** A rotation, or the first write of a new store, that fails gives up its handle and lets the lock go. */
  lemma FailedHandleIsGone(s: System, h: Pid, a: Action)
    requires In(s, h) && (a == WriteFails(h) || a == SyncFails(h)) && Enabled(s, a) && !s.procs[h].purpose.Updating?
    ensures Apply(s, a) == s.(procs := s.procs[h := Gone], owner := s.owner - {s.procs[h].fd})
  {
  }
}
