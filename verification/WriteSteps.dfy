/**
 * A write of the lock protocol is the write of `AtomicWrite`: what is there and what
 * a crash may bring back are the same, state by state.
 */
module WriteSteps {
  import opened Base
  import opened StoreHistory
  import Protocol = LockProtocol
  import FS = FileSystem
  import AW = AtomicWrite

  /** The directory shows what the protocol says: the file, and all it may come back as. */
  ghost predicate Shows(fs: FS.Fs, s: Protocol.System) {
    && FS.Valid(fs)
    && FS.ReadName(fs, FS.StoreFile) == s.file
    && (forall v :: FS.MayRead(fs, FS.StoreFile, v) <==> v in s.may)
  }

  /** Handle `h` is about to write `d`. */
  predicate IsWriting(s: Protocol.System, h: Protocol.Pid, d: Bytes) {
    h in s.procs && s.procs[h].Writing? && Writable(s.procs[h].target) && d == ImageOf(s.procs[h].target)
  }

  function Renamed(s: Protocol.System, h: Protocol.Pid): Protocol.System
    requires h in s.procs && s.procs[h].Writing?
  {
    Protocol.Apply(s, Protocol.RenameTmp(h))
  }

  lemma SameShows(fs: FS.Fs, t: FS.Fs, s: Protocol.System)
    requires Shows(fs, s) && AW.SameStore(fs, t)
    ensures Shows(t, s)
  {
    forall v ensures FS.MayRead(t, FS.StoreFile, v) <==> FS.MayRead(fs, FS.StoreFile, v) {
      AW.SameStoreReads(fs, t, v);
    }
    AW.SameStoreReads(fs, t, None);
    hide FS.MayRead, FS.ReadName;
  }

  /** The rename shows as the protocol's rename. */
  lemma RenameShows(fs: FS.Fs, t: FS.Fs, s: Protocol.System, h: Protocol.Pid, d: Bytes, ino: FS.Ino)
    requires Shows(fs, s) && IsWriting(s, h, d) && AW.NewStore(fs, t, d, ino)
    ensures Shows(t, Renamed(s, h))
  {
    Protocol.RenameEffect(s, h);
    forall v ensures FS.MayRead(t, FS.StoreFile, v) <==> FS.MayRead(fs, FS.StoreFile, v) || v == Some(d) {
      AW.NewStoreReads(fs, t, d, ino, v);
    }
    AW.NewStoreReads(fs, t, d, ino, None);
    hide FS.MayRead, FS.ReadName, Protocol.Apply, ImageOf, FS.Valid, Writable;
  }

  /** The directory sync shows as the acknowledgement. */
  lemma SyncShows(fs: FS.Fs, t: FS.Fs, s: Protocol.System, h: Protocol.Pid, d: Bytes, ino: FS.Ino)
    requires Shows(fs, s) && IsWriting(s, h, d) && AW.NewStore(fs, t, d, ino)
    requires Protocol.Enabled(Renamed(s, h), Protocol.SyncDone(h))
    ensures Shows(FS.SyncDir(t), Protocol.Apply(Renamed(s, h), Protocol.SyncDone(h)))
  {
    Protocol.RenameEffect(s, h);
    Protocol.SyncEffect(Renamed(s, h), h);
    forall v ensures FS.MayRead(FS.SyncDir(t), FS.StoreFile, v) <==> v == Some(d) {
      AW.NewStoreReads(fs, t, d, ino, v);
    }
    AW.NewStoreReads(fs, t, d, ino, None);
    hide FS.MayRead, FS.ReadName, Protocol.Apply, ImageOf, FS.Valid, FS.SyncDir, Writable;
  }

  /** Every state of a write is one of the protocol's: before the rename, after it, or acknowledged. */
  lemma EveryMomentShows(fs: FS.Fs, w: AW.WriteEnv, s: Protocol.System, h: Protocol.Pid, d: Bytes, k: nat)
    requires AW.Ready(fs, w) && Shows(fs, s) && IsWriting(s, h, d) && k < |AW.Trace(fs, w, d)|
    ensures AW.Early(w, k) ==> Shows(AW.Trace(fs, w, d)[k], s)
    ensures !AW.Early(w, k) && k == 3 ==> Shows(AW.Trace(fs, w, d)[k], Renamed(s, h))
    ensures !AW.Early(w, k) && k != 3 && Protocol.Enabled(Renamed(s, h), Protocol.SyncDone(h)) ==>
      Shows(AW.Trace(fs, w, d)[k], Protocol.Apply(Renamed(s, h), Protocol.SyncDone(h)))
  {
    AW.EveryMoment(fs, w, d, k);
    if AW.Early(w, k) {
      SameShows(fs, AW.Trace(fs, w, d)[k], s);
    } else {
      var t := AW.Renamed(fs, w, d);
      hide *;
      RenameShows(fs, t, s, h, d, w.ino);
      if Protocol.Enabled(Renamed(s, h), Protocol.SyncDone(h)) {
        SyncShows(fs, t, s, h, d, w.ino);
      }
    }
  }

  /**
   * And it ends as the protocol says: with the acknowledgement if it returns `Ok`,
   * with the failed write if it fails before or at its rename, and with the failed
   * sync if it fails after.
   */
  lemma EveryEndShows(fs: FS.Fs, w: AW.WriteEnv, s: Protocol.System, h: Protocol.Pid, d: Bytes)
    requires AW.Ready(fs, w) && Shows(fs, s) && IsWriting(s, h, d)
    ensures var end := AW.Final(fs, w, d);
      && (AW.Verdict(fs, w).Ok? && Protocol.Enabled(Renamed(s, h), Protocol.SyncDone(h)) ==>
            Shows(end, Protocol.Apply(Renamed(s, h), Protocol.SyncDone(h))))
      && (AW.Undone(fs, w) ==> Shows(end, Protocol.Apply(s, Protocol.WriteFails(h))))
      && (AW.Verdict(fs, w).Err? && !AW.Undone(fs, w) ==>
            Protocol.Enabled(Renamed(s, h), Protocol.SyncFails(h))
            && Shows(end, Protocol.Apply(Renamed(s, h), Protocol.SyncFails(h))))
  {
    Protocol.RenameEffect(s, h);
    if AW.Undone(fs, w) {
      Protocol.LeavesHistory(s, Protocol.WriteFails(h));
    } else if AW.Verdict(fs, w).Err? {
      Protocol.LeavesHistory(Renamed(s, h), Protocol.SyncFails(h));
    }
    if AW.Starts(fs, w) {
      EveryMomentShows(fs, w, s, h, d, |AW.Trace(fs, w, d)| - 1);
    }
    hide Shows, Protocol.Apply, IsWriting, AW.Created, AW.Written, AW.Flushed, AW.Renamed, FS.SyncDir, FS.Unlink;
    if AW.Undone(fs, w) {
      ShowsSame(AW.Final(fs, w, d), s, Protocol.Apply(s, Protocol.WriteFails(h)));
    } else if AW.Verdict(fs, w).Err? {
      ShowsSame(AW.Final(fs, w, d), Renamed(s, h), Protocol.Apply(Renamed(s, h), Protocol.SyncFails(h)));
    }
  }

  lemma ShowsSame(fs: FS.Fs, s: Protocol.System, t: Protocol.System)
    requires Shows(fs, s) && t.file == s.file && t.may == s.may
    ensures Shows(fs, t)
  {
    hide FS.MayRead, FS.ReadName, FS.Valid;
  }

  /** A power loss in any state is the protocol's, with what is read then. */
  lemma CrashShows(fs: FS.Fs, s: Protocol.System, back: FS.Fs, now: Option<Protocol.Ino>)
    requires Shows(fs, s) && FS.Crash(fs, back)
    ensures var loss := Protocol.PowerLoss(FS.ReadName(back, FS.StoreFile), now);
      Protocol.Enabled(s, loss) && Shows(back, Protocol.Apply(s, loss))
  {
    var v := FS.ReadName(back, FS.StoreFile);
    FS.CrashIsValid(fs, back);
    assert FS.MayRead(fs, FS.StoreFile, v);
    forall x ensures FS.MayRead(back, FS.StoreFile, x) <==> x == v {
      CrashReadsOne(fs, back, x);
    }
    hide FS.MayRead, FS.ReadName, FS.Crash, FS.Valid;
  }

  lemma CrashReadsOne(fs: FS.Fs, back: FS.Fs, x: Option<Bytes>)
    requires FS.Valid(fs) && FS.Crash(fs, back)
    ensures FS.MayRead(back, FS.StoreFile, x) <==> x == FS.ReadName(back, FS.StoreFile)
  {
    FS.CrashIsValid(fs, back);
    FS.MayReadIff(back, FS.StoreFile, x);
    assert FS.After(back, FS.StoreFile) == {FS.Entry(back, FS.StoreFile)};
    assert FS.Entry(back, FS.StoreFile) in FS.After(back, FS.StoreFile);
  }
}
