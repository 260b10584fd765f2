/** `atomic_write`: tmp file, fsync, rename, directory fsync, with a fault or a crash at any point. */
module AtomicWrite {
  import opened Base
  import opened FileSystem

  /** The step that fails, if one does. A failing write leaves the first `kept` bytes. */
  datatype Fault = NoFault | Random | Create | Write(kept: nat) | SyncFile | Rename | OpenDir | SyncDir

  /**
   * What the environment decides about one write: the random part of the tmp
   * name, the inode the tmp file gets, the fault, and whether removing the tmp
   * file would succeed.
   */
  datatype WriteEnv = WriteEnv(nonce: Bytes, ino: Ino, fault: Fault, removes: bool)

  predicate Lasting(f: Fault) {
    f.OpenDir? || f.SyncDir?
  }

  predicate Starts(fs: Fs, w: WriteEnv) {
    !w.fault.Random? && !w.fault.Create? && Tmp(w.nonce) !in fs.dir
  }

  // The states the write goes through, one after the other.

  function Created(fs: Fs, w: WriteEnv): Fs {
    CreateNew(fs, Tmp(w.nonce), w.ino)
  }

  function Written(fs: Fs, w: WriteEnv, part: Bytes): Fs {
    FileSystem.Write(Created(fs, w), w.ino, part)
  }

  function Flushed(fs: Fs, w: WriteEnv, data: Bytes): Fs {
    FileSystem.SyncFile(Written(fs, w, data), w.ino)
  }

  function Renamed(fs: Fs, w: WriteEnv, data: Bytes): Fs {
    FileSystem.Rename(Flushed(fs, w, data), Tmp(w.nonce), StoreFile)
  }

  /** The tmp file is removed last, when it can be. */
  function Cleaned(t: seq<Fs>, w: WriteEnv): seq<Fs>
    requires t != []
  {
    if w.removes then t + [Unlink(t[|t| - 1], Tmp(w.nonce))] else t
  }

  /** Every state the directory goes through during the write, in order. */
  function Trace(fs: Fs, w: WriteEnv, data: Bytes): seq<Fs> {
    if !Starts(fs, w) then []
    else
      var created, written, flushed := Created(fs, w), Written(fs, w, data), Flushed(fs, w, data);
      match w.fault
      case Write(kept) =>
        Cleaned([created, Written(fs, w, data[..if kept < |data| then kept else |data|])], w)
      case SyncFile => Cleaned([created, written], w)
      case Rename => Cleaned([created, written, flushed], w)
      case OpenDir => [created, written, flushed, Renamed(fs, w, data)]
      case SyncDir => [created, written, flushed, Renamed(fs, w, data)]
      case _ => [created, written, flushed, Renamed(fs, w, data), FileSystem.SyncDir(Renamed(fs, w, data))]
  }

  function Final(fs: Fs, w: WriteEnv, data: Bytes): Fs {
    var t := Trace(fs, w, data);
    if t == [] then fs else t[|t| - 1]
  }

  function Verdict(fs: Fs, w: WriteEnv): Result<()> {
    if w.fault.Random? then Err(Hardening)
    else if Starts(fs, w) && w.fault.NoFault? then Ok(())
    else Err(Io)
  }

  // ---------------------------------------------------------------------
  // The imperative form
  // ---------------------------------------------------------------------

  /** The disk, and every state it has gone through. */
  class Disk {
    var fs: Fs
    ghost var history: seq<Fs>

    constructor (start: Fs)
      ensures fs == start && history == []
    {
      fs := start;
      history := [];
    }

    method Become(next: Fs)
      modifies this
      ensures fs == next && history == old(history) + [next]
    {
      fs := next;
      history := history + [next];
    }

    /** `atomic_write`. */
    method AtomicWrite(data: Bytes, w: WriteEnv) returns (r: Result<()>)
      modifies this
      ensures history == old(history) + Trace(old(fs), w, data)
      ensures fs == Final(old(fs), w, data)
      ensures r == Verdict(old(fs), w)
    {
      if w.fault.Random? {
        return Err(Hardening);
      }
      var tmp := Tmp(w.nonce);
      if w.fault.Create? || tmp in fs.dir {
        return Err(Io);
      }
      assert Starts(fs, w) && Created(fs, w) == CreateNew(fs, tmp, w.ino);
      hide Created, Written, Flushed, Renamed, CreateNew, Unlink, Starts, FileSystem.SyncDir;
      Become(CreateNew(fs, tmp, w.ino));
      r := WriteThenRename(old(fs), data, w);
      if r.Err? && w.removes && tmp in fs.dir {
        Become(Unlink(fs, tmp));
      }
    }

    /** `write_then_rename`: what is still to do once the tmp file exists. */
    method WriteThenRename(ghost before: Fs, data: Bytes, w: WriteEnv) returns (r: Result<()>)
      requires Starts(before, w) && fs == Created(before, w)
      modifies this
      ensures var all := Trace(before, w.(removes := false), data);
        all[0] == old(fs) && history == old(history) + all[1..] && fs == all[|all| - 1]
      ensures r == Verdict(before, w)
      ensures Tmp(w.nonce) in fs.dir <==> w.fault.Write? || w.fault.SyncFile? || w.fault.Rename?
    {
      var tmp := Tmp(w.nonce);
      if w.fault.Write? {
        Become(FileSystem.Write(fs, w.ino, data[..if w.fault.kept < |data| then w.fault.kept else |data|]));
        return Err(Io);
      }
      Become(FileSystem.Write(fs, w.ino, data));
      if w.fault.SyncFile? {
        return Err(Io);
      }
      Become(FileSystem.SyncFile(fs, w.ino));
      if w.fault.Rename? {
        return Err(Io);
      }
      Become(FileSystem.Rename(fs, tmp, StoreFile));
      if w.fault.OpenDir? || w.fault.SyncDir? {
        return Err(Io);
      }
      Become(FileSystem.SyncDir(fs));
      return Ok(());
    }
  }

  // ---------------------------------------------------------------------
  // What the protocol guarantees
  // ---------------------------------------------------------------------

  /** The directory is sound, and `w` names an inode nobody uses. */
  ghost predicate Ready(fs: Fs, w: WriteEnv) {
    Valid(fs) && w.ino !in fs.files
  }

  /** Only the tmp file has changed: the store file's entry and bytes are as before. */
  ghost predicate SameStore(fs: Fs, s: Fs) {
    && Valid(s)
    && After(s, StoreFile) == After(fs, StoreFile)
    && Entry(s, StoreFile) == Entry(fs, StoreFile)
    && (forall i :: i in fs.files ==> i in s.files && s.files[i] == fs.files[i])
  }

  /** The new file is in place: it is synced, and the entry may come back as it or as before. */
  ghost predicate NewStore(fs: Fs, s: Fs, data: Bytes, ino: Ino) {
    && Valid(s)
    && After(s, StoreFile) == After(fs, StoreFile) + {Some(ino)}
    && Entry(s, StoreFile) == Some(ino)
    && ino in s.files && s.files[ino] == File(data, true)
    && (forall i :: i in fs.files ==> i in s.files && s.files[i] == fs.files[i])
  }

  lemma CreatedIsSame(fs: Fs, w: WriteEnv)
    requires Ready(fs, w)
    ensures SameStore(fs, Created(fs, w))
  {
    var s := fs.(files := fs.files[w.ino := File([], false)]);
    assert forall n :: After(s, n) == After(fs, n) && Entry(s, n) == Entry(fs, n);
    SetEntryIsValid(s, Tmp(w.nonce), Some(w.ino));
    SetEntryElsewhere(s, Tmp(w.nonce), Some(w.ino), StoreFile);
  }

  lemma FilesOnly(fs: Fs, s: Fs, t: Fs)
    requires SameStore(fs, s)
    requires t.dir == s.dir && t.unsynced == s.unsynced && t.files.Keys == s.files.Keys
    requires forall i :: i in fs.files ==> t.files[i] == s.files[i]
    ensures SameStore(fs, t)
  {
    assert forall n :: After(t, n) == After(s, n) && Entry(t, n) == Entry(s, n);
  }

  lemma UnlinkedIsSame(fs: Fs, s: Fs, nonce: Bytes)
    requires SameStore(fs, s)
    ensures SameStore(fs, Unlink(s, Tmp(nonce)))
  {
    SetEntryIsValid(s, Tmp(nonce), None);
    SetEntryElsewhere(s, Tmp(nonce), None, StoreFile);
  }

  /** Until the rename, every state leaves the store file alone, and so does removing the tmp file. */
  lemma BeforeRename(fs: Fs, w: WriteEnv, data: Bytes)
    requires Ready(fs, w)
    ensures SameStore(fs, Created(fs, w))
    ensures SameStore(fs, Written(fs, w, data)) && SameStore(fs, Unlink(Written(fs, w, data), Tmp(w.nonce)))
    ensures SameStore(fs, Flushed(fs, w, data)) && SameStore(fs, Unlink(Flushed(fs, w, data), Tmp(w.nonce)))
  {
    CreatedIsSame(fs, w);
    FilesOnly(fs, Created(fs, w), Written(fs, w, data));
    FilesOnly(fs, Created(fs, w), Flushed(fs, w, data));
    UnlinkedIsSame(fs, Written(fs, w, data), w.nonce);
    UnlinkedIsSame(fs, Flushed(fs, w, data), w.nonce);
  }

  lemma RenamedIsNew(fs: Fs, w: WriteEnv, data: Bytes)
    requires Ready(fs, w)
    ensures NewStore(fs, Renamed(fs, w, data), data, w.ino)
  {
    BeforeRename(fs, w, data);
    var s := Flushed(fs, w, data);
    assert s.dir[Tmp(w.nonce)] == w.ino;
    assert s.files[w.ino] == File([] + data, true) && [] + data == data;
    var r := SetEntry(s, StoreFile, Some(w.ino));
    SetEntryIsValid(s, StoreFile, Some(w.ino));
    SetEntryElsewhere(s, StoreFile, Some(w.ino), StoreFile);
    SetEntryIsValid(r, Tmp(w.nonce), None);
    SetEntryElsewhere(r, Tmp(w.nonce), None, StoreFile);
  }

  /** Step `k` of the write comes before the rename, or removes the tmp file after a failure. */
  predicate Early(w: WriteEnv, k: nat) {
    k < 3 || (w.fault.Rename? && k == 3)
  }

  /** At every moment of the write the store file is untouched, or is the whole new file, synced. */
  lemma EveryMoment(fs: Fs, w: WriteEnv, data: Bytes, k: nat)
    requires Ready(fs, w) && k < |Trace(fs, w, data)|
    ensures var s := Trace(fs, w, data)[k];
      if Early(w, k) then SameStore(fs, s)
      else
        && NewStore(fs, Renamed(fs, w, data), data, w.ino)
        && s == (if k == 3 then Renamed(fs, w, data) else FileSystem.SyncDir(Renamed(fs, w, data)))
  {
    BeforeRename(fs, w, data);
    RenamedIsNew(fs, w, data);
    if w.fault.Write? {
      BeforeRename(fs, w, data[..if w.fault.kept < |data| then w.fault.kept else |data|]);
    }
    hide SameStore, NewStore, Created, Written, Flushed, Renamed, Unlink, FileSystem.SyncDir, Starts, Valid;
  }

  lemma SameStoreReads(fs: Fs, s: Fs, v: Option<Bytes>)
    requires Valid(fs) && SameStore(fs, s)
    ensures MayRead(s, StoreFile, v) <==> MayRead(fs, StoreFile, v)
    ensures ReadName(s, StoreFile) == ReadName(fs, StoreFile)
  {
    MayReadIff(fs, StoreFile, v);
    MayReadIff(s, StoreFile, v);
    assert Entry(fs, StoreFile) in After(fs, StoreFile);
    forall e | e in After(fs, StoreFile) ensures EntryMayRead(fs, e, v) <==> EntryMayRead(s, e, v) {
    }
  }

  lemma NewStoreReads(fs: Fs, s: Fs, data: Bytes, ino: Ino, v: Option<Bytes>)
    requires Valid(fs) && NewStore(fs, s, data, ino)
    ensures MayRead(s, StoreFile, v) <==> MayRead(fs, StoreFile, v) || v == Some(data)
    ensures ReadName(s, StoreFile) == Some(data)
    ensures Valid(FileSystem.SyncDir(s))
    ensures MayRead(FileSystem.SyncDir(s), StoreFile, v) <==> v == Some(data)
    ensures ReadName(FileSystem.SyncDir(s), StoreFile) == Some(data)
  {
    MayReadIff(fs, StoreFile, v);
    MayReadIff(s, StoreFile, v);
    forall e | e in After(fs, StoreFile) ensures EntryMayRead(fs, e, v) <==> EntryMayRead(s, e, v) {
    }
    assert Some(ino) in After(s, StoreFile);
    assert EntryMayRead(s, Some(ino), v) <==> v == Some(data);
    var t := FileSystem.SyncDir(s);
    forall n, e | e in After(t, n) && e.Some? ensures e.value in t.files {
      assert e == Entry(s, n) && e in After(s, n);
    }
    MayReadIff(t, StoreFile, v);
    assert After(t, StoreFile) == {Some(ino)};
  }

  /**
   * Atomicity. At every moment of the write, whatever it meets, a process reads
   * the old file or the whole new one, and a crash brings back nothing but what
   * it could have brought back before, or the whole new one.
   */
  lemma WriteIsAtomic(fs: Fs, w: WriteEnv, data: Bytes, k: nat, v: Option<Bytes>)
    requires Ready(fs, w) && k < |Trace(fs, w, data)|
    ensures var s := Trace(fs, w, data)[k];
      && Valid(s)
      && (MayRead(s, StoreFile, v) ==> MayRead(fs, StoreFile, v) || v == Some(data))
      && (ReadName(s, StoreFile) == ReadName(fs, StoreFile) || ReadName(s, StoreFile) == Some(data))
  {
    EveryMoment(fs, w, data, k);
    var s := Trace(fs, w, data)[k];
    if Early(w, k) {
      SameStoreReads(fs, s, v);
    } else {
      NewStoreReads(fs, Renamed(fs, w, data), data, w.ino, v);
    }
  }

  /** An unsuccessful write whose fault comes before or at the rename leaves no trace in the store file. */
  predicate Undone(fs: Fs, w: WriteEnv) {
    !Starts(fs, w) || w.fault.Write? || w.fault.SyncFile? || w.fault.Rename?
  }

  /**
   * What the verdict says. `Ok`: the new file is read, and is all that any
   * crash can bring back. `Err`: the file is as it was, now and after any
   * crash; except when opening or syncing the directory failed, after the
   * rename: then the new file is read, and either may come back.
   */
  lemma VerdictMeans(fs: Fs, w: WriteEnv, data: Bytes, v: Option<Bytes>)
    requires Ready(fs, w)
    ensures var s := Final(fs, w, data);
      && Valid(s)
      && (Verdict(fs, w).Ok? ==>
        ReadName(s, StoreFile) == Some(data) && (MayRead(s, StoreFile, v) <==> v == Some(data)))
      && (Verdict(fs, w).Err? ==> (Undone(fs, w) <==> !Starts(fs, w) || !Lasting(w.fault)))
      && (Undone(fs, w) ==>
        ReadName(s, StoreFile) == ReadName(fs, StoreFile)
        && (MayRead(s, StoreFile, v) <==> MayRead(fs, StoreFile, v)))
      && (Verdict(fs, w).Err? && !Undone(fs, w) ==>
        ReadName(s, StoreFile) == Some(data)
        && (MayRead(s, StoreFile, v) <==> MayRead(fs, StoreFile, v) || v == Some(data)))
  {
    if Starts(fs, w) {
      var last := |Trace(fs, w, data)| - 1;
      EveryMoment(fs, w, data, last);
      var s := Final(fs, w, data);
      if Undone(fs, w) {
        SameStoreReads(fs, s, v);
      } else {
        NewStoreReads(fs, Renamed(fs, w, data), data, w.ino, v);
      }
    }
  }

  /**
   * Why the tmp file is synced first: were it renamed as it was written, the store file
   * could come back as anything at all, though the directory was synced.
   */
  lemma SyncIsNeeded(fs: Fs, w: WriteEnv, data: Bytes, v: Bytes)
    requires Ready(fs, w)
    ensures var s := FileSystem.SyncDir(FileSystem.Rename(Written(fs, w, data), Tmp(w.nonce), StoreFile));
      ReadName(s, StoreFile) == Some(data) && MayRead(s, StoreFile, Some(v))
  {
    BeforeRename(fs, w, data);
    var t := Written(fs, w, data);
    var r := SetEntry(t, StoreFile, Some(w.ino));
    SetEntryIsValid(t, StoreFile, Some(w.ino));
    SetEntryElsewhere(t, StoreFile, Some(w.ino), StoreFile);
    SetEntryIsValid(r, Tmp(w.nonce), None);
    SetEntryElsewhere(r, Tmp(w.nonce), None, StoreFile);
    var renamed := FileSystem.Rename(t, Tmp(w.nonce), StoreFile);
    var s := FileSystem.SyncDir(renamed);
    assert forall n :: Entry(s, n) == Entry(renamed, n) && After(s, n) == {Entry(s, n)};
    assert t.files[w.ino] == File([] + data, false) && [] + data == data;
    assert Some(w.ino) in After(s, StoreFile) && EntryMayRead(s, Some(w.ino), Some(v));
    MayReadIff(s, StoreFile, Some(v));
  }

  /** An aborted write leaves its tmp file behind exactly when it cannot remove it. */
  lemma TmpIsRemoved(fs: Fs, w: WriteEnv, data: Bytes)
    requires Starts(fs, w)
    ensures Tmp(w.nonce) in Final(fs, w, data).dir <==> Undone(fs, w) && !w.removes
    ensures forall n :: n != Tmp(w.nonce) && n != StoreFile ==> Entry(Final(fs, w, data), n) == Entry(fs, n)
  {
  }

  // ---------------------------------------------------------------------
  // Any run of writes and crashes
  // ---------------------------------------------------------------------

  /** A write that ran to its end, a write cut off by a crash after `k` steps, or a crash in between. */
  datatype Event =
    | Done(w: WriteEnv, data: Bytes)
    | CutOff(w: WriteEnv, data: Bytes, k: nat, back: Fs)
    | PowerLoss(back: Fs)

  /** `sure`: the content last acknowledged. `loose`: contents written since then, never acknowledged. */
  datatype Ledger = Ledger(fs: Fs, sure: Option<Bytes>, loose: set<Bytes>)

  ghost predicate CanHappen(l: Ledger, e: Event) {
    match e
    case Done(w, data) => Ready(l.fs, w)
    case CutOff(w, data, k, back) =>
      Ready(l.fs, w) && k < |Trace(l.fs, w, data)| && Crash(Trace(l.fs, w, data)[k], back)
    case PowerLoss(back) => Crash(l.fs, back)
  }

  function Happens(l: Ledger, e: Event): Ledger {
    match e
    case Done(w, data) =>
      var after := Final(l.fs, w, data);
      if Verdict(l.fs, w).Ok? then Ledger(after, Some(data), {})
      else if Undone(l.fs, w) then l.(fs := after)
      else Ledger(after, l.sure, l.loose + {data})
    case CutOff(w, data, k, back) => Ledger(back, l.sure, l.loose + {data})
    case PowerLoss(back) => l.(fs := back)
  }

  ghost predicate Possible(l: Ledger, es: seq<Event>)
    decreases |es|
  {
    es == [] || (CanHappen(l, es[0]) && Possible(Happens(l, es[0]), es[1..]))
  }

  function Outcome(l: Ledger, es: seq<Event>): Ledger
    decreases |es|
  {
    if es == [] then l else Outcome(Happens(l, es[0]), es[1..])
  }

  /** Nothing is ever read, now or after a crash, but the content last acknowledged or one written since. */
  ghost predicate Kept(l: Ledger) {
    && Valid(l.fs)
    && (forall v :: MayRead(l.fs, StoreFile, v) ==> v == l.sure || (v.Some? && v.value in l.loose))
  }

  lemma CrashReads(fs: Fs, c: Fs, v: Option<Bytes>)
    requires Valid(fs) && Crash(fs, c) && MayRead(c, StoreFile, v)
    ensures MayRead(fs, StoreFile, v)
  {
    CrashIsValid(fs, c);
    MayReadIff(c, StoreFile, v);
    MayReadIff(fs, StoreFile, v);
    var e :| e in After(c, StoreFile) && EntryMayRead(c, e, v);
    assert e == Entry(c, StoreFile) && e in After(fs, StoreFile);
    assert EntryMayRead(fs, e, v);
  }

  lemma HappensKeeps(l: Ledger, e: Event)
    requires Kept(l) && CanHappen(l, e)
    ensures Kept(Happens(l, e))
  {
    var l' := Happens(l, e);
    match e {
      case Done(w, data) =>
        VerdictMeans(l.fs, w, data, None);
        forall v | MayRead(l'.fs, StoreFile, v) ensures v == l'.sure || (v.Some? && v.value in l'.loose) {
          VerdictMeans(l.fs, w, data, v);
        }
      case CutOff(w, data, k, back) =>
        var s := Trace(l.fs, w, data)[k];
        WriteIsAtomic(l.fs, w, data, k, None);
        CrashIsValid(s, back);
        forall v | MayRead(back, StoreFile, v) ensures v == l'.sure || (v.Some? && v.value in l'.loose) {
          CrashReads(s, back, v);
          WriteIsAtomic(l.fs, w, data, k, v);
        }
      case PowerLoss(back) =>
        CrashIsValid(l.fs, back);
        forall v | MayRead(back, StoreFile, v) ensures v == l'.sure || (v.Some? && v.value in l'.loose) {
          CrashReads(l.fs, back, v);
        }
    }
  }

  /**
   * Over any run of writes, faults and crashes, in any order: what is read and
   * what any crash can bring back is the content last acknowledged, or a whole
   * content written since and not acknowledged. Never a mixture, and never
   * anything older.
   */
  lemma {:induction false} NothingAcknowledgedIsLost(l: Ledger, es: seq<Event>)
    requires Kept(l) && Possible(l, es)
    ensures Kept(Outcome(l, es))
    decreases |es|
  {
    if es != [] {
      HappensKeeps(l, es[0]);
      NothingAcknowledgedIsLost(Happens(l, es[0]), es[1..]);
    }
  }

  /** What a process reads is among what a crash may bring back, once the file is synced. */
  lemma AcknowledgedSurvives(l: Ledger, w: WriteEnv, data: Bytes, back: Fs)
    requires Kept(l) && Ready(l.fs, w) && Verdict(l.fs, w).Ok?
    requires Crash(Final(l.fs, w, data), back)
    ensures Valid(back) && ReadName(back, StoreFile) == Some(data)
  {
    var s := Final(l.fs, w, data);
    VerdictMeans(l.fs, w, data, None);
    CrashIsValid(s, back);
    assert Entry(back, StoreFile) in After(back, StoreFile);
    var v := ReadName(back, StoreFile);
    assert MayRead(s, StoreFile, v);
    VerdictMeans(l.fs, w, data, v);
  }
}
