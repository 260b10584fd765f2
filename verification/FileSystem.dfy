/**
 * One directory of a file system that may lose power.
 *
 * A file's bytes survive a crash only once the file is synced; until then they
 * may come back as anything. A directory entry changed since the last
 * directory sync may come back as any of its values since then.
 */
module FileSystem {
  import opened Base

  type Ino = nat

  /** The store file, or a temporary file with its random part. */
  datatype FileName = StoreFile | Tmp(nonce: Bytes)

  datatype File = File(content: Bytes, synced: bool)

  /** `dir` is what processes see; `unsynced` holds what changed entries may come back as. */
  datatype Fs = Fs(files: map<Ino, File>, dir: map<FileName, Ino>, unsynced: map<FileName, set<Option<Ino>>>)

  function Entry(fs: Fs, n: FileName): Option<Ino> {
    if n in fs.dir then Some(fs.dir[n]) else None
  }

  /** What entry `n` may be after a crash. */
  function After(fs: Fs, n: FileName): set<Option<Ino>> {
    if n in fs.unsynced then fs.unsynced[n] else {Entry(fs, n)}
  }

  ghost predicate WellFormed(fs: Fs) {
    forall n, e :: e in After(fs, n) && e.Some? ==> e.value in fs.files
  }

  ghost predicate EntriesPossible(fs: Fs) {
    forall n :: Entry(fs, n) in After(fs, n)
  }

  ghost predicate Valid(fs: Fs) {
    WellFormed(fs) && EntriesPossible(fs)
  }

  /** What a process reads under `n`. */
  function ReadName(fs: Fs, n: FileName): Option<Bytes> {
    if n in fs.dir && fs.dir[n] in fs.files then Some(fs.files[fs.dir[n]].content) else None
  }

  // ---------------------------------------------------------------------
  // Operations
  // ---------------------------------------------------------------------

  function SetEntry(fs: Fs, n: FileName, e: Option<Ino>): Fs {
    Fs(fs.files, if e.Some? then fs.dir[n := e.value] else fs.dir - {n}, fs.unsynced[n := After(fs, n) + {e}])
  }

  function CreateNew(fs: Fs, n: FileName, ino: Ino): Fs {
    SetEntry(fs.(files := fs.files[ino := File([], false)]), n, Some(ino))
  }

  function Write(fs: Fs, ino: Ino, data: Bytes): Fs
    requires ino in fs.files
  {
    fs.(files := fs.files[ino := File(fs.files[ino].content + data, false)])
  }

  function SyncFile(fs: Fs, ino: Ino): Fs
    requires ino in fs.files
  {
    fs.(files := fs.files[ino := fs.files[ino].(synced := true)])
  }

  function Rename(fs: Fs, src: FileName, dst: FileName): Fs
    requires src in fs.dir
  {
    SetEntry(SetEntry(fs, dst, Some(fs.dir[src])), src, None)
  }

  function Unlink(fs: Fs, n: FileName): Fs {
    SetEntry(fs, n, None)
  }

  function SyncDir(fs: Fs): Fs {
    fs.(unsynced := map[])
  }

  lemma SetEntryElsewhere(fs: Fs, n: FileName, e: Option<Ino>, m: FileName)
    ensures var s := SetEntry(fs, n, e);
      if m == n then After(s, m) == After(fs, m) + {e} && Entry(s, m) == e
      else After(s, m) == After(fs, m) && Entry(s, m) == Entry(fs, m)
  {
  }

  /** Setting an entry to nothing, or to a file there is, keeps the directory sound. */
  lemma SetEntryIsValid(fs: Fs, n: FileName, e: Option<Ino>)
    requires Valid(fs) && (e.Some? ==> e.value in fs.files)
    ensures Valid(SetEntry(fs, n, e))
  {
    hide SetEntry;
    var s := SetEntry(fs, n, e);
    forall m ensures Entry(s, m) in After(s, m) {
      SetEntryElsewhere(fs, n, e, m);
    }
    assert s.files == fs.files by {
      SetEntryFiles(fs, n, e);
    }
    forall m, x | x in After(s, m) && x.Some? ensures x.value in s.files {
      SetEntryElsewhere(fs, n, e, m);
    }
  }

  lemma SetEntryFiles(fs: Fs, n: FileName, e: Option<Ino>)
    ensures SetEntry(fs, n, e).files == fs.files
  {
  }

  // ---------------------------------------------------------------------
  // Losing power
  // ---------------------------------------------------------------------

  /** `c` is a state the machine may come back with when power is lost in `fs`. */
  ghost predicate Crash(fs: Fs, c: Fs) {
    && c.unsynced == map[]
    && (forall n :: Entry(c, n) in After(fs, n))
    && c.files.Keys == fs.files.Keys
    && (forall i :: i in fs.files ==> c.files[i].synced)
    && (forall i :: i in fs.files && fs.files[i].synced ==> c.files[i].content == fs.files[i].content)
  }

  lemma CrashIsValid(fs: Fs, c: Fs)
    requires WellFormed(fs) && Crash(fs, c)
    ensures Valid(c)
  {
    forall n, e | e in After(c, n) && e.Some? ensures e.value in c.files {
      assert e == Entry(c, n);
      assert e in After(fs, n);
    }
  }

  /** After a crash in `fs`, `n` may read as `v`. */
  ghost predicate MayRead(fs: Fs, n: FileName, v: Option<Bytes>) {
    exists c :: Crash(fs, c) && ReadName(c, n) == v
  }

  /** Whether an entry `e` of `fs` may read as `v` after a crash. */
  predicate EntryMayRead(fs: Fs, e: Option<Ino>, v: Option<Bytes>) {
    match e
    case None => v == None
    case Some(i) => i in fs.files && v.Some? && (fs.files[i].synced ==> v.value == fs.files[i].content)
  }

  /** The crash of `fs` that brings back `n` as `e`, reading `v`, and everything else as it is seen. */
  function Image(fs: Fs, n: FileName, e: Option<Ino>, v: Option<Bytes>): Fs
    requires EntryMayRead(fs, e, v)
  {
    Fs(map i | i in fs.files ::
         File(if !fs.files[i].synced && e == Some(i) then v.value else fs.files[i].content, true),
       if e.Some? then fs.dir[n := e.value] else fs.dir - {n},
       map[])
  }

  lemma ImageIsCrash(fs: Fs, n: FileName, e: Option<Ino>, v: Option<Bytes>)
    requires Valid(fs) && e in After(fs, n) && EntryMayRead(fs, e, v)
    ensures Crash(fs, Image(fs, n, e, v)) && ReadName(Image(fs, n, e, v), n) == v
  {
    var c := Image(fs, n, e, v);
    forall m ensures Entry(c, m) in After(fs, m) {
      assert Entry(fs, m) in After(fs, m);
      assert m != n ==> Entry(c, m) == Entry(fs, m);
    }
  }

  /** What may be read, told from the entries alone: no crash has to be imagined. */
  lemma MayReadIff(fs: Fs, n: FileName, v: Option<Bytes>)
    requires Valid(fs)
    ensures MayRead(fs, n, v) <==> exists e :: e in After(fs, n) && EntryMayRead(fs, e, v)
  {
    if MayRead(fs, n, v) {
      var c :| Crash(fs, c) && ReadName(c, n) == v;
      CrashIsValid(fs, c);
      assert Entry(c, n) in After(c, n);
      assert Entry(c, n) in After(fs, n) && EntryMayRead(fs, Entry(c, n), v);
    }
    if e :| e in After(fs, n) && EntryMayRead(fs, e, v) {
      ImageIsCrash(fs, n, e, v);
    }
  }
}
