/**
 * Any number of handles on one store path, in any number of processes, one
 * step at a time: the lock file, the retries, and the writes they guard.
 */
module LockProtocol {
  import opened Base
  import opened StoreFormat
  import opened StoreHistory

  type Pid = nat
  type Ino = nat

  const TRIES := 3

  /** What a write is for: the new store of an `open`, a `put` or `delete`, or a `rotate` to a new handle. */
  datatype Purpose = Creating | Updating(change: Change) | Rotating(change: Change, heir: Pid)

  /**
   * Where a handle is. `fd` is the lock file it has open, `since` the number of
   * replacements when it opened it. `held` are its contents and `built` the
   * changes they were built by; `astray` marks a handle whose last write failed
   * after its rename.
   */
  datatype Phase =
    | Opening(tries: nat)
    | Locking(fd: Ino, tries: nat, since: nat)
    | Checking(fd: Ino, tries: nat, since: nat)
    | Reading(fd: Ino)
    | Idle(fd: Ino, held: Contents, built: seq<Entry>, astray: bool)
    | Writing(fd: Ino, held: Contents, built: seq<Entry>, astray: bool, target: Contents, purpose: Purpose)
    | Syncing(fd: Ino, held: Contents, built: seq<Entry>, target: Contents, purpose: Purpose)
    | Lockless
    | Gone

  /**
   * `lockPath`: the lock file now at its path. `owner`: who holds each file's
   * lock. `file`: the store file, and `start` what it was at first. `may`: what a
   * power loss may bring it back as, each with the changes that made it. `acks`:
   * the changes whose writes were acknowledged, in that order.
   */
  datatype System = System(
    lockPath: Option<Ino>,
    replaced: nat,
    owner: map<Ino, Pid>,
    procs: map<Pid, Phase>,
    start: Option<Bytes>,
    file: Option<Bytes>,
    may: map<Option<Bytes>, seq<Entry>>,
    acks: seq<Change>)

  datatype Action =
    | Start(h: Pid)
    | OpenLock(h: Pid, ino: Ino)
    | OpenLockless(h: Pid)
    | TryLock(h: Pid)
    | Check(h: Pid)
    | ReadFile(h: Pid)
    | CreateStore(h: Pid, target: Contents)
    | Begin(h: Pid, purpose: Purpose)
    | RenameTmp(h: Pid)
    | WriteFails(h: Pid)
    | SyncDone(h: Pid)
    | SyncFails(h: Pid)
    | Leave(h: Pid)
    | ReplaceLock(now: Option<Ino>)
    | PowerLoss(back: Option<Bytes>, now: Option<Ino>)

  /** Past the check: this handle may read and write the store. */
  predicate Live(p: Phase) {
    p.Reading? || p.Idle? || p.Writing? || p.Syncing?
  }

  predicate Owning(p: Phase) {
    Live(p) || p.Checking?
  }

  predicate LiveAt(s: System, h: Pid) {
    h in s.procs && Live(s.procs[h])
  }

  /** The change a write makes. */
  function ChangeOf(target: Contents, purpose: Purpose): Change {
    if purpose.Creating? then Create(target) else purpose.change
  }

  /** `put` sets one name, `delete` removes one there is, and `rotate` gives every entry a new blob. */
  predicate Proper(held: Contents, purpose: Purpose) {
    match purpose
    case Creating => false
    case Updating(ch) => ch.Set? || (ch.Remove? && ch.name in held.entries)
    case Rotating(ch, _) => ch.Reseal? && forall n :: n in held.entries ==> (n, held.entries[n]) in ch.blobs
  }

  // ---------------------------------------------------------------------
  // Steps
  // ---------------------------------------------------------------------

  function Set(s: System, h: Pid, p: Phase): System {
    s.(procs := s.procs[h := p])
  }

  /** The handle and its lock, if it has one, are gone. */
  function Release(s: System, h: Pid, p: Phase): System
    requires h in s.procs
  {
    var q := s.procs[h];
    Set(if Owning(q) then s.(owner := s.owner - {q.fd}) else s, h, p)
  }

  predicate In(s: System, h: Pid) {
    h in s.procs
  }

  /**
   * Which steps can be taken. The lock file is only ever replaced while no locked
   * handle lives. (The file is always among what may come back: `HistoryKept`.)
   */
  predicate Enabled(s: System, a: Action) {
    match a
    case Start(h) => h !in s.procs
    case OpenLock(h, ino) =>
      In(s, h) && s.procs[h].Opening? && (s.lockPath == Some(ino) || (s.lockPath == None && ino !in s.owner))
    case OpenLockless(h) => In(s, h) && s.procs[h].Opening?
    case TryLock(h) => In(s, h) && s.procs[h].Locking?
    case Check(h) => In(s, h) && s.procs[h].Checking?
    case ReadFile(h) => In(s, h) && s.procs[h].Reading? && s.file.Some? && s.file in s.may
    case CreateStore(h, target) =>
      In(s, h) && s.procs[h].Reading? && s.file.None? && None in s.may && Writable(target) && target.entries == map[]
    case Begin(h, purpose) =>
      In(s, h) && s.procs[h].Idle? && Proper(s.procs[h].held, purpose)
      && Writable(Applied(s.procs[h].held, purpose.change))
    case RenameTmp(h) => In(s, h) && s.procs[h].Writing?
    case WriteFails(h) => In(s, h) && s.procs[h].Writing?
    case SyncDone(h) =>
      In(s, h) && s.procs[h].Syncing? && (s.procs[h].purpose.Rotating? ==> s.procs[h].purpose.heir !in s.procs)
    case SyncFails(h) => In(s, h) && s.procs[h].Syncing?
    case Leave(h) => In(s, h)
    case ReplaceLock(now) => forall h :: h in s.procs ==> !Live(s.procs[h])
    case PowerLoss(back, now) => back in s.may
  }

  function Apply(s: System, a: Action): System
    requires Enabled(s, a)
  {
    match a
    case Start(h) => Set(s, h, Opening(TRIES))
    case OpenLock(h, ino) =>
      Set(s.(lockPath := Some(ino)), h, Locking(ino, s.procs[h].tries, s.replaced))
    case OpenLockless(h) => Set(s, h, Lockless)
    case TryLock(h) =>
      var p := s.procs[h];
      if p.fd in s.owner then Set(s, h, Gone)
      else Set(s.(owner := s.owner[p.fd := h]), h, Checking(p.fd, p.tries, p.since))
    case Check(h) =>
      var p := s.procs[h];
      if s.lockPath == Some(p.fd) then Set(s, h, Reading(p.fd))
      else if p.tries > 1 then Release(s, h, Opening(p.tries - 1))
      else Release(s, h, Gone)
    case ReadFile(h) =>
      var loaded := ReadStore(s.file.value);
      if |s.file.value| <= MAX_STORE_BYTES && loaded.Ok?
      then Set(s, h, Idle(s.procs[h].fd, loaded.value, s.may[s.file], false))
      else Release(s, h, Gone)
    case CreateStore(h, target) =>
      Set(s, h, Writing(s.procs[h].fd, target, s.may[None], false, target, Creating))
    case Begin(h, purpose) =>
      var p := s.procs[h];
      Set(s, h, Writing(p.fd, p.held, p.built, p.astray, Applied(p.held, purpose.change), purpose))
    case RenameTmp(h) =>
      var p := s.procs[h];
      var d := Some(ImageOf(p.target));
      var made := p.built + [Entry(ChangeOf(p.target, p.purpose), false)];
      Set(s, h, Syncing(p.fd, p.held, p.built, p.target, p.purpose)).(file := d, may := s.may[d := made])
    case WriteFails(h) =>
      var p := s.procs[h];
      if p.purpose.Updating? then Set(s, h, Idle(p.fd, p.held, p.built, p.astray)) else Release(s, h, Gone)
    case SyncDone(h) =>
      var p := s.procs[h];
      var change := ChangeOf(p.target, p.purpose);
      var made := p.built + [Entry(change, true)];
      var settled := s.(may := map[s.file := made], acks := s.acks + [change]);
      if p.purpose.Rotating?
      then Set(Set(settled.(owner := s.owner[p.fd := p.purpose.heir]), h, Gone),
               p.purpose.heir, Idle(p.fd, p.target, made, false))
      else Set(settled, h, Idle(p.fd, p.target, made, false))
    case SyncFails(h) =>
      var p := s.procs[h];
      if p.purpose.Updating? then Set(s, h, Idle(p.fd, p.held, p.built, true)) else Release(s, h, Gone)
    case Leave(h) => Release(s, h, Gone)
    case ReplaceLock(now) => s.(lockPath := now, replaced := s.replaced + 1)
    case PowerLoss(back, now) =>
      System(now, s.replaced + 1, map[], map h | h in s.procs :: Gone, s.start, back, map[back := s.may[back]], s.acks)
  }

  // ---------------------------------------------------------------------
  // What every step keeps
  // ---------------------------------------------------------------------

  /** A live handle holds the lock of the very file at the lock path; a lock has a holder that knows it. */
  ghost predicate LocksHeld(s: System) {
    && (forall h :: h in s.procs && Owning(s.procs[h]) ==>
         s.procs[h].fd in s.owner && s.owner[s.procs[h].fd] == h)
    && (forall h :: h in s.procs && Live(s.procs[h]) ==> s.lockPath == Some(s.procs[h].fd))
    && (forall i :: i in s.owner ==>
         s.owner[i] in s.procs && Owning(s.procs[s.owner[i]]) && s.procs[s.owner[i]].fd == i)
  }

  /** Between opening the lock file and checking it, only a replacement can change what is at the path. */
  predicate Counted(s: System, p: Phase) {
    match p
    case Opening(tries) => 1 <= tries <= TRIES
    case Locking(fd, tries, since) =>
      1 <= tries <= TRIES && since <= s.replaced && (since == s.replaced ==> s.lockPath == Some(fd))
    case Checking(fd, tries, since) =>
      1 <= tries <= TRIES && since <= s.replaced && (since == s.replaced ==> s.lockPath == Some(fd))
    case _ => true
  }

  ghost predicate TriesCounted(s: System) {
    forall h :: h in s.procs ==> Counted(s, s.procs[h])
  }

  /** The file holds what `c` says. */
  predicate FileIs(s: System, c: Contents) {
    s.file.Some? && ReadStore(s.file.value) == Ok(c)
  }

  /** What one handle knows of the file. */
  predicate Knows(s: System, p: Phase) {
    match p
    case Idle(_, held, _, astray) => !astray ==> FileIs(s, held)
    case Writing(_, held, _, astray, target, purpose) =>
      Writable(target) && (!purpose.Creating? && !astray ==> FileIs(s, held))
    case Syncing(_, _, _, target, _) => Writable(target) && s.file == Some(ImageOf(target))
    case _ => true
  }

  ghost predicate MemoryAgrees(s: System) {
    forall h :: h in s.procs ==> Knows(s, s.procs[h])
  }

  /** `log` is a history of file content `v`: its changes add up to `v`, and the acknowledged ones are all that were. */
  ghost predicate Tells(s: System, log: seq<Entry>, v: Option<Bytes>) {
    FileAfter(s.start, Changes(log)) == v && Acked(log) == s.acks
  }

  /** What a handle is about to write is one change of what it holds, and that is all acknowledged changes and more. */
  ghost predicate Built(s: System, p: Phase) {
    match p
    case Idle(_, held, built, _) => BuiltBy(s, held, built)
    case Writing(_, held, built, _, target, purpose) => Edits(s, held, built, target, purpose)
    case Syncing(_, held, built, target, purpose) => Edits(s, held, built, target, purpose)
    case _ => true
  }

  ghost predicate BuiltBy(s: System, held: Contents, built: seq<Entry>) {
    var v := FileAfter(s.start, Changes(built));
    v.Some? && ReadStore(v.value) == Ok(held) && Acked(built) == s.acks
  }

  ghost predicate Edits(s: System, held: Contents, built: seq<Entry>, target: Contents, purpose: Purpose) {
    if purpose.Creating? then Tells(s, built, None) && target.entries == map[]
    else BuiltBy(s, held, built) && Proper(held, purpose) && target == Applied(held, purpose.change)
  }

  ghost predicate AllBuilt(s: System) {
    forall h :: h in s.procs ==> Built(s, s.procs[h])
  }

  /** The file, and all that a power loss may bring back, is every acknowledged change in order, and maybe others. */
  ghost predicate HistoryKept(s: System) {
    && s.file in s.may
    && (forall v :: v in s.may ==> Tells(s, s.may[v], v))
  }

  ghost predicate Inv(s: System) {
    LocksHeld(s) && TriesCounted(s) && MemoryAgrees(s) && AllBuilt(s) && HistoryKept(s)
  }

  lemma OneLive(s: System, a: Pid, b: Pid)
    requires LocksHeld(s) && LiveAt(s, a) && LiveAt(s, b)
    ensures a == b
  {
    assert s.procs[a].fd == s.procs[b].fd;
  }

  /** A handle changes phase, keeping its lock if it has one, and becoming live only at the lock path. */
  lemma LocksAfterSet(s: System, h: Pid, p: Phase)
    requires LocksHeld(s)
    requires h in s.procs ==> Owning(s.procs[h]) == Owning(p)
    requires Owning(p) ==> h in s.procs && s.procs[h].fd == p.fd
    requires Live(p) ==> s.lockPath == Some(p.fd)
    ensures LocksHeld(Set(s, h, p))
  {
  }

  lemma LocksAfterRelease(s: System, h: Pid, p: Phase)
    requires LocksHeld(s) && h in s.procs && !Owning(p)
    ensures LocksHeld(Release(s, h, p))
  {
    var q := s.procs[h];
    var t := Release(s, h, p);
    forall i | i in t.owner
      ensures t.owner[i] in t.procs && Owning(t.procs[t.owner[i]]) && t.procs[t.owner[i]].fd == i
    {
      assert i in s.owner && s.owner[i] != h;
    }
  }

  lemma LocksAfterHandOver(s: System, h: Pid)
    requires LocksHeld(s) && Enabled(s, SyncDone(h)) && s.procs[h].purpose.Rotating?
    ensures LocksHeld(Apply(s, SyncDone(h)))
  {
    hide ReadStore, ImageOf, Writable;
  }

  /** A lock nobody has is taken. */
  lemma LocksAfterTake(s: System, h: Pid)
    requires LocksHeld(s) && Enabled(s, TryLock(h)) && s.procs[h].fd !in s.owner
    ensures LocksHeld(Apply(s, TryLock(h)))
  {
  }

  /** With no live handle, what is at the lock path may change. */
  lemma LocksAfterOpen(s: System, h: Pid, ino: Ino)
    requires LocksHeld(s) && Enabled(s, OpenLock(h, ino))
    ensures LocksHeld(Apply(s, OpenLock(h, ino)))
  {
  }

  lemma LocksAfterOthers(s: System, a: Action)
    requires LocksHeld(s) && Enabled(s, a) && (a.ReplaceLock? || a.PowerLoss?)
    ensures LocksHeld(Apply(s, a))
  {
  }

  lemma LocksElsewhere(s: System, t: System)
    requires LocksHeld(s) && t.procs == s.procs && t.owner == s.owner && t.lockPath == s.lockPath
    ensures LocksHeld(t)
  {
  }

  lemma LocksStep(s: System, a: Action)
    requires LocksHeld(s) && Enabled(s, a)
    ensures LocksHeld(Apply(s, a))
  {
    var t := Apply(s, a);
    if a.OpenLock? {
      LocksAfterOpen(s, a.h, a.ino);
    } else if a.TryLock? && s.procs[a.h].fd !in s.owner {
      LocksAfterTake(s, a.h);
    } else if a.ReplaceLock? || a.PowerLoss? {
      LocksAfterOthers(s, a);
    } else if a.SyncDone? && s.procs[a.h].purpose.Rotating? {
      LocksAfterHandOver(s, a.h);
    } else {
      LocksMove(s, a);
    }
  }

  /** One handle moves, keeping its lock or letting it go. */
  lemma LocksMove(s: System, a: Action)
    requires LocksHeld(s) && Enabled(s, a)
    requires !a.OpenLock? && !a.ReplaceLock? && !a.PowerLoss?
    requires a.TryLock? ==> s.procs[a.h].fd in s.owner
    requires a.SyncDone? ==> !s.procs[a.h].purpose.Rotating?
    ensures LocksHeld(Apply(s, a))
  {
    var h, t := a.h, Apply(s, a);
    var p := t.procs[h];
    if h in s.procs && Owning(s.procs[h]) {
      if Live(s.procs[h]) { HeldAt(s, h); }
      if Owning(p) { LocksAfterSet(s, h, p); } else { LocksAfterRelease(s, h, p); }
    } else {
      LocksAfterSet(s, h, p);
    }
    hide LocksHeld, ReadStore, ImageOf, Writable, Serialized;
    LocksElsewhere(if h in s.procs && Owning(s.procs[h]) && !Owning(p) then Release(s, h, p) else Set(s, h, p), t);
  }

  lemma HeldAt(s: System, h: Pid)
    requires LocksHeld(s) && h in s.procs && Live(s.procs[h])
    ensures s.lockPath == Some(s.procs[h].fd) && s.procs[h].fd in s.owner && s.owner[s.procs[h].fd] == h
  {
  }

  lemma CountedStays(s: System, t: System, p: Phase)
    requires Counted(s, p)
    requires t.replaced > s.replaced || (t.replaced == s.replaced && (t.lockPath == s.lockPath || s.lockPath == None))
    ensures Counted(t, p)
  {
  }

  lemma TriesStep(s: System, a: Action)
    requires TriesCounted(s) && Enabled(s, a)
    ensures TriesCounted(Apply(s, a))
  {
    hide ReadStore, ImageOf, Writable, Serialized, Live;
    var t := Apply(s, a);
    forall h | h in t.procs ensures Counted(t, t.procs[h]) {
      if h in s.procs {
        assert Counted(s, s.procs[h]);
        CountedStays(s, t, s.procs[h]);
      }
    }
  }

  /** With the same file, only the handle that moved has to be looked at again. */
  lemma MemorySameFile(s: System, t: System, h: Pid)
    requires MemoryAgrees(s) && t.file == s.file
    requires forall g :: g in t.procs && g != h ==> (g in s.procs && t.procs[g] == s.procs[g]) || !Live(t.procs[g])
    requires h in t.procs ==> Knows(t, t.procs[h])
    ensures MemoryAgrees(t)
  {
    hide FileIs, Writable;
    forall g | g in t.procs ensures Knows(t, t.procs[g]) {
      if g != h && Live(t.procs[g]) {
        assert Knows(s, s.procs[g]);
        KnowsOfFile(s, t, t.procs[g]);
      }
    }
  }

  lemma KnowsOfFile(s: System, t: System, p: Phase)
    requires Knows(s, p) && t.file == s.file
    ensures Knows(t, p)
  {
  }

  /** The rename changes the file; nobody else is there to have known the old one. */
  lemma MemoryAfterRename(s: System, h: Pid)
    requires LocksHeld(s) && MemoryAgrees(s) && Enabled(s, RenameTmp(h))
    ensures MemoryAgrees(Apply(s, RenameTmp(h)))
  {
    var t := Apply(s, RenameTmp(h));
    assert Knows(s, s.procs[h]);
    hide FileIs, ImageOf, Writable;
    forall g | g in t.procs ensures Knows(t, t.procs[g]) {
      if g != h && Live(s.procs[g]) { OneLive(s, g, h); }
    }
  }

  lemma WrittenFileIs(s: System, c: Contents)
    requires Writable(c) && s.file == Some(ImageOf(c))
    ensures FileIs(s, c)
  {
    PersistThenLoad(c);
  }

  lemma KnowsAt(s: System, h: Pid)
    requires MemoryAgrees(s) && h in s.procs
    ensures Knows(s, s.procs[h])
  {
  }

  predicate ChangesFile(a: Action) {
    a.RenameTmp? || a.SyncDone? || a.PowerLoss?
  }

  lemma MemoryUnchangedFile(s: System, a: Action)
    requires MemoryAgrees(s) && Enabled(s, a) && !ChangesFile(a)
    ensures MemoryAgrees(Apply(s, a))
  {
    hide MemoryAgrees, Writable, ImageOf, ReadStore;
    var t := Apply(s, a);
    if a.ReplaceLock? {
      MemorySameFile(s, t, 0) by {
        if 0 in s.procs { KnowsAt(s, 0); }
      }
    } else {
      if a.h in s.procs { KnowsAt(s, a.h); }
      MemorySameFile(s, t, a.h);
    }
  }

  lemma MemoryAfterSync(s: System, h: Pid)
    requires MemoryAgrees(s) && Enabled(s, SyncDone(h))
    ensures MemoryAgrees(Apply(s, SyncDone(h)))
  {
    hide MemoryAgrees, Writable, FileIs, ImageOf;
    var t := Apply(s, SyncDone(h));
    KnowsAt(s, h);
    WrittenFileIs(t, s.procs[h].target);
    MemorySameFile(s, t, if s.procs[h].purpose.Rotating? then s.procs[h].purpose.heir else h);
  }

  lemma MemoryStep(s: System, a: Action)
    requires LocksHeld(s) && MemoryAgrees(s) && Enabled(s, a)
    ensures MemoryAgrees(Apply(s, a))
  {
    if !ChangesFile(a) {
      MemoryUnchangedFile(s, a);
    } else if a.RenameTmp? {
      MemoryAfterRename(s, a.h);
    } else if a.SyncDone? {
      MemoryAfterSync(s, a.h);
    }
    hide ReadStore, ImageOf, Writable;
  }

  /** What is about to be written, added to the history it is built on. */
  lemma EditTells(s: System, held: Contents, built: seq<Entry>, target: Contents, purpose: Purpose, acked: bool)
    requires Edits(s, held, built, target, purpose)
    ensures var log := built + [Entry(ChangeOf(target, purpose), acked)];
      && FileAfter(s.start, Changes(log)) == Some(ImageOf(target))
      && Acked(log) == s.acks + if acked then [ChangeOf(target, purpose)] else []
  {
    OneMore(s.start, built, Entry(ChangeOf(target, purpose), acked));
    hide ImageOf, ReadStore, FileAfter, Acked, Changes;
  }

  lemma BuiltAt(s: System, h: Pid)
    requires AllBuilt(s) && h in s.procs
    ensures Built(s, s.procs[h])
  {
  }

  /** What the moved handle has is built on what is known; the others have what they had. */
  lemma BuiltOthers(s: System, t: System, h: Pid)
    requires AllBuilt(s) && t.start == s.start && t.acks == s.acks
    requires forall g :: g in t.procs && g != h ==> (g in s.procs && t.procs[g] == s.procs[g]) || !Live(t.procs[g])
    requires h in t.procs ==> Built(t, t.procs[h])
    ensures AllBuilt(t)
  {
    forall g | g in t.procs ensures Built(t, t.procs[g]) {
      if g != h && Live(t.procs[g]) {
        BuiltAt(s, g);
        BuiltStays(s, t, t.procs[g]);
      }
    }
  }

  lemma BuiltStays(s: System, t: System, p: Phase)
    requires Built(s, p) && t.start == s.start && t.acks == s.acks
    ensures Built(t, p)
  {
    hide ReadStore, FileAfter, Acked, Changes, Proper, Applied;
  }

  predicate ChangesHistory(a: Action) {
    a.RenameTmp? || a.SyncDone? || a.PowerLoss?
  }

  lemma LeavesHistory(s: System, a: Action)
    requires Enabled(s, a) && !ChangesHistory(a)
    ensures var t := Apply(s, a);
      t.start == s.start && t.file == s.file && t.may == s.may && t.acks == s.acks
  {
    hide ReadStore, ImageOf, Writable, Applied, Proper, Owning;
  }

  /** The changes behind what handle `h` is writing. */
  function Made(p: Phase, acked: bool): seq<Entry>
    requires p.Writing? || p.Syncing?
  {
    p.built + [Entry(ChangeOf(p.target, p.purpose), acked)]
  }

  lemma RenameEffect(s: System, h: Pid)
    requires Enabled(s, RenameTmp(h))
    ensures var p, t := s.procs[h], Apply(s, RenameTmp(h));
      p.Writing? &&
      var d := Some(ImageOf(p.target));
      t == s.(file := d, may := s.may[d := Made(p, false)],
              procs := s.procs[h := Syncing(p.fd, p.held, p.built, p.target, p.purpose)])
  {
    hide ImageOf, Applied;
  }

  /** Who holds the lock after an acknowledgement. */
  function Heir(p: Phase, h: Pid): Pid
    requires p.Syncing?
  {
    if p.purpose.Rotating? then p.purpose.heir else h
  }

  lemma SyncEffect(s: System, h: Pid)
    requires Enabled(s, SyncDone(h))
    ensures var p, t := s.procs[h], Apply(s, SyncDone(h));
      p.Syncing? &&
      var g := Heir(p, h);
      && t.start == s.start && t.file == s.file && t.may == map[s.file := Made(p, true)]
      && t.acks == s.acks + [ChangeOf(p.target, p.purpose)]
      && t.lockPath == s.lockPath
      && t.owner == (if p.purpose.Rotating? then s.owner[p.fd := g] else s.owner)
      && g in t.procs && t.procs[g] == Idle(p.fd, p.target, Made(p, true), false)
      && (forall other :: other in t.procs && other != g ==>
            other in s.procs && t.procs[other] == if other == h then Gone else s.procs[other])
  {
    hide ImageOf, Applied;
  }

  /** The contents just acknowledged are built by what they were built by, and the change. */
  lemma BuiltNext(s: System, t: System, p: Phase)
    requires p.Syncing? && Built(s, p) && Writable(p.target)
    requires t.start == s.start && t.acks == s.acks + [ChangeOf(p.target, p.purpose)]
    ensures BuiltBy(t, p.target, Made(p, true))
  {
    EditTells(s, p.held, p.built, p.target, p.purpose, true);
    PersistThenLoad(p.target);
    hide FileAfter, Changes, Acked, Applied, Proper, Edits, ReadStore, Serialized;
  }

  /** Only an acknowledgement changes what is acknowledged; and then nobody else is there. */
  lemma BuiltAfterSync(s: System, h: Pid)
    requires LocksHeld(s) && MemoryAgrees(s) && AllBuilt(s) && Enabled(s, SyncDone(h))
    ensures AllBuilt(Apply(s, SyncDone(h)))
  {
    var p, t := s.procs[h], Apply(s, SyncDone(h));
    SyncEffect(s, h);
    SyncTarget(s, h);
    BuiltAt(s, h);
    BuiltNext(s, t, p);
    hide *;
    forall other | other in t.procs ensures Built(t, t.procs[other]) {
      if other == Heir(p, h) {
        IdleIsBuilt(t, t.procs[other]);
      } else {
        AloneAfterSync(s, h, other);
        NotLiveIsBuilt(t, t.procs[other]);
      }
    }
    AllBuiltIf(t);
  }

  lemma SyncTarget(s: System, h: Pid)
    requires MemoryAgrees(s) && Enabled(s, SyncDone(h))
    ensures Writable(s.procs[h].target) && s.file == Some(ImageOf(s.procs[h].target))
  {
    KnowsAt(s, h);
    hide Writable, ImageOf;
  }

  lemma AloneAfterSync(s: System, h: Pid, other: Pid)
    requires LocksHeld(s) && Enabled(s, SyncDone(h)) && other in Apply(s, SyncDone(h)).procs
    requires other != Heir(s.procs[h], h)
    ensures !Live(Apply(s, SyncDone(h)).procs[other])
  {
    SyncEffect(s, h);
    if other in s.procs && Live(s.procs[other]) { OneLive(s, other, h); }
    hide Apply;
  }

  lemma NotLiveIsBuilt(s: System, p: Phase)
    requires !Live(p)
    ensures Built(s, p)
  {
  }

  lemma IdleIsBuilt(s: System, p: Phase)
    requires p.Idle? && BuiltBy(s, p.held, p.built)
    ensures Built(s, p)
  {
  }

  lemma AllBuiltIf(s: System)
    requires forall h :: h in s.procs ==> Built(s, s.procs[h])
    ensures AllBuilt(s)
  {
  }

  lemma BuiltAfterOthers(s: System, a: Action)
    requires AllBuilt(s) && Enabled(s, a) && (a.ReplaceLock? || a.PowerLoss?)
    ensures AllBuilt(Apply(s, a))
  {
    var t := Apply(s, a);
    hide ReadStore, FileAfter, Acked, Changes, Proper, Applied;
    forall h | h in t.procs ensures Built(t, t.procs[h]) {
      if a.ReplaceLock? {
        BuiltStays(s, t, t.procs[h]);
      }
    }
  }

  /** A handle that reads the file, or finds none, knows the history of what it found. */
  lemma BuiltAfterRead(s: System, a: Action)
    requires HistoryKept(s) && Enabled(s, a) && (a.ReadFile? || a.CreateStore?)
    ensures Built(Apply(s, a), Apply(s, a).procs[a.h])
  {
    assert Tells(s, s.may[s.file], s.file);
    hide HistoryKept, FileAfter, Acked, Changes, Proper, Applied, Writable, ValidContents;
  }

  lemma BuiltAfterMove(s: System, a: Action)
    requires Enabled(s, a) && !a.SyncDone? && !a.ReplaceLock? && !a.PowerLoss? && !a.ReadFile? && !a.CreateStore?
    requires a.h in s.procs ==> Built(s, s.procs[a.h])
    ensures Built(Apply(s, a), Apply(s, a).procs[a.h])
  {
    hide ReadStore, FileAfter, Acked, Changes, Applied, Writable, ImageOf;
  }

  /** Only the handle that moves, and an heir, change phase. */
  lemma OthersStayPut(s: System, a: Action)
    requires Enabled(s, a) && !a.SyncDone? && !a.ReplaceLock? && !a.PowerLoss?
    ensures var t := Apply(s, a);
      forall g :: g in t.procs && g != a.h ==> g in s.procs && t.procs[g] == s.procs[g]
  {
    hide ReadStore, ImageOf, Writable, Applied, Proper, Owning;
  }

  lemma BuiltStep(s: System, a: Action)
    requires Inv(s) && Enabled(s, a)
    ensures AllBuilt(Apply(s, a))
  {
    if a.SyncDone? {
      BuiltAfterSync(s, a.h);
    } else if a.ReplaceLock? || a.PowerLoss? {
      BuiltAfterOthers(s, a);
    } else {
      if a.ReadFile? || a.CreateStore? {
        BuiltAfterRead(s, a);
      } else {
        if a.h in s.procs { BuiltAt(s, a.h); }
        BuiltAfterMove(s, a);
      }
      OthersStayPut(s, a);
      if a.RenameTmp? { RenameEffect(s, a.h); } else { LeavesHistory(s, a); }
      hide *;
      BuiltOthers(s, Apply(s, a), a.h);
    }
  }

  lemma HistoryAfterRename(s: System, h: Pid)
    requires HistoryKept(s) && AllBuilt(s) && Enabled(s, RenameTmp(h))
    ensures HistoryKept(Apply(s, RenameTmp(h)))
  {
    var p := s.procs[h];
    RenameEffect(s, h);
    BuiltAt(s, h);
    EditTells(s, p.held, p.built, p.target, p.purpose, false);
    hide Apply, Enabled, AllBuilt, Built, FileAfter, Acked, Changes, ImageOf;
  }

  lemma HistoryAfterSync(s: System, h: Pid)
    requires MemoryAgrees(s) && AllBuilt(s) && Enabled(s, SyncDone(h))
    ensures HistoryKept(Apply(s, SyncDone(h)))
  {
    var p := s.procs[h];
    SyncEffect(s, h);
    SyncTarget(s, h);
    BuiltAt(s, h);
    EditTells(s, p.held, p.built, p.target, p.purpose, true);
    hide Apply, Enabled, AllBuilt, MemoryAgrees, Built, FileAfter, Acked, Changes, ImageOf, Writable;
  }

  lemma HistoryAfterLoss(s: System, back: Option<Bytes>, now: Option<Ino>)
    requires HistoryKept(s) && Enabled(s, PowerLoss(back, now))
    ensures HistoryKept(Apply(s, PowerLoss(back, now)))
  {
    var t := Apply(s, PowerLoss(back, now));
    assert t.start == s.start && t.file == back && t.may == map[back := s.may[back]] && t.acks == s.acks;
    hide Apply, Enabled, FileAfter, Acked, Changes;
    assert Tells(s, s.may[back], back);
  }

  lemma HistoryElsewhere(s: System, a: Action)
    requires HistoryKept(s) && Enabled(s, a) && !ChangesHistory(a)
    ensures HistoryKept(Apply(s, a))
  {
    LeavesHistory(s, a);
    hide Apply, Enabled, FileAfter, Acked, Changes;
    var t := Apply(s, a);
    forall v | v in t.may ensures Tells(t, t.may[v], v) {
      assert Tells(s, s.may[v], v);
    }
  }

  /** A rename adds one way the file may come back; an acknowledgement makes it the only one. */
  lemma HistoryStep(s: System, a: Action)
    requires Inv(s) && Enabled(s, a)
    ensures HistoryKept(Apply(s, a))
  {
    hide LocksHeld, TriesCounted, MemoryAgrees, AllBuilt, HistoryKept, Apply, Enabled;
    if a.RenameTmp? {
      HistoryAfterRename(s, a.h);
    } else if a.SyncDone? {
      HistoryAfterSync(s, a.h);
    } else if a.PowerLoss? {
      HistoryAfterLoss(s, a.back, a.now);
    } else {
      HistoryElsewhere(s, a);
    }
  }

  ghost predicate CanRun(s: System, acts: seq<Action>)
    decreases |acts|
  {
    acts == [] || (Enabled(s, acts[0]) && CanRun(Apply(s, acts[0]), acts[1..]))
  }

  function After(s: System, acts: seq<Action>): System
    requires CanRun(s, acts)
    decreases |acts|
  {
    if acts == [] then s else After(Apply(s, acts[0]), acts[1..])
  }

  /** Nobody has the path open yet, and the file, if there is one, is synced. */
  ghost predicate Initial(s: System) {
    s.procs == map[] && s.owner == map[] && s.file == s.start && s.may == map[s.start := []] && s.acks == []
  }

  lemma {:induction false} EveryRunKeeps(s: System, acts: seq<Action>)
    requires Inv(s) && CanRun(s, acts)
    ensures Inv(After(s, acts))
    decreases |acts|
  {
    if acts != [] {
      LocksStep(s, acts[0]);
      TriesStep(s, acts[0]);
      MemoryStep(s, acts[0]);
      BuiltStep(s, acts[0]);
      HistoryStep(s, acts[0]);
      hide LocksHeld, TriesCounted, MemoryAgrees, AllBuilt, HistoryKept, Apply, Enabled;
      EveryRunKeeps(Apply(s, acts[0]), acts[1..]);
    }
  }

  // ---------------------------------------------------------------------
  // What that gives
  // ---------------------------------------------------------------------

  /**
   * In every interleaving, with any faults and power losses, at every moment: at
   * most one locked handle; a handle not in a call holds just what the file says,
   * unless its last write failed after the rename; and the file, like all that a
   * power loss may bring back, is made by a series of changes in which every
   * acknowledged one is found, once, in the order of acknowledgement. So no handle
   * ever undoes what another was told is saved.
   */
  lemma OneHandleAndNothingLost(s: System, acts: seq<Action>)
    requires Initial(s) && CanRun(s, acts)
    ensures var t := After(s, acts);
      && (forall a, b :: LiveAt(t, a) && LiveAt(t, b) ==> a == b)
      && (forall h :: h in t.procs && t.procs[h].Idle? && !t.procs[h].astray ==> FileIs(t, t.procs[h].held))
      && t.file in t.may
      && (forall v :: v in t.may ==> FileAfter(s.start, Changes(t.may[v])) == v && Acked(t.may[v]) == t.acks)
  {
    EveryRunKeeps(s, acts);
    StartStays(s, acts);
    var t := After(s, acts);
    forall a, b | LiveAt(t, a) && LiveAt(t, b) ensures a == b {
      OneLive(t, a, b);
    }
    forall h | h in t.procs && t.procs[h].Idle? && !t.procs[h].astray ensures FileIs(t, t.procs[h].held) {
      assert Knows(t, t.procs[h]);
    }
  }

  lemma {:induction false} StartStays(s: System, acts: seq<Action>)
    requires CanRun(s, acts)
    ensures After(s, acts).start == s.start
    decreases |acts|
  {
    if acts != [] {
      AcksStay(s, acts[0]);
      hide Apply;
      StartStays(Apply(s, acts[0]), acts[1..]);
    }
  }

  lemma InitialIsOrderly(s: System)
    requires Initial(s)
    ensures Orderly(s)
  {
  }

  lemma SyncingNow(s: System, h: Pid)
    requires Enabled(s, SyncDone(h))
    ensures h in s.procs && s.procs[h].Syncing?
  {
  }

  /** Nothing but an acknowledgement adds to what is acknowledged, and nothing changes where the run started. */
  lemma AcksStay(s: System, a: Action)
    requires Enabled(s, a)
    ensures Apply(s, a).start == s.start
    ensures !a.SyncDone? ==> Apply(s, a).acks == s.acks
  {
    hide ReadStore, ImageOf, Writable, Applied, Proper, Owning;
  }

  /** A step that loses no write half done: no failed directory sync, no power loss, no handle dropped in a sync. */
  predicate Calm(s: System, a: Action) {
    && !a.SyncFails? && !a.PowerLoss?
    && (a.Leave? && a.h in s.procs ==> !s.procs[a.h].Syncing?)
  }

  ghost predicate CalmRun(s: System, acts: seq<Action>)
    requires CanRun(s, acts)
    decreases |acts|
  {
    acts == [] || (Calm(s, acts[0]) && CalmRun(Apply(s, acts[0]), acts[1..]))
  }

  predicate SyncingAt(s: System, h: Pid) {
    h in s.procs && s.procs[h].Syncing?
  }

  ghost predicate Midway(s: System) {
    exists h :: SyncingAt(s, h)
  }

  predicate HasHistory(p: Phase) {
    p.Idle? || p.Writing? || p.Syncing?
  }

  /** Every handle is built by acknowledged changes only, and so is the file, but for a moment. */
  ghost predicate Smooth(s: System) {
    && (forall h :: h in s.procs && HasHistory(s.procs[h]) ==> AllAcked(s.procs[h].built))
    && (!Midway(s) ==> forall v :: v in s.may ==> v == s.file && AllAcked(s.may[v]))
  }

  /** The write stays between rename and acknowledgement as long as its handle does not move. */
  lemma MidwayStays(s: System, a: Action)
    requires Midway(s) && Enabled(s, a) && Calm(s, a) && !a.SyncDone?
    ensures Midway(Apply(s, a))
  {
    hide ReadStore, Writable, ImageOf, Applied, Proper, Owning;
    var h :| SyncingAt(s, h);
    assert SyncingAt(Apply(s, a), h);
  }

  lemma NotMidway(s: System, h: Pid)
    requires LocksHeld(s) && LiveAt(s, h) && !s.procs[h].Syncing?
    ensures !Midway(s)
  {
    if g :| SyncingAt(s, g) { OneLive(s, g, h); }
  }

  lemma SmoothAfterSync(s: System, h: Pid)
    requires Smooth(s) && Enabled(s, SyncDone(h))
    ensures Smooth(Apply(s, SyncDone(h)))
  {
    var p, t := s.procs[h], Apply(s, SyncDone(h));
    SyncEffect(s, h);
    OneMore(s.start, p.built, Entry(ChangeOf(p.target, p.purpose), true));
    assert AllAcked(p.built) && AllAcked(Made(p, true));
    hide Apply, Enabled, AllAcked, FileAfter, Changes, Acked, Midway, Made, ChangeOf;
    forall g | g in t.procs && HasHistory(t.procs[g]) ensures AllAcked(t.procs[g].built) {
      if g != Heir(p, h) && g != h { assert t.procs[g] == s.procs[g]; }
    }
  }

  lemma SmoothAfterRename(s: System, h: Pid)
    requires Smooth(s) && Enabled(s, RenameTmp(h))
    ensures Smooth(Apply(s, RenameTmp(h)))
  {
    RenameEffect(s, h);
    assert SyncingAt(Apply(s, RenameTmp(h)), h);
    hide Apply, Enabled, AllAcked;
  }

  /** A handle that reads the file, or finds none, has the history of what it found: acknowledged changes only. */
  lemma SmoothAfterRead(s: System, a: Action)
    requires Smooth(s) && !Midway(s) && Enabled(s, a) && (a.ReadFile? || a.CreateStore?)
    ensures Smooth(Apply(s, a))
  {
    LeavesHistory(s, a);
    hide Writable, ReadStore, ValidContents, AllAcked, Midway;
  }

  lemma SmoothAfterMove(s: System, a: Action)
    requires Smooth(s) && Enabled(s, a) && Calm(s, a) && !ChangesHistory(a) && !a.ReadFile? && !a.CreateStore?
    requires Midway(s) ==> Midway(Apply(s, a))
    ensures Smooth(Apply(s, a))
  {
    LeavesHistory(s, a);
    BuiltStaysPut(s, a);
    hide Apply, Enabled, AllAcked, Midway;
  }

  lemma BuiltStaysPut(s: System, a: Action)
    requires Enabled(s, a) && !ChangesHistory(a) && !a.ReadFile? && !a.CreateStore?
    ensures var t := Apply(s, a);
      forall h :: h in t.procs && HasHistory(t.procs[h]) ==>
        h in s.procs && HasHistory(s.procs[h]) && t.procs[h].built == s.procs[h].built
  {
    hide ReadStore, ImageOf, Writable, Applied, Proper, Owning;
  }

  lemma SmoothStep(s: System, a: Action)
    requires LocksHeld(s) && Smooth(s) && Enabled(s, a) && Calm(s, a)
    ensures Smooth(Apply(s, a))
  {
    if a.SyncDone? {
      SmoothAfterSync(s, a.h);
    } else if a.RenameTmp? {
      SmoothAfterRename(s, a.h);
    } else if a.ReadFile? || a.CreateStore? {
      NotMidway(s, a.h);
      SmoothAfterRead(s, a);
    } else {
      if Midway(s) { MidwayStays(s, a); }
      hide *;
      SmoothAfterMove(s, a);
    }
  }

  /** All that holds at every moment of a calm run. */
  ghost predicate Orderly(s: System) {
    Inv(s) && Smooth(s)
  }

  lemma OrderlyStep(s: System, a: Action)
    requires Orderly(s) && Enabled(s, a) && Calm(s, a)
    ensures Orderly(Apply(s, a))
  {
    LocksStep(s, a);
    TriesStep(s, a);
    MemoryStep(s, a);
    BuiltStep(s, a);
    HistoryStep(s, a);
    SmoothStep(s, a);
    hide Apply, Enabled, LocksHeld, TriesCounted, MemoryAgrees, AllBuilt, HistoryKept, Smooth, Calm;
  }

  lemma {:induction false} CalmRunIsOrderly(s: System, acts: seq<Action>)
    requires Orderly(s) && CanRun(s, acts) && CalmRun(s, acts)
    ensures Orderly(After(s, acts))
    decreases |acts|
  {
    if acts != [] {
      OrderlyStep(s, acts[0]);
      hide Orderly, Apply, Enabled, Calm;
      CalmRunIsOrderly(Apply(s, acts[0]), acts[1..]);
    }
  }

  /**
   * In every interleaving without a failed directory sync or a power loss, whenever
   * no write is between its rename and its acknowledgement: the file is just the
   * acknowledged changes, in order, whichever handles made them, and nothing else
   * can come back.
   */
  lemma FileIsAcknowledgedChanges(s: System, acts: seq<Action>)
    requires Initial(s) && CanRun(s, acts) && CalmRun(s, acts)
    ensures var t := After(s, acts);
      !Midway(t) ==> t.file == FileAfter(s.start, t.acks) && t.may.Keys == {t.file}
  {
    InitialIsOrderly(s);
    CalmRunIsOrderly(s, acts);
    StartStays(s, acts);
    var t := After(s, acts);
    hide After, CanRun, CalmRun, FileAfter, Changes, Acked, AllAcked;
    if !Midway(t) {
      AllAckedChanges(t.may[t.file]);
    }
  }

  /**
   * An acknowledged write changed just what was last acknowledged: its handle held
   * that, and wrote one change of it; or there was nothing, and it wrote a new store.
   */
  lemma UpdateBuildsOnTheLast(s: System, h: Pid, p: Phase)
    requires MemoryAgrees(s) && AllBuilt(s) && Smooth(s) && Enabled(s, SyncDone(h)) && s.procs[h] == p && p.Syncing?
    ensures var last := FileAfter(s.start, s.acks);
      && Writable(p.target)
      && Apply(s, SyncDone(h)).acks == s.acks + [ChangeOf(p.target, p.purpose)]
      && if p.purpose.Creating? then last.None? && p.target.entries == map[]
         else last.Some? && ReadStore(last.value) == Ok(p.held) && p.target == Applied(p.held, p.purpose.change)
  {
    SyncEffect(s, h);
    SyncTarget(s, h);
    BuiltAt(s, h);
    AllAckedChanges(p.built);
    hide Apply, Enabled, Writable, ReadStore, FileAfter, Changes, Acked, AllAcked, Applied, Proper, ImageOf;
  }

  /** An acknowledged write is what the file holds, what the handle holds, and all that a power loss may bring back. */
  lemma AcknowledgedIsOnDisk(s: System, h: Pid, p: Phase, t: System)
    requires LocksHeld(s) && MemoryAgrees(s) && Enabled(s, SyncDone(h)) && t == Apply(s, SyncDone(h))
    requires s.procs[h] == p && p.Syncing?
    ensures var g := Heir(p, h);
      && LiveAt(t, g) && t.procs[g] == Idle(p.fd, p.target, Made(p, true), false)
      && FileIs(t, p.target) && t.may.Keys == {t.file}
      && t.owner == s.owner[p.fd := g] && t.lockPath == Some(p.fd)
  {
    SyncEffect(s, h);
    SyncTarget(s, h);
    HeldAt(s, h);
    hide Apply, Enabled, LocksHeld, MemoryAgrees, Writable, ImageOf, FileIs, Made, ChangeOf;
    WrittenFileIs(t, p.target);
  }

  /** A step that ends the handle that holds the lock, and puts no other in its place. */
  predicate LetsGo(s: System, a: Action) {
    || a.PowerLoss?
    || (a.Leave? && LiveAt(s, a.h))
    || (a.WriteFails? && In(s, a.h) && s.procs[a.h].Writing? && !s.procs[a.h].purpose.Updating?)
    || (a.SyncFails? && In(s, a.h) && s.procs[a.h].Syncing? && !s.procs[a.h].purpose.Updating?)
  }

  ghost predicate HoldsOn(s: System, acts: seq<Action>)
    requires CanRun(s, acts)
    decreases |acts|
  {
    acts == [] || (!LetsGo(s, acts[0]) && HoldsOn(Apply(s, acts[0]), acts[1..]))
  }

  /** A handle that has its contents, with the lock file `fd`. */
  predicate HasOpened(s: System, h: Pid, fd: Ino) {
    LiveAt(s, h) && !s.procs[h].Reading? && s.procs[h].fd == fd
  }

  lemma LockStays(s: System, a: Action, h: Pid, fd: Ino) returns (g: Pid)
    requires LocksHeld(s) && Enabled(s, a) && HasOpened(s, h, fd) && !LetsGo(s, a)
    ensures HasOpened(Apply(s, a), g, fd)
    ensures g == if a.SyncDone? && a.h == h && s.procs[h].purpose.Rotating? then s.procs[h].purpose.heir else h
  {
    LocksStep(s, a);
    g := if a.SyncDone? && a.h == h && s.procs[h].purpose.Rotating? then s.procs[h].purpose.heir else h;
    if a.SyncDone? { OneLive(s, a.h, h); }
    hide LocksHeld, ReadStore, ImageOf, Writable, Applied, Proper;
    assert LiveAt(Apply(s, a), g);
  }

  lemma {:induction false} HandedOn(s: System, acts: seq<Action>, h: Pid, fd: Ino) returns (g: Pid)
    requires LocksHeld(s) && CanRun(s, acts) && HasOpened(s, h, fd) && HoldsOn(s, acts)
    ensures LocksHeld(After(s, acts)) && HasOpened(After(s, acts), g, fd)
    decreases |acts|
  {
    if acts == [] {
      g := h;
    } else {
      var next := LockStays(s, acts[0], h, fd);
      LocksStep(s, acts[0]);
      hide LocksHeld, HasOpened, Apply, Enabled, LetsGo;
      g := HandedOn(Apply(s, acts[0]), acts[1..], next, fd);
    }
  }

  /**
   * `rotate` hands the lock on: however often it does, and whatever other handles try
   * meanwhile, from the first handle's opening to the last one's end one handle has
   * the lock, and no other gets in between.
   */
  lemma LockIsHandedOn(s: System, acts: seq<Action>, h: Pid, fd: Ino) returns (g: Pid)
    requires LocksHeld(s) && CanRun(s, acts) && HoldsOn(s, acts)
    requires LiveAt(s, h) && !s.procs[h].Reading? && s.procs[h].fd == fd
    ensures var t := After(s, acts);
      && g in t.procs && Live(t.procs[g]) && !t.procs[g].Reading? && t.procs[g].fd == fd
      && t.lockPath == Some(fd) && fd in t.owner && t.owner[fd] == g
      && forall other :: LiveAt(t, other) ==> other == g
  {
    g := HandedOn(s, acts, h, fd);
    var t := After(s, acts);
    HeldAt(t, g);
    forall other | LiveAt(t, other) ensures other == g {
      OneLive(t, other, g);
    }
  }

  /**
   * A check fails only if the lock file was replaced since this handle opened
   * it. It costs one try: the lock is let go and, while tries remain, taken
   * again; nothing else changes.
   */
  lemma ReplacementCostsOneTry(s: System, h: Pid)
    requires Inv(s) && Enabled(s, Check(h)) && s.lockPath != Some(s.procs[h].fd)
    ensures var p := s.procs[h];
      var t := Apply(s, Check(h));
      && p.since < s.replaced
      && t.procs == s.procs[h := if p.tries > 1 then Opening(p.tries - 1) else Gone]
      && t.owner == s.owner - {p.fd}
      && t == s.(procs := t.procs, owner := t.owner)
  {
    assert Counted(s, s.procs[h]);
  }

  /** While one handle lives, nobody else gets past the check; with no replacement, a try is refused at once. */
  lemma OthersStayOut(s: System, h: Pid, other: Pid)
    requires LocksHeld(s) && TriesCounted(s) && LiveAt(s, h) && h != other
    ensures Enabled(s, Check(other)) ==> !LiveAt(Apply(s, Check(other)), other)
    ensures Enabled(s, TryLock(other)) ==> !LiveAt(Apply(s, TryLock(other)), other)
    ensures Enabled(s, TryLock(other)) && s.procs[other].since == s.replaced ==>
      Apply(s, TryLock(other)).procs[other] == Gone
  {
    HeldAt(s, h);
    if other in s.procs && Owning(s.procs[other]) { OwnerAt(s, other); }
    if other in s.procs { assert Counted(s, s.procs[other]); }
    hide LocksHeld, TriesCounted, ReadStore, ImageOf, Writable, Applied;
  }

  lemma OwnerAt(s: System, h: Pid)
    requires LocksHeld(s) && h in s.procs && Owning(s.procs[h])
    ensures s.procs[h].fd in s.owner && s.owner[s.procs[h].fd] == h
  {
  }
}
