/**
 * Every run of calls, faults and crashes of one store, against a plain map.
 *
 * The map is kept three times: as the handle shows it, as the file reads now,
 * and as what a crash may bring back. Writes that are acknowledged bring the
 * three together.
 */
module StoreRuns {
  import opened Base
  import opened StoreFormat
  import opened StoreModel
  import FS = FileSystem
  import AW = AtomicWrite
  import Aead

  type Texts = map<Bytes, Bytes>

  datatype Machine = Machine(fs: FS.Fs, handle: Option<Contents>)

  /** What a caller can see of a machine: names and plaintexts. */
  datatype View = View(mem: Option<Texts>, disk: Option<Texts>, may: iset<Option<Texts>>)

  datatype Op =
    | OpPut(name: Bytes, pt: Bytes, e: SealEnv, w: AW.WriteEnv)
    | OpGet(name: Bytes, g: GetEnv)
    | OpDelete(name: Bytes, w: AW.WriteEnv)
    | OpReopen(o: OpenEnv)
    | OpPowerLoss(back: FS.Fs)
    | OpPutCut(name: Bytes, pt: Bytes, e: SealEnv, w: AW.WriteEnv, k: nat, back: FS.Fs)
    | OpDeleteCut(name: Bytes, w: AW.WriteEnv, k: nat, back: FS.Fs)
    | OpReopenCut(o: OpenEnv, k: nat, back: FS.Fs)

  datatype Reply = Silence | Wrote(done: Result<()>) | Read(text: Result<Bytes>)

  // ---------------------------------------------------------------------
  // The machine
  // ---------------------------------------------------------------------

  /** Power is lost while `target` is being written, after `k` steps, and `back` is what comes back. */
  ghost predicate CutShort(fs: FS.Fs, target: Contents, w: AW.WriteEnv, k: nat, back: FS.Fs) {
    && AW.Ready(fs, w) && Serialized(target).Ok?
    && k < |AW.Trace(fs, w, Serialized(target).value)|
    && FS.Crash(AW.Trace(fs, w, Serialized(target).value)[k], back)
  }

  ghost predicate CanDo(s: Suite, master: Master, m: Machine, op: Op) {
    match op
    case OpPut(_, _, e, w) => m.handle.Some? && GoodSeal(e) && AW.Ready(m.fs, w)
    case OpGet(_, _) => m.handle.Some?
    case OpDelete(_, w) => m.handle.Some? && AW.Ready(m.fs, w)
    case OpReopen(o) => GoodOpen(o) && AW.Ready(m.fs, o.write)
    case OpPowerLoss(back) => FS.Crash(m.fs, back)
    case OpPutCut(name, pt, e, w, k, back) =>
      m.handle.Some? && GoodSeal(e) && ValidContents(m.handle.value)
      && PutTarget(s, master, m.handle.value, name, pt, e).Ok?
      && CutShort(m.fs, PutTarget(s, master, m.handle.value, name, pt, e).value, w, k, back)
    case OpDeleteCut(name, w, k, back) =>
      m.handle.Some? && name in m.handle.value.entries
      && CutShort(m.fs, DeleteTarget(m.handle.value, name), w, k, back)
    case OpReopenCut(o, k, back) =>
      GoodOpen(o) && o.salt.Some? && o.keyId.Some? && FS.ReadName(m.fs, FS.StoreFile).None?
      && CutShort(m.fs, Contents(o.salt.value, o.keyId.value, map[]), o.write, k, back)
  }

  ghost function Do(s: Suite, master: Master, m: Machine, op: Op): (Machine, Reply)
    requires CanDo(s, master, m, op) && (m.handle.Some? ==> ValidContents(m.handle.value))
  {
    match op
    case OpPut(name, pt, e, w) =>
      var (c, fs, r) := Put(s, master, m.handle.value, m.fs, name, pt, e, w);
      (Machine(fs, Some(c)), Wrote(r))
    case OpGet(name, g) => (m, Read(GetValue(s, master, m.handle.value, name, g)))
    case OpDelete(name, w) =>
      var (c, fs, r) := Delete(m.handle.value, m.fs, name, w);
      (Machine(fs, Some(c)), Wrote(r))
    case OpReopen(o) =>
      var (fs, r) := Open(m.fs, o);
      (match r
       case Err(err) => (Machine(fs, None), Wrote(Err(err)))
       case Ok(c) => (Machine(fs, Some(c)), Wrote(Ok(()))))
    case OpPowerLoss(back) => (Machine(back, None), Silence)
    case OpPutCut(_, _, _, _, _, back) => (Machine(back, None), Silence)
    case OpDeleteCut(_, _, _, back) => (Machine(back, None), Silence)
    case OpReopenCut(_, _, back) => (Machine(back, None), Silence)
  }

  // ---------------------------------------------------------------------
  // The plain map
  // ---------------------------------------------------------------------

  /** All three agree. */
  ghost function Settled(p: Texts): View {
    View(Some(p), Some(p), iset{Some(p)})
  }

  /** The file reads as `p` though the call failed: a crash may bring back this or what it could before. */
  ghost function Unsettled(a: View, p: Texts): View {
    View(a.mem, Some(p), a.may + iset{Some(p)})
  }

  /** The one fault whose error is returned after the file was replaced. */
  predicate FailedAfterRename(fs: FS.Fs, w: AW.WriteEnv, r: Result<()>) {
    r == Err(Io) && AW.Starts(fs, w) && AW.Lasting(w.fault)
  }

  /** Writing the map `p`: acknowledged, undone, or failed after the rename. */
  ghost predicate WriteFollows(fs: FS.Fs, a: View, p: Texts, w: AW.WriteEnv, r: Result<()>, b: View) {
    b == if r.Ok? then Settled(p) else if FailedAfterRename(fs, w, r) then Unsettled(a, p) else a
  }

  /** After a crash, with `may` what could come back: one of these did, and it is what is there to stay. */
  ghost predicate CrashFollows(may: iset<Option<Texts>>, b: View) {
    b.mem == None && b.disk in may && b.may == iset{b.disk}
  }

  /** What the plain map says about one call. */
  ghost predicate Follows(fs: FS.Fs, a: View, op: Op, reply: Reply, b: View) {
    match op
    case OpPut(name, pt, e, w) =>
      a.mem.Some? && reply.Wrote?
      && WriteFollows(fs, a, a.mem.value[name := pt], w, reply.done, b)
      && (reply.done.Ok? ==> ValidName(name) && w.fault.NoFault?)
    case OpGet(name, g) =>
      a.mem.Some? && b == a
      && reply == Read(if name !in a.mem.value then Err(KeyNotFound)
                       else if !g.keyMemory || !g.textMemory then Err(Hardening)
                       else Ok(a.mem.value[name]))
    case OpDelete(name, w) =>
      a.mem.Some? && reply.Wrote?
      && (if name !in a.mem.value then reply.done.Ok? && b == a
          else WriteFollows(fs, a, a.mem.value - {name}, w, reply.done, b))
    case OpReopen(o) =>
      reply.Wrote?
      && (if o.readFails || a.disk.Some?
          then (reply.done.Ok? <==> !o.readFails && !o.privateFails)
            && b == a.(mem := if reply.done.Ok? then a.disk else None)
          else WriteFollows(fs, a.(mem := None), map[], o.write, reply.done, b))
    case OpPowerLoss(_) => CrashFollows(a.may, b)
    case OpPutCut(name, pt, _, _, _, _) => a.mem.Some? && CrashFollows(a.may + iset{Some(a.mem.value[name := pt])}, b)
    case OpDeleteCut(name, _, _, _) => a.mem.Some? && CrashFollows(a.may + iset{Some(a.mem.value - {name})}, b)
    case OpReopenCut(_, _, _) => a.disk.None? && CrashFollows(a.may + iset{Some(map[])}, b)
  }

  // ---------------------------------------------------------------------
  // The machine is always sound
  // ---------------------------------------------------------------------

  /** A file `open` accepts, every value of which opens. */
  ghost predicate Recoverable(s: Suite, master: Master, d: Bytes) {
    |d| <= MAX_STORE_BYTES && ReadStore(d).Ok? && Intact(s, master, ReadStore(d).value)
  }

  ghost predicate Sound(s: Suite, master: Master, m: Machine) {
    && FS.Valid(m.fs)
    && (m.handle.Some? ==> Intact(s, master, m.handle.value))
    && (forall v :: FS.MayRead(m.fs, FS.StoreFile, v) && v.Some? ==> Recoverable(s, master, v.value))
  }

  ghost function TextsOf(s: Suite, master: Master, v: Option<Bytes>): Option<Texts> {
    if v.Some? && Recoverable(s, master, v.value) then Some(Plain(s, master, ReadStore(v.value).value)) else None
  }

  ghost function MayHold(s: Suite, master: Master, fs: FS.Fs): iset<Option<Texts>> {
    iset v | FS.MayRead(fs, FS.StoreFile, v) :: TextsOf(s, master, v)
  }

  ghost function Seen(s: Suite, master: Master, m: Machine): View
    requires Sound(s, master, m)
  {
    View(
      if m.handle.Some? then Some(Plain(s, master, m.handle.value)) else None,
      TextsOf(s, master, FS.ReadName(m.fs, FS.StoreFile)),
      MayHold(s, master, m.fs))
  }

  /** What is read now is among what a crash may bring back. */
  lemma ReadIsPossible(fs: FS.Fs)
    requires FS.Valid(fs)
    ensures FS.MayRead(fs, FS.StoreFile, FS.ReadName(fs, FS.StoreFile))
  {
    var e := FS.Entry(fs, FS.StoreFile);
    assert e in FS.After(fs, FS.StoreFile);
    FS.MayReadIff(fs, FS.StoreFile, FS.ReadName(fs, FS.StoreFile));
    assert FS.EntryMayRead(fs, e, FS.ReadName(fs, FS.StoreFile));
  }

  /** A written file is recoverable, and holds what was written. */
  lemma WrittenIsRecoverable(s: Suite, master: Master, c: Contents)
    requires Intact(s, master, c) && Serialized(c).Ok?
    ensures Recoverable(s, master, Serialized(c).value)
    ensures TextsOf(s, master, Some(Serialized(c).value)) == Some(Plain(s, master, c))
  {
    PersistThenLoad(c);
  }

  /** What may come back after a write of `d`, as plain maps, by how the write ended. */
  lemma WriteMayHold(s: Suite, master: Master, fs: FS.Fs, w: AW.WriteEnv, d: Bytes)
    requires AW.Ready(fs, w)
    ensures var after := MayHold(s, master, AW.Final(fs, w, d));
      && (AW.Verdict(fs, w).Ok? ==> after == iset{TextsOf(s, master, Some(d))})
      && (AW.Undone(fs, w) ==> after == MayHold(s, master, fs))
      && (AW.Verdict(fs, w).Err? && !AW.Undone(fs, w) ==>
        after == MayHold(s, master, fs) + iset{TextsOf(s, master, Some(d))})
  {
    hide AW.Final, FS.MayRead, FS.Valid, TextsOf;
    forall v {
      AW.VerdictMeans(fs, w, d, v);
    }
  }

  /** Every way a write of `target` can end, seen as plain maps. */
  lemma PersistFollows(s: Suite, master: Master, m: Machine, target: Contents, w: AW.WriteEnv)
    requires Sound(s, master, m) && AW.Ready(m.fs, w)
    requires ValidContents(target) && (BlobsFit(target.entries) ==> Intact(s, master, target))
    ensures var (fs, r) := Persist(target, m.fs, w);
      var m' := m.(fs := fs);
      && (r.Ok? ==> BlobsFit(target.entries) && w.fault.NoFault?)
      && Sound(s, master, m')
      && (if r.Ok? then
            && TextsOf(s, master, FS.ReadName(fs, FS.StoreFile)) == Some(Plain(s, master, target))
            && MayHold(s, master, fs) == iset{Some(Plain(s, master, target))}
          else if FailedAfterRename(m.fs, w, r) then
            && BlobsFit(target.entries)
            && Seen(s, master, m') == Unsettled(Seen(s, master, m), Plain(s, master, target))
          else Seen(s, master, m') == Seen(s, master, m))
  {
    if Serialized(target).Ok? {
      var d := Serialized(target).value;
      WrittenIsRecoverable(s, master, target);
      AW.VerdictMeans(m.fs, w, d, None);
      forall v {
        AW.VerdictMeans(m.fs, w, d, v);
      }
      WriteMayHold(s, master, m.fs, w, d);
    }
    hide Serialized, Recoverable, TextsOf, MayHold, AW.Final, FS.MayRead, FS.ReadName, FS.Valid, Plain, Intact;
  }

  lemma CommitFollows(s: Suite, master: Master, m: Machine, target: Contents, w: AW.WriteEnv)
    requires Sound(s, master, m) && m.handle.Some? && AW.Ready(m.fs, w)
    requires ValidContents(target) && (BlobsFit(target.entries) ==> Intact(s, master, target))
    ensures var (c, fs, r) := Commit(m.handle.value, target, m.fs, w);
      var m' := Machine(fs, Some(c));
      && (r.Ok? ==> BlobsFit(target.entries) && w.fault.NoFault?)
      && Sound(s, master, m')
      && (r.Ok? ==> Seen(s, master, m') == Settled(Plain(s, master, target)))
      && (FailedAfterRename(m.fs, w, r) ==>
        BlobsFit(target.entries) && Seen(s, master, m') == Unsettled(Seen(s, master, m), Plain(s, master, target)))
      && (r.Err? && !FailedAfterRename(m.fs, w, r) ==> Seen(s, master, m') == Seen(s, master, m))
  {
    PersistFollows(s, master, m, target, w);
    hide Persist, Plain, Intact, Recoverable, MayHold, TextsOf, FS.Valid, FS.MayRead, FS.ReadName;
    var (fs, r) := Persist(target, m.fs, w);
    if !r.Ok? {
      assert Machine(fs, m.handle) == m.(fs := fs);
    }
  }

  lemma PutFollows(s: Suite, master: Master, m: Machine, name: Bytes, pt: Bytes, e: SealEnv, w: AW.WriteEnv)
    requires Aead.Correct(s.cipher) && Sound(s, master, m)
    requires CanDo(s, master, m, OpPut(name, pt, e, w))
    ensures var (m', reply) := Do(s, master, m, OpPut(name, pt, e, w));
      Sound(s, master, m') && Follows(m.fs, Seen(s, master, m), OpPut(name, pt, e, w), reply, Seen(s, master, m'))
  {
    var c := m.handle.value;
    PutTargetIs(s, master, c, name, pt, e);
    var t := PutTarget(s, master, c, name, pt, e);
    if t.Ok? {
      CommitFollows(s, master, m, t.value, w);
    }
    hide PutTarget, Commit, Plain, Intact, Recoverable, MayHold, TextsOf, FS.Valid, FS.MayRead, FS.ReadName, ValidName;
  }

  lemma DeleteFollows(s: Suite, master: Master, m: Machine, name: Bytes, w: AW.WriteEnv)
    requires Sound(s, master, m)
    requires CanDo(s, master, m, OpDelete(name, w))
    ensures var (m', reply) := Do(s, master, m, OpDelete(name, w));
      Sound(s, master, m') && Follows(m.fs, Seen(s, master, m), OpDelete(name, w), reply, Seen(s, master, m'))
  {
    var c := m.handle.value;
    assert name in c.entries <==> name in Plain(s, master, c);
    if name in c.entries {
      DeleteTargetIs(s, master, c, name);
      CommitFollows(s, master, m, DeleteTarget(c, name), w);
    }
    hide DeleteTarget, Commit, Plain, Intact, Recoverable, MayHold, TextsOf, FS.Valid, FS.MayRead, FS.ReadName;
  }

  lemma ReopenFollows(s: Suite, master: Master, m: Machine, o: OpenEnv)
    requires Sound(s, master, m) && CanDo(s, master, m, OpReopen(o))
    ensures var (m', reply) := Do(s, master, m, OpReopen(o));
      Sound(s, master, m') && Follows(m.fs, Seen(s, master, m), OpReopen(o), reply, Seen(s, master, m'))
  {
    ReadIsPossible(m.fs);
    var closed := m.(handle := None);
    if FS.ReadName(m.fs, FS.StoreFile).None? && !o.readFails && o.salt.Some? && o.keyId.Some? {
      var created := Contents(o.salt.value, o.keyId.value, map[]);
      assert Intact(s, master, created) && Plain(s, master, created) == map[];
      PersistFollows(s, master, closed, created, o.write);
    }
    hide Persist, Plain, Intact, MayHold, FS.Valid, FS.MayRead, FS.ReadName, ReadStore;
  }

  /** What comes back from a crash is sound, and is one of the things that could. */
  lemma CrashIsSound(s: Suite, master: Master, fs: FS.Fs, back: FS.Fs)
    requires Sound(s, master, Machine(fs, None)) && FS.Crash(fs, back)
    ensures Sound(s, master, Machine(back, None))
    ensures CrashFollows(MayHold(s, master, fs), Seen(s, master, Machine(back, None)))
  {
    FS.CrashIsValid(fs, back);
    ReadIsPossible(back);
    var now := FS.ReadName(back, FS.StoreFile);
    forall v ensures FS.MayRead(back, FS.StoreFile, v) <==> v == now {
      if FS.MayRead(back, FS.StoreFile, v) {
        SyncedReads(back, v);
      }
    }
    AW.CrashReads(fs, back, now);
    forall v | FS.MayRead(back, FS.StoreFile, v) ensures FS.MayRead(fs, FS.StoreFile, v) {
    }
    assert TextsOf(s, master, now) in MayHold(s, master, fs);
    assert MayHold(s, master, back) == iset{TextsOf(s, master, now)};
  }

  /** With everything synced, a crash brings back what is there. */
  lemma SyncedReads(fs: FS.Fs, v: Option<Bytes>)
    requires FS.Valid(fs) && fs.unsynced == map[] && (forall i :: i in fs.files ==> fs.files[i].synced)
    requires FS.MayRead(fs, FS.StoreFile, v)
    ensures v == FS.ReadName(fs, FS.StoreFile)
  {
    FS.MayReadIff(fs, FS.StoreFile, v);
  }

  /** Losing power in the middle of writing `target` leaves what was there, or the whole of `target`. */
  lemma CutFollows(s: Suite, master: Master, m: Machine, target: Contents, w: AW.WriteEnv, k: nat, back: FS.Fs)
    requires Sound(s, master, m) && Intact(s, master, target) && CutShort(m.fs, target, w, k, back)
    ensures Sound(s, master, Machine(back, None))
    ensures CrashFollows(Seen(s, master, m).may + iset{Some(Plain(s, master, target))},
                         Seen(s, master, Machine(back, None)))
  {
    var d := Serialized(target).value;
    var mid := AW.Trace(m.fs, w, d)[k];
    WrittenIsRecoverable(s, master, target);
    AW.WriteIsAtomic(m.fs, w, d, k, None);
    forall v | FS.MayRead(mid, FS.StoreFile, v) ensures FS.MayRead(m.fs, FS.StoreFile, v) || v == Some(d) {
      AW.WriteIsAtomic(m.fs, w, d, k, v);
    }
    hide AW.Trace, Serialized, FS.Crash, FS.MayRead, FS.Valid, Recoverable, Plain, Intact, TextsOf;
    assert Sound(s, master, Machine(mid, None));
    CrashIsSound(s, master, mid, back);
    forall t | t in MayHold(s, master, mid)
      ensures t in MayHold(s, master, m.fs) + iset{Some(Plain(s, master, target))}
    {
      var v :| FS.MayRead(mid, FS.StoreFile, v) && t == TextsOf(s, master, v);
    }
  }

  /** Every call does to what can be seen exactly what the plain map says. */
  lemma StepFollows(s: Suite, master: Master, m: Machine, op: Op)
    requires Aead.Correct(s.cipher) && Sound(s, master, m) && CanDo(s, master, m, op)
    ensures var (m', reply) := Do(s, master, m, op);
      Sound(s, master, m') && Follows(m.fs, Seen(s, master, m), op, reply, Seen(s, master, m'))
  {
    match op {
      case OpPut(name, pt, e, w) => PutFollows(s, master, m, name, pt, e, w);
      case OpGet(name, g) => GetIsLookup(s, master, m.handle.value, name, g);
      case OpDelete(name, w) => DeleteFollows(s, master, m, name, w);
      case OpReopen(o) => ReopenFollows(s, master, m, o);
      case OpPowerLoss(back) => CrashIsSound(s, master, m.fs, back);
      case OpPutCut(name, pt, e, w, k, back) =>
        PutTargetIs(s, master, m.handle.value, name, pt, e);
        CutFollows(s, master, m, PutTarget(s, master, m.handle.value, name, pt, e).value, w, k, back);
      case OpDeleteCut(name, w, k, back) =>
        DeleteTargetIs(s, master, m.handle.value, name);
        CutFollows(s, master, m, DeleteTarget(m.handle.value, name), w, k, back);
      case OpReopenCut(o, k, back) =>
        var created := Contents(o.salt.value, o.keyId.value, map[]);
        assert Plain(s, master, created) == map[];
        CutFollows(s, master, m, created, o.write, k, back);
    }
  }

  // ---------------------------------------------------------------------
  // Runs
  // ---------------------------------------------------------------------

  ghost predicate CanRun(s: Suite, master: Master, m: Machine, ops: seq<Op>)
    requires m.handle.Some? ==> ValidContents(m.handle.value)
    decreases |ops|
  {
    ops == [] ||
    (CanDo(s, master, m, ops[0]) &&
     var m' := Do(s, master, m, ops[0]).0;
     (m'.handle.Some? ==> ValidContents(m'.handle.value)) && CanRun(s, master, m', ops[1..]))
  }

  /** Call after call, what is seen goes on as the plain map says. */
  ghost predicate RunFollows(s: Suite, master: Master, m: Machine, ops: seq<Op>)
    requires m.handle.Some? ==> ValidContents(m.handle.value)
    requires CanRun(s, master, m, ops)
    decreases |ops|
  {
    Sound(s, master, m) &&
    (ops == [] ||
     var (m', reply) := Do(s, master, m, ops[0]);
     Sound(s, master, m')
     && Follows(m.fs, Seen(s, master, m), ops[0], reply, Seen(s, master, m'))
     && RunFollows(s, master, m', ops[1..]))
  }

  /**
   * Every run of put, get, delete and reopen, with any faults and any crashes,
   * between calls or inside a write, is a run of the plain map.
   */
  lemma {:induction false} EveryRunFollows(s: Suite, master: Master, m: Machine, ops: seq<Op>)
    requires Aead.Correct(s.cipher) && Sound(s, master, m) && CanRun(s, master, m, ops)
    ensures RunFollows(s, master, m, ops)
    decreases |ops|
  {
    if ops != [] {
      StepFollows(s, master, m, ops[0]);
      var m' := Do(s, master, m, ops[0]).0;
      EveryRunFollows(s, master, m', ops[1..]);
    }
  }

  /** An empty directory is where a run may start. */
  lemma EmptyDirectoryIsSound(s: Suite, master: Master)
    ensures var m := Machine(FS.Fs(map[], map[], map[]), None);
      Sound(s, master, m) && Seen(s, master, m) == View(None, None, iset{None})
  {
    var fs := FS.Fs(map[], map[], map[]);
    forall v ensures FS.MayRead(fs, FS.StoreFile, v) <==> v == None {
      FS.MayReadIff(fs, FS.StoreFile, v);
      assert FS.After(fs, FS.StoreFile) == {None};
    }
    assert MayHold(s, master, fs) == iset{None} by {
      assert TextsOf(s, master, None) == None;
      assert None in MayHold(s, master, fs);
    }
  }

  // ---------------------------------------------------------------------
  // Runs without crashes and without that one fault
  // ---------------------------------------------------------------------

  /** No crash, and no directory fault after the rename. */
  predicate Quiet(op: Op) {
    match op
    case OpPut(_, _, _, w) => !AW.Lasting(w.fault)
    case OpGet(_, _) => true
    case OpDelete(_, w) => !AW.Lasting(w.fault)
    case OpReopen(o) => !AW.Lasting(o.write.fault)
    case _ => false
  }

  /** What an acknowledged call does to a plain map of names to texts. */
  function PlainStep(p: Texts, op: Op, reply: Reply): Texts {
    match op
    case OpPut(name, pt, _, _) => if reply.Wrote? && reply.done.Ok? then p[name := pt] else p
    case OpDelete(name, _) => if reply.Wrote? && reply.done.Ok? then p - {name} else p
    case _ => p
  }

  ghost function PlainRun(s: Suite, master: Master, m: Machine, ops: seq<Op>, p: Texts): Texts
    requires m.handle.Some? ==> ValidContents(m.handle.value)
    requires CanRun(s, master, m, ops)
    decreases |ops|
  {
    if ops == [] then p
    else
      var (m', reply) := Do(s, master, m, ops[0]);
      PlainRun(s, master, m', ops[1..], PlainStep(p, ops[0], reply))
  }

  ghost function EndOf(s: Suite, master: Master, m: Machine, ops: seq<Op>): Machine
    requires m.handle.Some? ==> ValidContents(m.handle.value)
    requires CanRun(s, master, m, ops)
    decreases |ops|
  {
    if ops == [] then m else EndOf(s, master, Do(s, master, m, ops[0]).0, ops[1..])
  }

  /** The handle, if open, the file and what a crash may bring back are one map, `p`. */
  ghost predicate AllShow(a: View, p: Texts) {
    (a.mem.Some? ==> a.mem.value == p) && a.disk == Some(p) && a.may == iset{Some(p)}
  }

  lemma QuietStep(fs: FS.Fs, a: View, op: Op, reply: Reply, b: View, p: Texts)
    requires AllShow(a, p) && Quiet(op) && Follows(fs, a, op, reply, b)
    ensures AllShow(b, PlainStep(p, op, reply))
    ensures op.OpGet? && op.g == GetEnv(true, true) ==>
      reply == Read(if op.name in p then Ok(p[op.name]) else Err(KeyNotFound))
  {
    if op.OpDelete? && op.name !in p {
      assert p - {op.name} == p;
    }
  }

  /**
   * Without crashes and without that fault, memory, file and crash outcome stay
   * one plain map: the one got by applying just the acknowledged calls, in order.
   */
  lemma {:induction false} QuietRunIsPlainMap(s: Suite, master: Master, m: Machine, ops: seq<Op>, p: Texts)
    requires Aead.Correct(s.cipher) && Sound(s, master, m) && CanRun(s, master, m, ops)
    requires forall i :: 0 <= i < |ops| ==> Quiet(ops[i])
    requires AllShow(Seen(s, master, m), p)
    ensures Sound(s, master, EndOf(s, master, m, ops))
    ensures AllShow(Seen(s, master, EndOf(s, master, m, ops)), PlainRun(s, master, m, ops, p))
    decreases |ops|
  {
    if ops != [] {
      StepFollows(s, master, m, ops[0]);
      var (m', reply) := Do(s, master, m, ops[0]);
      assert Quiet(ops[0]);
      QuietStep(m.fs, Seen(s, master, m), ops[0], reply, Seen(s, master, m'), p);
      hide Do, CanDo, Follows, Seen, AllShow, Sound, Quiet;
      QuietRunIsPlainMap(s, master, m', ops[1..], PlainStep(p, ops[0], reply));
    }
  }
}
