/**
 * What many handles write to one store, as plaintexts: the changes that `put`,
 * `delete` and `rotate` make, and the plain map they add up to.
 */
module StoreTexts {
  import opened Base
  import opened StoreFormat
  import opened StoreModel
  import opened StoreHistory
  import Protocol = LockProtocol
  import Rotation = StoreRotation
  import Aead

  type Texts = map<Bytes, Bytes>

  /** A call that was acknowledged, as its caller sees it. */
  datatype TextChange =
    | NewStore
    | PutText(name: Bytes, pt: Bytes)
    | DeleteText(name: Bytes)
    | NewMaster(master: Master)

  function TextsAfter(start: Texts, tcs: seq<TextChange>): Texts {
    if tcs == [] then start
    else
      var before := TextsAfter(start, tcs[..|tcs| - 1]);
      match tcs[|tcs| - 1]
      case NewStore => before
      case PutText(name, pt) => before[name := pt]
      case DeleteText(name) => before - {name}
      case NewMaster(_) => before
  }

  function MasterAfter(master: Master, tcs: seq<TextChange>): Master {
    if tcs == [] then master
    else if tcs[|tcs| - 1].NewMaster? then tcs[|tcs| - 1].master
    else MasterAfter(master, tcs[..|tcs| - 1])
  }

  /** `ch` is what the call `tc`, made by a handle with this master and these contents, writes. */
  ghost predicate Does(s: Suite, master: Master, c: Contents, ch: Change, tc: TextChange)
    requires ValidContents(c)
  {
    match tc
    case NewStore => false
    case PutText(name, pt) =>
      ch.Set? && exists e :: GoodSeal(e) && PutTarget(s, master, c, name, pt, e) == Ok(Applied(c, ch))
    case DeleteText(name) => ch.Remove? && Applied(c, ch) == DeleteTarget(c, name)
    case NewMaster(other) =>
      ch.Reseal?
      && exists e :: Rotation.GoodRotate(e) && Rotation.Target(s, master, other, c, e) == Ok(Applied(c, ch))
  }

  /** What one write does to a file: the calls of `tc` on what it holds, or a new and empty store if there is none. */
  ghost predicate Writes(s: Suite, master: Master, file: Option<Bytes>, ch: Change, tc: TextChange) {
    match file
    case None => tc.NewStore? && ch.Create? && Writable(ch.created) && ch.created.entries == map[]
    case Some(d) =>
      && ReadStore(d).Ok? && ValidContents(ReadStore(d).value)
      && Does(s, master, ReadStore(d).value, ch, tc)
      && Writable(Applied(ReadStore(d).value, ch))
  }

  /** Change by change, `chs` is what the calls `tcs` write, each on what the ones before it left. */
  ghost predicate AllWrite(s: Suite, master: Master, start: Option<Bytes>, chs: seq<Change>, tcs: seq<TextChange>) {
    |chs| == |tcs| &&
    (chs == [] ||
     var k := |chs| - 1;
     && AllWrite(s, master, start, chs[..k], tcs[..k])
     && Writes(s, MasterAfter(master, tcs[..k]), FileAfter(start, chs[..k]), chs[k], tcs[k]))
  }

  /** The file holds the plain map `p`, under this master. */
  ghost predicate HoldsTexts(s: Suite, master: Master, file: Option<Bytes>, p: Texts) {
    file.Some? && ReadStore(file.value).Ok?
    && Intact(s, master, ReadStore(file.value).value) && Plain(s, master, ReadStore(file.value).value) == p
  }

  // ---------------------------------------------------------------------
  // The calls make changes of their kind
  // ---------------------------------------------------------------------

  /** `put` sets its one name. */
  lemma PutSets(s: Suite, master: Master, c: Contents, name: Bytes, pt: Bytes, e: SealEnv)
    requires ValidContents(c) && GoodSeal(e) && PutTarget(s, master, c, name, pt, e).Ok?
    ensures var t := PutTarget(s, master, c, name, pt, e).value;
      && name in t.entries
      && var ch := Set(name, t.entries[name]);
         t == Applied(c, ch) && Protocol.Proper(c, Protocol.Updating(ch)) && Does(s, master, c, ch, PutText(name, pt))
  {
    hide SealValue, ValidName, ValidContents;
    var t := PutTarget(s, master, c, name, pt, e).value;
    assert t == Applied(c, Set(name, t.entries[name]));
  }

  /** The change a rotation makes: every entry gets the new blob of its name. */
  function ResealOf(c: Contents, t: Contents): Change
    requires t.entries.Keys == c.entries.Keys
  {
    Reseal(t.salt, t.keyId, map n | n in c.entries :: (n, c.entries[n]) := t.entries[n])
  }

  lemma ResealGives(c: Contents, t: Contents, heir: Protocol.Pid)
    requires t.entries.Keys == c.entries.Keys
    ensures Applied(c, ResealOf(c, t)) == t && Protocol.Proper(c, Protocol.Rotating(ResealOf(c, t), heir))
  {
    assert Applied(c, ResealOf(c, t)).entries == t.entries;
  }

  /** `rotate` gives every entry a new blob, and adds and removes none. */
  lemma RotateReseals(s: Suite, master: Master, newMaster: Master, c: Contents, e: Rotation.RotateEnv,
                      heir: Protocol.Pid)
    requires Aead.Correct(s.cipher) && Intact(s, master, c) && Rotation.GoodRotate(e)
    requires Rotation.Target(s, master, newMaster, c, e).Ok?
    ensures var t := Rotation.Target(s, master, newMaster, c, e).value;
      t.entries.Keys == c.entries.Keys &&
      var ch := ResealOf(c, t);
      && t == Applied(c, ch) && Protocol.Proper(c, Protocol.Rotating(ch, heir))
      && Does(s, master, c, ch, NewMaster(newMaster))
  {
    var t := Rotation.Target(s, master, newMaster, c, e).value;
    var plain := Rotation.TargetHolds(s, master, newMaster, c, e);
    hide Rotation.Target, Rotation.HoldsTexts, Rotation.TextsOf, Aead.Correct, Applied, Protocol.Proper, Holds;
    ResealGives(c, t, heir);
  }

  // ---------------------------------------------------------------------
  // What they add up to
  // ---------------------------------------------------------------------

  lemma PutStep(s: Suite, master: Master, c: Contents, ch: Change, name: Bytes, pt: Bytes)
    requires Aead.Correct(s.cipher) && Intact(s, master, c) && Writable(Applied(c, ch))
    requires Does(s, master, c, ch, PutText(name, pt))
    ensures Intact(s, master, Applied(c, ch)) && Plain(s, master, Applied(c, ch)) == Plain(s, master, c)[name := pt]
  {
    var e :| GoodSeal(e) && PutTarget(s, master, c, name, pt, e) == Ok(Applied(c, ch));
    PutTargetIs(s, master, c, name, pt, e);
    hide PutTarget, Intact, Plain, Applied, Aead.Correct;
  }

  lemma RotateStep(s: Suite, master: Master, c: Contents, ch: Change, other: Master)
    requires Aead.Correct(s.cipher) && Intact(s, master, c) && Writable(Applied(c, ch))
    requires Does(s, master, c, ch, NewMaster(other))
    ensures Intact(s, other, Applied(c, ch)) && Plain(s, other, Applied(c, ch)) == Plain(s, master, c)
  {
    var e :| Rotation.GoodRotate(e) && Rotation.Target(s, master, other, c, e) == Ok(Applied(c, ch));
    hide Rotation.Target, Intact, Plain, Applied, Aead.Correct, Serialized;
    Rotation.TargetIsIntact(s, master, other, c, e);
  }

  /** One more acknowledged call changes the plain map as its caller would expect. */
  lemma WriteStep(s: Suite, master: Master, file: Option<Bytes>, ch: Change, tc: TextChange, p: Texts)
    requires Aead.Correct(s.cipher) && Writes(s, master, file, ch, tc)
    requires if file.Some? then HoldsTexts(s, master, file, p) else p == map[]
    ensures HoldsTexts(s, MasterAfter(master, [tc]), NextFile(file, ch), TextsAfter(p, [tc]))
  {
    assert [tc][..0] == [];
    if file.None? {
      PersistThenLoad(ch.created);
    } else {
      var c := ReadStore(file.value).value;
      PersistThenLoad(Applied(c, ch));
      match tc {
        case PutText(name, pt) => PutStep(s, master, c, ch, name, pt);
        case DeleteText(name) => DeleteTargetIs(s, master, c, name);
        case NewMaster(other) => RotateStep(s, master, c, ch, other);
        case NewStore =>
      }
      hide Intact, Plain, Applied, Does, ReadStore, Serialized, Aead.Correct, DeleteTarget;
    }
  }

  lemma LastText(start: Texts, master: Master, tcs: seq<TextChange>)
    requires tcs != []
    ensures var k := |tcs| - 1;
      && TextsAfter(start, tcs) == TextsAfter(TextsAfter(start, tcs[..k]), [tcs[k]])
      && MasterAfter(master, tcs) == MasterAfter(MasterAfter(master, tcs[..k]), [tcs[k]])
  {
    assert [tcs[|tcs| - 1]][..0] == [];
  }

  /**
   * Written one after the other, each on what the one before it left, the calls add
   * up to their plain map: every `put` and `delete` counts, and no `rotate` changes
   * a text.
   */
  lemma {:induction false} ChangesAddUp(s: Suite, master: Master, start: Option<Bytes>, p: Texts, chs: seq<Change>,
                                        tcs: seq<TextChange>)
    requires Aead.Correct(s.cipher) && AllWrite(s, master, start, chs, tcs)
    requires if start.Some? then HoldsTexts(s, master, start, p) else p == map[]
    ensures var file := FileAfter(start, chs);
      if file.Some? then HoldsTexts(s, MasterAfter(master, tcs), file, TextsAfter(p, tcs))
      else chs == [] && tcs == [] && start.None?
    decreases |chs|
  {
    hide Aead.Correct, HoldsTexts, Writes, NextFile;
    if chs != [] {
      var k := |chs| - 1;
      ChangesAddUp(s, master, start, p, chs[..k], tcs[..k]);
      if FileAfter(start, chs[..k]).None? { assert chs[..k] == [] && tcs[..k] == []; }
      LastText(p, master, tcs);
      WriteStep(s, MasterAfter(master, tcs[..k]), FileAfter(start, chs[..k]), chs[k], tcs[k], TextsAfter(p, tcs[..k]));
      assert HoldsTexts(s, MasterAfter(master, tcs), FileAfter(start, chs), TextsAfter(p, tcs));
      HeldIsThere(s, MasterAfter(master, tcs), FileAfter(start, chs), TextsAfter(p, tcs));
    }
  }

  lemma HeldIsThere(s: Suite, master: Master, file: Option<Bytes>, p: Texts)
    requires HoldsTexts(s, master, file, p)
    ensures file.Some?
  {
  }

  // ---------------------------------------------------------------------
  // Any number of handles
  // ---------------------------------------------------------------------

  /** The call that is being acknowledged is `tc`, made on what its own handle holds. */
  ghost predicate Acknowledges(s: Suite, master: Master, p: Protocol.Phase, tc: TextChange)
    requires p.Syncing?
  {
    if p.purpose.Creating? then tc.NewStore?
    else ValidContents(p.held) && Does(s, master, p.held, p.purpose.change, tc)
  }

  /**
   * In the run `acts`, the calls acknowledged one after the other are `tcs`, each made
   * by whichever handle acknowledges it, on what that handle holds, under the
   * master of that time. `done` were acknowledged before.
   */
  ghost predicate Calls(s: Suite, master: Master, sys: Protocol.System, acts: seq<Protocol.Action>,
                        done: seq<TextChange>, tcs: seq<TextChange>)
    requires Protocol.CanRun(sys, acts)
    decreases |acts|
  {
    if acts == [] then tcs == []
    else if !acts[0].SyncDone? then Calls(s, master, Protocol.Apply(sys, acts[0]), acts[1..], done, tcs)
    else
      && tcs != [] && sys.procs[acts[0].h].Syncing?
      && Acknowledges(s, MasterAfter(master, done), sys.procs[acts[0].h], tcs[0])
      && Calls(s, master, Protocol.Apply(sys, acts[0]), acts[1..], done + [tcs[0]], tcs[1..])
  }

  /** What a handle holds is what the file holds: the call it makes on the one is a call on the other. */
  lemma AcknowledgedWrites(s: Suite, master: Master, sys: Protocol.System, h: Protocol.Pid, p: Protocol.Phase,
                           done: seq<TextChange>, tc: TextChange)
    requires Protocol.Orderly(sys) && Protocol.Enabled(sys, Protocol.SyncDone(h))
    requires sys.procs[h] == p && p.Syncing?
    requires AllWrite(s, master, sys.start, sys.acks, done) && Acknowledges(s, MasterAfter(master, done), p, tc)
    ensures AllWrite(s, master, sys.start, Protocol.Apply(sys, Protocol.SyncDone(h)).acks, done + [tc])
  {
    Protocol.UpdateBuildsOnTheLast(sys, h, p);
    hide Protocol.Apply, Protocol.Enabled, Protocol.Orderly, Does, Writable, ReadStore, FileAfter, Applied,
         ValidContents;
    var ch := Protocol.ChangeOf(p.target, p.purpose);
    var chs, tcs := sys.acks + [ch], done + [tc];
    assert chs[..|chs| - 1] == sys.acks && tcs[..|tcs| - 1] == done;
    assert Writes(s, MasterAfter(master, done), FileAfter(sys.start, sys.acks), ch, tc);
  }

  lemma {:induction false} CallsWrite(s: Suite, master: Master, sys: Protocol.System, acts: seq<Protocol.Action>,
                                      done: seq<TextChange>, tcs: seq<TextChange>)
    requires Protocol.Orderly(sys) && Protocol.CanRun(sys, acts) && Protocol.CalmRun(sys, acts)
    requires AllWrite(s, master, sys.start, sys.acks, done) && Calls(s, master, sys, acts, done, tcs)
    ensures AllWrite(s, master, sys.start, Protocol.After(sys, acts).acks, done + tcs)
    decreases |acts|
  {
    hide Protocol.Apply, Protocol.Enabled, Protocol.Orderly, Protocol.Calm, AllWrite, Acknowledges, MasterAfter;
    if acts == [] {
      assert done + [] == done;
    } else {
      var a, next := acts[0], Protocol.Apply(sys, acts[0]);
      Protocol.OrderlyStep(sys, a);
      Protocol.AcksStay(sys, a);
      if a.SyncDone? {
        Protocol.SyncingNow(sys, a.h);
        AcknowledgedWrites(s, master, sys, a.h, sys.procs[a.h], done, tcs[0]);
        CallsWrite(s, master, next, acts[1..], done + [tcs[0]], tcs[1..]);
        assert done + [tcs[0]] + tcs[1..] == done + tcs;
      } else {
        CallsWrite(s, master, next, acts[1..], done, tcs);
      }
    }
  }

  /**
   * Any number of handles in any number of processes, in any interleaving without a
   * failed directory sync or a power loss, each putting, deleting and rotating what
   * it holds itself: whenever no write is half done, the file is the plain map of all
   * acknowledged calls, in the order of acknowledgement. No update is lost.
   */
  lemma SharedStoreIsPlainMap(s: Suite, master: Master, p: Texts, sys: Protocol.System, acts: seq<Protocol.Action>,
                              tcs: seq<TextChange>)
    requires Aead.Correct(s.cipher)
    requires Protocol.Initial(sys) && Protocol.CanRun(sys, acts) && Protocol.CalmRun(sys, acts)
    requires if sys.start.Some? then HoldsTexts(s, master, sys.start, p) else p == map[]
    requires Calls(s, master, sys, acts, [], tcs)
    requires !Protocol.Midway(Protocol.After(sys, acts))
    ensures var file := Protocol.After(sys, acts).file;
      if file.Some? then HoldsTexts(s, MasterAfter(master, tcs), file, TextsAfter(p, tcs)) else tcs == []
  {
    Protocol.InitialIsOrderly(sys);
    assert AllWrite(s, master, sys.start, sys.acks, []);
    hide *;
    CallsWrite(s, master, sys, acts, [], tcs);
    assert [] + tcs == tcs;
    Protocol.FileIsAcknowledgedChanges(sys, acts);
    ChangesAddUp(s, master, sys.start, p, Protocol.After(sys, acts).acks, tcs);
  }
}
