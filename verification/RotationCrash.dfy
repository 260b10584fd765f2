/** Power lost while a rotation writes: the old map under the old master, or the same map under the new one. */
module RotationCrash {
  import opened Base
  import opened StoreFormat
  import opened StoreModel
  import opened StoreRotation
  import Runs = StoreRuns
  import FS = FileSystem
  import AW = AtomicWrite
  import Aead

  /**
   * A rotation of `c` to `t` is cut off after `k` steps of its write. What is read
   * after such a crash: something that could be read after one before the
   * rotation, recoverable under the old master; or a file that holds the very same
   * plain map under the new master. It is there to stay, and never a mixture.
   */
  lemma RotationCutFollows(s: Suite, master: Master, newMaster: Master, c: Contents, t: Contents, fs: FS.Fs,
                           e: RotateEnv, k: nat, back: FS.Fs)
    requires Aead.Correct(s.cipher) && GoodRotate(e) && Target(s, master, newMaster, c, e) == Ok(t)
    requires Runs.CutShort(fs, t, e.write, k, back)
    requires Runs.Sound(s, master, Runs.Machine(fs, Some(c)))
    ensures FS.Valid(back)
    ensures var now := FS.ReadName(back, FS.StoreFile);
      && (forall v :: FS.MayRead(back, FS.StoreFile, v) <==> v == now)
      && (|| (Runs.TextsOf(s, master, now) in Runs.MayHold(s, master, fs)
              && (now.Some? ==> Runs.Recoverable(s, master, now.value)))
          || (now.Some? && Runs.Recoverable(s, newMaster, now.value)
              && Runs.TextsOf(s, newMaster, now) == Some(Plain(s, master, c))))
  {
    var d := Serialized(t).value;
    var mid := AW.Trace(fs, e.write, d)[k];
    var now := FS.ReadName(back, FS.StoreFile);
    TargetIsIntact(s, master, newMaster, c, e);
    Runs.WrittenIsRecoverable(s, newMaster, t);
    AW.WriteIsAtomic(fs, e.write, d, k, now);
    FS.CrashIsValid(mid, back);
    forall v ensures FS.MayRead(back, FS.StoreFile, v) <==> v == now {
      Runs.ReadIsPossible(back);
      if FS.MayRead(back, FS.StoreFile, v) { Runs.SyncedReads(back, v); }
    }
    assert FS.MayRead(mid, FS.StoreFile, now);
    hide AW.Trace, FS.Crash, Target, Intact, Plain, Serialized, FS.Valid, FS.ReadName, Runs.Recoverable, Runs.TextsOf;
  }

  /**
   * So, of a store whose file is settled: the map survives a rotation that power was
   * lost in, whole, under one master or the other.
   */
  lemma RotationCutKeepsTheMap(s: Suite, master: Master, newMaster: Master, c: Contents, t: Contents, fs: FS.Fs,
                               e: RotateEnv, k: nat, back: FS.Fs)
    requires Aead.Correct(s.cipher) && GoodRotate(e) && Target(s, master, newMaster, c, e) == Ok(t)
    requires Runs.CutShort(fs, t, e.write, k, back)
    requires Runs.Sound(s, master, Runs.Machine(fs, Some(c)))
    requires Runs.MayHold(s, master, fs) == iset{Some(Plain(s, master, c))}
    ensures var now := FS.ReadName(back, FS.StoreFile);
      Runs.TextsOf(s, master, now) == Some(Plain(s, master, c))
      || Runs.TextsOf(s, newMaster, now) == Some(Plain(s, master, c))
  {
    RotationCutFollows(s, master, newMaster, c, t, fs, e, k, back);
    hide *;
  }
}
