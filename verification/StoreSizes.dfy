/**
 * How long the file gets, and so exactly when `put` and `delete` succeed; and
 * exactly when they leave memory and file apart.
 */
module StoreSizes {
  import opened Base
  import opened NameOrder
  import opened StoreFormat
  import opened StoreModel
  import FS = FileSystem
  import AW = AtomicWrite
  import Aead

  /** The length of the file `persist` writes for `c`. */
  function FileLength(c: Contents): nat {
    HEADER_LEN + Size(SortedRecords(c.entries))
  }

  /** Serialising fails only for want of room. */
  lemma SerializedIff(c: Contents)
    requires |c.salt| == SALT_LEN && |c.keyId| == KEY_ID_LEN
    ensures Serialized(c).Ok? <==> FileLength(c) <= MAX_STORE_BYTES
    ensures Serialized(c).Ok? ==> |Serialized(c).value| == FileLength(c)
  {
    ImageParts(c.salt, c.keyId, SortedRecords(c.entries));
    if FileLength(c) <= MAX_STORE_BYTES {
      FittingBlobs(c);
    }
  }

  lemma {:induction false} SizeOfMore(rs: seq<Record>, r: Record)
    ensures Size(rs + [r]) == Size(rs) + 6 + |r.name| + |r.blob|
  {
    if rs == [] {
      assert [r][1..] == [];
      assert [] + [r] == [r];
    } else {
      SizeOfMore(rs[1..], r);
      assert (rs + [r])[1..] == rs[1..] + [r];
    }
  }

  lemma OneMoreListed(rs: seq<Record>, m: map<Bytes, Bytes>, r: Record)
    requires Lists(rs, m) && r.name !in m
    ensures Distinct(rs + [r]) && ToMap(rs + [r]) == m[r.name := r.blob]
  {
    ListedMap(rs, m);
    assert (rs + [r])[..|rs|] == rs;
  }

  /** A new entry adds its own record to the size, wherever in the order it goes. */
  lemma EntrySize(m: map<Bytes, Bytes>, name: Bytes, blob: Bytes)
    requires name !in m
    ensures Size(SortedRecords(m[name := blob])) == Size(SortedRecords(m)) + 6 + |name| + |blob|
  {
    hide Size, SortedRecords, ToMap, Sorted;
    var r := Record(name, blob);
    var before, after := SortedRecords(m), SortedRecords(m[name := blob]);
    SortedRecordsList(m);
    OneMoreListed(before, m, r);
    SortedRecordsList(m[name := blob]);
    ListedMap(after, m[name := blob]);
    hide Lists;
    SameMapSameRecords(after, before + [r]);
    SizeOfPermutation(after, before + [r]);
    SizeOfMore(before, r);
  }

  /** The file without an entry is shorter by just that entry's record. */
  lemma LengthWithout(c: Contents, name: Bytes)
    requires name in c.entries
    ensures FileLength(c) == FileLength(DeleteTarget(c, name)) + 6 + |name| + |c.entries[name]|
  {
    var rest := c.entries - {name};
    assert rest[name := c.entries[name]] == c.entries;
    EntrySize(rest, name, c.entries[name]);
  }

  /** The length of the file once `name` holds a text of `len` bytes. */
  function LengthWith(c: Contents, name: Bytes, len: nat): nat {
    FileLength(DeleteTarget(c, name)) + 6 + |name| + Aead.HEADER_LEN + len + 32
  }

  /** What a `put` that gets to its write is about to write, and how long it is. */
  lemma PutTargetLength(s: Suite, master: Master, c: Contents, name: Bytes, pt: Bytes, e: SealEnv)
    requires Aead.Correct(s.cipher) && ValidContents(c) && GoodSeal(e)
    ensures var t := PutTarget(s, master, c, name, pt, e);
      && (t.Ok? <==> ValidName(name) && e.memory && e.random.Some?)
      && (t.Ok? ==>
            && ValidContents(t.value) && name in t.value.entries
            && FileLength(t.value) == LengthWith(c, name, |pt|)
            && (Serialized(t.value).Ok? <==> LengthWith(c, name, |pt|) <= MAX_STORE_BYTES))
  {
    hide Serialized, FileLength, SealValue, Aead.Correct, ValidName, Seals;
    if ValidName(name) {
      SealValueIs(s, master, c, name, pt, e);
      if e.memory && e.random.Some? {
        var blob := SealValue(s, master, c, name, pt, e).value;
        var target := c.(entries := c.entries[name := blob]);
        assert target.entries[name] == blob;
        assert DeleteTarget(target, name) == DeleteTarget(c, name) by {
          assert target.entries - {name} == c.entries - {name};
        }
        LengthWithout(target, name);
        SerializedIff(target);
        assert PutTarget(s, master, c, name, pt, e) == Ok(target);
      }
    }
  }

  /**
   * Exactly when `put` succeeds: the name is allowed, there is memory and
   * randomness, the file with the new value stays within the cap, and the write
   * meets no fault. What the store held before, and under which key, is no matter.
   */
  lemma PutSucceedsIff(s: Suite, master: Master, c: Contents, fs: FS.Fs, name: Bytes, pt: Bytes, e: SealEnv,
                       w: AW.WriteEnv)
    requires Aead.Correct(s.cipher) && ValidContents(c) && GoodSeal(e)
    ensures Put(s, master, c, fs, name, pt, e, w).2.Ok? <==>
      && ValidName(name) && e.memory && e.random.Some?
      && LengthWith(c, name, |pt|) <= MAX_STORE_BYTES
      && AW.Starts(fs, w) && w.fault.NoFault?
  {
    PutTargetLength(s, master, c, name, pt, e);
    hide Serialized, FileLength, PutTarget, LengthWith, Aead.Correct, ValidName, AW.Final;
  }

  /** `delete` never meets the cap: it succeeds exactly if there is nothing to delete or the write meets no fault. */
  lemma DeleteSucceedsIff(c: Contents, fs: FS.Fs, name: Bytes, w: AW.WriteEnv)
    requires ValidContents(c) && Serialized(c).Ok?
    ensures Delete(c, fs, name, w).2.Ok? <==> name !in c.entries || (AW.Starts(fs, w) && w.fault.NoFault?)
  {
    if name in c.entries {
      SerializedIff(c);
      SerializedIff(DeleteTarget(c, name));
      LengthWithout(c, name);
    }
  }

  // ---------------------------------------------------------------------
  // When memory and file come apart
  // ---------------------------------------------------------------------

  /** The file reads as `c`. */
  predicate FileHolds(fs: FS.Fs, c: Contents) {
    FS.ReadName(fs, FS.StoreFile).Some? && ReadStore(FS.ReadName(fs, FS.StoreFile).value) == Ok(c)
  }

  /**
   * Memory and file agree after a write of `target`, as they did before, if and
   * only if it was not a write of something new that failed after its rename. If
   * it was, memory is rolled back and the file holds the target.
   */
  lemma ApartIff(c: Contents, target: Contents, fs: FS.Fs, w: AW.WriteEnv)
    requires AW.Ready(fs, w) && FileHolds(fs, c) && ValidContents(target)
    ensures var (c', fs', r) := Commit(c, target, fs, w);
      var apart := Serialized(target).Ok? && AW.Starts(fs, w) && AW.Lasting(w.fault) && target != c;
      && (FileHolds(fs', c') <==> !apart)
      && (apart ==> c' == c && FileHolds(fs', target) && r == Err(Io))
  {
    if Serialized(target).Ok? {
      AW.VerdictMeans(fs, w, Serialized(target).value, None);
      PersistThenLoad(target);
    }
    hide ReadStore, Serialized, AW.Final, FS.ReadName, FS.Valid, FS.MayRead;
  }

  /** A suite that seals by adding a tag of zeros. */
  const SAMPLE: Suite := Suite(
    Aead.Cipher(
      (q: Aead.Call, pt: Bytes) => Some(pt + Zeros(q.alg.TagLen())),
      (q: Aead.Call, body: Bytes) =>
        if |body| < q.alg.TagLen() then None else Some(body[..|body| - q.alg.TagLen()])),
    (master: Master, info: Bytes, salt: Bytes) => Zeros(32))

  function Zeros(n: nat): (z: Bytes)
    ensures |z| == n
  {
    seq(n, _ => 0)
  }

  lemma SampleIsCorrect()
    ensures Aead.Correct(SAMPLE.cipher)
  {
    forall q: Aead.Call, pt: Bytes
      ensures SAMPLE.cipher.open(q, SAMPLE.cipher.seal(q, pt).value) == Some(pt)
    {
      assert (pt + Zeros(q.alg.TagLen()))[..|pt|] == pt;
    }
  }

  /**
   * A `put` of a new name that fails after its rename: it returns an error and the
   * name is gone from memory, but the file has it.
   */
  lemma FailedPutStays(s: Suite, master: Master, c: Contents, fs: FS.Fs, name: Bytes, pt: Bytes, e: SealEnv,
                       w: AW.WriteEnv)
    requires Aead.Correct(s.cipher) && ValidContents(c) && GoodSeal(e) && AW.Ready(fs, w) && FileHolds(fs, c)
    requires ValidName(name) && name !in c.entries && e.memory && e.random.Some?
    requires LengthWith(c, name, |pt|) <= MAX_STORE_BYTES
    requires AW.Starts(fs, w) && AW.Lasting(w.fault)
    ensures var (c', fs', r) := Put(s, master, c, fs, name, pt, e, w);
      && r == Err(Io) && c' == c
      && FS.ReadName(fs', FS.StoreFile).Some?
      && var now := ReadStore(FS.ReadName(fs', FS.StoreFile).value);
         now.Ok? && name in now.value.entries
  {
    PutTargetLength(s, master, c, name, pt, e);
    hide Serialized, LengthWith, PutTarget, Aead.Correct, ValidName, Commit, ReadStore, FS.ReadName, AW.Ready;
    ApartIff(c, PutTarget(s, master, c, name, pt, e).value, fs, w);
  }

  /** A directory that holds an empty store, all synced. */
  function EmptyStore(c: Contents): FS.Fs {
    FS.Fs(map[0 := FS.File(Image(c.salt, c.keyId, []), true)], map[FS.StoreFile := 0], map[])
  }

  lemma EmptyStoreHolds(c: Contents)
    requires |c.salt| == SALT_LEN && |c.keyId| == KEY_ID_LEN && c.entries == map[]
    ensures FileHolds(EmptyStore(c), c) && FS.Valid(EmptyStore(c)) && FileLength(c) == HEADER_LEN
  {
    assert SortedRecords(map[]) == [] by { assert c.entries.Keys == {}; }
    assert Spells(Image(c.salt, c.keyId, []), c, []);
    SpelledIsRead(Image(c.salt, c.keyId, []), c, []);
  }

  /** Such a `put`: the first of a store, with a directory that cannot be synced. */
  lemma FailedPutWitness()
    ensures var c := Contents(Zeros(16), Zeros(16), map[]);
      var fs, w := EmptyStore(c), AW.WriteEnv([], 1, AW.SyncDir, true);
      var (c', fs', r) := Put(SAMPLE, [], c, fs, [0x61], [], SealEnv(Some(Zeros(32)), true), w);
      && FileHolds(fs, c)
      && r == Err(Io) && c'.entries == map[]
      && FS.ReadName(fs', FS.StoreFile).Some?
      && var now := ReadStore(FS.ReadName(fs', FS.StoreFile).value);
         now.Ok? && [0x61] in now.value.entries
  {
    var c := Contents(Zeros(16), Zeros(16), map[]);
    var w, name: Bytes := AW.WriteEnv([], 1, AW.SyncDir, true), [0x61];
    SampleIsCorrect();
    EmptyStoreHolds(c);
    assert DeleteTarget(c, name) == c by { assert c.entries - {name} == map[]; }
    hide Put, Aead.Correct, FS.ReadName, FS.Valid, ReadStore, FileLength;
    FailedPutStays(SAMPLE, [], c, EmptyStore(c), name, [], SealEnv(Some(Zeros(32)), true), w);
  }
}
