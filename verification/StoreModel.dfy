/**
 * The store as a state machine: what each call does to the handle's memory and
 * to the file, and the plain map of names to plaintexts that it implements.
 */
module StoreModel {
  import opened Base
  import opened StoreFormat
  import FS = FileSystem
  import AW = AtomicWrite
  import Aead

  // "krypto/store/v1|"
  const INFO_PREFIX: Bytes :=
    [0x6b, 0x72, 0x79, 0x70, 0x74, 0x6f, 0x2f, 0x73, 0x74, 0x6f, 0x72, 0x65, 0x2f, 0x76, 0x31, 0x7c]
  const MAX_DERIVE_INPUT_BYTES := 1024

  type Master = Bytes

  /** The library's cryptography: the ciphers, and key derivation. */
  datatype Suite = Suite(cipher: Aead.Cipher, derive: (Master, Bytes, Bytes) -> Aead.Key)

  /** What the environment decides about sealing one value: randomness, and memory for the key. */
  datatype SealEnv = SealEnv(random: Option<Bytes>, memory: bool)

  /** What the environment decides about opening one value: memory for the key and for the text. */
  datatype GetEnv = GetEnv(keyMemory: bool, textMemory: bool)

  predicate GoodSeal(e: SealEnv) {
    Aead.GoodRandom(e.random)
  }

  // ---------------------------------------------------------------------
  // The calls
  // ---------------------------------------------------------------------

  /** `MasterKey::derive`. */
  function Derive(s: Suite, master: Master, info: Bytes, salt: Bytes, memory: bool): Result<Aead.Key> {
    if info == [] then Err(Format)
    else if |info| > MAX_DERIVE_INPUT_BYTES || |salt| > MAX_DERIVE_INPUT_BYTES then Err(Format)
    else if !memory then Err(Hardening)
    else Ok(s.derive(master, info, salt))
  }

  function DekFor(s: Suite, master: Master, salt: Bytes, name: Bytes, memory: bool): Result<Aead.Key> {
    Derive(s, master, INFO_PREFIX + name, salt, memory)
  }

  /** The blob `put` makes of a value. */
  function SealValue(s: Suite, master: Master, c: Contents, name: Bytes, pt: Bytes, e: SealEnv): Result<Bytes>
    requires |c.keyId| == KEY_ID_LEN && GoodSeal(e)
  {
    match DekFor(s, master, c.salt, name, e.memory)
    case Err(err) => Err(err)
    case Ok(dek) => Aead.SealBlob(s.cipher, dek, c.keyId, pt, Aead.Aegis256, e.random)
  }

  /** `get`. */
  function GetValue(s: Suite, master: Master, c: Contents, name: Bytes, e: GetEnv): Result<Bytes> {
    if name !in c.entries then Err(KeyNotFound)
    else match Aead.BlobKeyId(c.entries[name])
      case Err(err) => Err(err)
      case Ok(id) =>
        if id != c.keyId then Err(Auth)
        else match DekFor(s, master, c.salt, name, e.keyMemory)
          case Err(err) => Err(err)
          case Ok(dek) => Aead.OpenBlob(s.cipher, dek, c.entries[name], e.textMemory)
  }

  /** The contents `put` tries to write. */
  function PutTarget(s: Suite, master: Master, c: Contents, name: Bytes, pt: Bytes, e: SealEnv): Result<Contents>
    requires ValidContents(c) && GoodSeal(e)
  {
    if !ValidName(name) then Err(Format)
    else match SealValue(s, master, c, name, pt, e)
      case Err(err) => Err(err)
      case Ok(blob) => Ok(c.(entries := c.entries[name := blob]))
  }

  /** The contents `delete` tries to write. */
  function DeleteTarget(c: Contents, name: Bytes): Contents {
    c.(entries := c.entries - {name})
  }

  /** `persist`: serialise, then write. */
  function Persist(c: Contents, fs: FS.Fs, w: AW.WriteEnv): (FS.Fs, Result<()>) {
    match Serialized(c)
    case Err(err) => (fs, Err(err))
    case Ok(d) => (AW.Final(fs, w, d), AW.Verdict(fs, w))
  }

  /** Writing `target` from a handle holding `c`: memory keeps `c` unless the write is acknowledged. */
  function Commit(c: Contents, target: Contents, fs: FS.Fs, w: AW.WriteEnv): (Contents, FS.Fs, Result<()>) {
    var (fs', r) := Persist(target, fs, w);
    (if r.Ok? then target else c, fs', r)
  }

  function Put(s: Suite, master: Master, c: Contents, fs: FS.Fs, name: Bytes, pt: Bytes, e: SealEnv,
               w: AW.WriteEnv): (Contents, FS.Fs, Result<()>)
    requires ValidContents(c) && GoodSeal(e)
  {
    match PutTarget(s, master, c, name, pt, e)
    case Err(err) => (c, fs, Err(err))
    case Ok(target) => Commit(c, target, fs, w)
  }

  function Delete(c: Contents, fs: FS.Fs, name: Bytes, w: AW.WriteEnv): (Contents, FS.Fs, Result<()>) {
    if name !in c.entries then (c, fs, Ok(())) else Commit(c, DeleteTarget(c, name), fs, w)
  }

  /** What the environment decides about opening a store. */
  datatype OpenEnv = OpenEnv(readFails: bool, privateFails: bool, salt: Option<Bytes>, keyId: Option<Bytes>,
                             write: AW.WriteEnv)

  predicate GoodOpen(e: OpenEnv) {
    (e.salt.Some? ==> |e.salt.value| == SALT_LEN) && (e.keyId.Some? ==> |e.keyId.value| == KEY_ID_LEN)
  }

  /** `read_capped`: the file, `None` if there is none, `Format` if it is too long. */
  function ReadCapped(fs: FS.Fs, fails: bool): Result<Option<Bytes>> {
    if fails then Err(Io)
    else match FS.ReadName(fs, FS.StoreFile)
      case None => Ok(None)
      case Some(d) => if |d| > MAX_STORE_BYTES then Err(Format) else Ok(Some(d))
  }

  /** `open`, once the lock is taken. */
  function Open(fs: FS.Fs, e: OpenEnv): (FS.Fs, Result<Contents>) {
    match ReadCapped(fs, e.readFails)
    case Err(err) => (fs, Err(err))
    case Ok(Some(d)) => if e.privateFails then (fs, Err(Io)) else (fs, ReadStore(d))
    case Ok(None) =>
      if e.salt.None? || e.keyId.None? then (fs, Err(Hardening))
      else
        var created := Contents(e.salt.value, e.keyId.value, map[]);
        var (fs', r) := Persist(created, fs, e.write);
        match r
        case Err(err) => (fs', Err(err))
        case Ok(_) => (fs', Ok(created))
  }

  /** `d` is a file that `load` accepts as `c`, and within the cap. */
  ghost predicate Accepts(d: Bytes, c: Contents) {
    |d| <= 16 * 1024 * 1024 && exists rs :: Spells(d, c, rs)
  }

  /**
   * `open` of a file there is, whatever it holds: the file is left alone. It is
   * opened if and only if it can be read and made private, is not too long, and some
   * legal record list spells it; as just what that spells. A file that is too long or
   * that nothing spells is `Format`; it is never taken for a missing one.
   */
  lemma OpenLeavesAFile(fs: FS.Fs, e: OpenEnv, d: Bytes, c: Contents)
    requires FS.ReadName(fs, FS.StoreFile) == Some(d)
    ensures var (fs', r) := Open(fs, e);
      && fs' == fs
      && (r == Ok(c) <==> !e.readFails && !e.privateFails && Accepts(d, c))
      && (r.Err? ==>
            r == Err(if e.readFails then Io
                     else if |d| > 16 * 1024 * 1024 then Format
                     else if e.privateFails then Io
                     else Format))
  {
    ReadStoreIff(d, c);
    ReadStoreErrs(d);
    hide ReadStore;
  }

  /** `open` of a file there is not: a new and empty store, under the salt and key id drawn, or an error. */
  lemma OpenCreates(fs: FS.Fs, e: OpenEnv)
    requires FS.ReadName(fs, FS.StoreFile) == None && GoodOpen(e) && AW.Ready(fs, e.write)
    ensures var (fs', r) := Open(fs, e);
      && (r.Ok? <==> !e.readFails && e.salt.Some? && e.keyId.Some? && AW.Starts(fs, e.write) && e.write.fault.NoFault?)
      && (r.Ok? ==>
            && r.value == Contents(e.salt.value, e.keyId.value, map[])
            && FS.ReadName(fs', FS.StoreFile) == Some(Header(e.salt.value, e.keyId.value)))
      && (e.readFails ==> fs' == fs && r == Err(Io))
      && (!e.readFails && (e.salt.None? || e.keyId.None?) ==> fs' == fs && r == Err(Hardening))
  {
    if !e.readFails && e.salt.Some? && e.keyId.Some? {
      var c := Contents(e.salt.value, e.keyId.value, map[]);
      EmptyIsHeader(c);
      AW.VerdictMeans(fs, e.write, Header(c.salt, c.keyId), None);
      hide FS.ReadName, FS.Valid, FS.MayRead, AW.Final, Serialized, Header, AW.Undone;
    }
  }

  /** The file of a store without entries is its header. */
  lemma EmptyIsHeader(c: Contents)
    requires |c.salt| == SALT_LEN && |c.keyId| == KEY_ID_LEN && c.entries == map[]
    ensures Serialized(c) == Ok(Header(c.salt, c.keyId))
  {
    assert c.entries.Keys == {};
    assert SortedRecords(c.entries) == [];
    assert Image(c.salt, c.keyId, []) == Header(c.salt, c.keyId);
  }

  // ---------------------------------------------------------------------
  // The plain map behind the blobs
  // ---------------------------------------------------------------------

  /** The entry opens, under the key of its own name and with the store's own key id. */
  ghost predicate Holds(s: Suite, master: Master, c: Contents, name: Bytes)
    requires name in c.entries
  {
    GetValue(s, master, c, name, GetEnv(true, true)).Ok?
  }

  ghost predicate Intact(s: Suite, master: Master, c: Contents) {
    && ValidContents(c) && BlobsFit(c.entries)
    && forall n :: n in c.entries ==> Holds(s, master, c, n)
  }

  /** The names and their plaintexts. */
  ghost function Plain(s: Suite, master: Master, c: Contents): map<Bytes, Bytes>
    requires Intact(s, master, c)
  {
    map n | n in c.entries :: GetValue(s, master, c, n, GetEnv(true, true)).value
  }

  /** What opening the value under its name does, given memory to work in. */
  lemma GetIsLookup(s: Suite, master: Master, c: Contents, name: Bytes, e: GetEnv)
    requires Intact(s, master, c)
    ensures GetValue(s, master, c, name, e) ==
      if name !in c.entries then Err(KeyNotFound)
      else if !e.keyMemory || !e.textMemory then Err(Hardening)
      else Ok(Plain(s, master, c)[name])
  {
    if name in c.entries {
      assert Holds(s, master, c, name);
      hide Aead.ReadHeader, Aead.PrimitiveOpen;
    }
  }

  /** `blob` is what `name` may hold in the store of `c`, with text `pt`. */
  ghost predicate Seals(s: Suite, master: Master, c: Contents, name: Bytes, blob: Bytes, pt: Bytes) {
    && Aead.BlobKeyId(blob) == Ok(c.keyId)
    && DekFor(s, master, c.salt, name, true).Ok?
    && Aead.OpenBlob(s.cipher, DekFor(s, master, c.salt, name, true).value, blob, true) == Ok(pt)
  }

  /** Sealing a value under a valid name can only fail for want of memory or randomness. */
  lemma SealValueIs(s: Suite, master: Master, c: Contents, name: Bytes, pt: Bytes, e: SealEnv)
    requires Aead.Correct(s.cipher) && ValidContents(c) && GoodSeal(e) && ValidName(name)
    ensures var r := SealValue(s, master, c, name, pt, e);
      && (r.Ok? <==> e.memory && e.random.Some?)
      && (r.Err? ==> r == Err(Hardening))
      && (r.Ok? ==> Seals(s, master, c, name, r.value, pt) && |r.value| == Aead.HEADER_LEN + |pt| + 32)
  {
    if e.memory && e.random.Some? {
      var dek := DekFor(s, master, c.salt, name, true).value;
      AegisSeals(s.cipher, dek, c.keyId, pt, e.random);
      Aead.SealThenOpen(s.cipher, dek, c.keyId, pt, Aead.Aegis256, e.random);
      hide Aead.Correct, Aead.SealBlob, Aead.OpenBlob, Aead.BlobKeyId;
    }
  }

  lemma AegisSeals(c: Aead.Cipher, key: Aead.Key, keyId: Bytes, pt: Bytes, random: Option<Bytes>)
    requires Aead.Correct(c) && |keyId| == KEY_ID_LEN && Aead.GoodRandom(random) && random.Some?
    ensures Aead.SealBlob(c, key, keyId, pt, Aead.Aegis256, random).Ok?
  {
  }

  /** An entry that seals a text adds that text to the plain map, and touches no other name. */
  lemma EntryAdds(s: Suite, master: Master, c: Contents, name: Bytes, blob: Bytes, pt: Bytes)
    requires Intact(s, master, c) && ValidName(name) && |blob| < 0x1_0000_0000
    requires Seals(s, master, c, name, blob, pt)
    ensures var t := c.(entries := c.entries[name := blob]);
      Intact(s, master, t) && Plain(s, master, t) == Plain(s, master, c)[name := pt]
  {
    hide Aead.OpenBlob, Aead.BlobKeyId, DekFor, ValidName;
    var t := c.(entries := c.entries[name := blob]);
    forall n | n in t.entries
      ensures GetValue(s, master, t, n, GetEnv(true, true)) ==
        if n == name then Ok(pt) else GetValue(s, master, c, n, GetEnv(true, true))
      ensures n in c.entries ==> Holds(s, master, c, n)
    {
    }
  }

  /** What `put` tries to write is the map with the one name set. */
  lemma PutTargetIs(s: Suite, master: Master, c: Contents, name: Bytes, pt: Bytes, e: SealEnv)
    requires Aead.Correct(s.cipher) && Intact(s, master, c) && GoodSeal(e)
    ensures var t := PutTarget(s, master, c, name, pt, e);
      && (t.Ok? <==> ValidName(name) && e.memory && e.random.Some?)
      && (t.Err? ==> t == Err(if !ValidName(name) then Format else Hardening))
      && (t.Ok? ==> ValidContents(t.value))
      && (t.Ok? && BlobsFit(t.value.entries) ==>
        Intact(s, master, t.value) && Plain(s, master, t.value) == Plain(s, master, c)[name := pt])
  {
    if ValidName(name) {
      SealValueIs(s, master, c, name, pt, e);
      var r := SealValue(s, master, c, name, pt, e);
      if r.Ok? && |r.value| < 0x1_0000_0000 {
        EntryAdds(s, master, c, name, r.value, pt);
      }
      if r.Ok? {
        assert PutTarget(s, master, c, name, pt, e).value.entries[name] == r.value;
      }
      hide SealValue, Holds, Seals, ValidName;
    }
  }

  lemma DeleteTargetIs(s: Suite, master: Master, c: Contents, name: Bytes)
    requires Intact(s, master, c)
    ensures var t := DeleteTarget(c, name);
      Intact(s, master, t) && Plain(s, master, t) == Plain(s, master, c) - {name}
  {
    hide Aead.OpenBlob, Aead.BlobKeyId, Derive;
    var t := DeleteTarget(c, name);
    forall n | n in t.entries
      ensures GetValue(s, master, t, n, GetEnv(true, true)) == GetValue(s, master, c, n, GetEnv(true, true))
      ensures Holds(s, master, c, n)
    {
    }
  }

  // ---------------------------------------------------------------------
  // Tampering with the file
  // ---------------------------------------------------------------------

  /** A value sealed by `put` or `rotate`: for which store and name, and with which randomness. */
  datatype Sealing = Sealing(master: Master, salt: Bytes, keyId: Bytes, name: Bytes, pt: Bytes, random: Bytes)

  predicate GoodSealings(ps: seq<Sealing>) {
    forall i :: 0 <= i < |ps| ==> |ps[i].keyId| == KEY_ID_LEN && |ps[i].random| == Aead.NONCE_FIELD
  }

  function KeyOf(s: Suite, p: Sealing): Aead.Key {
    s.derive(p.master, INFO_PREFIX + p.name, p.salt)
  }

  function UsesOf(s: Suite, ps: seq<Sealing>): (us: seq<Aead.Use>)
    requires GoodSealings(ps)
    ensures |us| == |ps| && forall i :: 0 <= i < |us| ==> Aead.GoodUse(us[i])
  {
    seq(|ps|, i requires 0 <= i < |ps| =>
      Aead.UseSeal(KeyOf(s, ps[i]), ps[i].keyId, ps[i].pt, Aead.Aegis256, Some(ps[i].random)))
  }

  /** The blob that a sealing gave out. */
  function BlobOf(s: Suite, prim: Aead.Primitives, p: Sealing): Result<Bytes>
    requires |p.keyId| == KEY_ID_LEN && |p.random| == Aead.NONCE_FIELD
  {
    Aead.SealBlob(Aead.Ideal(prim, {}), KeyOf(s, p), p.keyId, p.pt, Aead.Aegis256, Some(p.random))
  }

  /** Some sealing under this key gave out this blob for this text. */
  ghost predicate GaveOut(s: Suite, prim: Aead.Primitives, ps: seq<Sealing>, key: Aead.Key, blob: Bytes, pt: Bytes)
    requires GoodSealings(ps)
  {
    exists i :: 0 <= i < |ps| && KeyOf(s, ps[i]) == key && BlobOf(s, prim, ps[i]) == Ok(blob) && ps[i].pt == pt
  }

  lemma GaveOutStep(s: Suite, prim: Aead.Primitives, ps: seq<Sealing>, key: Aead.Key, blob: Bytes, pt: Bytes)
    requires GoodSealings(ps) && ps != []
    ensures GoodSealings(ps[1..])
    ensures GaveOut(s, prim, ps, key, blob, pt) <==>
      (KeyOf(s, ps[0]) == key && BlobOf(s, prim, ps[0]) == Ok(blob) && ps[0].pt == pt)
      || GaveOut(s, prim, ps[1..], key, blob, pt)
  {
    hide KeyOf, BlobOf;
    assert forall i :: 0 <= i < |ps[1..]| ==> ps[1..][i] == ps[i + 1];
    if i :| 0 < i < |ps| && KeyOf(s, ps[i]) == key && BlobOf(s, prim, ps[i]) == Ok(blob) && ps[i].pt == pt {
      assert ps[1..][i - 1] == ps[i];
    }
  }

  /** Sealing does not depend on what was sealed before. */
  lemma SealIgnoresLog(s: Suite, prim: Aead.Primitives, w: Aead.World, p: Sealing)
    requires |p.keyId| == KEY_ID_LEN && |p.random| == Aead.NONCE_FIELD
    ensures var key := KeyOf(s, p);
      var w' := Aead.After(prim, w, Aead.UseSeal(key, p.keyId, p.pt, Aead.Aegis256, Some(p.random)));
      w'.issued == w.issued + if BlobOf(s, prim, p).Ok? then {(key, BlobOf(s, prim, p).value, p.pt)} else {}
  {
    hide Aead.Header, KeyOf;
  }

  /** What the blob layer has given out after the sealings is just what they gave out. */
  lemma {:induction false} IssuedIsGivenOut(s: Suite, prim: Aead.Primitives, w: Aead.World, ps: seq<Sealing>,
                                            key: Aead.Key, blob: Bytes, pt: Bytes)
    requires GoodSealings(ps)
    ensures (key, blob, pt) in Aead.Run(prim, w, UsesOf(s, ps)).issued <==>
      (key, blob, pt) in w.issued || GaveOut(s, prim, ps, key, blob, pt)
    decreases |ps|
  {
    if ps != [] {
      var us := UsesOf(s, ps);
      var w' := Aead.After(prim, w, us[0]);
      SealIgnoresLog(s, prim, w, ps[0]);
      GaveOutStep(s, prim, ps, key, blob, pt);
      assert UsesOf(s, ps[1..]) == us[1..];
      hide GaveOut, Aead.After, KeyOf, BlobOf;
      IssuedIsGivenOut(s, prim, w', ps[1..], key, blob, pt);
    }
  }

  /** The cipher of the suite is ideal, and has made what these sealings made. */
  ghost predicate HasSealed(s: Suite, prim: Aead.Primitives, ps: seq<Sealing>)
    requires GoodSealings(ps)
  {
    Aead.Invertible(prim)
    && s.cipher == Aead.Ideal(prim, Aead.Run(prim, Aead.World({}, {}), UsesOf(s, ps)).log)
  }

  /**
   * Whatever is in the file: after any values have been sealed, for any stores and
   * names, an entry opens to a text exactly if it carries the store's key id and some
   * sealing under this name's own key gave out this very blob for this text.
   */
  lemma OpensIffSealed(s: Suite, prim: Aead.Primitives, ps: seq<Sealing>, master: Master, c: Contents, name: Bytes,
                       pt: Bytes)
    requires GoodSealings(ps) && HasSealed(s, prim, ps)
    requires name in c.entries && |name| <= MAX_NAME_LEN && |c.salt| == SALT_LEN
    ensures var r := GetValue(s, master, c, name, GetEnv(true, true));
      var blob := c.entries[name];
      && (r == Ok(pt) <==>
            (&& Aead.BlobKeyId(blob) == Ok(c.keyId)
             && GaveOut(s, prim, ps, s.derive(master, INFO_PREFIX + name, c.salt), blob, pt)))
      && (r.Err? && Aead.BlobKeyId(blob) == Ok(c.keyId) ==> r == Err(Auth))
  {
    var blob, key := c.entries[name], s.derive(master, INFO_PREFIX + name, c.salt);
    Aead.OpensIffIssued(prim, UsesOf(s, ps), key, blob, pt);
    IssuedIsGivenOut(s, prim, Aead.World({}, {}), ps, key, blob, pt);
    Aead.FormatIff(s.cipher, key, blob, true);
    hide GaveOut, Aead.OpenBlob, Aead.BlobKeyId, Aead.Run, Aead.Ideal, UsesOf;
  }

  /**
   * A blob moved to another name does not open there. It is `Auth`, if it was never
   * sealed for that name in that store, and no value sealed for another name or
   * store has, by chance, the key of this one.
   */
  lemma BlobIsBoundToItsName(s: Suite, prim: Aead.Primitives, ps: seq<Sealing>, master: Master, c: Contents,
                             name: Bytes)
    requires GoodSealings(ps) && HasSealed(s, prim, ps)
    requires ValidContents(c) && name in c.entries && Aead.BlobKeyId(c.entries[name]) == Ok(c.keyId)
    requires forall i :: 0 <= i < |ps| && KeyOf(s, ps[i]) == s.derive(master, INFO_PREFIX + name, c.salt) ==>
      ps[i].master == master && ps[i].salt == c.salt && ps[i].name == name
    requires forall i :: 0 <= i < |ps| && BlobOf(s, prim, ps[i]) == Ok(c.entries[name]) ==>
      !(ps[i].master == master && ps[i].salt == c.salt && ps[i].name == name)
    ensures GetValue(s, master, c, name, GetEnv(true, true)) == Err(Auth)
  {
    var r := GetValue(s, master, c, name, GetEnv(true, true));
    assert ValidName(name);
    OpensIffSealed(s, prim, ps, master, c, name, if r.Ok? then r.value else []);
    hide GetValue, KeyOf, BlobOf, HasSealed;
  }

  /**
   * Every answer of `get`, from a file that may hold anything: in this order, a missing
   * name, no krypto blob, a blob of another version or algorithm, one with another key
   * id, no memory for the key, and then what opening it gives.
   */
  lemma GetIs(s: Suite, master: Master, c: Contents, name: Bytes, e: GetEnv)
    requires ValidContents(c) && name in c.entries
    ensures var blob := c.entries[name];
      GetValue(s, master, c, name, e) ==
        if |blob| < 54 || blob[..4] != [0x46, 0x41, 0x46, 0x4e] then Err(Format)
        else if blob[4] != 1 || blob[5] !in {1, 2, 3} then Err(Auth)
        else if blob[6..22] != c.keyId then Err(Auth)
        else if !e.keyMemory then Err(Hardening)
        else Aead.OpenBlob(s.cipher, s.derive(master, INFO_PREFIX + name, c.salt), blob, e.textMemory)
  {
    var blob := c.entries[name];
    assert ValidName(name);
    Aead.HeaderIff(blob, Aead.Aegis256);
    Aead.HeaderIff(blob, Aead.XChaCha20Poly1305);
    Aead.HeaderIff(blob, Aead.Aes256Gcm);
    hide Aead.ReadHeader, Aead.OpenBlob, ValidName;
    if |blob| >= 54 && blob[..4] == [0x46, 0x41, 0x46, 0x4e] && blob[4] == 1 && blob[5] in {1, 2, 3} {
      if blob[5] == 1 { assert Aead.Starts(blob, Aead.Aegis256); }
      else if blob[5] == 2 { assert Aead.Starts(blob, Aead.XChaCha20Poly1305); }
      else { assert Aead.Starts(blob, Aead.Aes256Gcm); }
    }
  }

  /**
   * `derive` refuses an empty context and one, or a salt, of more than 1024 bytes; no
   * name a store may have is refused.
   */
  lemma DeriveIff(s: Suite, master: Master, info: Bytes, salt: Bytes, memory: bool)
    ensures Derive(s, master, info, salt, memory) ==
      if |info| == 0 || |info| > 1024 || |salt| > 1024 then Err(Format)
      else if memory then Ok(s.derive(master, info, salt)) else Err(Hardening)
    ensures DekFor(s, master, salt, info, memory) == Derive(s, master, INFO_PREFIX + info, salt, memory)
    ensures ValidName(info) && |salt| == 16 ==> (DekFor(s, master, salt, info, memory).Ok? <==> memory)
  {
  }

  /** A key id that differs between the header and a blob that has one is `Auth`, before anything is opened. */
  lemma KeyIdMismatchIsAuth(s: Suite, master: Master, c: Contents, name: Bytes, e: GetEnv)
    requires name in c.entries && Aead.BlobKeyId(c.entries[name]).Ok?
    requires Aead.BlobKeyId(c.entries[name]) != Ok(c.keyId)
    ensures GetValue(s, master, c, name, e) == Err(Auth)
  {
  }
}
