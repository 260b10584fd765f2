/** `SecretStore`: the handle, with its methods as the source writes them. */
module SecretStore {
  import opened Base
  import opened NameOrder
  import opened StoreFormat
  import opened StoreModel
  import AW = AtomicWrite
  import Aead
  import Rotation = StoreRotation

  class SecretStore {
    const suite: Suite
    const disk: AW.Disk
    const master: Master
    var salt: Bytes
    var keyId: Bytes
    var entries: map<Bytes, Bytes>

    predicate Valid()
      reads this
    {
      ValidContents(Holding())
    }

    /** What the handle holds in memory. */
    function Holding(): Contents
      reads this
    {
      Contents(salt, keyId, entries)
    }

    constructor (suite: Suite, disk: AW.Disk, master: Master, c: Contents)
      ensures Holding() == c
      ensures this.suite == suite && this.disk == disk && this.master == master
    {
      this.suite, this.disk, this.master := suite, disk, master;
      this.salt, this.keyId, this.entries := c.salt, c.keyId, c.entries;
    }

    /** `open`, once the lock is taken. */
    static method Open(suite: Suite, disk: AW.Disk, master: Master, e: OpenEnv) returns (r: Result<SecretStore>)
      requires GoodOpen(e)
      modifies disk
      ensures disk.fs == StoreModel.Open(old(disk.fs), e).0
      ensures match StoreModel.Open(old(disk.fs), e).1
        case Err(err) => r == Err(err)
        case Ok(c) =>
          && r.Ok? && fresh(r.value) && r.value.Valid() && r.value.Holding() == c
          && r.value.suite == suite && r.value.disk == disk && r.value.master == master
    {
      var data :- ReadCapped(disk.fs, e.readFails);
      match data {
        case Some(d) =>
          if e.privateFails {
            return Err(Io);
          }
          var c :- Load(d);
          LoadedIsValid(d);
          var store := new SecretStore(suite, disk, master, c);
          return Ok(store);
        case None =>
          if e.salt.None? {
            return Err(Hardening);
          }
          if e.keyId.None? {
            return Err(Hardening);
          }
          var store := new SecretStore(suite, disk, master, Contents(e.salt.value, e.keyId.value, map[]));
          var saved :- store.Persist(e.write);
          return Ok(store);
      }
    }

    /** `persist`. */
    method Persist(w: AW.WriteEnv) returns (r: Result<()>)
      requires Valid()
      modifies disk
      ensures (disk.fs, r) == StoreModel.Persist(Holding(), old(disk.fs), w)
    {
      var buf :- Serialize(Holding());
      r := disk.AtomicWrite(buf, w);
    }

    /** `put`: sealed, inserted, written; the insert undone if the write fails. */
    method Put(name: Bytes, secret: Bytes, e: SealEnv, w: AW.WriteEnv) returns (r: Result<()>)
      requires Valid() && GoodSeal(e)
      modifies this`entries, disk
      ensures Valid()
      ensures (Holding(), disk.fs, r) == StoreModel.Put(suite, master, old(Holding()), old(disk.fs), name, secret, e, w)
    {
      hide StoreModel.Persist, Aead.SealBlob, DekFor, ValidName;
      ghost var before := Holding();
      if !ValidName(name) {
        return Err(Format);
      }
      var dek :- DekFor(suite, master, salt, name, e.memory);
      var blob :- Aead.Seal(suite.cipher, dek, keyId, secret, Aead.Aegis256, e.random);
      var previous := if name in entries then Some(entries[name]) else None;
      entries := entries[name := blob];
      r := Persist(w);
      if r.Err? {
        match previous {
          case Some(value) => entries := entries[name := value];
          case None => entries := entries - {name};
        }
        assert entries == before.entries;
      }
    }

    /** `get`. */
    method Get(name: Bytes, e: GetEnv) returns (r: Result<Bytes>)
      requires Valid()
      ensures r == GetValue(suite, master, Holding(), name, e)
    {
      if name !in entries {
        return Err(KeyNotFound);
      }
      var blob := entries[name];
      var id :- Aead.BlobKeyId(blob);
      if id != keyId {
        return Err(Auth);
      }
      var dek :- DekFor(suite, master, salt, name, e.keyMemory);
      return Aead.OpenBlob(suite.cipher, dek, blob, e.textMemory);
    }

    /** `delete`: removed, written; put back if the write fails. */
    method Delete(name: Bytes, w: AW.WriteEnv) returns (r: Result<()>)
      requires Valid()
      modifies this`entries, disk
      ensures Valid()
      ensures (Holding(), disk.fs, r) == StoreModel.Delete(old(Holding()), old(disk.fs), name, w)
    {
      ghost var before := Holding();
      if name in entries {
        var value := entries[name];
        entries := entries - {name};
        r := Persist(w);
        if r.Err? {
          entries := entries[name := value];
          assert entries == before.entries;
          return;
        }
      }
      return Ok(());
    }

    /** `list`: the names with the prefix, in order. */
    method List(prefix: Bytes) returns (names: seq<Bytes>)
      ensures Ascending(names)
      ensures forall n :: n in names <==> n in entries && prefix <= n
    {
      names := Sorted(set n | n in entries && prefix <= n);
    }

    /** Step 1 of `rotate`: every name opened, in order, before anything is written. */
    method OpenEverything(names: seq<Bytes>, gets: map<Bytes, GetEnv>) returns (r: Result<seq<Bytes>>)
      requires Valid()
      ensures r == Rotation.OpenAll(suite, master, Holding(), names, gets)
    {
      hide GetValue, ValidContents;
      var plain: seq<Bytes> := [];
      var i := 0;
      while i < |names|
        invariant 0 <= i <= |names|
        invariant Rotation.OpenAll(suite, master, Holding(), names[..i], gets) == Ok(plain)
      {
        assert names[..i + 1][..i] == names[..i];
        var secret := Get(names[i], Rotation.GetAt(gets, names[i]));
        if secret.Err? {
          Rotation.OpenAllStops(suite, master, Holding(), names, i + 1, gets);
          return Err(secret.error);
        }
        plain := plain + [secret.value];
        i := i + 1;
      }
      assert names[..i] == names;
      return Ok(plain);
    }

    /** Step 2 of `rotate`, on the new store: every name sealed into it. */
    method SealEverything(names: seq<Bytes>, plain: seq<Bytes>, seals: map<Bytes, SealEnv>) returns (r: Result<()>)
      requires Valid() && |plain| == |names| && Rotation.GoodSeals(seals)
      requires forall i :: 0 <= i < |names| ==> ValidName(names[i])
      modifies this`entries
      ensures Valid()
      ensures match Rotation.SealAll(suite, master, old(Holding()), names, plain, seals)
        case Err(err) => r == Err(err)
        case Ok(c) => r.Ok? && Holding() == c
    {
      assert |keyId| == KEY_ID_LEN;
      hide Aead.SealBlob, DekFor, ValidName, ValidContents, Rotation.SealAll, Rotation.SealAt, Rotation.GoodSeals;
      ghost var empty := Holding();
      var i := 0;
      SealNothing(empty, names, plain, seals);
      while i < |names|
        invariant 0 <= i <= |names|
        invariant Rotation.SealAll(suite, master, empty, names[..i], plain[..i], seals) == Ok(Holding())
        invariant Valid() && salt == empty.salt && keyId == empty.keyId
      {
        Rotation.SealTurn(suite, master, empty, names, plain, i, seals, Holding());
        var e := Rotation.SealAt(seals, names[i]);
        var dek :- DekFor(suite, master, salt, names[i], e.memory);
        var blob :- Aead.Seal(suite.cipher, dek, keyId, plain[i], Aead.Aegis256, e.random);
        entries := entries[names[i] := blob];
        i := i + 1;
      }
      assert names[..i] == names && plain[..i] == plain;
      return Ok(());
    }

    lemma SealNothing(empty: Contents, names: seq<Bytes>, plain: seq<Bytes>, seals: map<Bytes, SealEnv>)
      requires |empty.keyId| == KEY_ID_LEN && Rotation.GoodSeals(seals)
      ensures Rotation.SealAll(suite, master, empty, names[..0], plain[..0], seals) == Ok(empty)
    {
    }

    /**
     * `rotate`: everything opened first, then sealed for the new master, then
     * one write. This handle is given up; the new one is returned.
     */
    method Rotate(newMaster: Master, e: Rotation.RotateEnv) returns (r: Result<SecretStore>)
      requires Valid() && Rotation.GoodRotate(e)
      modifies disk
      ensures disk.fs == Rotation.Rotate(suite, master, newMaster, Holding(), old(disk.fs), e).0
      ensures match Rotation.Rotate(suite, master, newMaster, Holding(), old(disk.fs), e).1
        case Err(err) => r == Err(err)
        case Ok(c) =>
          && r.Ok? && fresh(r.value) && r.value.Valid() && r.value.Holding() == c
          && r.value.suite == suite && r.value.disk == disk && r.value.master == newMaster
    {
      hide StoreModel.Persist, Rotation.OpenAll, Rotation.SealAll, Sorted, ValidName, Ascending;
      var names := Sorted(entries.Keys);
      var plain :- OpenEverything(names, e.gets);
      if e.salt.None? {
        return Err(Hardening);
      }
      if e.keyId.None? {
        return Err(Hardening);
      }
      var newStore := new SecretStore(suite, disk, newMaster, Contents(e.salt.value, e.keyId.value, map[]));
      forall i | 0 <= i < |names| ensures ValidName(names[i]) {
        assert names[i] in names;
      }
      var resealed :- newStore.SealEverything(names, plain, e.seals);
      var saved :- newStore.Persist(e.write);
      return Ok(newStore);
    }
  }
}
