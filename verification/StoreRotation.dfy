/** `rotate`: the whole store re-sealed under a new master, in one write, or not at all. */
module StoreRotation {
  import opened Base
  import opened NameOrder
  import opened StoreFormat
  import opened StoreModel
  import opened StoreSizes
  import FS = FileSystem
  import AW = AtomicWrite
  import Aead

  /** What the environment decides about a rotation; `gets` and `seals` by name. */
  datatype RotateEnv = RotateEnv(
    gets: map<Bytes, GetEnv>,
    salt: Option<Bytes>,
    keyId: Option<Bytes>,
    seals: map<Bytes, SealEnv>,
    write: AW.WriteEnv)

  /** Names without an entry meet no trouble when read, and find no memory when sealed. */
  function GetAt(gets: map<Bytes, GetEnv>, name: Bytes): GetEnv {
    if name in gets then gets[name] else GetEnv(true, true)
  }

  function SealAt(seals: map<Bytes, SealEnv>, name: Bytes): (e: SealEnv)
    requires GoodSeals(seals)
    ensures GoodSeal(e)
  {
    if name in seals then seals[name] else SealEnv(None, false)
  }

  predicate GoodSeals(seals: map<Bytes, SealEnv>) {
    forall n :: n in seals ==> GoodSeal(seals[n])
  }

  predicate GoodRotate(e: RotateEnv) {
    && (e.salt.Some? ==> |e.salt.value| == SALT_LEN)
    && (e.keyId.Some? ==> |e.keyId.value| == KEY_ID_LEN)
    && GoodSeals(e.seals)
  }

  /** The plaintexts of `names`, in order, or the error of the first that does not open. */
  function OpenAll(s: Suite, master: Master, c: Contents, names: seq<Bytes>, gets: map<Bytes, GetEnv>)
    : (r: Result<seq<Bytes>>)
    ensures r.Ok? ==> |r.value| == |names|
  {
    if names == [] then Ok([])
    else
      var k := |names| - 1;
      match OpenAll(s, master, c, names[..k], gets)
      case Err(e) => Err(e)
      case Ok(front) =>
        match GetValue(s, master, c, names[k], GetAt(gets, names[k]))
        case Err(e) => Err(e)
        case Ok(pt) => Ok(front + [pt])
  }

  /** `empty` with `names` sealed into it, in order, or the first error. */
  function SealAll(s: Suite, master: Master, empty: Contents, names: seq<Bytes>, plain: seq<Bytes>,
                   seals: map<Bytes, SealEnv>): (r: Result<Contents>)
    requires |empty.keyId| == KEY_ID_LEN && |plain| == |names| && GoodSeals(seals)
    ensures r.Ok? ==> r.value.salt == empty.salt && r.value.keyId == empty.keyId
  {
    if names == [] then Ok(empty)
    else
      var k := |names| - 1;
      match SealAll(s, master, empty, names[..k], plain[..k], seals)
      case Err(e) => Err(e)
      case Ok(c) =>
        match SealValue(s, master, c, names[k], plain[k], SealAt(seals, names[k]))
        case Err(e) => Err(e)
        case Ok(blob) => Ok(c.(entries := c.entries[names[k] := blob]))
  }

  /** An error in the first `k` names is the error of all of them. */
  lemma {:induction false} OpenAllStops(s: Suite, master: Master, c: Contents, names: seq<Bytes>, k: nat,
                                        gets: map<Bytes, GetEnv>)
    requires k <= |names| && OpenAll(s, master, c, names[..k], gets).Err?
    ensures OpenAll(s, master, c, names, gets) == OpenAll(s, master, c, names[..k], gets)
  {
    if k < |names| {
      var front := names[..|names| - 1];
      assert front[..k] == names[..k];
      OpenAllStops(s, master, c, front, k, gets);
    } else {
      assert names[..k] == names;
    }
  }

  lemma {:induction false} SealAllStops(s: Suite, master: Master, empty: Contents, names: seq<Bytes>, plain: seq<Bytes>,
                                        k: nat, seals: map<Bytes, SealEnv>)
    requires |empty.keyId| == KEY_ID_LEN && |plain| == |names| && GoodSeals(seals)
    requires k <= |names| && SealAll(s, master, empty, names[..k], plain[..k], seals).Err?
    ensures SealAll(s, master, empty, names, plain, seals) == SealAll(s, master, empty, names[..k], plain[..k], seals)
  {
    if k < |names| {
      var front, texts := names[..|names| - 1], plain[..|names| - 1];
      assert front[..k] == names[..k] && texts[..k] == plain[..k];
      SealAllStops(s, master, empty, front, texts, k, seals);
    } else {
      assert names[..k] == names && plain[..k] == plain;
    }
  }

  /** One turn of the sealing loop: one more name is sealed, or its error is the error of all. */
  lemma SealTurn(s: Suite, master: Master, empty: Contents, names: seq<Bytes>, plain: seq<Bytes>, i: nat,
                 seals: map<Bytes, SealEnv>, c: Contents)
    requires |empty.keyId| == KEY_ID_LEN && |plain| == |names| && GoodSeals(seals)
    requires i < |names| && SealAll(s, master, empty, names[..i], plain[..i], seals) == Ok(c)
    requires ValidContents(c) && ValidName(names[i])
    ensures match SealValue(s, master, c, names[i], plain[i], SealAt(seals, names[i]))
      case Err(e) => SealAll(s, master, empty, names, plain, seals) == Err(e)
      case Ok(blob) =>
        var next := c.(entries := c.entries[names[i] := blob]);
        SealAll(s, master, empty, names[..i + 1], plain[..i + 1], seals) == Ok(next) && ValidContents(next)
  {
    hide SealValue, SealAt, ValidName, GoodSeals;
    assert names[..i + 1][..i] == names[..i] && plain[..i + 1][..i] == plain[..i];
    if SealValue(s, master, c, names[i], plain[i], SealAt(seals, names[i])).Err? {
      SealAllStops(s, master, empty, names, plain, i + 1, seals);
    }
  }

  /** The contents a rotation tries to write. */
  function Target(s: Suite, master: Master, newMaster: Master, c: Contents, e: RotateEnv): Result<Contents>
    requires GoodRotate(e)
  {
    var names := Sorted(c.entries.Keys);
    match OpenAll(s, master, c, names, e.gets)
    case Err(err) => Err(err)
    case Ok(plain) =>
      if e.salt.None? || e.keyId.None? then Err(Hardening)
      else SealAll(s, newMaster, Contents(e.salt.value, e.keyId.value, map[]), names, plain, e.seals)
  }

  /** `rotate`: the file after it, and the new handle's contents or the error. */
  function Rotate(s: Suite, master: Master, newMaster: Master, c: Contents, fs: FS.Fs, e: RotateEnv)
    : (FS.Fs, Result<Contents>)
    requires GoodRotate(e)
  {
    match Target(s, master, newMaster, c, e)
    case Err(err) => (fs, Err(err))
    case Ok(target) =>
      var (fs', r) := Persist(target, fs, e.write);
      match r
      case Err(err) => (fs', Err(err))
      case Ok(_) => (fs', Ok(target))
  }

  // ---------------------------------------------------------------------
  // Nothing is written unless everything opens
  // ---------------------------------------------------------------------

  /** Name `i` is the first that does not open, with this error. */
  ghost predicate FirstFailure(s: Suite, master: Master, c: Contents, names: seq<Bytes>, gets: map<Bytes, GetEnv>,
                               i: int, err: Error) {
    && 0 <= i < |names|
    && GetValue(s, master, c, names[i], GetAt(gets, names[i])) == Err(err)
    && forall j :: 0 <= j < i ==> GetValue(s, master, c, names[j], GetAt(gets, names[j])).Ok?
  }

  lemma {:induction false} OpenAllIff(s: Suite, master: Master, c: Contents, names: seq<Bytes>,
                                      gets: map<Bytes, GetEnv>)
    ensures var r := OpenAll(s, master, c, names, gets);
      && (r.Ok? <==> forall i :: 0 <= i < |names| ==> GetValue(s, master, c, names[i], GetAt(gets, names[i])).Ok?)
      && (r.Ok? ==>
        forall i :: 0 <= i < |names| ==> GetValue(s, master, c, names[i], GetAt(gets, names[i])) == Ok(r.value[i]))
      && (r.Err? ==> exists i :: FirstFailure(s, master, c, names, gets, i, r.error))
  {
    if names != [] {
      hide GetValue, GetAt;
      var k := |names| - 1;
      var front := names[..k];
      OpenAllIff(s, master, c, front, gets);
      assert forall i :: 0 <= i < k ==> front[i] == names[i];
      var r := OpenAll(s, master, c, front, gets);
      if r.Err? {
        var i :| FirstFailure(s, master, c, front, gets, i, r.error);
        assert FirstFailure(s, master, c, names, gets, i, r.error);
      } else if GetValue(s, master, c, names[k], GetAt(gets, names[k])).Err? {
        assert FirstFailure(s, master, c, names, gets, k, GetValue(s, master, c, names[k], GetAt(gets,
          names[k])).error);
      }
    }
  }

  /** Among the names of `c`, `first` is the first in order that does not open. */
  ghost predicate FirstToFail(s: Suite, master: Master, c: Contents, e: RotateEnv, first: Bytes, err: Error) {
    && first in c.entries
    && GetValue(s, master, c, first, GetAt(e.gets, first)) == Err(err)
    && forall n :: n in c.entries && LexLt(n, first) ==> GetValue(s, master, c, n, GetAt(e.gets, n)).Ok?
  }

  /**
   * If any single entry does not open, a rotation returns the error of the
   * first such name in order, and the file is not touched.
   */
  lemma AnyFailureWritesNothing(s: Suite, master: Master, newMaster: Master, c: Contents, fs: FS.Fs, e: RotateEnv,
                                name: Bytes)
    requires GoodRotate(e)
    requires name in c.entries && GetValue(s, master, c, name, GetAt(e.gets, name)).Err?
    ensures var (fs', r) := Rotate(s, master, newMaster, c, fs, e);
      && fs' == fs && r.Err?
      && exists first :: FirstToFail(s, master, c, e, first, r.error)
  {
    var names := Sorted(c.entries.Keys);
    OpenAllIff(s, master, c, names, e.gets);
    assert name in names;
    var k :| 0 <= k < |names| && names[k] == name;
    var r := OpenAll(s, master, c, names, e.gets);
    hide GetValue, OpenAll;
    var i :| FirstFailure(s, master, c, names, e.gets, i, r.error);
    var first := names[i];
    assert first in names;
    forall n | n in c.entries && LexLt(n, first) ensures GetValue(s, master, c, n, GetAt(e.gets, n)).Ok? {
      assert n in names;
      var j :| 0 <= j < |names| && names[j] == n;
      BeforeIsEarlier(names, j, i);
    }
    assert FirstToFail(s, master, c, e, first, r.error);
  }

  lemma BeforeIsEarlier(names: seq<Bytes>, j: int, i: int)
    requires Ascending(names) && 0 <= i < |names| && 0 <= j < |names| && LexLt(names[j], names[i])
    ensures j < i
  {
    if j > i {
      LexAntisymmetric(names[i], names[j]);
    }
  }

  // ---------------------------------------------------------------------
  // What a rotation keeps, and what it changes
  // ---------------------------------------------------------------------

  ghost predicate HoldsText(s: Suite, master: Master, c: Contents, name: Bytes, pt: Bytes) {
    && name in c.entries
    && Seals(s, master, c, name, c.entries[name], pt)
    && |c.entries[name]| == Aead.HEADER_LEN + |pt| + 32
  }

  /** `c` holds exactly `names`, sealed for `master`, with these texts. */
  ghost predicate HoldsTexts(s: Suite, master: Master, c: Contents, names: seq<Bytes>, plain: seq<Bytes>)
    requires |plain| == |names|
  {
    && ValidContents(c)
    && (forall n :: n in c.entries <==> n in names)
    && (forall i :: 0 <= i < |names| ==> HoldsText(s, master, c, names[i], plain[i]))
  }

  predicate AllDifferent(names: seq<Bytes>) {
    forall i, j :: 0 <= i < j < |names| ==> names[i] != names[j]
  }

  predicate CanSeal(e: SealEnv) {
    e.memory && e.random.Some?
  }

  /** Sealing one more name into what the others were sealed into. */
  lemma SealLast(s: Suite, master: Master, c: Contents, names: seq<Bytes>, plain: seq<Bytes>, name: Bytes, pt: Bytes,
                 e: SealEnv)
    requires Aead.Correct(s.cipher) && GoodSeal(e)
    requires |plain| == |names| && HoldsTexts(s, master, c, names, plain)
    requires ValidName(name) && name !in names
    ensures var r := SealValue(s, master, c, name, pt, e);
      && (r.Ok? <==> CanSeal(e))
      && (r.Err? ==> r == Err(Hardening))
      && (r.Ok? ==> HoldsTexts(s, master, c.(entries := c.entries[name := r.value]), names + [name], plain + [pt]))
  {
    SealValueIs(s, master, c, name, pt, e);
    hide *;
    var blob := SealValue(s, master, c, name, pt, e);
    if blob.Ok? {
      OneMoreHeld(s, master, c, names, plain, name, pt, blob.value);
    }
  }

  /** Sealing all is sealing all but the last, and then the last. */
  lemma SealAllParts(s: Suite, master: Master, empty: Contents, names: seq<Bytes>, plain: seq<Bytes>,
                     seals: map<Bytes, SealEnv>)
    requires |empty.keyId| == KEY_ID_LEN && |plain| == |names| && GoodSeals(seals) && names != []
    ensures var k := |names| - 1;
      var front := SealAll(s, master, empty, names[..k], plain[..k], seals);
      && (front.Err? ==> SealAll(s, master, empty, names, plain, seals) == front)
      && (front.Ok? ==>
            SealAll(s, master, empty, names, plain, seals) ==
            match SealValue(s, master, front.value, names[k], plain[k], SealAt(seals, names[k]))
            case Err(e) => Err(e)
            case Ok(blob) => Ok(front.value.(entries := front.value.entries[names[k] := blob])))
  {
    hide SealValue, SealAt, GoodSeals;
  }

  lemma {:induction false} SealAllHolds(s: Suite, master: Master, empty: Contents, names: seq<Bytes>, plain: seq<Bytes>,
                                        seals: map<Bytes, SealEnv>)
    requires Aead.Correct(s.cipher) && ValidContents(empty) && empty.entries == map[]
    requires |plain| == |names| && GoodSeals(seals)
    requires AllDifferent(names) && forall i :: 0 <= i < |names| ==> ValidName(names[i])
    ensures var r := SealAll(s, master, empty, names, plain, seals);
      && (r.Ok? <==> forall i :: 0 <= i < |names| ==> CanSeal(SealAt(seals, names[i])))
      && (r.Err? ==> r == Err(Hardening))
      && (r.Ok? ==> HoldsTexts(s, master, r.value, names, plain))
  {
    if names != [] {
      hide ValidName, Aead.Correct, HoldsTexts, CanSeal, SealAt, GoodSeals, SealValue, SealAll;
      SealAllParts(s, master, empty, names, plain, seals);
      var k := |names| - 1;
      var front := names[..k];
      assert forall i :: 0 <= i < k ==> front[i] == names[i];
      SealAllHolds(s, master, empty, front, plain[..k], seals);
      if SealAll(s, master, empty, front, plain[..k], seals).Ok? {
        var c := SealAll(s, master, empty, front, plain[..k], seals).value;
        SealLast(s, master, c, front, plain[..k], names[k], plain[k], SealAt(seals, names[k]));
        assert names == front + [names[k]] && plain == plain[..k] + [plain[k]];
      }
    }
  }

  lemma OneMoreHeld(s: Suite, master: Master, c: Contents, names: seq<Bytes>, plain: seq<Bytes>, name: Bytes,
                    pt: Bytes, blob: Bytes)
    requires |plain| == |names| && HoldsTexts(s, master, c, names, plain)
    requires name !in names && ValidName(name)
    requires Seals(s, master, c, name, blob, pt) && |blob| == Aead.HEADER_LEN + |pt| + 32
    ensures HoldsTexts(s, master, c.(entries := c.entries[name := blob]), names + [name], plain + [pt])
  {
    hide ValidName, Aead.OpenBlob, Aead.BlobKeyId, DekFor;
    var t := c.(entries := c.entries[name := blob]);
    var names', plain' := names + [name], plain + [pt];
    forall i | 0 <= i < |names'| ensures HoldsText(s, master, t, names'[i], plain'[i]) {
      if i < |names| {
        assert HoldsText(s, master, c, names[i], plain[i]) && names[i] in names;
      }
    }
  }

  /** Holding the texts of another store's names is being that store's plain map. */
  lemma HeldIsPlain(s: Suite, master: Master, newMaster: Master, c: Contents, t: Contents, names: seq<Bytes>,
                    plain: seq<Bytes>)
    requires Intact(s, master, c) && |plain| == |names|
    requires HoldsTexts(s, newMaster, t, names, plain) && BlobsFit(t.entries)
    requires TextsOf(s, master, c, names, plain)
    ensures Intact(s, newMaster, t) && Plain(s, newMaster, t) == Plain(s, master, c)
  {
    hide Aead.OpenBlob, Aead.BlobKeyId, DekFor, ValidName, Plain;
    assert Plain(s, master, c).Keys == c.entries.Keys by { PlainKeys(s, master, c); }
    forall n | n in t.entries ensures GetValue(s, newMaster, t, n, GetEnv(true, true)) == Ok(Plain(s, master, c)[n]) {
      assert n in names;
      var i :| 0 <= i < |names| && names[i] == n;
      assert HoldsText(s, newMaster, t, names[i], plain[i]);
    }
    assert Intact(s, newMaster, t);
    PlainKeys(s, newMaster, t);
  }

  lemma PlainKeys(s: Suite, master: Master, c: Contents)
    requires Intact(s, master, c)
    ensures Plain(s, master, c).Keys == c.entries.Keys
    ensures forall n :: n in c.entries ==> GetValue(s, master, c, n, GetEnv(true, true)) == Ok(Plain(s, master, c)[n])
  {
    forall n | n in c.entries ensures GetValue(s, master, c, n, GetEnv(true, true)).Ok? {
      assert Holds(s, master, c, n);
    }
  }

  /** There is randomness for the new store, and for each of its names memory and randomness to seal it again. */
  predicate CanReseal(c: Contents, e: RotateEnv)
    requires GoodRotate(e)
  {
    && e.salt.Some? && e.keyId.Some?
    && (forall n :: n in c.entries ==> CanSeal(SealAt(e.seals, n)))
  }

  /** Every entry of `c` can be opened. */
  ghost predicate AllOpen(s: Suite, master: Master, c: Contents, gets: map<Bytes, GetEnv>) {
    forall n :: n in c.entries ==> GetValue(s, master, c, n, GetAt(gets, n)).Ok?
  }

  /** How many blobs of `c` are not AEGIS-256. */
  function Foreign(rs: seq<Record>): nat {
    if rs == [] then 0
    else
      var header := Aead.ReadHeader(rs[0].blob);
      Foreign(rs[1..]) + if header.Ok? && header.value.0 != Aead.Aegis256 then 1 else 0
  }

  /** A blob that opens is its header, its text and its tag: 16 bytes shorter if it is not AEGIS-256. */
  lemma HeldLength(s: Suite, master: Master, c: Contents, name: Bytes)
    requires Aead.Correct(s.cipher) && Intact(s, master, c) && name in c.entries
    ensures Aead.ReadHeader(c.entries[name]).Ok?
    ensures |c.entries[name]| == Aead.HEADER_LEN + |Plain(s, master, c)[name]|
      + Aead.ReadHeader(c.entries[name]).value.0.TagLen()
  {
    assert Holds(s, master, c, name);
    PlainKeys(s, master, c);
  }

  /** `b` is `a` with a 32-byte tag in place of the one it had. */
  predicate SameButTag(a: Record, b: Record) {
    && a.name == b.name
    && Aead.ReadHeader(a.blob).Ok?
    && |b.blob| == |a.blob| + (if Aead.ReadHeader(a.blob).value.0 == Aead.Aegis256 then 0 else 16)
  }

  lemma {:induction false} SizesCompare(a: seq<Record>, b: seq<Record>)
    requires |a| == |b|
    requires forall i :: 0 <= i < |a| ==> SameButTag(a[i], b[i])
    ensures Size(b) == Size(a) + 16 * Foreign(a)
  {
    if a != [] {
      hide Aead.ReadHeader;
      SizesCompare(a[1..], b[1..]);
    }
  }

  /** The names are valid and different, and `plain` is what the store holds under them. */
  ghost predicate TextsOf(s: Suite, master: Master, c: Contents, names: seq<Bytes>, plain: seq<Bytes>)
    requires Intact(s, master, c)
  {
    && |plain| == |names| && AllDifferent(names)
    && (forall n :: n in c.entries <==> n in names)
    && (forall i :: 0 <= i < |names| ==> ValidName(names[i]) && names[i] in c.entries)
    && (forall i :: 0 <= i < |names| ==> Plain(s, master, c)[names[i]] == plain[i])
  }

  lemma SortedDifferent(names: set<Bytes>)
    ensures AllDifferent(Sorted(names))
  {
    var s := Sorted(names);
    forall i, j | 0 <= i < j < |s| ensures s[i] != s[j] {
      AscendingDistinct(s, i, j);
    }
  }

  lemma OpenedTexts(s: Suite, master: Master, c: Contents, e: RotateEnv)
    requires Intact(s, master, c) && OpenAll(s, master, c, Sorted(c.entries.Keys), e.gets).Ok?
    ensures TextsOf(s, master, c, Sorted(c.entries.Keys), OpenAll(s, master, c, Sorted(c.entries.Keys), e.gets).value)
  {
    hide OpenAll, Sorted, GetValue, Plain, ValidName, Ascending, Holds;
    var names := Sorted(c.entries.Keys);
    var plain := OpenAll(s, master, c, names, e.gets).value;
    OpenAllIff(s, master, c, names, e.gets);
    SortedDifferent(c.entries.Keys);
    PlainKeys(s, master, c);
    forall i | 0 <= i < |names|
      ensures ValidName(names[i]) && names[i] in c.entries && Plain(s, master, c)[names[i]] == plain[i]
    {
      assert names[i] in names;
      GetIsLookup(s, master, c, names[i], GetAt(e.gets, names[i]));
    }
  }

  /** A rotation that gets to its write has opened everything and sealed it again. */
  lemma TargetParts(s: Suite, master: Master, newMaster: Master, c: Contents, e: RotateEnv)
    requires GoodRotate(e) && Target(s, master, newMaster, c, e).Ok?
    ensures e.salt.Some? && e.keyId.Some?
    ensures var plain := OpenAll(s, master, c, Sorted(c.entries.Keys), e.gets);
      && plain.Ok?
      && Target(s, master, newMaster, c, e) ==
        SealAll(s, newMaster, Contents(e.salt.value, e.keyId.value, map[]), Sorted(c.entries.Keys), plain.value,
          e.seals)
  {
  }

  lemma TargetHolds(s: Suite, master: Master, newMaster: Master, c: Contents, e: RotateEnv) returns (plain: seq<Bytes>)
    requires Aead.Correct(s.cipher) && Intact(s, master, c) && GoodRotate(e)
    requires Target(s, master, newMaster, c, e).Ok?
    ensures var t := Target(s, master, newMaster, c, e).value;
      var names := Sorted(c.entries.Keys);
      && TextsOf(s, master, c, names, plain) && HoldsTexts(s, newMaster, t, names, plain)
      && t.entries.Keys == c.entries.Keys
      && Some(t.salt) == e.salt && Some(t.keyId) == e.keyId
  {
    hide Target, OpenAll, SealAll, Plain, Intact, Sorted, ValidName, HoldsText, Aead.Correct, Ascending;
    var names := Sorted(c.entries.Keys);
    TargetParts(s, master, newMaster, c, e);
    plain := OpenAll(s, master, c, names, e.gets).value;
    OpenedTexts(s, master, c, e);
    var empty := Contents(e.salt.value, e.keyId.value, map[]);
    SealAllHolds(s, newMaster, empty, names, plain, e.seals);
    var t := SealAll(s, newMaster, empty, names, plain, e.seals).value;
    assert forall n :: n in t.entries <==> n in names;
  }

  /** What a rotation writes is the same plain map, sealed for the new master. */
  lemma TargetIsIntact(s: Suite, master: Master, newMaster: Master, c: Contents, e: RotateEnv)
    requires Aead.Correct(s.cipher) && Intact(s, master, c) && GoodRotate(e)
    requires Target(s, master, newMaster, c, e).Ok? && Serialized(Target(s, master, newMaster, c, e).value).Ok?
    ensures var t := Target(s, master, newMaster, c, e).value;
      && Intact(s, newMaster, t) && Plain(s, newMaster, t) == Plain(s, master, c)
      && Some(t.salt) == e.salt && Some(t.keyId) == e.keyId
      && t.entries.Keys == c.entries.Keys
      && ReadStore(Serialized(t).value) == Ok(t)
  {
    hide Target, Plain, GetValue, Serialized, Sorted, ReadStore, Intact;
    var t := Target(s, master, newMaster, c, e).value;
    var plain := TargetHolds(s, master, newMaster, c, e);
    assert BlobsFit(t.entries) by { SerializedFits(t); }
    HeldIsPlain(s, master, newMaster, c, t, Sorted(c.entries.Keys), plain);
    PersistThenLoad(t);
  }

  /**
   * A rotation that succeeds keeps every name and every plaintext, re-seals
   * each under the new master, salt and key id, and the file read back holds
   * just that.
   */
  lemma RotationKeepsTheMap(s: Suite, master: Master, newMaster: Master, c: Contents, fs: FS.Fs, e: RotateEnv)
    requires Aead.Correct(s.cipher) && Intact(s, master, c) && GoodRotate(e) && AW.Ready(fs, e.write)
    requires Rotate(s, master, newMaster, c, fs, e).1.Ok?
    ensures var (fs', r) := Rotate(s, master, newMaster, c, fs, e);
      var t := r.value;
      && Intact(s, newMaster, t) && Plain(s, newMaster, t) == Plain(s, master, c)
      && Some(t.salt) == e.salt && Some(t.keyId) == e.keyId
      && (forall n :: n in t.entries ==> Aead.BlobKeyId(t.entries[n]) == Ok(t.keyId))
      && FS.ReadName(fs', FS.StoreFile).Some? && ReadStore(FS.ReadName(fs', FS.StoreFile).value) == Ok(t)
  {
    hide Target, Plain, GetValue, Serialized, Sorted, AW.Final, AW.Verdict, FS.Valid, FS.MayRead, FS.ReadName,
         ReadStore, AW.Undone, Aead.BlobKeyId, Intact;
    var t := Target(s, master, newMaster, c, e).value;
    TargetIsIntact(s, master, newMaster, c, e);
    AW.VerdictMeans(fs, e.write, Serialized(t).value, None);
    HeldKeyIds(s, newMaster, t);
  }

  lemma SerializedFits(c: Contents)
    requires Serialized(c).Ok?
    ensures BlobsFit(c.entries)
  {
  }

  lemma HeldKeyIds(s: Suite, master: Master, c: Contents)
    requires Intact(s, master, c)
    ensures forall n :: n in c.entries ==> Aead.BlobKeyId(c.entries[n]) == Ok(c.keyId)
  {
    forall n | n in c.entries ensures Aead.BlobKeyId(c.entries[n]) == Ok(c.keyId) {
      assert Holds(s, master, c, n);
    }
  }

  /** The rotation gets as far as its rename, and fails only after it. */
  predicate FailsAfterRename(s: Suite, master: Master, newMaster: Master, c: Contents, fs: FS.Fs, e: RotateEnv)
    requires GoodRotate(e)
  {
    var t := Target(s, master, newMaster, c, e);
    t.Ok? && Serialized(t.value).Ok? && AW.Starts(fs, e.write) && AW.Lasting(e.write.fault)
  }

  /**
   * What a rotation that fails leaves behind. If it fails before or at its rename,
   * the file is as it was, now and after any crash. If it fails after its rename, the
   * new file is read, and a crash may bring back it or what it could before.
   */
  lemma RotationFails(s: Suite, master: Master, newMaster: Master, c: Contents, fs: FS.Fs, e: RotateEnv,
                      v: Option<Bytes>)
    requires GoodRotate(e) && AW.Ready(fs, e.write)
    requires Rotate(s, master, newMaster, c, fs, e).1.Err?
    ensures var fs' := Rotate(s, master, newMaster, c, fs, e).0;
      FS.Valid(fs') &&
      if FailsAfterRename(s, master, newMaster, c, fs, e) then
        var d := Serialized(Target(s, master, newMaster, c, e).value).value;
        && FS.ReadName(fs', FS.StoreFile) == Some(d)
        && (FS.MayRead(fs', FS.StoreFile, v) <==> FS.MayRead(fs, FS.StoreFile, v) || v == Some(d))
      else
        && FS.ReadName(fs', FS.StoreFile) == FS.ReadName(fs, FS.StoreFile)
        && (FS.MayRead(fs', FS.StoreFile, v) <==> FS.MayRead(fs, FS.StoreFile, v))
  {
    var t := Target(s, master, newMaster, c, e);
    if t.Ok? && Serialized(t.value).Ok? {
      AW.VerdictMeans(fs, e.write, Serialized(t.value).value, v);
    }
    hide Target, Serialized, FS.MayRead, FS.ReadName, FS.Valid, AW.Final;
  }

  /**
   * So the file that a rotation failed after its rename leaves behind is not the old
   * one, but the same plain map under the new master: `open` accepts it, and the
   * old master's secrets are all there, for whoever has the new master.
   */
  lemma FailedRotationIsRotated(s: Suite, master: Master, newMaster: Master, c: Contents, fs: FS.Fs, e: RotateEnv)
    requires Aead.Correct(s.cipher) && Intact(s, master, c) && GoodRotate(e) && AW.Ready(fs, e.write)
    requires FailsAfterRename(s, master, newMaster, c, fs, e)
    ensures var (fs', r) := Rotate(s, master, newMaster, c, fs, e);
      var now := FS.ReadName(fs', FS.StoreFile);
      && r == Err(Io)
      && now.Some? && |now.value| <= MAX_STORE_BYTES && ReadStore(now.value).Ok?
      && var t := ReadStore(now.value).value;
         Intact(s, newMaster, t) && Plain(s, newMaster, t) == Plain(s, master, c)
         && Some(t.salt) == e.salt && Some(t.keyId) == e.keyId
  {
    TargetIsIntact(s, master, newMaster, c, e);
    assert Rotate(s, master, newMaster, c, fs, e).1 == Err(Io);
    RotationFails(s, master, newMaster, c, fs, e, None);
    hide Target, Plain, Intact, AW.Final, FS.MayRead, FS.ReadName, FS.Valid, ReadStore;
  }

  /** A rotation of an empty store, with a directory that cannot be synced. */
  lemma FailedRotationWitness(s: Suite, master: Master, newMaster: Master)
    ensures var zeros, ones := seq(16, _ => 0), seq(16, _ => 1);
      var c := Contents(zeros, zeros, map[]);
      var fs := FS.Fs(map[0 := FS.File(Image(zeros, zeros, []), true)], map[FS.StoreFile := 0], map[]);
      var e := RotateEnv(map[], Some(ones), Some(ones), map[], AW.WriteEnv([], 1, AW.SyncDir, true));
      && FS.ReadName(fs, FS.StoreFile) == Some(Serialized(c).value)
      && Rotate(s, master, newMaster, c, fs, e).1 == Err(Io)
      && FS.ReadName(Rotate(s, master, newMaster, c, fs, e).0, FS.StoreFile) == Some(Image(ones, ones, []))
      && Image(ones, ones, []) != Image(zeros, zeros, [])
  {
    var zeros: Bytes, ones: Bytes := seq(16, _ => 0), seq(16, _ => 1);
    var c, t := Contents(zeros, zeros, map[]), Contents(ones, ones, map[]);
    var fs := FS.Fs(map[0 := FS.File(Image(zeros, zeros, []), true)], map[FS.StoreFile := 0], map[]);
    var e := RotateEnv(map[], Some(ones), Some(ones), map[], AW.WriteEnv([], 1, AW.SyncDir, true));
    assert c.entries.Keys == {} && SortedRecords(map[]) == [];
    assert Target(s, master, newMaster, c, e) == Ok(t);
    ImageParts(zeros, zeros, []);
    ImageParts(ones, ones, []);
    assert Image(ones, ones, [])[5..21] == ones && ones[0] != zeros[0];
    assert FS.Valid(fs);
    hide Target, Image, AW.Final, FS.MayRead, SortedRecords;
    RotationFails(s, master, newMaster, c, fs, e, None);
  }

  /**
   * The file after a rotation is as long as before, plus 16 bytes for each blob
   * that was not AEGIS-256.
   */
  lemma RotationLength(s: Suite, master: Master, newMaster: Master, c: Contents, e: RotateEnv)
    requires Aead.Correct(s.cipher) && Intact(s, master, c) && GoodRotate(e)
    requires Target(s, master, newMaster, c, e).Ok?
    ensures var t := Target(s, master, newMaster, c, e).value;
      && |Image(t.salt, t.keyId, SortedRecords(t.entries))|
         == |Image(c.salt, c.keyId, SortedRecords(c.entries))| + 16 * Foreign(SortedRecords(c.entries))
  {
    var t := Target(s, master, newMaster, c, e).value;
    var names := Sorted(c.entries.Keys);
    var plain := TargetHolds(s, master, newMaster, c, e);
    var a, b := SortedRecords(c.entries), SortedRecords(t.entries);
    forall i | 0 <= i < |a| ensures SameButTag(a[i], b[i]) {
      assert names[i] in c.entries && HoldsText(s, newMaster, t, names[i], plain[i]);
      HeldLength(s, master, c, names[i]);
    }
    SizesCompare(a, b);
    ImageParts(c.salt, c.keyId, a);
    ImageParts(t.salt, t.keyId, b);
  }

  /**
   * Whatever the file held and by whatever cipher it was sealed: a rotation gets as far
   * as its write if and only if every entry opens and there is memory and randomness
   * for each of them.
   */
  lemma TargetIff(s: Suite, master: Master, newMaster: Master, c: Contents, e: RotateEnv)
    requires Aead.Correct(s.cipher) && ValidContents(c) && GoodRotate(e)
    ensures var t := Target(s, master, newMaster, c, e);
      && (t.Ok? <==> AllOpen(s, master, c, e.gets) && CanReseal(c, e))
      && (t.Err? && AllOpen(s, master, c, e.gets) ==> t == Err(Hardening))
  {
    var names := Sorted(c.entries.Keys);
    OpenAllIff(s, master, c, names, e.gets);
    SortedDifferent(c.entries.Keys);
    hide GetValue, OpenAll, SealAll, Sorted, ValidName, CanSeal, SealAt, GetAt, Aead.Correct;
    assert forall i :: 0 <= i < |names| ==> names[i] in names;
    if OpenAll(s, master, c, names, e.gets).Ok? && e.salt.Some? && e.keyId.Some? {
      var plain := OpenAll(s, master, c, names, e.gets).value;
      SealAllHolds(s, newMaster, Contents(e.salt.value, e.keyId.value, map[]), names, plain, e.seals);
    }
  }

  /**
   * Exactly when a rotation of an intact store succeeds: there is memory to open and
   * seal each entry, randomness for each and for the new store, room for 16 bytes
   * more for each blob that is not AEGIS-256, and the write meets no fault.
   */
  lemma RotateSucceedsIff(s: Suite, master: Master, newMaster: Master, c: Contents, fs: FS.Fs, e: RotateEnv)
    requires Aead.Correct(s.cipher) && Intact(s, master, c) && GoodRotate(e)
    ensures Rotate(s, master, newMaster, c, fs, e).1.Ok? <==>
      && (forall n :: n in c.entries ==> GetAt(e.gets, n) == GetEnv(true, true))
      && CanReseal(c, e)
      && FileLength(c) + 16 * Foreign(SortedRecords(c.entries)) <= MAX_STORE_BYTES
      && AW.Starts(fs, e.write) && e.write.fault.NoFault?
  {
    TargetIff(s, master, newMaster, c, e);
    forall n | n in c.entries
      ensures GetValue(s, master, c, n, GetAt(e.gets, n)).Ok? <==> GetAt(e.gets, n) == GetEnv(true, true)
    {
      GetIsLookup(s, master, c, n, GetAt(e.gets, n));
    }
    hide Target, GetValue, SortedRecords, Plain, Foreign, GetAt, CanReseal, Aead.Correct, AW.Final, Serialized, Intact;
    if Target(s, master, newMaster, c, e).Ok? {
      TargetLength(s, master, newMaster, c, e);
    }
  }

  lemma TargetLength(s: Suite, master: Master, newMaster: Master, c: Contents, e: RotateEnv)
    requires Aead.Correct(s.cipher) && Intact(s, master, c) && GoodRotate(e)
    requires Target(s, master, newMaster, c, e).Ok?
    ensures var d := Serialized(Target(s, master, newMaster, c, e).value);
      var length := FileLength(c) + 16 * Foreign(SortedRecords(c.entries));
      && (d.Ok? <==> length <= MAX_STORE_BYTES)
      && (d.Ok? ==> |d.value| == length)
  {
    hide Target, SortedRecords, Plain, Foreign, Aead.Correct, GetValue;
    RotationLength(s, master, newMaster, c, e);
    TargetParts(s, master, newMaster, c, e);
    var plain := TargetHolds(s, master, newMaster, c, e);
    var t := Target(s, master, newMaster, c, e).value;
    ImageParts(c.salt, c.keyId, SortedRecords(c.entries));
    ImageParts(t.salt, t.keyId, SortedRecords(t.entries));
    SerializedIff(t);
  }

  /**
   * A store that fits and whose blobs are all AEGIS-256, as `put` and `rotate`
   * write them, rotates to a file of the same length: the size cap never stops it.
   */
  lemma AegisRotationSucceeds(s: Suite, master: Master, newMaster: Master, c: Contents, fs: FS.Fs, e: RotateEnv)
    requires Aead.Correct(s.cipher) && Intact(s, master, c) && GoodRotate(e)
    requires Serialized(c).Ok? && Foreign(SortedRecords(c.entries)) == 0
    ensures Rotate(s, master, newMaster, c, fs, e).1.Ok? <==>
      && (forall n :: n in c.entries ==> GetAt(e.gets, n) == GetEnv(true, true))
      && CanReseal(c, e) && AW.Starts(fs, e.write) && e.write.fault.NoFault?
    ensures var r := Rotate(s, master, newMaster, c, fs, e).1;
      r.Ok? ==> |Serialized(r.value).value| == |Serialized(c).value|
  {
    RotateSucceedsIff(s, master, newMaster, c, fs, e);
    SerializedIff(c);
    if Target(s, master, newMaster, c, e).Ok? {
      TargetLength(s, master, newMaster, c, e);
    }
    hide Target, SortedRecords, Plain, Foreign, GetAt, CanReseal, Intact, FileLength, AW.Final;
  }
}
