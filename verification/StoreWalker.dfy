/** The second reader of store files: the walk of `inspect`, and its agreement with `load`. */
module StoreWalker {
  import opened Base
  import opened StoreFormat
  import Aead

  const BLOB_MAGIC: Bytes := [0x46, 0x41, 0x46, 0x4e] // "FAFN"

  const NAMES_SHOWN := 20

  /** The names shown, how many there are more, and the algorithms. */
  datatype Listing = Listing(shown: seq<Bytes>, more: nat, algs: seq<string>)

  /** What `inspect` tells about an input that starts as a store file does. */
  datatype Report =
    | NotAStore
    | HeaderCutShort
    | Report(format: byte, keyId: Bytes, entries: nat, listing: Option<Listing>, damaged: Option<nat>)

  function Printable(name: Bytes): (s: Bytes)
    ensures |s| == |name|
  {
    seq(|name|, i requires 0 <= i < |name| => if 0x20 <= name[i] < 0x7f then name[i] else 0x3f)
  }

  function AlgName(id: byte): string {
    match id
    case 1 => "AEGIS-256"
    case 2 => "XChaCha20-Poly1305"
    case 3 => "AES-256-GCM"
    case _ => "unknown to this krypto"
  }

  function AlgOf(blob: Bytes): string {
    if BLOB_MAGIC <= blob && |blob| > 5 then AlgName(blob[5]) else "not a krypto blob"
  }

  /** `get` of a range: the bytes, if there are as many. */
  function Get(d: Bytes, from: nat, to: nat): (r: Option<Bytes>)
    requires from <= to
    ensures r.Some? <==> to <= |d|
    ensures r.Some? ==> |r.value| == to - from
  {
    if to <= |d| then Some(d[from..to]) else None
  }

  /** The closure `entry`: a record and the offset after it, from four `get`s. */
  function EntryAt(d: Bytes, at: nat): (r: Option<(Record, nat)>)
    ensures r.Some? ==> at < r.value.1 <= |d|
  {
    match Get(d, at, at + 2)
    case None => None
    case Some(n) =>
      var nameLen := FromLittleEndian(n);
      match Get(d, at + 2, at + 2 + nameLen)
      case None => None
      case Some(name) =>
        var lenAt := at + 2 + nameLen;
        match Get(d, lenAt, lenAt + 4)
        case None => None
        case Some(b) =>
          var blobLen := FromLittleEndian(b);
          match Get(d, lenAt + 4, lenAt + 4 + blobLen)
          case None => None
          case Some(blob) => Some((Record(name, blob), lenAt + 4 + blobLen))
  }

  /** The walker's reading of a record is the loader's, though it is written another way. */
  lemma EntryIsRecord(d: Bytes, at: nat)
    requires at <= |d|
    ensures EntryAt(d, at) == RecordAt(d, at)
  {
    hide FromLittleEndian;
  }

  /** The records from offset `at` on, and where the walk stopped if it could not go on. */
  function Walk(d: Bytes, at: nat): (seq<Record>, Option<nat>)
    requires at <= |d|
    decreases |d| - at
  {
    if at == |d| then ([], None)
    else match EntryAt(d, at)
      case None => ([], Some(at))
      case Some((r, next)) => ([r] + Walk(d, next).0, Walk(d, next).1)
  }

  /** Each of `xs` once, where it first comes. */
  function Once(xs: seq<string>): (s: seq<string>)
    ensures forall x :: x in s <==> x in xs
    ensures forall i, j :: 0 <= i < j < |s| ==> s[i] != s[j]
  {
    if xs == [] then [] else
      var front := Once(xs[..|xs| - 1]);
      if xs[|xs| - 1] in front then front else front + [xs[|xs| - 1]]
  }

  function Shown(rs: seq<Record>): (s: seq<Bytes>)
    ensures |s| == |rs| && forall i :: 0 <= i < |rs| ==> s[i] == Printable(rs[i].name)
  {
    seq(|rs|, i requires 0 <= i < |rs| => Printable(rs[i].name))
  }

  function Algs(rs: seq<Record>): (s: seq<string>)
    ensures |s| == |rs| && forall i :: 0 <= i < |rs| ==> s[i] == AlgOf(rs[i].blob)
  {
    seq(|rs|, i requires 0 <= i < |rs| => AlgOf(rs[i].blob))
  }

  /** The list of names is cut after twenty. */
  function Listed(names: seq<Bytes>, algs: seq<string>): Option<Listing> {
    if names == [] then None
    else
      var n := if |names| < NAMES_SHOWN then |names| else NAMES_SHOWN;
      Some(Listing(names[..n], |names| - n, algs))
  }

  /** The whole report, from the walk. */
  function Told(d: Bytes): Report {
    if !(STORE_MAGIC <= d) then NotAStore
    else if |d| < HEADER_LEN then HeaderCutShort
    else
      var (rs, damaged) := Walk(d, HEADER_LEN);
      Report(d[4], d[21..37], |rs|, Listed(Shown(rs), Once(Algs(rs))), damaged)
  }

  lemma NothingShown()
    ensures Shown([]) == [] && Once(Algs([])) == []
  {
    assert Algs([]) == [];
  }

  lemma WalkStops(d: Bytes, at: nat)
    requires at <= |d| && (at == |d| || EntryAt(d, at).None?)
    ensures Walk(d, at) == ([], if at == |d| then None else Some(at))
  {
  }

  lemma WalkGoesOn(d: Bytes, at: nat, done: seq<Record>)
    requires at < |d| && EntryAt(d, at).Some?
    ensures var (r, next) := EntryAt(d, at).value;
      done + Walk(d, at).0 == done + [r] + Walk(d, next).0 && Walk(d, at).1 == Walk(d, next).1
  {
    var (r, next) := EntryAt(d, at).value;
    assert done + ([r] + Walk(d, next).0) == (done + [r]) + Walk(d, next).0;
  }

  lemma OneMoreShown(rs: seq<Record>, r: Record)
    ensures Shown(rs + [r]) == Shown(rs) + [Printable(r.name)]
    ensures Once(Algs(rs + [r])) ==
      if AlgOf(r.blob) in Once(Algs(rs)) then Once(Algs(rs)) else Once(Algs(rs)) + [AlgOf(r.blob)]
  {
    assert Algs(rs + [r]) == Algs(rs) + [AlgOf(r.blob)];
    assert Algs(rs + [r])[..|rs|] == Algs(rs);
  }

  /** `store` of `inspect`: the loop over `at`, `names`, `algs` and `damaged`. */
  method InspectStore(input: Bytes) returns (r: Report)
    ensures r == Told(input)
  {
    hide FromLittleEndian, Once, AlgOf, Printable, Walk;
    if !(STORE_MAGIC <= input) {
      return NotAStore;
    }
    if |input| < HEADER_LEN {
      return HeaderCutShort;
    }
    var names: seq<Bytes>, algs: seq<string>, at := [], [], HEADER_LEN;
    var damaged: Option<nat> := None;
    ghost var done: seq<Record> := [];
    ghost var all := Walk(input, HEADER_LEN);
    NothingShown();
    assert [] + all.0 == all.0;
    while at < |input|
      invariant HEADER_LEN <= at <= |input|
      invariant damaged.None?
      invariant names == Shown(done) && algs == Once(Algs(done))
      invariant all.0 == done + Walk(input, at).0 && all.1 == Walk(input, at).1
      decreases |input| - at
    {
      match EntryAt(input, at) {
        case None =>
          damaged := Some(at);
          break;
        case Some((rec, next)) =>
          names := names + [Printable(rec.name)];
          var alg := AlgOf(rec.blob);
          if alg !in algs {
            algs := algs + [alg];
          }
          OneMoreShown(done, rec);
          WalkGoesOn(input, at, done);
          done := done + [rec];
          at := next;
      }
    }
    WalkStops(input, at);
    assert done + [] == done;
    var listing: Option<Listing> := None;
    if names != [] {
      var shown, more := names[..if |names| < NAMES_SHOWN then |names| else NAMES_SHOWN], 0;
      if |names| > NAMES_SHOWN {
        more := |names| - NAMES_SHOWN;
      }
      listing := Some(Listing(shown, more, algs));
    }
    return Report(input[4], input[21..37], |names|, listing, damaged);
  }

  predicate NamesAllowed(rs: seq<Record>, seen: set<Bytes>) {
    && (forall i :: 0 <= i < |rs| ==> ValidName(rs[i].name) && rs[i].name !in seen)
    && Distinct(rs)
  }

  lemma NamesAllowedStep(r: Record, rs: seq<Record>, seen: set<Bytes>)
    ensures NamesAllowed([r] + rs, seen) <==>
      ValidName(r.name) && r.name !in seen && NamesAllowed(rs, seen + {r.name})
  {
    var all := [r] + rs;
    assert forall i :: 0 <= i < |rs| ==> all[i + 1] == rs[i];
    assert all[0] == r;
    if NamesAllowed(all, seen) {
      forall i | 0 <= i < |rs| ensures ValidName(rs[i].name) && rs[i].name !in seen + {r.name} {
        assert all[i + 1].name != all[0].name;
      }
      forall i, j | 0 <= i < j < |rs| ensures rs[i].name != rs[j].name {
        assert all[i + 1].name != all[j + 1].name;
      }
    }
  }

  /** The loader's record loop succeeds as the walk does, once the names pass. */
  lemma {:induction false} WalkAgrees(d: Bytes, at: nat, seen: set<Bytes>)
    requires at <= |d|
    ensures var (rs, damaged) := Walk(d, at);
      ReadRecords(d[at..], seen) == if damaged.None? && NamesAllowed(rs, seen) then Ok(rs) else Err(Format)
    decreases |d| - at
  {
    hide FromLittleEndian, ValidName, EntryAt;
    if at < |d| {
      RecordAtReads(d, at);
      EntryIsRecord(d, at);
      match RecordAt(d, at) {
        case None =>
        case Some((r, next)) =>
          WalkAgrees(d, next, seen + {r.name});
          NamesAllowedStep(r, Walk(d, next).0, seen);
      }
    }
  }

  lemma ValidNameShown(name: Bytes)
    requires ValidName(name)
    ensures Printable(name) == name
  {
  }

  /** The loader's rule for names is the printer's: the names allowed are those of 1 to 512 bytes shown as they are. */
  lemma NamesAreShown(name: Bytes)
    ensures ValidName(name) <==> 1 <= |name| <= 512 && Printable(name) == name
    ensures forall i :: 0 <= i < |name| && !(0x20 <= name[i] <= 0x7e) ==> Printable(name)[i] == '?' as int
  {
    if Printable(name) == name {
      forall i | 0 <= i < |name| ensures 0x20 <= name[i] <= 0x7e {
        assert Printable(name)[i] == name[i];
      }
    }
  }

  /** What the list of algorithms says: each that some entry has, and nothing else. */
  lemma AlgsAreTold(d: Bytes, i: nat)
    requires Told(d).Report? && i < |Walk(d, HEADER_LEN).0|
    ensures Told(d).listing.Some?
    ensures AlgOf(Walk(d, HEADER_LEN).0[i].blob) in Told(d).listing.value.algs
    ensures forall a :: a in Told(d).listing.value.algs ==>
      exists j :: 0 <= j < |Walk(d, HEADER_LEN).0| && a == AlgOf(Walk(d, HEADER_LEN).0[j].blob)
  {
    hide Walk, AlgOf, Printable;
    var rs := Walk(d, HEADER_LEN).0;
    assert Algs(rs)[i] == AlgOf(rs[i].blob);
    forall a | a in Told(d).listing.value.algs
      ensures exists j :: 0 <= j < |rs| && a == AlgOf(rs[j].blob)
    {
      assert a in Algs(rs);
      var j :| 0 <= j < |rs| && Algs(rs)[j] == a;
      assert a == AlgOf(rs[j].blob);
    }
  }

  /** A blob that `seal` made is told by its algorithm's name. */
  lemma SealedIsNamed(c: Aead.Cipher, key: Aead.Key, keyId: Bytes, pt: Bytes, alg: Aead.Alg, random: Option<Bytes>)
    requires |keyId| == Aead.KEY_ID_LEN && Aead.GoodRandom(random)
    requires Aead.SealBlob(c, key, keyId, pt, alg, random).Ok?
    ensures AlgOf(Aead.SealBlob(c, key, keyId, pt, alg, random).value) ==
      match alg
      case Aegis256 => "AEGIS-256"
      case XChaCha20Poly1305 => "XChaCha20-Poly1305"
      case Aes256Gcm => "AES-256-GCM"
  {
    Aead.SealIff(c, key, keyId, pt, alg, random);
    var blob := Aead.SealBlob(c, key, keyId, pt, alg, random).value;
    var h := Aead.NewHeader(alg, keyId, random.value);
    assert blob[..4] == h[..4] == BLOB_MAGIC && blob[5] == h[5];
    hide Aead.SealBlob, Aead.NewHeader;
  }

  /** What is no krypto blob, and what is of another algorithm, is told too. */
  lemma OtherBlobsAreNamed(blob: Bytes)
    ensures |blob| < 6 || blob[..4] != [0x46, 0x41, 0x46, 0x4e] ==> AlgOf(blob) == "not a krypto blob"
    ensures |blob| >= 6 && blob[..4] == [0x46, 0x41, 0x46, 0x4e] && blob[5] !in {1, 2, 3} ==>
      AlgOf(blob) == "unknown to this krypto"
  {
  }

  /**
   * The two readers agree: `load` accepts exactly the files whose walk reports
   * no damage, whose format is 1, and whose names are valid and distinct; and then
   * the names walked are the names loaded, in the order of the file, as many as
   * there are entries, and the first twenty of them are shown.
   */
  lemma ReadersAgree(d: Bytes)
    ensures ReadStore(d).Ok? <==>
      && Told(d).Report? && Told(d).damaged.None? && Told(d).format == 1
      && NamesAllowed(Walk(d, HEADER_LEN).0, {})
    ensures ReadStore(d).Ok? ==>
      var c, names := ReadStore(d).value, Shown(Walk(d, HEADER_LEN).0);
      && Told(d).keyId == c.keyId
      && Told(d).entries == |names| == |c.entries|
      && (forall n :: n in c.entries <==> n in names)
      && (Told(d).listing.None? <==> c.entries == map[])
      && (Told(d).listing.Some? ==>
            && Told(d).listing.value.shown <= names
            && |Told(d).listing.value.shown| + Told(d).listing.value.more == |names|
            && (Told(d).listing.value.more > 0 ==> |Told(d).listing.value.shown| == NAMES_SHOWN))
  {
    hide EntryAt, RecordAt, FromLittleEndian, Walk, ReadRecords, ToMap, Printable, Listed, NamesAllowed, Once;
    if |d| >= HEADER_LEN {
      assert d[..4] == STORE_MAGIC <==> STORE_MAGIC <= d;
      WalkAgrees(d, HEADER_LEN, {});
      if ReadStore(d).Ok? {
        var rs := Walk(d, HEADER_LEN).0;
        WalkedNames(rs);
        ListedIs(Shown(rs), Once(Algs(rs)));
      }
    }
  }

  lemma ListedIs(names: seq<Bytes>, algs: seq<string>)
    ensures var l := Listed(names, algs);
      && (l.None? <==> names == [])
      && (l.Some? ==>
            && l.value.shown <= names && |l.value.shown| + l.value.more == |names|
            && (l.value.more > 0 ==> |l.value.shown| == NAMES_SHOWN))
  {
  }

  /** Valid names are shown as they are. */
  lemma WalkedNames(rs: seq<Record>)
    requires NamesAllowed(rs, {})
    ensures forall n :: n in ToMap(rs) <==> n in Shown(rs)
    ensures |ToMap(rs)| == |rs| && (rs == [] <==> ToMap(rs) == map[])
  {
    ToMapLooksUp(rs);
    forall i | 0 <= i < |rs| ensures Shown(rs)[i] == rs[i].name && Shown(rs)[i] in ToMap(rs) {
      ValidNameShown(rs[i].name);
    }
    forall n | n in ToMap(rs) ensures n in Shown(rs) {
      var i :| 0 <= i < |rs| && rs[i].name == n;
      assert Shown(rs)[i] == n;
    }
  }
}
