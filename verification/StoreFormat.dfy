/** The store file: its records, the loader, and the writer's buffer. */
module StoreFormat {
  import opened Base
  import opened NameOrder

  const STORE_MAGIC: Bytes := [0x46, 0x53, 0x54, 0x31] // "FST1"
  const STORE_VER: byte := 1
  const SALT_LEN := 16
  const KEY_ID_LEN := 16
  const HEADER_LEN := 37
  const MAX_STORE_BYTES := 16 * 1024 * 1024
  const MAX_NAME_LEN := 512

  /** What a store file holds. Names and blobs are bytes. */
  datatype Contents = Contents(salt: Bytes, keyId: Bytes, entries: map<Bytes, Bytes>)

  datatype Record = Record(name: Bytes, blob: Bytes)

  // ---------------------------------------------------------------------
  // The format, stated without any parsing
  // ---------------------------------------------------------------------

  predicate ValidName(name: Bytes) {
    1 <= |name| <= MAX_NAME_LEN && forall i :: 0 <= i < |name| ==> 0x20 <= name[i] <= 0x7e
  }

  predicate Fits(r: Record) {
    |r.name| < 0x1_0000 && |r.blob| < 0x1_0000_0000
  }

  function EncodeRecord(r: Record): (b: Bytes)
    ensures |b| == 6 + |r.name| + |r.blob|
  {
    LittleEndian(|r.name|, 2) + r.name + LittleEndian(|r.blob|, 4) + r.blob
  }

  function EncodeRecords(rs: seq<Record>): Bytes {
    if rs == [] then [] else EncodeRecord(rs[0]) + EncodeRecords(rs[1..])
  }

  function Header(salt: Bytes, keyId: Bytes): Bytes {
    STORE_MAGIC + [STORE_VER] + salt + keyId
  }

  function Image(salt: Bytes, keyId: Bytes, rs: seq<Record>): Bytes {
    Header(salt, keyId) + EncodeRecords(rs)
  }

  /** Legal records after the names in `seen`: each one fits, has a valid name, and a new one. */
  predicate Legal(rs: seq<Record>, seen: set<Bytes>) {
    rs == [] ||
    (Fits(rs[0]) && ValidName(rs[0].name) && rs[0].name !in seen && Legal(rs[1..], seen + {rs[0].name}))
  }

  function ToMap(rs: seq<Record>): map<Bytes, Bytes> {
    if rs == [] then map[] else ToMap(rs[..|rs| - 1])[rs[|rs| - 1].name := rs[|rs| - 1].blob]
  }

  /** The sum of record sizes, 6 bytes of lengths included. */
  function Size(rs: seq<Record>): nat {
    if rs == [] then 0 else 6 + |rs[0].name| + |rs[0].blob| + Size(rs[1..])
  }

  lemma {:induction false} EncodedSize(rs: seq<Record>)
    ensures |EncodeRecords(rs)| == Size(rs)
  {
    if rs != [] {
      EncodedSize(rs[1..]);
    }
  }

  // ---------------------------------------------------------------------
  // Reading one record, and all of them
  // ---------------------------------------------------------------------

  /** The record at the front of `d` and the bytes after it, names not judged. */
  function ReadRecord(d: Bytes): (r: Option<(Record, Bytes)>)
    ensures r.Some? ==> |r.value.1| + 6 <= |d|
  {
    if |d| < 2 then None else
      var nlen := FromLittleEndian(d[..2]);
      if 2 + nlen > |d| then None
      else if 2 + nlen + 4 > |d| then None
      else
        var blen := FromLittleEndian(d[2 + nlen..2 + nlen + 4]);
        if 2 + nlen + 4 + blen > |d| then None
        else Some((Record(d[2..2 + nlen], d[2 + nlen + 4..2 + nlen + 4 + blen]), d[2 + nlen + 4 + blen..]))
  }

  /** The records of `d`, under the rules `load` applies to names. */
  function ReadRecords(d: Bytes, seen: set<Bytes>): Result<seq<Record>>
    decreases |d|
  {
    if d == [] then Ok([])
    else match ReadRecord(d)
      case None => Err(Format)
      case Some((r, rest)) =>
        if !ValidName(r.name) || r.name in seen then Err(Format)
        else match ReadRecords(rest, seen + {r.name})
          case Err(e) => Err(e)
          case Ok(rs) => Ok([r] + rs)
  }

  function ReadStore(d: Bytes): Result<Contents> {
    if |d| < HEADER_LEN || d[..4] != STORE_MAGIC || d[4] != STORE_VER then Err(Format)
    else WithHeader(d[5..5 + SALT_LEN], d[5 + SALT_LEN..HEADER_LEN], ReadRecords(d[HEADER_LEN..], {}))
  }

  /** A record read is the record written: reading inverts encoding, whatever follows. */
  lemma ReadEncoded(r: Record, rest: Bytes)
    requires Fits(r)
    ensures ReadRecord(EncodeRecord(r) + rest) == Some((r, rest))
  {
    hide LittleEndian, FromLittleEndian, Pow256;
    var d := EncodeRecord(r) + rest;
    var n, b := |r.name|, |r.blob|;
    WidthRanges();
    assert d[..2] == LittleEndian(n, 2);
    LittleEndianInverts(n, 2);
    assert d[2 + n..2 + n + 4] == LittleEndian(b, 4);
    LittleEndianInverts(b, 4);
    assert d[2..2 + n] == r.name;
    assert d[2 + n + 4..2 + n + 4 + b] == r.blob;
    assert d[2 + n + 4 + b..] == rest;
  }

  /** The bytes read are the encoding of what they were read as. */
  lemma EncodedRead(d: Bytes)
    requires ReadRecord(d).Some?
    ensures var (r, rest) := ReadRecord(d).value; Fits(r) && d == EncodeRecord(r) + rest
  {
    hide LittleEndian, FromLittleEndian, Pow256;
    var (r, rest) := ReadRecord(d).value;
    var n, b := |r.name|, |r.blob|;
    WidthRanges();
    FromLittleEndianInverts(d[..2]);
    FromLittleEndianInverts(d[2 + n..2 + n + 4]);
    assert d == d[..2] + d[2..2 + n] + d[2 + n..2 + n + 4] + d[2 + n + 4..2 + n + 4 + b] + d[2 + n + 4 + b..];
  }

  /** The record reader accepts exactly the encodings of legal record lists. */
  lemma {:induction false} ReadRecordsIff(d: Bytes, seen: set<Bytes>, rs: seq<Record>)
    ensures ReadRecords(d, seen) == Ok(rs) <==> Legal(rs, seen) && d == EncodeRecords(rs)
    decreases |d|
  {
    if d == [] {
      if rs != [] {
        assert |EncodeRecords(rs)| >= 6;
      }
    } else {
      if ReadRecords(d, seen) == Ok(rs) {
        var (r, rest) := ReadRecord(d).value;
        EncodedRead(d);
        assert rs[0] == r;
        assert ReadRecords(rest, seen + {r.name}) == Ok(rs[1..]);
        ReadRecordsIff(rest, seen + {r.name}, rs[1..]);
      }
      if Legal(rs, seen) && d == EncodeRecords(rs) {
        ReadEncoded(rs[0], EncodeRecords(rs[1..]));
        ReadRecordsIff(EncodeRecords(rs[1..]), seen + {rs[0].name}, rs[1..]);
        assert rs == [rs[0]] + rs[1..];
      }
    }
  }

  /** `d` is a store file holding `c`: some legal record list spells it out. */
  ghost predicate Spells(d: Bytes, c: Contents, rs: seq<Record>) {
    && |c.salt| == SALT_LEN && |c.keyId| == KEY_ID_LEN
    && Legal(rs, {})
    && d == Image(c.salt, c.keyId, rs)
    && c.entries == ToMap(rs)
  }

  lemma ImageParts(salt: Bytes, keyId: Bytes, rs: seq<Record>)
    requires |salt| == SALT_LEN && |keyId| == KEY_ID_LEN
    ensures var d := Image(salt, keyId, rs);
      && |d| == HEADER_LEN + Size(rs)
      && d[..4] == STORE_MAGIC && d[4] == STORE_VER
      && d[5..21] == salt && d[21..37] == keyId && d[37..] == EncodeRecords(rs)
      && d[..37] == Header(salt, keyId)
  {
    EncodedSize(rs);
  }

  /** What `load` accepts, and as what: exactly the files that spell it out. */
  lemma ReadStoreIff(d: Bytes, c: Contents)
    ensures ReadStore(d) == Ok(c) <==> exists rs :: Spells(d, c, rs)
  {
    if ReadStore(d) == Ok(c) {
      var rs := ReadRecords(d[HEADER_LEN..], {}).value;
      ReadRecordsIff(d[HEADER_LEN..], {}, rs);
      assert d == d[..4] + [d[4]] + d[5..21] + d[21..37] + d[37..];
      assert Spells(d, c, rs);
    }
    if rs: seq<Record> :| Spells(d, c, rs) {
      SpelledIsRead(d, c, rs);
    }
  }

  lemma SpelledIsRead(d: Bytes, c: Contents, rs: seq<Record>)
    requires Spells(d, c, rs)
    ensures ReadStore(d) == Ok(c) && |d| == HEADER_LEN + Size(rs)
  {
    ImageParts(c.salt, c.keyId, rs);
    ReadRecordsIff(d[HEADER_LEN..], {}, rs);
  }

  // ---------------------------------------------------------------------
  // Facts about legal record lists
  // ---------------------------------------------------------------------

  predicate Distinct(rs: seq<Record>) {
    forall i, j :: 0 <= i < j < |rs| ==> rs[i].name != rs[j].name
  }

  predicate AllWell(rs: seq<Record>) {
    forall i :: 0 <= i < |rs| ==> Fits(rs[i]) && ValidName(rs[i].name)
  }

  /** Legal is: every record is well formed, and no name comes twice. */
  lemma {:induction false} LegalIff(rs: seq<Record>, seen: set<Bytes>)
    ensures Legal(rs, seen) <==>
      AllWell(rs) && Distinct(rs) && forall i :: 0 <= i < |rs| ==> rs[i].name !in seen
  {
    if rs != [] {
      var t := rs[1..];
      LegalIff(t, seen + {rs[0].name});
      if Legal(rs, seen) {
        forall i | 0 <= i < |rs| ensures Fits(rs[i]) && ValidName(rs[i].name) && rs[i].name !in seen {
          if i > 0 { assert rs[i] == t[i - 1]; }
        }
        forall i, j | 0 <= i < j < |rs| ensures rs[i].name != rs[j].name {
          assert rs[j] == t[j - 1];
          if i > 0 { assert rs[i] == t[i - 1]; }
        }
      }
    }
  }

  lemma {:induction false} ToMapNames(rs: seq<Record>, n: Bytes)
    ensures n in ToMap(rs) <==> exists i :: 0 <= i < |rs| && rs[i].name == n
  {
    if rs != [] {
      var k := |rs| - 1;
      var front := rs[..k];
      ToMapNames(front, n);
      if i :| 0 <= i < k && front[i].name == n { assert rs[i].name == n; }
      if i :| 0 <= i < |rs| && rs[i].name == n && i < k { assert front[i].name == n; }
      assert rs[k].name in ToMap(rs);
    }
  }

  lemma {:induction false} ToMapBlob(rs: seq<Record>, i: nat)
    requires Distinct(rs) && i < |rs|
    ensures rs[i].name in ToMap(rs) && ToMap(rs)[rs[i].name] == rs[i].blob
  {
    var k := |rs| - 1;
    if i < k {
      assert rs[..k][i] == rs[i];
      ToMapBlob(rs[..k], i);
    }
  }

  lemma {:induction false} ToMapSize(rs: seq<Record>)
    requires Distinct(rs)
    ensures |ToMap(rs)| == |rs|
  {
    if rs != [] {
      var k := |rs| - 1;
      var front := rs[..k];
      ToMapSize(front);
      ToMapNames(front, rs[k].name);
      assert forall i :: 0 <= i < k ==> front[i].name == rs[i].name;
    }
  }

  lemma ToMapLooksUp(rs: seq<Record>)
    requires Distinct(rs)
    ensures forall i :: 0 <= i < |rs| ==> rs[i].name in ToMap(rs) && ToMap(rs)[rs[i].name] == rs[i].blob
    ensures forall n :: n in ToMap(rs) ==> exists i :: 0 <= i < |rs| && rs[i].name == n
    ensures |ToMap(rs)| == |rs|
  {
    hide ToMap;
    forall i | 0 <= i < |rs| ensures rs[i].name in ToMap(rs) && ToMap(rs)[rs[i].name] == rs[i].blob {
      ToMapBlob(rs, i);
    }
    forall n | n in ToMap(rs) ensures exists i :: 0 <= i < |rs| && rs[i].name == n {
      ToMapNames(rs, n);
    }
    ToMapSize(rs);
  }

  // ---------------------------------------------------------------------
  // What `persist` writes
  // ---------------------------------------------------------------------

  /** The records of `m`, in the order of `names`. */
  function RecordsOf(m: map<Bytes, Bytes>, names: seq<Bytes>): (rs: seq<Record>)
    requires forall n :: n in names ==> n in m
    ensures |rs| == |names|
    ensures forall i :: 0 <= i < |rs| ==> rs[i] == Record(names[i], m[names[i]])
  {
    seq(|names|, i requires 0 <= i < |names| => Record(names[i], m[names[i]]))
  }

  function SortedRecords(m: map<Bytes, Bytes>): (rs: seq<Record>) {
    RecordsOf(m, Sorted(m.Keys))
  }

  predicate BlobsFit(m: map<Bytes, Bytes>) {
    forall n :: n in m ==> |m[n]| < 0x1_0000_0000
  }

  /** The bytes `persist` writes, or why it refuses to. */
  function Serialized(c: Contents): Result<Bytes> {
    var d := Image(c.salt, c.keyId, SortedRecords(c.entries));
    if BlobsFit(c.entries) && |d| <= MAX_STORE_BYTES then Ok(d) else Err(Format)
  }

  /** What every handle keeps true of its own contents. */
  predicate ValidContents(c: Contents) {
    |c.salt| == SALT_LEN && |c.keyId| == KEY_ID_LEN && forall n :: n in c.entries ==> ValidName(n)
  }

  lemma AscendingDistinct(names: seq<Bytes>, i: int, j: int)
    requires Ascending(names) && 0 <= i < |names| && 0 <= j < |names| && i != j
    ensures names[i] != names[j]
  {
    if i < j {
      assert LexLt(names[i], names[j]);
    } else {
      assert LexLt(names[j], names[i]);
    }
  }

  /** `rs` lists the entries of `m`, each once. */
  ghost predicate Lists(rs: seq<Record>, m: map<Bytes, Bytes>) {
    && Distinct(rs)
    && (forall i :: 0 <= i < |rs| ==> rs[i].name in m && m[rs[i].name] == rs[i].blob)
    && (forall n :: n in m ==> exists i :: 0 <= i < |rs| && rs[i].name == n)
  }

  lemma SortedRecordsList(m: map<Bytes, Bytes>)
    ensures Lists(SortedRecords(m), m)
  {
    var names := Sorted(m.Keys);
    var rs := SortedRecords(m);
    forall i, j | 0 <= i < j < |rs| ensures rs[i].name != rs[j].name {
      AscendingDistinct(names, i, j);
    }
    forall i | 0 <= i < |rs| ensures rs[i].name in m && m[rs[i].name] == rs[i].blob {
      assert names[i] in names;
    }
    forall n | n in m ensures exists i :: 0 <= i < |rs| && rs[i].name == n {
      assert n in names;
      var i :| 0 <= i < |names| && names[i] == n;
      assert rs[i].name == n;
    }
  }

  lemma ListedMap(rs: seq<Record>, m: map<Bytes, Bytes>)
    requires Lists(rs, m)
    ensures ToMap(rs) == m
  {
    ToMapLooksUp(rs);
    forall n | n in m ensures n in ToMap(rs) && ToMap(rs)[n] == m[n] {
      var i :| 0 <= i < |rs| && rs[i].name == n;
      assert ToMap(rs)[rs[i].name] == rs[i].blob;
    }
  }

  lemma SortedRecordsSpell(c: Contents)
    requires ValidContents(c) && BlobsFit(c.entries)
    ensures Spells(Image(c.salt, c.keyId, SortedRecords(c.entries)), c, SortedRecords(c.entries))
  {
    var rs := SortedRecords(c.entries);
    SortedRecordsList(c.entries);
    ListedMap(rs, c.entries);
    assert AllWell(rs);
    LegalIff(rs, {});
  }

  /** Loading what was persisted gives back the same contents, and the file is as long as its parts. */
  lemma PersistThenLoad(c: Contents)
    requires ValidContents(c) && Serialized(c).Ok?
    ensures ReadStore(Serialized(c).value) == Ok(c)
    ensures |Serialized(c).value| == HEADER_LEN + Size(SortedRecords(c.entries))
  {
    SortedRecordsSpell(c);
    SpelledIsRead(Serialized(c).value, c, SortedRecords(c.entries));
  }

  /** Whatever is loaded can be held: every name valid, every blob short enough. */
  lemma LoadedIsValid(d: Bytes)
    requires ReadStore(d).Ok?
    ensures ValidContents(ReadStore(d).value) && BlobsFit(ReadStore(d).value.entries)
  {
    var c := ReadStore(d).value;
    ReadStoreIff(d, c);
    var rs: seq<Record> :| Spells(d, c, rs);
    LegalIff(rs, {});
    ToMapLooksUp(rs);
    forall n | n in c.entries ensures ValidName(n) && |c.entries[n]| < 0x1_0000_0000 {
      var i :| 0 <= i < |rs| && rs[i].name == n;
      assert c.entries[rs[i].name] == rs[i].blob;
    }
  }

  lemma {:induction false} SizeRemove(rs: seq<Record>, k: nat)
    requires k < |rs|
    ensures Size(rs) == 6 + |rs[k].name| + |rs[k].blob| + Size(rs[..k] + rs[k + 1..])
  {
    if k == 0 {
      assert rs[..0] + rs[1..] == rs[1..];
    } else {
      SizeRemove(rs[1..], k - 1);
      assert (rs[..k] + rs[k + 1..])[1..] == rs[1..][..k - 1] + rs[1..][k..];
    }
  }

  /** A file within the cap has no blob too long for its length field. */
  lemma FittingBlobs(c: Contents)
    requires |c.salt| == SALT_LEN && |c.keyId| == KEY_ID_LEN
    requires |Image(c.salt, c.keyId, SortedRecords(c.entries))| <= MAX_STORE_BYTES
    ensures BlobsFit(c.entries)
  {
    var rs := SortedRecords(c.entries);
    ImageParts(c.salt, c.keyId, rs);
    SortedRecordsList(c.entries);
    forall n | n in c.entries ensures |c.entries[n]| < 0x1_0000_0000 {
      var i :| 0 <= i < |rs| && rs[i].name == n;
      SizeRemove(rs, i);
    }
  }

  lemma MultisetWithout(rs: seq<Record>, k: nat)
    requires k < |rs|
    ensures multiset(rs) == multiset(rs[..k] + rs[k + 1..]) + multiset{rs[k]}
  {
    assert rs == rs[..k] + [rs[k]] + rs[k + 1..];
  }

  lemma OneTakenAway(x: multiset<Record>, y: multiset<Record>, r: Record)
    requires x + multiset{r} == y + multiset{r}
    ensures x == y
  {
    assert x == x + multiset{r} - multiset{r};
    assert y == y + multiset{r} - multiset{r};
  }

  lemma RestOfPermutation(a: seq<Record>, b: seq<Record>, k: nat)
    requires multiset(a) == multiset(b) && a != [] && k < |b| && b[k] == a[0]
    ensures multiset(a[1..]) == multiset(b[..k] + b[k + 1..])
  {
    MultisetWithout(a, 0);
    MultisetWithout(b, k);
    assert a[..0] + a[1..] == a[1..];
    OneTakenAway(multiset(a[1..]), multiset(b[..k] + b[k + 1..]), a[0]);
  }

  lemma {:induction false} SizeOfPermutation(a: seq<Record>, b: seq<Record>)
    requires multiset(a) == multiset(b)
    ensures Size(a) == Size(b)
  {
    if a == [] {
      assert |multiset(b)| == 0;
    } else {
      assert a[0] in multiset(b);
      var k :| 0 <= k < |b| && b[k] == a[0];
      RestOfPermutation(a, b, k);
      SizeOfPermutation(a[1..], b[..k] + b[k + 1..]);
      SizeRemove(b, k);
    }
  }

  lemma DistinctOnce(rs: seq<Record>, r: Record)
    requires Distinct(rs)
    ensures multiset(rs)[r] == (if r in rs then 1 else 0)
  {
    if r in rs {
      var k :| 0 <= k < |rs| && rs[k] == r;
      assert rs == rs[..k] + [rs[k]] + rs[k + 1..];
      assert r !in rs[..k] && r !in rs[k + 1..];
    }
  }

  lemma SameMapSameRecords(a: seq<Record>, b: seq<Record>)
    requires Distinct(a) && Distinct(b) && ToMap(a) == ToMap(b)
    ensures multiset(a) == multiset(b)
  {
    ToMapLooksUp(a);
    ToMapLooksUp(b);
    forall r ensures multiset(a)[r] == multiset(b)[r] {
      DistinctOnce(a, r);
      DistinctOnce(b, r);
      if r in a {
        var i :| 0 <= i < |a| && a[i] == r;
        var j :| 0 <= j < |b| && b[j].name == r.name;
        assert b[j] == r;
      }
      if r in b {
        var i :| 0 <= i < |b| && b[i] == r;
        var j :| 0 <= j < |a| && a[j].name == r.name;
        assert a[j] == r;
      }
    }
  }

  /**
   * Writing back an accepted file never fails, keeps its length and its records,
   * puts them in order, and changes nothing when done again.
   */
  lemma RewriteIsCanonical(d: Bytes, rs: seq<Record>)
    requires |d| <= MAX_STORE_BYTES
    requires ReadStore(d).Ok? && Spells(d, ReadStore(d).value, rs)
    ensures var again := Serialized(ReadStore(d).value);
      && again.Ok?
      && |again.value| == |d|
      && ReadStore(again.value) == ReadStore(d)
      && Serialized(ReadStore(again.value).value) == again
    ensures var out := SortedRecords(ReadStore(d).value.entries);
      && multiset(out) == multiset(rs)
      && forall i, j :: 0 <= i < j < |out| ==> LexLt(out[i].name, out[j].name)
  {
    var c := ReadStore(d).value;
    var out := SortedRecords(c.entries);
    LoadedIsValid(d);
    SortedRecordsSpell(c);
    LegalIff(rs, {});
    LegalIff(out, {});
    SameMapSameRecords(rs, out);
    SizeOfPermutation(rs, out);
    ImageParts(c.salt, c.keyId, rs);
    ImageParts(c.salt, c.keyId, out);
    PersistThenLoad(c);
  }

  // ---------------------------------------------------------------------
  // Files cut short
  // ---------------------------------------------------------------------

  /** A record's encoding tells where it ends. */
  lemma EncodingInjective(x: Record, s: Bytes, y: Record, t: Bytes)
    requires Fits(x) && Fits(y) && EncodeRecord(x) + s == EncodeRecord(y) + t
    ensures x == y && s == t
  {
    ReadEncoded(x, s);
    ReadEncoded(y, t);
  }

  /** No record list is spelled by the start of another, except its own first records. */
  lemma {:induction false} EncodingIsPrefixFree(a: seq<Record>, b: seq<Record>, tail: Bytes)
    requires AllWell(a) && AllWell(b)
    requires EncodeRecords(a) + tail == EncodeRecords(b)
    ensures a <= b
  {
    if a != [] {
      assert |EncodeRecords(a)| >= 6;
      assert b != [];
      assert EncodeRecords(a) + tail == EncodeRecord(a[0]) + (EncodeRecords(a[1..]) + tail);
      EncodingInjective(a[0], EncodeRecords(a[1..]) + tail, b[0], EncodeRecords(b[1..]));
      EncodingIsPrefixFree(a[1..], b[1..], tail);
      assert a == [a[0]] + a[1..] && b == [b[0]] + b[1..];
    }
  }

  lemma {:induction false} EncodeConcat(a: seq<Record>, b: seq<Record>)
    ensures EncodeRecords(a + b) == EncodeRecords(a) + EncodeRecords(b)
  {
    hide EncodeRecord;
    if a == [] {
      assert a + b == b;
    } else {
      EncodeConcat(a[1..], b);
      assert (a + b)[1..] == a[1..] + b;
    }
  }

  /** The cut at `k` falls right after the first `j` records. */
  predicate OnBoundary(rs: seq<Record>, k: nat, j: nat) {
    j <= |rs| && k == HEADER_LEN + Size(rs[..j])
  }

  lemma CutOnBoundary(d: Bytes, c: Contents, rs: seq<Record>, k: nat, j: nat)
    requires Spells(d, c, rs) && OnBoundary(rs, k, j) && k <= |d|
    ensures ReadStore(d[..k]) == Ok(Contents(c.salt, c.keyId, ToMap(rs[..j])))
  {
    var front, back := rs[..j], rs[j..];
    LegalIff(rs, {});
    LegalIff(front, {});
    assert rs == front + back;
    EncodeConcat(front, back);
    EncodedSize(front);
    assert d == Image(c.salt, c.keyId, front) + EncodeRecords(back);
    SpelledIsRead(d[..k], Contents(c.salt, c.keyId, ToMap(front)), front);
  }

  /** Where the records of a cut file end, those of the whole file go on. */
  lemma CutRecords(d: Bytes, salt: Bytes, keyId: Bytes, rs: seq<Record>, salt': Bytes, keyId': Bytes,
                   front: seq<Record>, k: nat)
    requires |salt| == |salt'| == SALT_LEN && |keyId| == |keyId'| == KEY_ID_LEN
    requires d == Image(salt, keyId, rs) && k <= |d| && d[..k] == Image(salt', keyId', front)
    ensures EncodeRecords(front) + d[k..] == EncodeRecords(rs) && k == HEADER_LEN + Size(front)
  {
    ImageParts(salt, keyId, rs);
    ImageParts(salt', keyId', front);
    hide Image, EncodeRecords, Size;
    assert d[..k][37..] + d[k..] == d[37..];
  }

  lemma CutAccepted(d: Bytes, c: Contents, rs: seq<Record>, k: nat) returns (j: nat)
    requires Spells(d, c, rs) && k <= |d| && ReadStore(d[..k]).Ok?
    ensures OnBoundary(rs, k, j)
  {
    hide ReadStore, Image, EncodeRecords, ToMap, Size;
    var c' := ReadStore(d[..k]).value;
    ReadStoreIff(d[..k], c');
    var front: seq<Record> :| Spells(d[..k], c', front);
    LegalIff(rs, {});
    LegalIff(front, {});
    CutRecords(d, c.salt, c.keyId, rs, c'.salt, c'.keyId, front, k);
    EncodingIsPrefixFree(front, rs, d[k..]);
    j := |front|;
    assert rs[..j] == front;
  }

  /**
   * A store file cut at `k` is accepted exactly when the cut falls on a record
   * boundary, and then it holds exactly the records before the cut; every
   * other cut is `Format`.
   */
  lemma TruncatedStore(d: Bytes, c: Contents, rs: seq<Record>, k: nat)
    requires Spells(d, c, rs) && k <= |d|
    ensures ReadStore(d[..k]).Ok? <==> exists j: nat :: OnBoundary(rs, k, j)
    ensures forall j: nat :: OnBoundary(rs, k, j) ==>
      ReadStore(d[..k]) == Ok(Contents(c.salt, c.keyId, ToMap(rs[..j])))
    ensures ReadStore(d[..k]).Ok? || ReadStore(d[..k]) == Err(Format)
  {
    ReadStoreErrs(d[..k]);
    forall j: nat | OnBoundary(rs, k, j)
      ensures ReadStore(d[..k]) == Ok(Contents(c.salt, c.keyId, ToMap(rs[..j])))
    {
      CutOnBoundary(d, c, rs, k, j);
    }
    if ReadStore(d[..k]).Ok? {
      var j := CutAccepted(d, c, rs, k);
    }
  }

  lemma {:induction false} ReadRecordsErrs(d: Bytes, seen: set<Bytes>)
    ensures ReadRecords(d, seen).Err? ==> ReadRecords(d, seen) == Err(Format)
    decreases |d|
  {
    if d != [] && ReadRecord(d).Some? {
      var (r, rest) := ReadRecord(d).value;
      ReadRecordsErrs(rest, seen + {r.name});
    }
  }

  /** The loader has one error. */
  lemma ReadStoreErrs(d: Bytes)
    ensures ReadStore(d).Err? ==> ReadStore(d) == Err(Format)
  {
    if |d| >= HEADER_LEN {
      ReadRecordsErrs(d[HEADER_LEN..], {});
    }
  }

  // ---------------------------------------------------------------------
  // The two loops of `store.rs`
  // ---------------------------------------------------------------------

  /** The record at offset `off` of `data`, and the offset after it. */
  function RecordAt(data: Bytes, off: nat): (r: Option<(Record, nat)>)
    requires off <= |data|
    ensures r.Some? ==> off + 6 <= r.value.1 <= |data|
  {
    if off + 2 > |data| then None else
      var nlen := FromLittleEndian(data[off..off + 2]);
      var at := off + 2 + nlen;
      if at > |data| || at + 4 > |data| then None
      else
        var blen := FromLittleEndian(data[at..at + 4]);
        if at + 4 + blen > |data| then None
        else Some((Record(data[off + 2..at], data[at + 4..at + 4 + blen]), at + 4 + blen))
  }

  lemma RecordAtIs(data: Bytes, off: nat, nlen: nat, blen: nat)
    requires off + 6 + nlen + blen <= |data|
    requires nlen == FromLittleEndian(data[off..off + 2])
    requires blen == FromLittleEndian(data[off + 2 + nlen..off + 2 + nlen + 4])
    ensures RecordAt(data, off) == Some((
      Record(data[off + 2..off + 2 + nlen], data[off + 6 + nlen..off + 6 + nlen + blen]), off + 6 + nlen + blen))
  {
  }

  /** Reading by offset is reading the bytes from that offset on. */
  lemma RecordAtReads(data: Bytes, off: nat)
    requires off <= |data|
    ensures match RecordAt(data, off)
      case None => ReadRecord(data[off..]) == None
      case Some((r, next)) => ReadRecord(data[off..]) == Some((r, data[next..]))
  {
    var d := data[off..];
    if off + 2 <= |data| {
      var nlen := FromLittleEndian(data[off..off + 2]);
      assert d[..2] == data[off..off + 2];
      var at := off + 2 + nlen;
      if at + 4 <= |data| {
        assert d[2 + nlen..2 + nlen + 4] == data[at..at + 4];
        var blen := FromLittleEndian(data[at..at + 4]);
        if at + 4 + blen <= |data| {
          assert d[2..2 + nlen] == data[off + 2..at];
          assert d[2 + nlen + 4..2 + nlen + 4 + blen] == data[at + 4..at + 4 + blen];
          assert d[2 + nlen + 4 + blen..] == data[at + 4 + blen..];
        }
      }
    }
  }

  /** `ReadRecords` of the bytes from `off` on. */
  function ReadFrom(data: Bytes, off: nat, seen: set<Bytes>): Result<seq<Record>>
    requires off <= |data|
    decreases |data| - off
  {
    if off == |data| then Ok([])
    else match RecordAt(data, off)
      case None => Err(Format)
      case Some((r, next)) =>
        if !ValidName(r.name) || r.name in seen then Err(Format)
        else Continued([r], ReadFrom(data, next, seen + {r.name}))
  }

  lemma {:induction false} ReadFromReads(data: Bytes, off: nat, seen: set<Bytes>)
    requires off <= |data|
    ensures ReadFrom(data, off, seen) == ReadRecords(data[off..], seen)
    decreases |data| - off
  {
    if off < |data| {
      RecordAtReads(data, off);
      if RecordAt(data, off).Some? {
        var (r, next) := RecordAt(data, off).value;
        ReadFromReads(data, next, seen + {r.name});
      }
    }
  }

  /** The contents read, from the records read. */
  function WithHeader(salt: Bytes, keyId: Bytes, rs: Result<seq<Record>>): Result<Contents> {
    match rs
    case Err(e) => Err(e)
    case Ok(rs) => Ok(Contents(salt, keyId, ToMap(rs)))
  }

  /** One turn of the loop: a record taken is moved from what is to do to what is done. */
  lemma OneTurn(data: Bytes, off: nat, keys: set<Bytes>, done: seq<Record>, r: Record, next: nat)
    requires off < |data| && RecordAt(data, off) == Some((r, next))
    requires ValidName(r.name) && r.name !in keys
    ensures Continued(done, ReadFrom(data, off, keys)) == Continued(done + [r], ReadFrom(data, next, keys + {r.name}))
    ensures ToMap(done + [r]) == ToMap(done)[r.name := r.blob]
    ensures next >= off + 7
  {
    ContinuedMore(done, [r], ReadFrom(data, next, keys + {r.name}));
    assert (done + [r])[..|done|] == done;
  }

  /** Where `RecordAt` fails, check by check, and what name it reads. */
  lemma RecordChecks(data: Bytes, off: nat)
    requires off < |data|
    ensures off + 2 > |data| ==> RecordAt(data, off).None?
    ensures off + 2 <= |data| ==>
      var nlen := FromLittleEndian(data[off..off + 2]);
      && (off + 2 + nlen > |data| || off + 2 + nlen + 4 > |data| ==> RecordAt(data, off).None?)
      && (RecordAt(data, off).Some? ==> RecordAt(data, off).value.0.name == data[off + 2..off + 2 + nlen])
      && (off + 2 + nlen + 4 <= |data| ==>
            var blen := FromLittleEndian(data[off + 2 + nlen..off + 2 + nlen + 4]);
            off + 2 + nlen + 4 + blen > |data| ==> RecordAt(data, off).None?)
  {
    hide FromLittleEndian;
  }

  /** A record that cannot be read, or a name refused or seen before, ends the loop with `Format`. */
  lemma RefusedRecord(data: Bytes, off: nat, seen: set<Bytes>, done: seq<Record>)
    requires off < |data|
    requires RecordAt(data, off).None? ||
      !ValidName(RecordAt(data, off).value.0.name) || RecordAt(data, off).value.0.name in seen
    ensures Continued(done, ReadFrom(data, off, seen)) == Err(Format)
  {
  }

  lemma NothingLeft(data: Bytes, seen: set<Bytes>, done: seq<Record>)
    ensures Continued(done, ReadFrom(data, |data|, seen)) == Ok(done)
  {
    assert done + [] == done;
  }

  /** Appending a record's four parts to a buffer of the first `i` records. */
  lemma EncodeOneMore(header: Bytes, rs: seq<Record>, i: nat)
    requires i < |rs|
    ensures header + EncodeRecords(rs[..i])
      + LittleEndian(|rs[i].name|, 2) + rs[i].name + LittleEndian(|rs[i].blob|, 4) + rs[i].blob
      == header + EncodeRecords(rs[..i + 1])
  {
    hide LittleEndian;
    assert rs[..i + 1] == rs[..i] + [rs[i]];
    EncodeConcat(rs[..i], [rs[i]]);
    assert [rs[i]][1..] == [];
  }

  /** The loop of `load`: records until the data ends. */
  method LoadRecords(data: Bytes) returns (r: Result<map<Bytes, Bytes>>)
    requires HEADER_LEN <= |data|
    ensures match ReadRecords(data[HEADER_LEN..], {})
      case Err(e) => r == Err(e)
      case Ok(rs) => r == Ok(ToMap(rs))
  {
    assert ToMap([]) == map[];
    hide FromLittleEndian, ToMap, ValidName, ReadFrom, ReadRecord, ReadRecords, RecordAt, Continued;
    var entries: map<Bytes, Bytes> := map[];
    var off := HEADER_LEN;
    ghost var done: seq<Record> := [];
    assert entries.Keys == {};
    ghost var all := ReadRecords(data[HEADER_LEN..], {});
    ReadFromReads(data, off, {});
    ContinuedNothing(all);
    while off < |data|
      invariant HEADER_LEN <= off <= |data|
      invariant entries == ToMap(done)
      invariant all == Continued(done, ReadFrom(data, off, entries.Keys))
      decreases |data| - off
    {
      ghost var at, keys := off, entries.Keys;
      RecordChecks(data, at);
      if off + 2 > |data| {
        RefusedRecord(data, at, keys, done);
        return Err(Format);
      }
      var nlen := FromLittleEndian(data[off..off + 2]);
      off := off + 2;
      if off + nlen > |data| {
        RefusedRecord(data, at, keys, done);
        return Err(Format);
      }
      var name := data[off..off + nlen];
      if !ValidName(name) {
        RefusedRecord(data, at, keys, done);
        return Err(Format);
      }
      off := off + nlen;
      if off + 4 > |data| {
        RefusedRecord(data, at, keys, done);
        return Err(Format);
      }
      var blen := FromLittleEndian(data[off..off + 4]);
      off := off + 4;
      if off + blen > |data| {
        RefusedRecord(data, at, keys, done);
        return Err(Format);
      }
      var blob := data[off..off + blen];
      RecordAtIs(data, at, nlen, blen);
      var duplicate := name in entries;
      entries := entries[name := blob];
      if duplicate {
        RefusedRecord(data, at, keys, done);
        return Err(Format);
      }
      off := off + blen;
      OneTurn(data, at, keys, done, Record(name, blob), off);
      assert entries.Keys == keys + {name};
      done := done + [Record(name, blob)];
    }
    NothingLeft(data, entries.Keys, done);
    return Ok(entries);
  }

  /** `load`: the header, then the records. */
  method Load(data: Bytes) returns (r: Result<Contents>)
    ensures r == ReadStore(data)
  {
    if |data| < HEADER_LEN {
      return Err(Format);
    }
    if data[0..4] != STORE_MAGIC {
      return Err(Format);
    }
    if data[4] != STORE_VER {
      return Err(Format);
    }
    var salt := data[5..5 + SALT_LEN];
    var keyId := data[5 + SALT_LEN..HEADER_LEN];
    var entries :- LoadRecords(data);
    return Ok(Contents(salt, keyId, entries));
  }

  /** The buffer `persist` fills. The name length goes through `as u16`. */
  method Serialize(c: Contents) returns (r: Result<Bytes>)
    requires ValidContents(c)
    ensures r == Serialized(c)
  {
    var buf: Bytes := [];
    buf := buf + STORE_MAGIC;
    buf := buf + [STORE_VER];
    buf := buf + c.salt;
    buf := buf + c.keyId;
    var names := Sorted(c.entries.Keys);
    ghost var rs := SortedRecords(c.entries);
    var i := 0;
    while i < |names|
      invariant 0 <= i <= |names|
      invariant buf == Header(c.salt, c.keyId) + EncodeRecords(rs[..i])
      invariant forall k :: 0 <= k < i ==> |c.entries[names[k]]| < 0x1_0000_0000
    {
      var name := names[i];
      assert name in c.entries;
      var blob := c.entries[name];
      if |blob| >= 0x1_0000_0000 {
        assert !BlobsFit(c.entries);
        return Err(Format);
      }
      buf := buf + LittleEndian(|name|, 2);
      buf := buf + name;
      buf := buf + LittleEndian(|blob|, 4);
      buf := buf + blob;
      assert ValidName(name);
      EncodeOneMore(Header(c.salt, c.keyId), rs, i);
      i := i + 1;
    }
    assert rs[..i] == rs;
    assert BlobsFit(c.entries) by {
      forall n | n in c.entries ensures |c.entries[n]| < 0x1_0000_0000 {
        assert n in names;
      }
    }
    if |buf| > MAX_STORE_BYTES {
      return Err(Format);
    }
    return Ok(buf);
  }
}
