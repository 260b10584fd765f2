/** Files, blobs and texts written out in full: the formats as others see them. */
module KnownAnswers {
  import opened Base
  import NameOrder
  import StoreFormat
  import StoreModel
  import StoreWalker
  import Aead
  import Base64
  import Hex
  import Calendar
  import Der
  import Pgp
  import SecretMemory
  import StdinSecret
  import InspectDepth

  function Ascii(s: string): (b: Bytes)
    requires forall i :: 0 <= i < |s| ==> s[i] < 128 as char
    ensures |b| == |s|
  {
    seq(|s|, i requires 0 <= i < |s| => s[i] as int)
  }

  /**
   * A store of one entry: "FST1", version 1, salt, key id; a name length of two bytes,
   * lowest first, and a blob length of four.
   */
  lemma StoreFile(salt: Bytes, keyId: Bytes, blob: Bytes)
    requires |salt| == 16 && |keyId| == 16 && |blob| == 258
    ensures StoreFormat.Serialized(StoreFormat.Contents(salt, keyId, map[[0x61] := blob])) ==
      Ok(Ascii("FST1") + [1] + salt + keyId + [1, 0] + [0x61] + [2, 1, 0, 0] + blob)
  {
    var name: Bytes := [0x61];
    var m: map<Bytes, Bytes> := map[name := blob];
    var r := StoreFormat.Record(name, blob);
    assert NameOrder.Sorted(m.Keys) == [name] by {
      NameOrder.AscendingIsSorted([name], m.Keys);
    }
    assert StoreFormat.SortedRecords(m) == [r];
    OneRecord(r);
    assert StoreFormat.STORE_MAGIC == Ascii("FST1");
    var d := Ascii("FST1") + [1] + salt + keyId + [1, 0] + [0x61] + [2, 1, 0, 0] + blob;
    hide NameOrder.Sorted, StoreFormat.EncodeRecords, Ascii, StoreFormat.SortedRecords;
    assert StoreFormat.Image(salt, keyId, [r]) == d;
    assert StoreFormat.BlobsFit(m);
  }

  lemma OneRecord(r: StoreFormat.Record)
    requires |r.name| == 1 && |r.blob| == 258
    ensures StoreFormat.EncodeRecords([r]) == [1, 0] + r.name + [2, 1, 0, 0] + r.blob
  {
    Lengths();
    hide LittleEndian;
    assert [r][1..] == [];
    assert StoreFormat.EncodeRecord(r) + [] == StoreFormat.EncodeRecord(r);
  }

  lemma Lengths()
    ensures LittleEndian(1, 2) == [1, 0] && LittleEndian(258, 4) == [2, 1, 0, 0]
    ensures BigEndian(258, 4) == [0, 0, 1, 2]
  {
    assert LittleEndian(0, 1) == [0] && LittleEndian(0, 2) == [0, 0] && LittleEndian(1, 3) == [1, 0, 0];
    assert BigEndian(0, 1) == [0] && BigEndian(0, 2) == [0, 0] && BigEndian(1, 3) == [0, 0, 1];
  }

  /** A blob: "FAFN", version 1, algorithm, key id, nonce field, and the body. */
  lemma Blob(c: Aead.Cipher, key: Aead.Key, keyId: Bytes, pt: Bytes, random: Bytes)
    requires Aead.Correct(c) && |keyId| == 16 && |random| == 32
    ensures var r := Aead.SealBlob(c, key, keyId, pt, Aead.Aegis256, Some(random));
      r.Ok? && r.value[..54] == Ascii("FAFN") + [1, 1] + keyId + random
  {
    Aead.SealIff(c, key, keyId, pt, Aead.Aegis256, Some(random));
    assert Ascii("FAFN") == [0x46, 0x41, 0x46, 0x4e];
  }

  /** The context string of a value's key. */
  lemma Context()
    ensures StoreModel.INFO_PREFIX == Ascii("krypto/store/v1|")
  {
  }

  /** The limits: 16 MiB of store, 64 MiB of standard input, 512 bytes of name. */
  lemma Limits()
    ensures StoreFormat.MAX_STORE_BYTES == 0x100_0000 && StdinSecret.MAX_STDIN == 0x400_0000
    ensures StoreFormat.MAX_NAME_LEN == 512 && StdinSecret.CHUNK == 0x1_0000
    ensures StoreWalker.NAMES_SHOWN == 20
  {
  }

  /** The alphabet of base64 (table 1 of RFC 4648): A to Z, a to z, 0 to 9, plus and slash. */
  lemma Alphabet(v: nat)
    requires v < 64
    ensures Base64.Alphabet()[v] ==
      if v < 26 then 0x41 + v else if v < 52 then 0x61 + (v - 26) else if v < 62 then 0x30 + (v - 52)
      else if v == 62 then 0x2b else 0x2f
  {
  }

  /** "f", "fo" and "foo", as in section 10 of RFC 4648: "Zg", "Zm8" and "Zm9v", before padding. */
  lemma Base64Vectors(f: byte, o: byte)
    requires f == 0x66 && o == 0x6f
    ensures Base64.Letters([f]) == [0x5a, 0x67]
    ensures Base64.Letters([f, o]) == [0x5a, 0x6d, 0x38]
    ensures Base64.Letters([f, o, o]) == [0x5a, 0x6d, 0x39, 0x76]
  {
    var a := Base64.Alphabet();
    Alphabet(25);
    Alphabet(32);
    Alphabet(38);
    Alphabet(47);
    Alphabet(60);
    Alphabet(61);
    assert Base64.Index0(f) == 25 && Base64.Index1(f, 0) == 32 && Base64.Index1(f, o) == 38;
    assert Base64.Index2(o, 0) == 60 && Base64.Index2(o, o) == 61 && Base64.Index3(o) == 47;
    hide Base64.Alphabet, Base64.Index0, Base64.Index1, Base64.Index2, Base64.Index3;
  }

  /** Digits are lower case, the high one first; upper case is refused. */
  lemma HexDigits()
    ensures Hex.Digit(0) == 0x30 && Hex.Digit(9) == 0x39 && Hex.Digit(10) == 0x61 && Hex.Digit(15) == 0x66
    ensures Hex.Encoded([0x1a]) == [0x31, 0x61]
    ensures Hex.Decoded([0x31, 0x41]) == Err(Format)
  {
    assert [0x1a][..0] == [];
    var s: Bytes := [0x31, 0x41];
    assert s[..0] == [] && Hex.Nibble(s[1]).None?;
  }

  /** The last day of February in a century year that is a leap year, and the day after. */
  lemma LeapCentury(day: nat)
    requires day == 11_016
    ensures Calendar.DateOf(day) == Calendar.Date(2000, 2, 29)
    ensures Calendar.DateOf(day + 1) == Calendar.Date(2000, 3, 1)
  {
    hide Calendar.DateOf, Calendar.Civil, Calendar.NextDay;
    Calendar.CivilIsStepped(day);
    Calendar.CivilIsStepped(day + 1);
    CivilLeapCentury(day);
  }

  lemma CivilLeapCentury(day: nat)
    requires day == 11_016
    ensures Calendar.Civil(day) == Calendar.Date(2000, 2, 29)
    ensures Calendar.Civil(day + 1) == Calendar.Date(2000, 3, 1)
  {
    var z := day + Calendar.EPOCH;
    DivisionIs(z, 4, 146_096, Calendar.ERA_DAYS);
    DivisionIs(z + 1, 5, 0, Calendar.ERA_DAYS);
    YearsOfEra(146_096, 0);
    MarchDays(1999, 365);
    hide Calendar.YearOfEra, Calendar.FromMarch;
    assert Calendar.Civil(day) == Calendar.FromMarch(399 + 4 * 400, 365);
    assert Calendar.Civil(day + 1) == Calendar.FromMarch(0 + 5 * 400, 0);
  }

  lemma YearsOfEra(last: int, first: int)
    requires last == 146_096 && first == 0
    ensures Calendar.YearOfEra(last) == 399 && Calendar.YearOfEra(first) == 0
  {
  }

  lemma MarchDays(year: int, last: int)
    requires year == 1999 && last == 365
    ensures Calendar.FromMarch(year, last) == Calendar.Date(2000, 2, 29)
    ensures Calendar.FromMarch(year + 1, 0) == Calendar.Date(2000, 3, 1)
  {
  }

  /** 1.2.840.113549, RSADSI, in DER. */
  lemma Rsadsi()
    ensures Der.EncodeOid([1, 2, 840, 113_549]) == [0x2a, 0x86, 0x48, 0x86, 0xf7, 0x0d]
  {
    var ns: seq<nat> := [42, 840, 113_549];
    assert [1 * 40 + 2] + [1, 2, 840, 113_549][2..] == ns;
    Subidentifiers();
    hide Der.Subidentifier;
    assert ns[..2] == [42, 840] && ns[..2][..1] == [42] && ns[..2][..1][..0] == [];
    assert Der.Subidentifiers([]) == [];
    assert Der.Subidentifiers(ns[..2][..1]) == [0x2a];
    assert Der.Subidentifiers(ns[..2]) == [0x2a, 0x86, 0x48];
  }

  lemma OidElement(body: Bytes)
    requires |body| == 6
    ensures Der.Read([0x06, 0x06] + body) == Some((Der.Tlv(6, body), []))
  {
    var d := [0x06, 0x06] + body;
    assert d[2..][..6] == body && d[2..][6..] == [];
  }

  lemma Subidentifiers()
    ensures Der.Subidentifier(42) == [0x2a] && Der.Subidentifier(840) == [0x86, 0x48]
    ensures Der.Subidentifier(113_549) == [0x86, 0xf7, 0x0d]
  {
    assert Der.High(0) == [];
    assert Der.High(6) == [0x86];
    assert Der.High(887) == [0x86, 0xf7];
  }

  /** A message encrypted with a password: a key packet of tag 3, and data of partial length after it. */
  lemma PasswordMessage()
    ensures Pgp.PacketsOf([0xc3, 0x01, 0x04, 0xd2, 0xe0, 0x00]) ==
      Some([Pgp.Packet(3, Some([4]), [4]), Pgp.Packet(18, None, [0])])
  {
    var t := Pgp.Partial(18, 0xe0, [0]);
    var p := Pgp.Packet(3, Some([4]), [4]);
    OnePacket(p);
    var d: Bytes := [0xc3, 0x01, 0x04, 0xd2, 0xe0, 0x00];
    assert Pgp.EncodeAll([p], [Pgp.New1]) + Pgp.EncodeTail(t) == d;
    assert Pgp.Frames(d, [p], [Pgp.New1], t);
    assert [p][0].tag == 3;
    var out := [p] + Pgp.TailPackets(t);
    assert out == [p, Pgp.Packet(18, None, [0])];
    hide Pgp.PacketsOf, Pgp.Frames, Pgp.TailPackets;
    Pgp.PacketsIff(d, out);
  }

  /** The same data after a signature, tag 2, is no message. */
  lemma DataAfterSignature()
    ensures Pgp.PacketsOf([0xc2, 0x01, 0x04, 0xd2, 0xe0, 0x00]) == None
  {
    var t := Pgp.Partial(18, 0xe0, [0]);
    var p := Pgp.Packet(2, Some([4]), [4]);
    OnePacket(p);
    assert Pgp.EncodeAll([p], [Pgp.New1]) + Pgp.EncodeTail(t) == [0xc2, 0x01, 0x04, 0xd2, 0xe0, 0x00];
    hide Pgp.PacketsOf, Pgp.EncodeAll, Pgp.EncodeTail;
    Pgp.OpenNeedsAKey([p], [Pgp.New1], t);
  }

  lemma OnePacket(p: Pgp.Packet)
    requires 0 < p.tag < 64 && p.body == Some(p.head) && p.head == [4]
    ensures Pgp.AllFit([p], [Pgp.New1]) && Pgp.EncodeAll([p], [Pgp.New1]) == [0xc0 + p.tag, 1, 4]
  {
    assert [p][1..] == [] && [Pgp.New1][1..] == [];
    assert Pgp.Encode(p, Pgp.New1) == [0xc0 + p.tag, 1] + [4];
  }

  /** The label texts of PEM. */
  lemma Labels()
    ensures InspectDepth.BEGIN == Ascii("-----BEGIN ") && InspectDepth.DASHES == Ascii("-----")
    ensures InspectDepth.END == Ascii("-----END") && InspectDepth.PGP == Ascii("PGP ")
    ensures InspectDepth.OPENSSH == Ascii("OPENSSH PRIVATE KEY") && InspectDepth.SSHSIG == Ascii("SSH SIGNATURE")
    ensures InspectDepth.RSAPUB == Ascii("RSA PUBLIC KEY")
  {
  }

  /** A secret of 5000 bytes, on pages of 4096: two pages of data, and a guard on each side. */
  lemma TwoPages(m: SecretMemory.Memory)
    ensures SecretMemory.NewPages(m, 5000, 4096, SecretMemory.MapEnv(0x10000, SecretMemory.NoFault)).1 ==
      Ok(SecretMemory.Region(0x10000, 4 * 4096, 0x10000 + 3 * 4096 - 5000, 5000))
  {
  }
}
