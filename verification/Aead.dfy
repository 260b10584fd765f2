/**
 * The FAFN blob layer. The primitives are a parameter: nothing about them is
 * assumed but what `Correct` and, for forgeries, the log of `Ideal` say.
 */
module Aead {
  import opened Base

  const MAGIC: Bytes := [0x46, 0x41, 0x46, 0x4e] // "FAFN"
  const FORMAT_VER: byte := 1
  const KEY_ID_LEN := 16
  const NONCE_FIELD := 32
  const HEADER_LEN := 54
  const NONCE_START := 6 + KEY_ID_LEN

  datatype Alg = Aegis256 | XChaCha20Poly1305 | Aes256Gcm {
    function Id(): byte {
      match this
      case Aegis256 => 1
      case XChaCha20Poly1305 => 2
      case Aes256Gcm => 3
    }

    function NonceLen(): nat {
      match this
      case Aegis256 => 32
      case XChaCha20Poly1305 => 24
      case Aes256Gcm => 12
    }

    function TagLen(): nat {
      match this
      case Aegis256 => 32
      case XChaCha20Poly1305 => 16
      case Aes256Gcm => 16
    }
  }

  function FromId(id: byte): Option<Alg> {
    match id
    case 1 => Some(Aegis256)
    case 2 => Some(XChaCha20Poly1305)
    case 3 => Some(Aes256Gcm)
    case _ => None
  }

  /** A key is the bytes `with_key` hands out: always 32 of them. */
  type Key = Bytes

  /** What a primitive works on besides its text. */
  datatype Call = Call(alg: Alg, key: Key, nonce: Bytes, aad: Bytes)

  /** The library ciphers: `seal` may fail (a text too long), `open` may reject. */
  datatype Cipher = Cipher(seal: (Call, Bytes) -> Option<Bytes>, open: (Call, Bytes) -> Option<Bytes>)

  /** Opening inverts sealing, a text is its body less the tag, and AEGIS-256 seals everything. */
  ghost predicate Correct(c: Cipher) {
    && (forall q: Call, pt: Bytes :: c.seal(q, pt).Some? ==>
         |c.seal(q, pt).value| == |pt| + q.alg.TagLen() && c.open(q, c.seal(q, pt).value) == Some(pt))
    && (forall q: Call, body: Bytes :: c.open(q, body).Some? ==> |body| == |c.open(q, body).value| + q.alg.TagLen())
    && (forall q: Call, pt: Bytes :: q.alg == Aegis256 ==> c.seal(q, pt).Some?)
  }

  // ---------------------------------------------------------------------
  // The primitives' wrappers
  // ---------------------------------------------------------------------

  function PrimitiveSeal(c: Cipher, q: Call, pt: Bytes): Result<Bytes> {
    if |q.nonce| != q.alg.NonceLen() then Err(Format)
    else match c.seal(q, pt)
      case Some(body) => Ok(body)
      case None => Err(Hardening)
  }

  function PrimitiveOpen(c: Cipher, q: Call, body: Bytes): Result<Bytes> {
    if q.alg == Aegis256 && |body| < 32 then Err(Auth)
    else if |q.nonce| != q.alg.NonceLen() then Err(Format)
    else match c.open(q, body)
      case Some(pt) => Ok(pt)
      case None => Err(Auth)
  }

  // ---------------------------------------------------------------------
  // Blobs
  // ---------------------------------------------------------------------

  /** What the system's generator gives, if it gives anything: a nonce is cut from its front. */
  predicate GoodRandom(random: Option<Bytes>) {
    random.Some? ==> |random.value| == NONCE_FIELD
  }

  /** The nonce field: the nonce, then zeros. */
  function NonceField(nonce: Bytes): (f: Bytes)
    requires |nonce| <= NONCE_FIELD
    ensures |f| == NONCE_FIELD
  {
    nonce + seq(NONCE_FIELD - |nonce|, _ => 0)
  }

  function Header(alg: Alg, keyId: Bytes, nonce: Bytes): (h: Bytes)
    requires |nonce| <= NONCE_FIELD
  {
    MAGIC + [FORMAT_VER, alg.Id()] + keyId + NonceField(nonce)
  }

  /** `seal`. */
  function SealBlob(c: Cipher, key: Key, keyId: Bytes, pt: Bytes, alg: Alg, random: Option<Bytes>)
    : (r: Result<Bytes>)
    requires |keyId| == KEY_ID_LEN && GoodRandom(random)
    ensures r.Ok? ==> ReadHeader(r.value).Ok?
  {
    if random.None? then Err(Hardening)
    else
      var nonce := random.value[..alg.NonceLen()];
      var header := Header(alg, keyId, nonce);
      match PrimitiveSeal(c, Call(alg, key, nonce, header), pt)
      case Err(e) => Err(e)
      case Ok(body) =>
        SealedHeader(alg, keyId, nonce, body);
        Ok(header + body)
  }

  /** `read_header`: the algorithm, the header and the body. */
  function ReadHeader(blob: Bytes): (r: Result<(Alg, Bytes, Bytes)>)
    ensures r.Ok? ==> |r.value.1| == HEADER_LEN && blob == r.value.1 + r.value.2
  {
    if |blob| < HEADER_LEN then Err(Format)
    else
      var header := blob[..HEADER_LEN];
      if header[0..4] != MAGIC then Err(Format)
      else if header[4] != FORMAT_VER then Err(Auth)
      else match FromId(header[5])
        case None => Err(Auth)
        case Some(alg) => Ok((alg, header, blob[HEADER_LEN..]))
  }

  function CallOf(key: Key, alg: Alg, header: Bytes): Call
    requires |header| == HEADER_LEN
  {
    Call(alg, key, header[NONCE_START..NONCE_START + alg.NonceLen()], header)
  }

  /** `open`. `memory` says whether locked memory for the plaintext is to be had. */
  function OpenBlob(c: Cipher, key: Key, blob: Bytes, memory: bool): Result<Bytes> {
    match ReadHeader(blob)
    case Err(e) => Err(e)
    case Ok((alg, header, body)) =>
      match PrimitiveOpen(c, CallOf(key, alg, header), body)
      case Err(e) => Err(e)
      case Ok(pt) => if memory then Ok(pt) else Err(Hardening)
  }

  function BlobKeyId(blob: Bytes): (r: Result<Bytes>)
    ensures r.Ok? ==> |r.value| == KEY_ID_LEN
  {
    match ReadHeader(blob)
    case Err(e) => Err(e)
    case Ok((_, header, _)) => Ok(header[6..6 + KEY_ID_LEN])
  }

  /** `reseal`: open with the old key, seal with the new one, the algorithm kept. */
  function Reseal(c: Cipher, oldKey: Key, newKey: Key, newId: Bytes, blob: Bytes, random: Option<Bytes>,
                  memory: bool): (r: Result<Bytes>)
    requires |newId| == KEY_ID_LEN && GoodRandom(random)
    ensures r.Ok? ==> ReadHeader(r.value).Ok?
  {
    match ReadHeader(blob)
    case Err(e) => Err(e)
    case Ok((alg, _, _)) =>
      match OpenBlob(c, oldKey, blob, memory)
      case Err(e) => Err(e)
      case Ok(pt) => SealBlob(c, newKey, newId, pt, alg, random)
  }

  /** `seal`, which fills the nonce in place and pushes the header's parts. */
  method Seal(c: Cipher, key: Key, keyId: Bytes, pt: Bytes, alg: Alg, random: Option<Bytes>)
    returns (r: Result<Bytes>)
    requires |keyId| == KEY_ID_LEN && GoodRandom(random)
    ensures r == SealBlob(c, key, keyId, pt, alg, random)
  {
    var nonce := new byte[NONCE_FIELD](_ => 0);
    if random.None? {
      return Err(Hardening);
    }
    var i := 0;
    while i < alg.NonceLen()
      invariant 0 <= i <= alg.NonceLen()
      invariant nonce[..i] == random.value[..i]
      invariant forall k :: i <= k < NONCE_FIELD ==> nonce[k] == 0
    {
      nonce[i] := random.value[i];
      i := i + 1;
    }
    ghost var drawn := random.value[..alg.NonceLen()];
    assert nonce[..] == NonceField(drawn);
    var header: Bytes := [];
    header := header + MAGIC;
    header := header + [FORMAT_VER];
    header := header + [alg.Id()];
    header := header + keyId;
    header := header + nonce[..];
    assert header == Header(alg, keyId, drawn);
    assert nonce[..alg.NonceLen()] == drawn;
    var body :- PrimitiveSeal(c, Call(alg, key, nonce[..alg.NonceLen()], header), pt);
    return Ok(header + body);
  }

  // ---------------------------------------------------------------------
  // What a sealed blob is
  // ---------------------------------------------------------------------

  lemma HeaderParts(alg: Alg, keyId: Bytes, nonce: Bytes)
    requires |keyId| == KEY_ID_LEN && |nonce| == alg.NonceLen()
    ensures var h := Header(alg, keyId, nonce);
      && |h| == HEADER_LEN && h[0..4] == MAGIC && h[4] == FORMAT_VER && FromId(h[5]) == Some(alg)
      && h[6..6 + KEY_ID_LEN] == keyId
      && h[NONCE_START..NONCE_START + alg.NonceLen()] == nonce
  {
  }

  /** A sealed blob reads back as what went into it, whatever follows the header. */
  lemma SealedHeader(alg: Alg, keyId: Bytes, nonce: Bytes, body: Bytes)
    requires |keyId| == KEY_ID_LEN && |nonce| == alg.NonceLen()
    ensures var h := Header(alg, keyId, nonce);
      && ReadHeader(h + body) == Ok((alg, h, body))
      && BlobKeyId(h + body) == Ok(keyId)
      && forall key :: CallOf(key, alg, h) == Call(alg, key, nonce, h)
  {
    var h := Header(alg, keyId, nonce);
    HeaderParts(alg, keyId, nonce);
    assert (h + body)[..HEADER_LEN] == h && (h + body)[HEADER_LEN..] == body;
  }

  /** Opening a sealed blob with its key gives what was sealed, and its header tells its key id. */
  lemma SealThenOpen(c: Cipher, key: Key, keyId: Bytes, pt: Bytes, alg: Alg, random: Option<Bytes>)
    requires Correct(c) && |keyId| == KEY_ID_LEN && GoodRandom(random)
    requires SealBlob(c, key, keyId, pt, alg, random).Ok?
    ensures var blob := SealBlob(c, key, keyId, pt, alg, random).value;
      && OpenBlob(c, key, blob, true) == Ok(pt)
      && BlobKeyId(blob) == Ok(keyId)
      && |blob| == HEADER_LEN + |pt| + alg.TagLen()
      && ReadHeader(blob).value.0 == alg
  {
    hide Header;
    var nonce := random.value[..alg.NonceLen()];
    var h := Header(alg, keyId, nonce);
    var q := Call(alg, key, nonce, h);
    var body := c.seal(q, pt).value;
    HeaderParts(alg, keyId, nonce);
    SealedHeader(alg, keyId, nonce, body);
    assert c.open(q, body) == Some(pt);
  }

  /**
   * Exactly when `open` says `Format`: the data is shorter than a header or
   * lacks the magic. The other `Format` branches, for a nonce of the wrong
   * length, cannot be reached through `open`.
   */
  lemma FormatIff(c: Cipher, key: Key, blob: Bytes, memory: bool)
    ensures OpenBlob(c, key, blob, memory) == Err(Format) <==> |blob| < HEADER_LEN || !(MAGIC <= blob)
    ensures OpenBlob(c, key, blob, memory).Err? ==>
      OpenBlob(c, key, blob, memory).error in {Format, Auth, Hardening}
    ensures OpenBlob(c, key, blob, memory) == Err(Hardening) ==> !memory
    ensures BlobKeyId(blob) == Err(Format) <==> |blob| < HEADER_LEN || !(MAGIC <= blob)
  {
    if |blob| >= HEADER_LEN {
      assert blob[..HEADER_LEN][0..4] == blob[..4];
      assert MAGIC <= blob <==> blob[..4] == MAGIC;
    }
  }

  // ---------------------------------------------------------------------
  // Exactly when a call succeeds, stated byte by byte
  // ---------------------------------------------------------------------

  /** The data starts as a krypto blob of this algorithm: "FAFN", version 1 and the algorithm's id. */
  predicate Starts(blob: Bytes, alg: Alg) {
    && |blob| >= 54 && blob[..4] == [0x46, 0x41, 0x46, 0x4e] && blob[4] == 1
    && blob[5] == (match alg
                   case Aegis256 => 1
                   case XChaCha20Poly1305 => 2
                   case Aes256Gcm => 3)
  }

  /** A header is read exactly if it starts so; then the first 54 bytes are the header and the rest the body. */
  lemma HeaderIff(blob: Bytes, alg: Alg)
    ensures (ReadHeader(blob).Ok? && ReadHeader(blob).value.0 == alg) <==> Starts(blob, alg)
    ensures ReadHeader(blob).Ok? ==> ReadHeader(blob).value.1 == blob[..54] && ReadHeader(blob).value.2 == blob[54..]
    ensures ReadHeader(blob).Err? ==>
      ReadHeader(blob) == Err(if |blob| < 54 || blob[..4] != [0x46, 0x41, 0x46, 0x4e] then Format else Auth)
    ensures Starts(blob, alg) ==> BlobKeyId(blob) == Ok(blob[6..22])
  {
    if |blob| >= HEADER_LEN {
      assert blob[..HEADER_LEN][0..4] == blob[..4];
      assert blob[..HEADER_LEN][6..22] == blob[6..22];
    }
  }

  /** The nonce is right behind the key id, as long as the algorithm wants it; the whole header is authenticated. */
  function OpenCall(key: Key, alg: Alg, blob: Bytes): Call
    requires |blob| >= 54
  {
    var n := match alg case Aegis256 => 32 case XChaCha20Poly1305 => 24 case Aes256Gcm => 12;
    Call(alg, key, blob[22..22 + n], blob[..54])
  }

  /** `open` gives a text if and only if the cipher does, of the body under header, nonce and key, and it has memory. */
  lemma OpenIff(c: Cipher, key: Key, blob: Bytes, memory: bool, pt: Bytes)
    requires Correct(c)
    ensures OpenBlob(c, key, blob, memory) == Ok(pt) <==>
      memory && exists alg :: Starts(blob, alg) && c.open(OpenCall(key, alg, blob), blob[54..]) == Some(pt)
    ensures OpenBlob(c, key, blob, memory).Err? ==>
      OpenBlob(c, key, blob, memory) ==
      Err(if |blob| < 54 || blob[..4] != [0x46, 0x41, 0x46, 0x4e] then Format
          else if OpenBlob(c, key, blob, true).Ok? then Hardening else Auth)
  {
    forall alg ensures (ReadHeader(blob).Ok? && ReadHeader(blob).value.0 == alg) <==> Starts(blob, alg) {
      HeaderIff(blob, alg);
    }
    HeaderIff(blob, Aegis256);
    if ReadHeader(blob).Ok? {
      var alg := ReadHeader(blob).value.0;
      assert CallOf(key, alg, blob[..54]) == OpenCall(key, alg, blob) by {
        assert blob[..54][22..22 + alg.NonceLen()] == blob[22..22 + alg.NonceLen()];
      }
      assert Starts(blob, alg);
      hide ReadHeader, CallOf, OpenCall, Starts;
      if c.open(OpenCall(key, alg, blob), blob[54..]).Some? { OpenedHasTag(c, OpenCall(key, alg, blob), blob[54..]); }
    }
  }

  lemma OpenedHasTag(c: Cipher, q: Call, body: Bytes)
    requires Correct(c) && c.open(q, body).Some?
    ensures |body| >= q.alg.TagLen()
  {
  }

  /**
   * The primitives' wrappers: a nonce of another length than the algorithm's is
   * `Format`, but a body that cannot hold AEGIS-256's tag is `Auth` before that.
   */
  lemma WrongNonceIsFormat(c: Cipher, q: Call, text: Bytes)
    requires |q.nonce| != match q.alg case Aegis256 => 32 case XChaCha20Poly1305 => 24 case Aes256Gcm => 12
    ensures PrimitiveSeal(c, q, text) == Err(Format)
    ensures PrimitiveOpen(c, q, text) == Err(if q.alg == Aegis256 && |text| < 32 then Auth else Format)
  {
  }

  /** The header of a new blob, in full. */
  function NewHeader(alg: Alg, keyId: Bytes, random: Bytes): Bytes
    requires |random| == 32
  {
    match alg
    case Aegis256 => [0x46, 0x41, 0x46, 0x4e, 1, 1] + keyId + random
    case XChaCha20Poly1305 => [0x46, 0x41, 0x46, 0x4e, 1, 2] + keyId + random[..24] + [0, 0, 0, 0, 0, 0, 0, 0]
    case Aes256Gcm =>
      [0x46, 0x41, 0x46, 0x4e, 1, 3] + keyId + random[..12]
      + [0, 0, 0, 0, 0, 0, 0, 0, 0, 0, 0, 0, 0, 0, 0, 0, 0, 0, 0, 0]
  }

  function SealCall(key: Key, alg: Alg, keyId: Bytes, random: Bytes): Call
    requires |random| == 32
  {
    var n := match alg case Aegis256 => 32 case XChaCha20Poly1305 => 24 case Aes256Gcm => 12;
    Call(alg, key, random[..n], NewHeader(alg, keyId, random))
  }

  /**
   * `seal` succeeds exactly if there is randomness and the cipher seals the text under
   * the new header; the blob is that header and what the cipher made. Otherwise it is
   * `Hardening`.
   */
  lemma SealIff(c: Cipher, key: Key, keyId: Bytes, pt: Bytes, alg: Alg, random: Option<Bytes>)
    requires |keyId| == KEY_ID_LEN && GoodRandom(random)
    ensures SealBlob(c, key, keyId, pt, alg, random) ==
      if random.Some? && c.seal(SealCall(key, alg, keyId, random.value), pt).Some? then
        Ok(NewHeader(alg, keyId, random.value) + c.seal(SealCall(key, alg, keyId, random.value), pt).value)
      else Err(Hardening)
  {
    if random.Some? {
      NewHeaderIs(alg, keyId, random.value);
      assert alg.NonceLen() == match alg case Aegis256 => 32 case XChaCha20Poly1305 => 24 case Aes256Gcm => 12;
      hide Header, NewHeader;
    }
  }

  lemma NewHeaderIs(alg: Alg, keyId: Bytes, random: Bytes)
    requires |random| == 32
    ensures Header(alg, keyId, random[..alg.NonceLen()]) == NewHeader(alg, keyId, random)
  {
    var nonce := random[..alg.NonceLen()];
    assert nonce + seq(NONCE_FIELD - |nonce|, _ => 0) == NonceField(nonce);
    if alg.Aegis256? {
      assert NonceField(nonce) == random;
    } else if alg.XChaCha20Poly1305? {
      assert NonceField(nonce) == random[..24] + [0, 0, 0, 0, 0, 0, 0, 0];
    } else {
      assert NonceField(nonce) ==
        random[..12] + [0, 0, 0, 0, 0, 0, 0, 0, 0, 0, 0, 0, 0, 0, 0, 0, 0, 0, 0, 0];
    }
  }

  // ---------------------------------------------------------------------
  // No forgeries, over any run
  // ---------------------------------------------------------------------

  /** The sealing half of the primitives, and its inverse. */
  datatype Primitives = Primitives(seal: (Call, Bytes) -> Option<Bytes>, unseal: (Call, Bytes) -> Bytes)

  ghost predicate Invertible(p: Primitives) {
    (forall q: Call, pt: Bytes :: p.seal(q, pt).Some? ==>
         |p.seal(q, pt).value| == |pt| + q.alg.TagLen() && p.unseal(q, p.seal(q, pt).value) == pt)
  }

  /** The ideal cipher: it opens a body exactly if it made it, in this very call. */
  function Ideal(p: Primitives, log: set<(Call, Bytes)>): Cipher {
    Cipher(p.seal, (q: Call, body: Bytes) => if (q, body) in log then Some(p.unseal(q, body)) else None)
  }

  /** A call of the blob layer. */
  datatype Use =
    | UseSeal(key: Key, keyId: Bytes, pt: Bytes, alg: Alg, random: Option<Bytes>)
    | UseReseal(oldKey: Key, newKey: Key, newId: Bytes, blob: Bytes, random: Option<Bytes>, memory: bool)
    | UseOpen(key: Key, blob: Bytes, memory: bool)

  predicate GoodUse(u: Use) {
    match u
    case UseSeal(key, keyId, pt, alg, random) =>
      |keyId| == KEY_ID_LEN && GoodRandom(random)
    case UseReseal(_, _, newId, _, random, _) => |newId| == KEY_ID_LEN && GoodRandom(random)
    case UseOpen(_, _, _) => true
  }

  /** `log`: what the primitives made. `issued`: which blobs were handed out, for which key and text. */
  datatype World = World(log: set<(Call, Bytes)>, issued: set<(Key, Bytes, Bytes)>)

  /** The primitive call behind a blob. */
  function Behind(key: Key, blob: Bytes): (Call, Bytes)
    requires ReadHeader(blob).Ok?
  {
    var (alg, header, body) := ReadHeader(blob).value;
    (CallOf(key, alg, header), body)
  }

  /** Sealing records the primitive call; a blob handed out is recorded with its key and text. */
  function Issue(w: World, key: Key, pt: Bytes, r: Result<Bytes>): World
    requires r.Ok? ==> ReadHeader(r.value).Ok?
  {
    match r
    case Err(_) => w
    case Ok(blob) => World(w.log + {Behind(key, blob)}, w.issued + {(key, blob, pt)})
  }

  function After(p: Primitives, w: World, u: Use): World
    requires GoodUse(u)
  {
    var c := Ideal(p, w.log);
    match u
    case UseSeal(key, keyId, pt, alg, random) => Issue(w, key, pt, SealBlob(c, key, keyId, pt, alg, random))
    case UseReseal(oldKey, newKey, newId, blob, random, memory) =>
      (match OpenBlob(c, oldKey, blob, memory)
       case Err(_) => w
       case Ok(pt) => Issue(w, newKey, pt, Reseal(c, oldKey, newKey, newId, blob, random, memory)))
    case UseOpen(_, _, _) => w
  }

  function Run(p: Primitives, w: World, us: seq<Use>): World
    requires forall i :: 0 <= i < |us| ==> GoodUse(us[i])
    decreases |us|
  {
    if us == [] then w else Run(p, After(p, w, us[0]), us[1..])
  }

  /** The log and the blobs handed out tell the same story. */
  ghost predicate Faithful(p: Primitives, w: World) {
    && (forall key, blob, pt :: (key, blob, pt) in w.issued ==>
         ReadHeader(blob).Ok? && Behind(key, blob) in w.log
         && p.unseal(Behind(key, blob).0, Behind(key, blob).1) == pt
         && p.seal(Behind(key, blob).0, pt) == Some(Behind(key, blob).1))
    && (forall q, body :: (q, body) in w.log ==>
         (q.key, q.aad + body, p.unseal(q, body)) in w.issued)
  }

  /** Behind a blob is its header as associated data, and its body. */
  lemma BehindBlob(key: Key, blob: Bytes)
    requires ReadHeader(blob).Ok?
    ensures Behind(key, blob).0.key == key && Behind(key, blob).0.aad + Behind(key, blob).1 == blob
  {
  }

  lemma SealIssues(p: Primitives, w: World, key: Key, keyId: Bytes, pt: Bytes, alg: Alg, random: Option<Bytes>)
    requires Invertible(p) && Faithful(p, w) && GoodUse(UseSeal(key, keyId, pt, alg, random))
    ensures Faithful(p, Issue(w, key, pt, SealBlob(Ideal(p, w.log), key, keyId, pt, alg, random)))
  {
    var r := SealBlob(Ideal(p, w.log), key, keyId, pt, alg, random);
    if r.Ok? {
      var nonce := random.value[..alg.NonceLen()];
      var h := Header(alg, keyId, nonce);
      var q := Call(alg, key, nonce, h);
      var body := p.seal(q, pt).value;
      hide Header, Invertible;
      SealedHeader(alg, keyId, nonce, body);
      assert r.value == h + body;
      assert Behind(key, r.value) == (q, body);
      assert p.unseal(q, body) == pt by { Unsealed(p, q, pt); }
      hide ReadHeader, CallOf;
      BehindBlob(key, r.value);
    }
  }

  lemma Unsealed(p: Primitives, q: Call, pt: Bytes)
    requires Invertible(p) && p.seal(q, pt).Some?
    ensures p.unseal(q, p.seal(q, pt).value) == pt && |p.seal(q, pt).value| == |pt| + q.alg.TagLen()
  {
  }

  lemma {:induction false} RunIsFaithful(p: Primitives, w: World, us: seq<Use>)
    requires Invertible(p) && Faithful(p, w)
    requires forall i :: 0 <= i < |us| ==> GoodUse(us[i])
    ensures Faithful(p, Run(p, w, us))
    decreases |us|
  {
    if us != [] {
      match us[0] {
        case UseSeal(key, keyId, pt, alg, random) => SealIssues(p, w, key, keyId, pt, alg, random);
        case UseReseal(oldKey, newKey, newId, blob, random, memory) =>
          var text := OpenBlob(Ideal(p, w.log), oldKey, blob, memory);
          if text.Ok? {
            var alg := ReadHeader(blob).value.0;
            SealIssues(p, w, newKey, newId, text.value, alg, random);
          }
        case UseOpen(_, _, _) =>
      }
      assert Faithful(p, After(p, w, us[0]));
      hide Faithful, After;
      RunIsFaithful(p, After(p, w, us[0]), us[1..]);
    }
  }

  /**
   * After any run of seals, reseals and opens: a blob opens to a text under a
   * key exactly if a seal or reseal under that key gave out this very blob for
   * this very text. Otherwise it is `Format` if it is no krypto blob, and
   * `Auth` in every other case.
   */
  lemma OpensIffIssued(p: Primitives, us: seq<Use>, key: Key, blob: Bytes, pt: Bytes)
    requires Invertible(p) && forall i :: 0 <= i < |us| ==> GoodUse(us[i])
    ensures var w := Run(p, World({}, {}), us);
      var r := OpenBlob(Ideal(p, w.log), key, blob, true);
      && (r == Ok(pt) <==> (key, blob, pt) in w.issued)
      && (r.Err? ==> r == Err(if |blob| < HEADER_LEN || !(MAGIC <= blob) then Format else Auth))
  {
    var w := Run(p, World({}, {}), us);
    RunIsFaithful(p, World({}, {}), us);
    hide Run;
    var c := Ideal(p, w.log);
    FormatIff(c, key, blob, true);
    if ReadHeader(blob).Ok? {
      BehindBlob(key, blob);
      var (q, body) := Behind(key, blob);
      if (key, blob, pt) in w.issued {
        Unsealed(p, q, pt);
      }
    }
  }

  // ---------------------------------------------------------------------
  // Chains of reseals
  // ---------------------------------------------------------------------

  /** One link: the key to open with, the key and id to seal under, and what the system gives. */
  datatype Link = Link(oldKey: Key, newKey: Key, newId: Bytes, random: Option<Bytes>, memory: bool)

  predicate GoodLink(l: Link) {
    |l.newId| == KEY_ID_LEN && GoodRandom(l.random)
  }

  function Chain(c: Cipher, blob: Bytes, links: seq<Link>): Result<Bytes>
    requires forall i :: 0 <= i < |links| ==> GoodLink(links[i])
    decreases |links|
  {
    if links == [] then Ok(blob)
    else
      var l := links[0];
      assert GoodLink(links[0]);
      match Reseal(c, l.oldKey, l.newKey, l.newId, blob, l.random, l.memory)
      case Err(e) => Err(e)
      case Ok(next) => Chain(c, next, links[1..])
  }

  lemma ResealKeeps(c: Cipher, l: Link, blob: Bytes)
    requires Correct(c) && GoodLink(l)
    requires Reseal(c, l.oldKey, l.newKey, l.newId, blob, l.random, l.memory).Ok?
    ensures var next := Reseal(c, l.oldKey, l.newKey, l.newId, blob, l.random, l.memory).value;
      && OpenBlob(c, l.oldKey, blob, true).Ok?
      && OpenBlob(c, l.newKey, next, true) == OpenBlob(c, l.oldKey, blob, true)
      && BlobKeyId(next) == Ok(l.newId)
      && ReadHeader(next).value.0 == ReadHeader(blob).value.0
      && |next| == |blob|
  {
    var alg := ReadHeader(blob).value.0;
    var pt := OpenBlob(c, l.oldKey, blob, l.memory).value;
    SealThenOpen(c, l.newKey, l.newId, pt, alg, l.random);
  }

  /**
   * `reseal` succeeds exactly if the old key opens the blob, there is memory and
   * randomness, and the cipher seals that text again, with the same algorithm, under
   * the new key and id. Otherwise its error is that of the open, or `Hardening`.
   */
  lemma ResealIff(c: Cipher, l: Link, blob: Bytes)
    requires Correct(c) && GoodLink(l)
    ensures var r := Reseal(c, l.oldKey, l.newKey, l.newId, blob, l.random, l.memory);
      var was := OpenBlob(c, l.oldKey, blob, true);
      && (r.Ok? <==>
            (&& was.Ok? && l.memory && l.random.Some?
             && exists alg :: Starts(blob, alg)
                  && c.seal(SealCall(l.newKey, alg, l.newId, l.random.value), was.value).Some?))
      && (r.Err? ==> r == Err(if was.Err? then was.error else Hardening))
      && (r.Ok? ==> forall alg :: Starts(blob, alg) ==>
            r == SealBlob(c, l.newKey, l.newId, was.value, alg, l.random))
  {
    forall alg ensures (ReadHeader(blob).Ok? && ReadHeader(blob).value.0 == alg) <==> Starts(blob, alg) {
      HeaderIff(blob, alg);
    }
    OpenIff(c, l.oldKey, blob, true, []);
    OpenIff(c, l.oldKey, blob, l.memory, []);
    HeaderIff(blob, Aegis256);
    if ReadHeader(blob).Ok? {
      var alg, text := ReadHeader(blob).value.0, OpenBlob(c, l.oldKey, blob, true);
      assert Starts(blob, alg);
      MemoryOnly(c, l.oldKey, blob, l.memory);
      if text.Ok? { SealIff(c, l.newKey, l.newId, text.value, alg, l.random); }
    }
    hide ReadHeader, OpenBlob, SealBlob, Starts, SealCall, Correct;
  }

  /** Without memory for the text, a blob that opens is `Hardening`, and every other the same as with it. */
  lemma MemoryOnly(c: Cipher, key: Key, blob: Bytes, memory: bool)
    ensures OpenBlob(c, key, blob, memory) ==
      if OpenBlob(c, key, blob, true).Ok? && !memory then Err(Hardening) else OpenBlob(c, key, blob, true)
  {
    hide ReadHeader, PrimitiveOpen, CallOf;
  }

  /** The blobs along a chain: each is the reseal of the one before. */
  ghost predicate Along(c: Cipher, links: seq<Link>, blobs: seq<Bytes>) {
    && |blobs| == |links| + 1
    && forall i :: 0 <= i < |links| ==>
         GoodLink(links[i]) && LinkOf(c, links[i], blobs[i]) == Ok(blobs[i + 1])
  }

  function LinkOf(c: Cipher, l: Link, blob: Bytes): Result<Bytes>
    requires GoodLink(l)
  {
    Reseal(c, l.oldKey, l.newKey, l.newId, blob, l.random, l.memory)
  }

  /** A chain gives `end` exactly if every link succeeds, one after the other, and the last gives it. */
  lemma {:induction false} ChainIff(c: Cipher, blob: Bytes, links: seq<Link>, end: Bytes)
    requires forall i :: 0 <= i < |links| ==> GoodLink(links[i])
    ensures Chain(c, blob, links) == Ok(end) <==>
      exists blobs :: Along(c, links, blobs) && blobs[0] == blob && blobs[|links|] == end
    decreases |links|
  {
    hide Reseal;
    if links == [] {
      if blob == end { assert Along(c, links, [blob]); }
    } else {
      var next := LinkOf(c, links[0], blob);
      var rest := links[1..];
      if next.Ok? { ChainIff(c, next.value, rest, end); }
      if Chain(c, blob, links) == Ok(end) {
        var blobs :| Along(c, rest, blobs) && blobs[0] == next.value && blobs[|rest|] == end;
        var all := [blob] + blobs;
        forall i | 0 <= i < |links| ensures GoodLink(links[i]) && LinkOf(c, links[i], all[i]) == Ok(all[i + 1]) {
          if i > 0 { assert links[i] == rest[i - 1]; }
        }
        assert Along(c, links, all);
      }
      if blobs :| Along(c, links, blobs) && blobs[0] == blob && blobs[|links|] == end {
        assert LinkOf(c, links[0], blobs[0]) == Ok(blobs[1]);
        forall i | 0 <= i < |rest|
          ensures GoodLink(rest[i]) && LinkOf(c, rest[i], blobs[1..][i]) == Ok(blobs[1..][i + 1])
        {
          assert rest[i] == links[i + 1];
          assert LinkOf(c, links[i + 1], blobs[i + 1]) == Ok(blobs[i + 2]);
        }
        assert Along(c, rest, blobs[1..]);
      }
    }
  }

  /**
   * A chain of reseals, through any number of key generations, keeps the
   * plaintext, the algorithm and the length, and leaves the id given last.
   */
  lemma {:induction false} ChainKeeps(c: Cipher, key: Key, blob: Bytes, pt: Bytes, links: seq<Link>)
    requires Correct(c) && links != [] && forall i :: 0 <= i < |links| ==> GoodLink(links[i])
    requires links[0].oldKey == key && OpenBlob(c, key, blob, true) == Ok(pt)
    requires Chain(c, blob, links).Ok?
    requires forall i :: 0 < i < |links| ==> links[i].oldKey == links[i - 1].newKey
    ensures var end := Chain(c, blob, links).value;
      var last := links[|links| - 1];
      && OpenBlob(c, last.newKey, end, true) == Ok(pt)
      && BlobKeyId(end) == Ok(last.newId)
      && ReadHeader(end).Ok? && ReadHeader(end).value.0 == ReadHeader(blob).value.0
      && |end| == |blob|
    decreases |links|
  {
    hide OpenBlob, BlobKeyId, Reseal, Correct;
    var l := links[0];
    ResealKeeps(c, l, blob);
    var next := Reseal(c, l.oldKey, l.newKey, l.newId, blob, l.random, l.memory).value;
    OpenedHasHeader(c, l.newKey, next);
    if |links| == 1 {
      assert links[1..] == [];
      assert Chain(c, next, links[1..]) == Ok(next);
    } else {
      ChainKeeps(c, l.newKey, next, pt, links[1..]);
    }
  }

  lemma OpenedHasHeader(c: Cipher, key: Key, blob: Bytes)
    requires OpenBlob(c, key, blob, true).Ok?
    ensures ReadHeader(blob).Ok?
  {
  }

  /** A chain yields nothing if any link does not authenticate the blob it is given. */
  lemma {:induction false} ChainFailsClosed(c: Cipher, blob: Bytes, links: seq<Link>, k: nat, at: Bytes)
    requires k < |links| && forall i :: 0 <= i < |links| ==> GoodLink(links[i])
    requires Chain(c, blob, links[..k]) == Ok(at)
    requires OpenBlob(c, links[k].oldKey, at, true).Err?
    ensures Chain(c, blob, links).Err?
    decreases k
  {
    if k > 0 {
      var l := links[0];
      var next := Reseal(c, l.oldKey, l.newKey, l.newId, blob, l.random, l.memory);
      assert links[..k][0] == l && links[..k][1..] == links[1..][..k - 1];
      ChainFailsClosed(c, next.value, links[1..], k - 1, at);
    } else {
      assert links[..0] == [];
    }
  }
}
