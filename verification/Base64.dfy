/** Canonical base64 (section 4 of RFC 4648, with the canonical rule of section 3.5). Text is bytes. */
module Base64 {
  import opened Base

  const PAD: byte := 0x3d // '='

  function Range(first: byte, count: nat): (r: Bytes)
    requires first + count <= 256
    ensures |r| == count && forall i :: 0 <= i < count ==> r[i] == first + i
  {
    seq(count, i requires 0 <= i < count => first + i)
  }

  /** A to Z, a to z, 0 to 9, '+' and '/'. */
  function Alphabet(): (a: Bytes)
    ensures |a| == 64
  {
    Range(0x41, 26) + Range(0x61, 26) + Range(0x30, 10) + [0x2b, 0x2f]
  }

  /** `sextet`. */
  function Sextet(c: byte): Option<byte> {
    if 0x41 <= c <= 0x5a then Some(c - 0x41)
    else if 0x61 <= c <= 0x7a then Some(c - 0x61 + 26)
    else if 0x30 <= c <= 0x39 then Some(c - 0x30 + 52)
    else if c == 0x2b then Some(62)
    else if c == 0x2f then Some(63)
    else None
  }

  /** Reading a letter inverts the alphabet, both ways. */
  lemma SextetIff(c: byte, v: byte)
    ensures Sextet(c) == Some(v) <==> v < 64 && c == Alphabet()[v]
  {
    var a := Alphabet();
    assert forall i :: 0 <= i < 26 ==> a[i] == 0x41 + i;
    assert forall i :: 26 <= i < 52 ==> a[i] == 0x61 + (i - 26);
    assert forall i :: 52 <= i < 62 ==> a[i] == 0x30 + (i - 52);
    assert a[62] == 0x2b && a[63] == 0x2f;
  }

  // ---------------------------------------------------------------------
  // Encoding
  // ---------------------------------------------------------------------

  // The four groups of six bits in three bytes.

  function Index0(b0: byte): (v: byte)
    ensures v < 64
  {
    b0 / 4
  }

  function Index1(b0: byte, b1: byte): (v: byte)
    ensures v < 64
  {
    b0 % 4 * 16 + b1 / 16
  }

  function Index2(b1: byte, b2: byte): (v: byte)
    ensures v < 64
  {
    b1 % 16 * 4 + b2 / 64
  }

  function Index3(b2: byte): (v: byte)
    ensures v < 64
  {
    b2 % 64
  }

  /** The letters of one chunk of 1 to 3 bytes, without padding: the bits in groups of 6, zeros added. */
  function Letters(chunk: Bytes): (l: Bytes)
    requires 1 <= |chunk| <= 3
    ensures |l| == |chunk| + 1
  {
    var a := Alphabet();
    var b0 := chunk[0];
    var b1 := if |chunk| > 1 then chunk[1] else 0;
    var b2 := if |chunk| > 2 then chunk[2] else 0;
    var four := [a[Index0(b0)], a[Index1(b0, b1)], a[Index2(b1, b2)], a[Index3(b2)]];
    four[..|chunk| + 1]
  }

  function Unpadded(bytes: Bytes): Bytes {
    if bytes == [] then []
    else if |bytes| <= 3 then Letters(bytes)
    else Letters(bytes[..3]) + Unpadded(bytes[3..])
  }

  function Padding(n: nat): (p: Bytes)
    ensures |p| == n
  {
    seq(n, _ => PAD)
  }

  /** How many '=' bring the letters of `n` bytes to a multiple of four. */
  function PadCount(n: nat): nat {
    (3 - n % 3) % 3
  }

  function Padded(bytes: Bytes): Bytes {
    Unpadded(bytes) + Padding(PadCount(|bytes|))
  }

  lemma {:induction false} UnpaddedLength(bytes: Bytes)
    ensures |Unpadded(bytes)| == |bytes| / 3 * 4 + (if |bytes| % 3 == 0 then 0 else |bytes| % 3 + 1)
    ensures |Padded(bytes)| == (|bytes| + 2) / 3 * 4
  {
    hide Alphabet, Letters, PadCount;
    Thirds(|bytes|);
    if |bytes| > 3 {
      UnpaddedLength(bytes[3..]);
    }
  }

  lemma Thirds(n: nat)
    ensures n >= 3 ==> (n - 3) / 3 == n / 3 - 1 && (n - 3) % 3 == n % 3
    ensures PadCount(n) == if n % 3 == 0 then 0 else 3 - n % 3
    ensures (n + 2) / 3 == n / 3 + if n % 3 == 0 then 0 else 1
  {
  }

  /** `encode`: three bytes at a time through a 24-bit number. */
  method Encode(bytes: Bytes) returns (out: Bytes)
    ensures out == Padded(bytes)
  {
    hide Letters, Padded, Padding, Alphabet, Index0, Index1, Index2, Index3;
    var alphabet := Alphabet();
    NothingPadded();
    out := [];
    var i := 0;
    while i < |bytes|
      invariant 0 <= i <= |bytes|
      invariant i < |bytes| ==> Padded(bytes) == out + Padded(bytes[i..])
      invariant i == |bytes| ==> Padded(bytes) == out
    {
      var chunk := bytes[i..if i + 3 <= |bytes| then i + 3 else |bytes|];
      var b0: nat := chunk[0];
      var b1: nat := if |chunk| > 1 then chunk[1] else 0;
      var b2: nat := if |chunk| > 2 then chunk[2] else 0;
      var n: nat := b0 * 0x1_0000 + b1 * 0x100 + b2;
      ChunkNumber(b0, b1, b2);
      ChunkLetters(chunk);
      ghost var before := out;
      out := out + [alphabet[n / 0x4_0000 % 64]];
      out := out + [alphabet[n / 0x1000 % 64]];
      out := out + [if |chunk| > 1 then alphabet[n / 0x40 % 64] else PAD];
      out := out + [if |chunk| > 2 then alphabet[n % 64] else PAD];
      assert out == before + (Letters(chunk) + Padding(3 - |chunk|));
      PaddedChunk(bytes, i);
      i := if i + 3 <= |bytes| then i + 3 else |bytes|;
    }
  }

  lemma NothingPadded()
    ensures Padded([]) == []
  {
  }

  /** The four characters pushed for a chunk are its letters and its padding. */
  lemma ChunkLetters(chunk: Bytes)
    requires 1 <= |chunk| <= 3
    ensures var a := Alphabet();
      var b0, b1, b2 := chunk[0], if |chunk| > 1 then chunk[1] else 0, if |chunk| > 2 then chunk[2] else 0;
      Letters(chunk) + Padding(3 - |chunk|) ==
        [a[Index0(b0)], a[Index1(b0, b1)],
         if |chunk| > 1 then a[Index2(b1, b2)] else PAD, if |chunk| > 2 then a[Index3(b2)] else PAD]
  {
    hide Alphabet, Index0, Index1, Index2, Index3;
  }

  /** The four 6-bit groups of a 24-bit number made of three bytes. */
  lemma ChunkNumber(b0: byte, b1: byte, b2: byte)
    ensures var n := b0 * 0x1_0000 + b1 * 0x100 + b2;
      && n < 0x100_0000
      && n / 0x4_0000 % 64 == Index0(b0)
      && n / 0x1000 % 64 == Index1(b0, b1)
      && n / 0x40 % 64 == Index2(b1, b2)
      && n % 64 == Index3(b2)
  {
    var n := b0 * 0x1_0000 + b1 * 0x100 + b2;
    DivisionIs(n, b0 / 4, b0 % 4 * 0x1_0000 + b1 * 0x100 + b2, 0x4_0000);
    DivisionIs(n, b0 * 16 + b1 / 16, b1 % 16 * 0x100 + b2, 0x1000);
    DivisionIs(b0 * 16 + b1 / 16, b0 / 4, b0 % 4 * 16 + b1 / 16, 64);
    DivisionIs(n, b0 * 1024 + b1 * 4 + b2 / 64, b2 % 64, 64);
    DivisionIs(b0 * 1024 + b1 * 4 + b2 / 64, b0 * 16 + b1 / 16, b1 % 16 * 4 + b2 / 64, 64);
  }

  lemma PaddedChunk(bytes: Bytes, i: nat)
    requires i < |bytes|
    ensures var next := if i + 3 <= |bytes| then i + 3 else |bytes|;
      var chunk := bytes[i..next];
      Padded(bytes[i..]) ==
        Letters(chunk) + Padding(3 - |chunk|) + (if next < |bytes| then Padded(bytes[next..]) else [])
  {
    hide Alphabet, Letters;
    var rest := bytes[i..];
    if |rest| > 3 {
      assert rest[..3] == bytes[i..i + 3] && rest[3..] == bytes[i + 3..];
      assert |bytes[i + 3..]| % 3 == |rest| % 3;
    } else {
      assert bytes[i..|bytes|] == rest;
    }
  }

  /** No letter is a padding character. */
  lemma {:induction false} UnpaddedHasNoPad(bytes: Bytes)
    ensures PAD !in Unpadded(bytes)
  {
    hide Alphabet;
    if bytes != [] {
      var chunk := if |bytes| <= 3 then bytes else bytes[..3];
      forall v: byte | v < 64 ensures Alphabet()[v] != PAD {
        SextetIff(Alphabet()[v], v);
      }
      if |bytes| > 3 {
        UnpaddedHasNoPad(bytes[3..]);
      }
    }
  }

  lemma EndsWithPad(letters: Bytes, n: nat)
    requires PAD !in letters
    ensures var s := letters + Padding(n);
      (|s| > 0 && s[|s| - 1] == PAD <==> n > 0)
      && (n > 0 ==> s[..|s| - 1] == letters + Padding(n - 1))
      && (n == 0 ==> s == letters)
  {
    var s := letters + Padding(n);
    if n > 0 {
      assert s[|s| - 1] == Padding(n)[n - 1];
    } else if |s| > 0 {
      assert s[|s| - 1] == letters[|letters| - 1] && letters[|letters| - 1] in letters;
    }
  }

  /** `encode_nopad`: encode, then pop the padding. */
  method EncodeNopad(bytes: Bytes) returns (s: Bytes)
    ensures s == Unpadded(bytes)
  {
    UnpaddedHasNoPad(bytes);
    s := Encode(bytes);
    ghost var left := PadCount(|bytes|);
    while |s| > 0 && s[|s| - 1] == PAD
      invariant s == Unpadded(bytes) + Padding(left)
      decreases |s|
    {
      EndsWithPad(Unpadded(bytes), left);
      s := s[..|s| - 1];
      left := left - 1;
    }
    EndsWithPad(Unpadded(bytes), left);
  }

  // ---------------------------------------------------------------------
  // Decoding
  // ---------------------------------------------------------------------

  /** The bits not yet output: `nbits` of them, held in `acc`. */
  predicate Bits(acc: nat, nbits: nat) {
    nbits in {0, 2, 4, 6} && acc < Pow2(nbits)
  }

  lemma Powers()
    ensures Pow2(0) == 1 && Pow2(2) == 4 && Pow2(4) == 16 && Pow2(6) == 64
  {
  }

  /** One letter of value `v` shifted in, and the byte out, if there is one. */
  function Shift(acc: nat, nbits: nat, v: byte): (r: (Bytes, nat, nat))
    requires Bits(acc, nbits) && v < 64
    ensures Bits(r.1, r.2) && |r.0| <= 1
  {
    Powers();
    if nbits == 0 then ([], v, 6)
    else
      var all := acc * 64 + v;
      var left := nbits - 2;
      assert all / Pow2(left) < 256;
      ([all / Pow2(left)], all % Pow2(left), left)
  }

  /** What the decoding loop still outputs, with `acc` and `nbits` pending. */
  function DecodeFrom(s: Bytes, acc: nat, nbits: nat): Result<Bytes>
    requires Bits(acc, nbits)
  {
    if s == [] then (if nbits > 0 && acc != 0 then Err(Format) else Ok([]))
    else match Sextet(s[0])
      case None => Err(Format)
      case Some(v) =>
        var (out, acc', nbits') := Shift(acc, nbits, v);
        match DecodeFrom(s[1..], acc', nbits')
        case Err(e) => Err(e)
        case Ok(rest) => Ok(out + rest)
  }

  /** `s` without its trailing padding characters. */
  function Trimmed(s: Bytes): (t: Bytes)
    ensures |t| <= |s| && t <= s
    ensures t == [] || t[|t| - 1] != PAD
    ensures s == t + Padding(|s| - |t|)
  {
    if s == [] || s[|s| - 1] != PAD then s else Trimmed(s[..|s| - 1])
  }

  function Decoded(s: Bytes): Result<Bytes> {
    if |s| % 4 != 0 then Err(Format)
    else
      var stripped := Trimmed(s);
      if |s| - |stripped| > 2 then Err(Format) else DecodeFrom(stripped, 0, 0)
  }

  function DecodedNopad(s: Bytes): Result<Bytes> {
    if PAD in s then Err(Format)
    else if |s| % 4 == 1 then Err(Format)
    else DecodeFrom(s, 0, 0)
  }

  /**
   * `decode_body`: the 32-bit accumulator. The invariant keeps it below
   * `Pow2(nbits)` with `nbits` 0, 2, 4 or 6 between letters, so neither the
   * shift nor the cast to a byte ever loses a bit.
   */
  method DecodeBody(s: Bytes) returns (r: Result<Bytes>)
    ensures r == DecodeFrom(s, 0, 0)
  {
    hide DecodeFrom, Shift, Pow2, Continued;
    var out: Bytes := [];
    var acc: nat := 0;
    var nbits: nat := 0;
    var i := 0;
    Powers();
    ghost var all := DecodeFrom(s, 0, 0);
    assert s[0..] == s;
    ContinuedNothing(all);
    while i < |s|
      invariant 0 <= i <= |s|
      invariant Bits(acc, nbits)
      invariant all == Continued(out, DecodeFrom(s[i..], acc, nbits))
    {
      DecodeTurn(s, i, out, acc, nbits);
      var v := Sextet(s[i]);
      if v.None? {
        return Err(Format);
      }
      ghost var step := Shift(acc, nbits, v.value);
      SextetSmall(s[i]);
      ShiftIs(acc, nbits, v.value);
      assert out + [] == out;
      acc := (acc * 64) % 0x1_0000_0000 + v.value;
      nbits := nbits + 6;
      if nbits >= 8 {
        nbits := nbits - 8;
        out := out + [acc / Pow2(nbits) % 256];
        acc := acc % Pow2(nbits);
      }
      i := i + 1;
    }
    DecodeEnd(s[i..], out, acc, nbits);
    if nbits > 0 && acc != 0 {
      return Err(Format);
    }
    return Ok(out);
  }

  lemma SextetSmall(c: byte)
    ensures Sextet(c).Some? ==> Sextet(c).value < 64
  {
  }

  /** No bit is lost: what is shifted in stays far below 32 bits, and what is cast to a byte fits one. */
  lemma ShiftIs(acc: nat, nbits: nat, v: byte)
    requires Bits(acc, nbits) && v < 64
    ensures var all := acc * 64 + v;
      && (acc * 64) % 0x1_0000_0000 + v == all < 0x1000
      && (nbits + 6 >= 8 <==> nbits > 0)
      && (nbits == 0 ==> Shift(acc, nbits, v) == ([], all, nbits + 6))
      && (nbits > 0 ==>
        var left := nbits + 6 - 8;
        Pow2(left) > 0 && all / Pow2(left) < 256
        && Shift(acc, nbits, v) == ([all / Pow2(left) % 256], all % Pow2(left), left))
  {
    Powers();
  }

  lemma DecodeTurn(s: Bytes, i: nat, out: Bytes, acc: nat, nbits: nat)
    requires i < |s| && Bits(acc, nbits)
    ensures match Sextet(s[i])
      case None => Continued(out, DecodeFrom(s[i..], acc, nbits)) == Err(Format)
      case Some(v) =>
        var (more, acc', nbits') := Shift(acc, nbits, v);
        Continued(out, DecodeFrom(s[i..], acc, nbits)) == Continued(out + more, DecodeFrom(s[i + 1..], acc', nbits'))
  {
    assert s[i..][1..] == s[i + 1..];
    if Sextet(s[i]).Some? {
      var (more, acc', nbits') := Shift(acc, nbits, Sextet(s[i]).value);
      var todo := DecodeFrom(s[i + 1..], acc', nbits');
      if todo.Ok? {
        assert out + (more + todo.value) == out + more + todo.value;
      }
    }
  }

  lemma DecodeEnd(s: Bytes, out: Bytes, acc: nat, nbits: nat)
    requires s == [] && Bits(acc, nbits)
    ensures Continued(out, DecodeFrom(s, acc, nbits)) == if nbits > 0 && acc != 0 then Err(Format) else Ok(out)
  {
    assert out + [] == out;
  }

  /** `decode`. */
  method Decode(s: Bytes) returns (r: Result<Bytes>)
    ensures r == Decoded(s)
  {
    if |s| % 4 != 0 {
      return Err(Format);
    }
    var stripped := Trimmed(s);
    var pad := |s| - |stripped|;
    if pad > 2 {
      return Err(Format);
    }
    r := DecodeBody(stripped);
  }

  /** `decode_nopad`. */
  method DecodeNopad(s: Bytes) returns (r: Result<Bytes>)
    ensures r == DecodedNopad(s)
  {
    if PAD in s {
      return Err(Format);
    }
    if |s| % 4 == 1 {
      return Err(Format);
    }
    r := DecodeBody(s);
  }

  // ---------------------------------------------------------------------
  // Exact inverses
  // ---------------------------------------------------------------------

  /** The values of the letters of `s`, if all are letters. */
  predicate AllLetters(s: Bytes) {
    forall i :: 0 <= i < |s| ==> Sextet(s[i]).Some?
  }

  function Value(c: byte): (v: nat)
    requires Sextet(c).Some?
    ensures v < 64
  {
    Sextet(c).value
  }

  lemma {:induction false} NotALetter(s: Bytes, acc: nat, nbits: nat, i: nat)
    requires Bits(acc, nbits) && i < |s| && Sextet(s[i]).None?
    ensures DecodeFrom(s, acc, nbits).Err?
  {
    if i > 0 && Sextet(s[0]).Some? {
      var (_, acc', nbits') := Shift(acc, nbits, Sextet(s[0]).value);
      NotALetter(s[1..], acc', nbits', i - 1);
    }
  }

  function Byte0(v0: nat, v1: nat): byte
    requires v0 < 64 && v1 < 64
  {
    v0 * 4 + v1 / 16
  }

  function Byte1(v1: nat, v2: nat): byte
    requires v1 < 64 && v2 < 64
  {
    v1 % 16 * 16 + v2 / 4
  }

  function Byte2(v2: nat, v3: nat): byte
    requires v2 < 64 && v3 < 64
  {
    v2 % 4 * 64 + v3
  }

  // A letter read when nothing, six, four or two bits are pending.

  lemma Shift0(v: byte)
    requires v < 64
    ensures Bits(0, 0) && Bits(v, 6) && Shift(0, 0, v) == ([], v as nat, 6)
  {
    Powers();
  }

  lemma Shift6(v0: nat, v1: byte)
    requires v0 < 64 && v1 < 64
    ensures Bits(v0, 6) && Bits(v1 % 16, 4) && Shift(v0, 6, v1) == ([Byte0(v0, v1)], v1 % 16, 4)
  {
    Powers();
    assert (v0 * 64 + v1) / 16 == v0 * 4 + v1 / 16;
  }

  lemma Shift4(v1: nat, v2: byte)
    requires v1 < 64 && v2 < 64
    ensures Bits(v1 % 16, 4) && Bits(v2 % 4, 2) && Shift(v1 % 16, 4, v2) == ([Byte1(v1, v2)], v2 % 4, 2)
  {
    Powers();
    assert (v1 % 16 * 64 + v2) / 4 == v1 % 16 * 16 + v2 / 4;
  }

  lemma Shift2(v2: nat, v3: byte)
    requires v2 < 64 && v3 < 64
    ensures Bits(v2 % 4, 2) && Bits(0, 0) && Shift(v2 % 4, 2, v3) == ([Byte2(v2, v3)], 0, 0)
  {
    Powers();
  }

  /** One letter takes the loop from one state to the next. */
  lemma OneLetter(s: Bytes, i: nat, out: Bytes, acc: nat, nbits: nat, out': Bytes, acc': nat, nbits': nat)
    requires i < |s| && Bits(acc, nbits) && Bits(acc', nbits') && Sextet(s[i]).Some?
    requires var (more, a, n) := Shift(acc, nbits, Value(s[i])); out' == out + more && acc' == a && nbits' == n
    ensures Continued(out, DecodeFrom(s[i..], acc, nbits)) == Continued(out', DecodeFrom(s[i + 1..], acc', nbits'))
  {
    DecodeTurn(s, i, out, acc, nbits);
  }

  /** The first two letters give a byte and leave four bits. */
  lemma FirstTwo(s: Bytes)
    requires |s| >= 2 && Sextet(s[0]).Some? && Sextet(s[1]).Some?
    ensures Bits(Value(s[1]) % 16, 4)
    ensures DecodeFrom(s, 0, 0) ==
      Continued([Byte0(Value(s[0]), Value(s[1]))], DecodeFrom(s[2..], Value(s[1]) % 16, 4))
  {
    var v0, v1 := Value(s[0]), Value(s[1]);
    Shift0(v0);
    Shift6(v0, v1);
    hide DecodeFrom, Shift, Continued, Pow2, Byte0, Bits, Sextet, Value;
    assert s[0..] == s;
    ContinuedNothing(DecodeFrom(s, 0, 0));
    OneLetter(s, 0, [], 0, 0, [], v0, 6);
    OneLetter(s, 1, [], v0, 6, [Byte0(v0, v1)], v1 % 16, 4);
  }

  /** Four letters decode to three bytes, and leave nothing pending. */
  lemma FourLetters(s: Bytes)
    requires |s| >= 4 && AllLetters(s[..4])
    ensures DecodeFrom(s, 0, 0) ==
      Continued([Byte0(Value(s[0]), Value(s[1])), Byte1(Value(s[1]), Value(s[2])), Byte2(Value(s[2]), Value(s[3]))],
            DecodeFrom(s[4..], 0, 0))
  {
    assert s[..4][0] == s[0] && s[..4][1] == s[1] && s[..4][2] == s[2] && s[..4][3] == s[3];
    FirstTwo(s);
    var v0, v1, v2, v3 := Value(s[0]), Value(s[1]), Value(s[2]), Value(s[3]);
    Shift4(v1, v2);
    Shift2(v2, v3);
    hide DecodeFrom, Shift, Continued, Pow2, Byte0, Byte1, Byte2, Bits, Sextet, Value;
    var x, y, z := Byte0(v0, v1), Byte1(v1, v2), Byte2(v2, v3);
    OneLetter(s, 2, [x], v1 % 16, 4, [x, y], v2 % 4, 2);
    OneLetter(s, 3, [x, y], v2 % 4, 2, [x, y, z], 0, 0);
  }

  /** Two letters at the end: one byte, if the four bits left over are zero. */
  lemma TwoLetters(s: Bytes)
    requires |s| == 2 && AllLetters(s)
    ensures DecodeFrom(s, 0, 0) ==
      if Value(s[1]) % 16 != 0 then Err(Format) else Ok([Byte0(Value(s[0]), Value(s[1]))])
  {
    FirstTwo(s);
    DecodeEnd(s[2..], [Byte0(Value(s[0]), Value(s[1]))], Value(s[1]) % 16, 4);
    hide DecodeFrom, Byte0, Bits, Sextet, Value;
  }

  /** Three letters at the end: two bytes, if the two bits left over are zero. */
  lemma ThreeLetters(s: Bytes)
    requires |s| == 3 && AllLetters(s)
    ensures DecodeFrom(s, 0, 0) ==
      if Value(s[2]) % 4 != 0 then Err(Format)
      else Ok([Byte0(Value(s[0]), Value(s[1])), Byte1(Value(s[1]), Value(s[2]))])
  {
    var v0, v1, v2 := Value(s[0]), Value(s[1]), Value(s[2]);
    FirstTwo(s);
    Shift4(v1, v2);
    var x, y := Byte0(v0, v1), Byte1(v1, v2);
    DecodeEnd(s[3..], [x, y], v2 % 4, 2);
    hide DecodeFrom, Shift, Pow2, Byte0, Byte1, Bits, Sextet, Value;
    OneLetter(s, 2, [x], v1 % 16, 4, [x, y], v2 % 4, 2);
  }

  // Letters and bytes, back and forth, for the three sizes of a chunk.

  lemma LetterOf(c: byte)
    requires Sextet(c).Some?
    ensures Alphabet()[Value(c)] == c
  {
    SextetIff(c, Value(c));
  }

  lemma ValueOf(v: byte)
    requires v < 64
    ensures Sextet(Alphabet()[v]).Some? && Value(Alphabet()[v]) == v
  {
    SextetIff(Alphabet()[v], v);
  }

  lemma GroupsOfBytes(v0: nat, v1: nat, v2: nat, v3: nat)
    requires v0 < 64 && v1 < 64 && v2 < 64 && v3 < 64
    ensures Index0(Byte0(v0, v1)) == v0
    ensures Index1(Byte0(v0, v1), Byte1(v1, v2)) == v1
    ensures Index2(Byte1(v1, v2), Byte2(v2, v3)) == v2
    ensures Index3(Byte2(v2, v3)) == v3
    ensures v1 % 16 == 0 ==> Index1(Byte0(v0, v1), 0) == v1
    ensures v2 % 4 == 0 ==> Index2(Byte1(v1, v2), 0) == v2
  {
    GroupsOfByte(v0, v1, 4);
    GroupsOfByte(v1, v2, 2);
    assert (v1 % 16 * 16 + v2 / 4) / 16 == v1 % 16;
    assert (v2 % 4 * 64 + v3) / 64 == v2 % 4;
  }

  lemma GroupsOfByte(v: nat, w: nat, shift: nat)
    requires v < 64 && w < 64
    ensures (v * 4 + w / 16) / 4 == v && (v * 4 + w / 16) % 4 == w / 16
    ensures (v % 16 * 16 + w / 4) % 16 == w / 4
  {
    assert w / 4 < 16;
    assert v % 16 * 16 + w / 4 == 16 * (v % 16) + w / 4;
  }

  lemma BytesOfGroups(b0: byte, b1: byte, b2: byte)
    ensures Byte0(Index0(b0), Index1(b0, b1)) == b0
    ensures Byte1(Index1(b0, b1), Index2(b1, b2)) == b1
    ensures Byte2(Index2(b1, b2), Index3(b2)) == b2
    ensures Index1(b0, 0) % 16 == 0 && Index2(b1, 0) % 4 == 0
  {
    assert Index1(b0, b1) / 16 == b0 % 4 && Index1(b0, b1) % 16 == b1 / 16;
    assert Index2(b1, b2) / 4 == b1 % 16 && Index2(b1, b2) % 4 == b2 / 64;
  }

  lemma QuadIs(q: Bytes)
    requires |q| == 4 && AllLetters(q)
    ensures Letters([
      Byte0(Value(q[0]), Value(q[1])), Byte1(Value(q[1]), Value(q[2])), Byte2(Value(q[2]), Value(q[3]))]) == q
  {
    hide Alphabet, Sextet, Value, Byte0, Byte1, Byte2, Index0, Index1, Index2, Index3;
    LetterOf(q[0]);
    LetterOf(q[1]);
    LetterOf(q[2]);
    LetterOf(q[3]);
    GroupsOfBytes(Value(q[0]), Value(q[1]), Value(q[2]), Value(q[3]));
  }

  lemma TripleIs(q: Bytes)
    requires |q| == 3 && AllLetters(q) && Value(q[2]) % 4 == 0
    ensures Letters([Byte0(Value(q[0]), Value(q[1])), Byte1(Value(q[1]), Value(q[2]))]) == q
  {
    hide Alphabet, Sextet, Value, Byte0, Byte1, Byte2, Index0, Index1, Index2, Index3;
    LetterOf(q[0]);
    LetterOf(q[1]);
    LetterOf(q[2]);
    GroupsOfBytes(Value(q[0]), Value(q[1]), Value(q[2]), 0);
  }

  lemma PairIs(q: Bytes)
    requires |q| == 2 && AllLetters(q) && Value(q[1]) % 16 == 0
    ensures Letters([Byte0(Value(q[0]), Value(q[1]))]) == q
  {
    hide Alphabet, Sextet, Value, Byte0, Byte1, Byte2, Index0, Index1, Index2, Index3;
    LetterOf(q[0]);
    LetterOf(q[1]);
    GroupsOfBytes(Value(q[0]), Value(q[1]), 0, 0);
  }

  /** The letters of a chunk are letters, and give its bytes back. */
  lemma ChunkReads(c: Bytes)
    requires 1 <= |c| <= 3
    ensures var l := Letters(c);
      && AllLetters(l)
      && Byte0(Value(l[0]), Value(l[1])) == c[0]
      && (|c| == 1 ==> Value(l[1]) % 16 == 0)
      && (|c| > 1 ==> Byte1(Value(l[1]), Value(l[2])) == c[1])
      && (|c| == 2 ==> Value(l[2]) % 4 == 0)
      && (|c| > 2 ==> Byte2(Value(l[2]), Value(l[3])) == c[2])
  {
    hide Alphabet, Sextet, Value, Byte0, Byte1, Byte2, Index0, Index1, Index2, Index3;
    var b0, b1, b2 := c[0], if |c| > 1 then c[1] else 0, if |c| > 2 then c[2] else 0;
    ValueOf(Index0(b0));
    ValueOf(Index1(b0, b1));
    ValueOf(Index2(b1, b2));
    ValueOf(Index3(b2));
    BytesOfGroups(b0, b1, b2);
  }

  /** Of a whole-quantum or cut-off body: it decodes to `b` exactly if it is the letters of `b`. */
  lemma {:induction false} BodyIff(s: Bytes, b: Bytes)
    requires |s| % 4 != 1
    ensures DecodeFrom(s, 0, 0) == Ok(b) <==> s == Unpadded(b)
    decreases |s|
  {
    if DecodeFrom(s, 0, 0) == Ok(b) {
      BodyDecodes(s, b);
    }
    if s == Unpadded(b) {
      BodyOf(b);
    }
  }

  lemma AreLetters(s: Bytes)
    requires DecodeFrom(s, 0, 0).Ok?
    ensures AllLetters(s)
  {
    if i :| 0 <= i < |s| && Sextet(s[i]).None? {
      NotALetter(s, 0, 0, i);
    }
  }

  lemma QuadDecodes(s: Bytes, b: Bytes)
    requires |s| >= 4 && DecodeFrom(s, 0, 0) == Ok(b)
    ensures DecodeFrom(s[4..], 0, 0).Ok?
    ensures |b| >= 3 && b == b[..3] + DecodeFrom(s[4..], 0, 0).value && Letters(b[..3]) == s[..4]
  {
    AreLetters(s);
    hide DecodeFrom, Letters, Byte0, Byte1, Byte2, Sextet, Value;
    var q := s[..4];
    assert forall i :: 0 <= i < 4 ==> q[i] == s[i];
    FourLetters(s);
    QuadIs(q);
    var c := [Byte0(Value(q[0]), Value(q[1])), Byte1(Value(q[1]), Value(q[2])), Byte2(Value(q[2]), Value(q[3]))];
    assert b[..3] == c;
  }

  lemma TailDecodes(s: Bytes, b: Bytes)
    requires 2 <= |s| <= 3 && DecodeFrom(s, 0, 0) == Ok(b)
    ensures 1 <= |b| <= 2 && s == Letters(b)
  {
    AreLetters(s);
    hide DecodeFrom, Letters, Byte0, Byte1, Sextet, Value;
    if |s| == 3 {
      ThreeLetters(s);
      TripleIs(s);
    } else {
      TwoLetters(s);
      PairIs(s);
    }
  }

  lemma {:induction false} BodyDecodes(s: Bytes, b: Bytes)
    requires |s| % 4 != 1 && DecodeFrom(s, 0, 0) == Ok(b)
    ensures s == Unpadded(b)
    decreases |s|
  {
    hide Letters, Sextet;
    if |s| >= 4 {
      QuadDecodes(s, b);
      hide DecodeFrom;
      var tail := DecodeFrom(s[4..], 0, 0).value;
      BodyDecodes(s[4..], tail);
      assert s == s[..4] + s[4..];
      UnpaddedMore(b[..3], tail);
    } else if |s| >= 2 {
      TailDecodes(s, b);
    }
  }

  /** A whole chunk in front puts its letters in front. */
  lemma UnpaddedMore(c: Bytes, rest: Bytes)
    requires |c| == 3
    ensures Unpadded(c + rest) == Letters(c) + Unpadded(rest)
  {
    hide Letters;
    var b := c + rest;
    if rest == [] {
      assert b == c;
    } else {
      assert b[..3] == c && b[3..] == rest;
    }
  }

  lemma {:induction false} BodyOf(b: Bytes)
    ensures DecodeFrom(Unpadded(b), 0, 0) == Ok(b)
  {
    hide DecodeFrom, Letters, Byte0, Byte1, Byte2, Sextet, Value;
    var s := Unpadded(b);
    if |b| >= 3 {
      var c, rest := b[..3], b[3..];
      ChunkReads(c);
      BodyOf(rest);
      UnpaddedMore(c, rest);
      assert b == c + rest;
      var l := Letters(c);
      assert s[..4] == l && s[4..] == Unpadded(rest);
      assert forall i :: 0 <= i < 4 ==> s[i] == l[i];
      FourLetters(s);
      assert c == [c[0], c[1], c[2]];
    } else if |b| == 2 {
      ChunkReads(b);
      ThreeLetters(s);
      assert b == [b[0], b[1]];
    } else if |b| == 1 {
      ChunkReads(b);
      TwoLetters(s);
      assert b == [b[0]];
    } else {
      DecodeEnd(s, [], 0, 0);
      ContinuedNothing(DecodeFrom(s, 0, 0));
    }
  }

  /** The unpadded form: decoding gives `b` exactly for the one spelling of `b`. */
  lemma DecodeNopadIff(s: Bytes, b: Bytes)
    ensures DecodedNopad(s) == Ok(b) <==> s == Unpadded(b)
  {
    hide DecodeFrom, Unpadded;
    UnpaddedLength(b);
    UnpaddedHasNoPad(b);
    if |s| % 4 != 1 {
      BodyIff(s, b);
    }
  }

  lemma {:induction false} TrimmedIs(t: Bytes, n: nat)
    requires PAD !in t
    ensures Trimmed(t + Padding(n)) == t
  {
    EndsWithPad(t, n);
    if n > 0 {
      TrimmedIs(t, n - 1);
    }
  }

  /** The padded form of `b`, taken apart. */
  lemma PaddedParts(b: Bytes)
    ensures var s := Padded(b);
      |s| % 4 == 0 && Trimmed(s) == Unpadded(b) && |s| - |Unpadded(b)| == PadCount(|b|) <= 2
  {
    hide Unpadded, Trimmed;
    UnpaddedLength(b);
    UnpaddedHasNoPad(b);
    TrimmedIs(Unpadded(b), PadCount(|b|));
  }

  /** A body of the right length is padded in one way only. */
  lemma PaddedBack(s: Bytes, b: Bytes)
    requires |s| % 4 == 0 && |s| - |Trimmed(s)| <= 2 && Trimmed(s) == Unpadded(b)
    ensures s == Padded(b)
  {
    PaddedParts(b);
    hide Unpadded, Trimmed;
  }

  /** The padded form: decoding gives `b` exactly for the one spelling of `b`, over all inputs. */
  lemma DecodeIff(s: Bytes, b: Bytes)
    ensures Decoded(s) == Ok(b) <==> s == Padded(b)
  {
    hide DecodeFrom, Unpadded, Trimmed, Padded, PadCount;
    PaddedParts(b);
    if |s| % 4 == 0 && |s| - |Trimmed(s)| <= 2 {
      BodyIff(Trimmed(s), b);
      if Trimmed(s) == Unpadded(b) { PaddedBack(s, b); }
    }
  }

  /** What decodes is at most three quarters as long: four letters for every three bytes begun. */
  lemma DecodedLength(s: Bytes)
    requires Decoded(s).Ok?
    ensures 4 * |Decoded(s).value| <= 3 * |s|
  {
    var b := Decoded(s).value;
    DecodeIff(s, b);
    UnpaddedLength(b);
  }

  /** Refusal has one kind. */
  lemma {:induction false} BodyErrs(s: Bytes, acc: nat, nbits: nat)
    requires Bits(acc, nbits)
    ensures DecodeFrom(s, acc, nbits).Err? ==> DecodeFrom(s, acc, nbits) == Err(Format)
  {
    if s != [] && Sextet(s[0]).Some? {
      var (_, acc', nbits') := Shift(acc, nbits, Sextet(s[0]).value);
      BodyErrs(s[1..], acc', nbits');
    }
  }

  lemma DecodeErrs(s: Bytes)
    ensures Decoded(s).Err? ==> Decoded(s) == Err(Format)
    ensures DecodedNopad(s).Err? ==> DecodedNopad(s) == Err(Format)
  {
    BodyErrs(Trimmed(s), 0, 0);
    BodyErrs(s, 0, 0);
  }
}
