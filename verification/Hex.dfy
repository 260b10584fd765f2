/** Canonical hex: lowercase out, strictly lowercase in. Text is bytes. */
module Hex {
  import opened Base

  /** "0123456789abcdef". */
  function Digit(v: nat): (c: byte)
    requires v < 16
  {
    if v < 10 then 0x30 + v else 0x61 + (v - 10)
  }

  function Nibble(c: byte): Option<nat> {
    if 0x30 <= c <= 0x39 then Some(c - 0x30)
    else if 0x61 <= c <= 0x66 then Some(c - 0x61 + 10)
    else None
  }

  function Encoded(bytes: Bytes): Bytes {
    if bytes == [] then []
    else Encoded(bytes[..|bytes| - 1]) + [Digit(bytes[|bytes| - 1] / 16), Digit(bytes[|bytes| - 1] % 16)]
  }

  /** The bytes of an even number of digits, two at a time. */
  function Pairs(s: Bytes): Result<Bytes>
    requires |s| % 2 == 0
  {
    if s == [] then Ok([])
    else
      var k := |s| - 2;
      match Pairs(s[..k])
      case Err(e) => Err(e)
      case Ok(front) =>
        var hi, lo := Nibble(s[k]), Nibble(s[k + 1]);
        if hi.None? || lo.None? then Err(Format) else Ok(front + [hi.value * 16 + lo.value])
  }

  function Decoded(s: Bytes): Result<Bytes> {
    if |s| % 2 != 0 then Err(Format) else Pairs(s)
  }

  lemma NibbleIff(c: byte, v: nat)
    ensures Nibble(c) == Some(v) <==> v < 16 && c == Digit(v)
  {
  }

  /** `encode`. */
  method Encode(bytes: Bytes) returns (s: Bytes)
    ensures s == Encoded(bytes)
  {
    s := [];
    for i := 0 to |bytes|
      invariant s == Encoded(bytes[..i])
    {
      var b := bytes[i];
      s := s + [Digit(b / 16)];
      s := s + [Digit(b % 16)];
      assert bytes[..i + 1][..i] == bytes[..i];
    }
    assert bytes[..|bytes|] == bytes;
  }

  lemma {:induction false} PairsStop(s: Bytes, k: nat)
    requires |s| % 2 == 0 && k % 2 == 0 && k <= |s| && Pairs(s[..k]).Err?
    ensures Pairs(s) == Pairs(s[..k])
  {
    if k == |s| {
      assert s[..k] == s;
    } else {
      assert s[..|s| - 2][..k] == s[..k];
      PairsStop(s[..|s| - 2], k);
    }
  }

  /** `decode`. */
  method Decode(s: Bytes) returns (r: Result<Bytes>)
    ensures r == Decoded(s)
  {
    if |s| % 2 != 0 {
      return Err(Format);
    }
    var out: Bytes := [];
    var i := 0;
    while i < |s|
      invariant 0 <= i <= |s| && i % 2 == 0
      invariant Pairs(s[..i]) == Ok(out)
    {
      assert s[..i + 2][..i] == s[..i];
      var hi := Nibble(s[i]);
      if hi.None? {
        PairsStop(s, i + 2);
        return Err(Format);
      }
      var lo := Nibble(s[i + 1]);
      if lo.None? {
        PairsStop(s, i + 2);
        return Err(Format);
      }
      out := out + [hi.value * 16 + lo.value];
      i := i + 2;
    }
    assert s[..i] == s;
    return Ok(out);
  }

  lemma {:induction false} EncodedLength(bytes: Bytes)
    ensures |Encoded(bytes)| == 2 * |bytes|
  {
    if bytes != [] {
      EncodedLength(bytes[..|bytes| - 1]);
    }
  }

  lemma {:induction false} PairsIff(s: Bytes, b: Bytes)
    requires |s| % 2 == 0
    ensures Pairs(s) == Ok(b) <==> s == Encoded(b)
    decreases |s|
  {
    EncodedLength(b);
    if s != [] {
      var k := |s| - 2;
      var hi, lo := Nibble(s[k]), Nibble(s[k + 1]);
      if b != [] {
        var front, last := b[..|b| - 1], b[|b| - 1];
        PairsIff(s[..k], front);
        NibbleIff(s[k], last / 16);
        NibbleIff(s[k + 1], last % 16);
        assert s == s[..k] + [s[k], s[k + 1]];
        assert b == front + [last];
        EncodedLength(front);
      }
    }
  }

  /** Decoding gives `b` exactly for the one spelling of `b`, over all inputs; otherwise it is `Format`. */
  lemma DecodeIff(s: Bytes, b: Bytes)
    ensures Decoded(s) == Ok(b) <==> s == Encoded(b)
    ensures Decoded(s).Err? ==> Decoded(s) == Err(Format)
  {
    EncodedLength(b);
    if |s| % 2 == 0 {
      PairsIff(s, b);
      PairsErr(s);
    }
  }

  lemma {:induction false} PairsErr(s: Bytes)
    requires |s| % 2 == 0
    ensures Pairs(s).Err? ==> Pairs(s) == Err(Format)
  {
    if s != [] {
      PairsErr(s[..|s| - 2]);
    }
  }

  /** What decodes is half as long. */
  lemma DecodedLength(s: Bytes)
    requires Decoded(s).Ok?
    ensures 2 * |Decoded(s).value| == |s|
  {
    DecodeIff(s, Decoded(s).value);
    EncodedLength(Decoded(s).value);
  }
}
