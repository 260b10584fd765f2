/** `der.rs`: tags, lengths, elements in a row, object identifiers and integer sizes. */
module Der {
  import opened Base

  datatype Tlv = Tlv(tag: byte, body: Bytes)

  // ---------------------------------------------------------------------
  // Encoding (sections 8.1.2 and 8.1.3 of ITU-T X.690), in any definite form
  // ---------------------------------------------------------------------

  /** The length in one octet, or a count of 1 to 4 octets and then the length. */
  datatype Form = Short | Long(octets: nat)

  predicate Allows(f: Form, len: nat) {
    match f
    case Short => len < 0x80
    case Long(n) => 1 <= n <= 4 && len < Pow256(n)
  }

  function EncodeLength(f: Form, len: nat): Bytes
    requires Allows(f, len)
  {
    match f
    case Short => [len]
    case Long(n) => [0x80 + n] + BigEndian(len, n)
  }

  function Encode(t: Tlv, f: Form): (b: Bytes)
    requires Allows(f, |t.body|)
    ensures b != []
  {
    [t.tag] + EncodeLength(f, |t.body|) + t.body
  }

  predicate AllAllowed(ts: seq<Tlv>, fs: seq<Form>) {
    |ts| == |fs| && forall i :: 0 <= i < |ts| ==> Allows(fs[i], |ts[i].body|)
  }

  function EncodeAll(ts: seq<Tlv>, fs: seq<Form>): Bytes
    requires AllAllowed(ts, fs)
    decreases |ts|
  {
    if ts == [] then [] else Encode(ts[0], fs[0]) + EncodeAll(ts[1..], fs[1..])
  }

  // ---------------------------------------------------------------------
  // Reading
  // ---------------------------------------------------------------------

  /** `read`: one element from the front, and what follows it. */
  function Read(input: Bytes): (r: Option<(Tlv, Bytes)>)
    ensures r.Some? ==> |r.value.1| + 2 <= |input|
  {
    if |input| < 2 then None
    else
      var tag, first, rest := input[0], input[1], input[2..];
      if first < 0x80 then Take(tag, first, rest)
      else
        var n := first % 0x80;
        if n == 0 || n > 4 || |rest| < n then None
        else Take(tag, FromBigEndian(rest[..n]), rest[n..])
  }

  function Take(tag: byte, len: nat, rest: Bytes): (r: Option<(Tlv, Bytes)>)
    ensures r.Some? ==> |r.value.1| <= |rest|
  {
    if |rest| < len then None else Some((Tlv(tag, rest[..len]), rest[len..]))
  }

  /** `whole`. */
  function Whole(input: Bytes): Option<Tlv> {
    match Read(input)
    case None => None
    case Some((t, rest)) => if rest == [] then Some(t) else None
  }

  /** The elements of `d`, in order. */
  function Elements(d: Bytes): Option<seq<Tlv>> {
    if d == [] then Some([])
    else match Read(d)
      case None => None
      case Some((t, rest)) =>
        match Elements(rest)
        case None => None
        case Some(ts) => Some([t] + ts)
  }

  /** `children`: the loop over `rest` and `out`. */
  method Children(body: Bytes) returns (r: Option<seq<Tlv>>)
    ensures r == Elements(body)
  {
    hide Read;
    var out: seq<Tlv> := [];
    var rest := body;
    ghost var all := Elements(body);
    JoinedNothing(all);
    while rest != []
      invariant all == Joined(out, Elements(rest))
      decreases |rest|
    {
      var next := Read(rest);
      if next.None? {
        return None;
      }
      JoinedMore(out, [next.value.0], Elements(next.value.1));
      out := out + [next.value.0];
      rest := next.value.1;
    }
    assert out + [] == out;
    return Some(out);
  }

  lemma TakeReads(tag: byte, body: Bytes, rest: Bytes)
    ensures Take(tag, |body|, body + rest) == Some((Tlv(tag, body), rest))
  {
    assert (body + rest)[..|body|] == body && (body + rest)[|body|..] == rest;
  }

  /** Reading inverts encoding, whatever form the length takes and whatever follows. */
  lemma ReadEncoded(t: Tlv, f: Form, rest: Bytes)
    requires Allows(f, |t.body|)
    ensures Read(Encode(t, f) + rest) == Some((t, rest))
  {
    hide BigEndian, FromBigEndian, Pow256, Take;
    var d := Encode(t, f) + rest;
    var len := |t.body|;
    TakeReads(t.tag, t.body, rest);
    match f {
      case Short =>
        assert d[2..] == t.body + rest;
      case Long(n) =>
        BigEndianInverts(len, n);
        assert d[2..] == BigEndian(len, n) + (t.body + rest);
        assert d[2..][..n] == BigEndian(len, n) && d[2..][n..] == t.body + rest;
    }
  }

  /** What is read was encoded there, in some form. */
  lemma EncodedRead(d: Bytes) returns (f: Form)
    requires Read(d).Some?
    ensures var (t, rest) := Read(d).value; Allows(f, |t.body|) && d == Encode(t, f) + rest
  {
    hide BigEndian, FromBigEndian, Pow256;
    var (t, rest) := Read(d).value;
    if d[1] < 0x80 {
      f := Short;
      assert d == [d[0]] + [d[1]] + d[2..];
      assert d[2..] == t.body + rest;
    } else {
      var n := d[1] % 0x80;
      f := Long(n);
      FromBigEndianInverts(d[2..][..n]);
      assert d[1] == 0x80 + n;
      assert d[2..] == d[2..][..n] + d[2..][n..];
      assert d[2..][n..] == t.body + rest;
      assert d == [d[0]] + ([d[1]] + d[2..][..n]) + (t.body + rest);
    }
  }

  /** An element read stays the same when bytes are added behind. */
  lemma ReadIsStable(d: Bytes, more: Bytes)
    requires Read(d).Some?
    ensures Read(d + more) == Some((Read(d).value.0, Read(d).value.1 + more))
  {
    var f := EncodedRead(d);
    var (t, rest) := Read(d).value;
    hide Read, Encode;
    assert d + more == Encode(t, f) + (rest + more);
    ReadEncoded(t, f, rest + more);
  }

  lemma {:induction false} ElementsOfEncoded(ts: seq<Tlv>, fs: seq<Form>)
    requires AllAllowed(ts, fs)
    ensures Elements(EncodeAll(ts, fs)) == Some(ts)
    decreases |ts|
  {
    if ts != [] {
      hide Read, Encode, Allows;
      ReadEncoded(ts[0], fs[0], EncodeAll(ts[1..], fs[1..]));
      ElementsOfEncoded(ts[1..], fs[1..]);
      assert ts == [ts[0]] + ts[1..];
    }
  }

  lemma {:induction false} ElementsWereEncoded(d: Bytes) returns (fs: seq<Form>)
    requires Elements(d).Some?
    ensures AllAllowed(Elements(d).value, fs) && d == EncodeAll(Elements(d).value, fs)
    decreases |d|
  {
    if d == [] {
      fs := [];
    } else {
      hide Read, Encode, Allows;
      var f := EncodedRead(d);
      var (t, rest) := Read(d).value;
      var tail := ElementsWereEncoded(rest);
      fs := [f] + tail;
      EncodeAllMore(t, f, Elements(rest).value, tail);
    }
  }

  lemma EncodeAllMore(t: Tlv, f: Form, ts: seq<Tlv>, fs: seq<Form>)
    requires Allows(f, |t.body|) && AllAllowed(ts, fs)
    ensures AllAllowed([t] + ts, [f] + fs)
    ensures EncodeAll([t] + ts, [f] + fs) == Encode(t, f) + EncodeAll(ts, fs)
  {
    hide Allows, Encode;
    assert forall i :: 0 <= i < |ts| ==> ([t] + ts)[i + 1] == ts[i] && ([f] + fs)[i + 1] == fs[i];
    assert ([t] + ts)[1..] == ts && ([f] + fs)[1..] == fs;
  }

  /**
   * The elements of `d` are `ts` exactly if `d` is `ts` encoded one after the
   * other, each length in some definite form: nothing is skipped, nothing is
   * left over.
   */
  lemma ElementsIff(d: Bytes, ts: seq<Tlv>)
    ensures Elements(d) == Some(ts) <==> exists fs :: AllAllowed(ts, fs) && d == EncodeAll(ts, fs)
  {
    if Elements(d) == Some(ts) {
      var fs := ElementsWereEncoded(d);
    }
    if fs :| AllAllowed(ts, fs) && d == EncodeAll(ts, fs) {
      ElementsOfEncoded(ts, fs);
    }
  }

  /** `whole` is one element and nothing else. */
  lemma WholeIff(d: Bytes, t: Tlv)
    ensures Whole(d) == Some(t) <==> exists f :: Allows(f, |t.body|) && d == Encode(t, f)
  {
    if Whole(d) == Some(t) {
      var f := EncodedRead(d);
      assert Encode(t, f) + [] == Encode(t, f);
    }
    if f :| Allows(f, |t.body|) && d == Encode(t, f) {
      ReadEncoded(t, f, []);
      assert d + [] == d;
    }
  }

  // ---------------------------------------------------------------------
  // Object identifiers (section 8.19 of ITU-T X.690)
  // ---------------------------------------------------------------------

  const TWO64: nat := 0x1_0000_0000_0000_0000

  /** The arcs, or the point where the 64-bit subtraction would go below zero. */
  datatype OidText = Arcs(arcs: seq<nat>) | Underflow

  /** Seven more bits, in 64: the highest are shifted out. */
  function Push7(value: nat, b: byte): (v: nat)
    ensures v < TWO64
  {
    (value * 128) % TWO64 + b % 128
  }

  /** The arcs that a finished subidentifier adds: two for the first one. */
  function Arc(arcs: seq<nat>, i: nat, value: nat): OidText {
    if arcs == [] then
      var first := if i == 0 && value < 80 then value / 40 else 2;
      if value < first * 40 then Underflow else Arcs([first, value - first * 40])
    else Arcs(arcs + [value])
  }

  /** The loop of `oid_text` from octet `i` on. */
  function OidFrom(body: Bytes, i: nat, value: nat, arcs: seq<nat>): OidText
    requires i <= |body|
    decreases |body| - i
  {
    if i == |body| then Arcs(arcs)
    else
      var v := Push7(value, body[i]);
      if body[i] >= 0x80 then OidFrom(body, i + 1, v, arcs)
      else match Arc(arcs, i, v)
        case Underflow => Underflow
        case Arcs(more) => OidFrom(body, i + 1, 0, more)
  }

  /** `oid_text`, before the arcs are printed. */
  method OidArcs(body: Bytes) returns (r: OidText)
    ensures r == OidFrom(body, 0, 0, [])
  {
    hide Push7;
    var parts: seq<nat> := [];
    var value := 0;
    var i := 0;
    ghost var all := OidFrom(body, 0, 0, []);
    while i < |body|
      invariant 0 <= i <= |body|
      invariant all == OidFrom(body, i, value, parts)
    {
      var b := body[i];
      value := Push7(value, b);
      if b < 0x80 {
        if parts == [] {
          var first := if i == 0 && value < 80 then value / 40 else 2;
          if value < first * 40 {
            return Underflow;
          }
          parts := parts + [first];
          parts := parts + [value - first * 40];
          assert parts == [first, value - first * 40];
        } else {
          parts := parts + [value];
        }
        value := 0;
      }
      i := i + 1;
    }
    return Arcs(parts);
  }

  /** The octets of `n` before the last, each with its top bit set; none of the first is zero. */
  function High(n: nat): Bytes {
    if n == 0 then [] else High(n / 128) + [0x80 + n % 128]
  }

  /** A subidentifier in the fewest octets. */
  function Subidentifier(n: nat): (s: Bytes)
    ensures |s| >= 1 && s[|s| - 1] < 0x80
  {
    High(n / 128) + [n % 128]
  }

  function Subidentifiers(ns: seq<nat>): Bytes {
    if ns == [] then [] else Subidentifiers(ns[..|ns| - 1]) + Subidentifier(ns[|ns| - 1])
  }

  /** Arcs that an object identifier can have, with subidentifiers of at most 64 bits. */
  predicate GoodArcs(arcs: seq<nat>) {
    && |arcs| >= 2 && arcs[0] <= 2 && (arcs[0] < 2 ==> arcs[1] < 40)
    && arcs[0] * 40 + arcs[1] < TWO64
    && forall i :: 2 <= i < |arcs| ==> arcs[i] < TWO64
  }

  function EncodeOid(arcs: seq<nat>): Bytes
    requires |arcs| >= 2
  {
    Subidentifiers([arcs[0] * 40 + arcs[1]] + arcs[2..])
  }

  /** Seven bits pushed onto the higher ones give the number back. */
  lemma Push7Is(n: nat, b: byte)
    requires n < TWO64 && b % 128 == n % 128
    ensures Push7(n / 128, b) == n
  {
    assert n / 128 * 128 + n % 128 == n;
  }

  /** Reading the leading octets of a subidentifier. */
  lemma {:induction false} HighReads(body: Bytes, i: nat, n: nat, arcs: seq<nat>)
    requires n < TWO64 / 128 && i + |High(n)| <= |body| && body[i..i + |High(n)|] == High(n)
    ensures OidFrom(body, i, 0, arcs) == OidFrom(body, i + |High(n)|, n, arcs)
  {
    hide Push7;
    if n > 0 {
      var h := High(n / 128);
      var k := i + |h|;
      assert body[i..k] == body[i..i + |High(n)|][..|h|];
      assert High(n)[..|h|] == h;
      assert body[k] == High(n)[|h|] == 0x80 + n % 128;
      HighReads(body, i, n / 128, arcs);
      Push7Is(n, body[k]);
    }
  }

  lemma SubidentifierReads(body: Bytes, i: nat, n: nat, arcs: seq<nat>)
    requires n < TWO64 && i + |Subidentifier(n)| <= |body|
    requires body[i..i + |Subidentifier(n)|] == Subidentifier(n)
    ensures var last := i + |Subidentifier(n)| - 1;
      OidFrom(body, i, 0, arcs) == match Arc(arcs, last, n)
        case Underflow => Underflow
        case Arcs(more) => OidFrom(body, last + 1, 0, more)
  {
    hide Push7, High;
    var s := Subidentifier(n);
    var last := i + |s| - 1;
    assert body[i..last] == body[i..i + |s|][..|s| - 1];
    assert s[..|s| - 1] == High(n / 128);
    assert body[last] == s[|s| - 1];
    HighReads(body, i, n / 128, arcs);
    Push7Is(n, body[last]);
  }

  lemma HighLength(n: nat)
    ensures High(n) == [] <==> n == 0
  {
  }

  /** The first subidentifier holds two arcs, told apart as section 8.19.4 says. */
  lemma FirstArc(arcs: seq<nat>)
    requires GoodArcs(arcs)
    ensures var n := arcs[0] * 40 + arcs[1];
      Arc([], |Subidentifier(n)| - 1, n) == Arcs(arcs[..2])
  {
    var n := arcs[0] * 40 + arcs[1];
    HighLength(n / 128);
    assert arcs[..2] == [arcs[0], arcs[1]];
  }

  /** A later subidentifier is one more arc. */
  lemma NextArc(body: Bytes, i: nat, n: nat, arcs: seq<nat>)
    requires arcs != [] && n < TWO64 && i + |Subidentifier(n)| <= |body|
    requires body[i..i + |Subidentifier(n)|] == Subidentifier(n)
    ensures OidFrom(body, i, 0, arcs) == OidFrom(body, i + |Subidentifier(n)|, 0, arcs + [n])
  {
    SubidentifierReads(body, i, n, arcs);
    hide OidFrom, Subidentifier;
  }

  lemma {:induction false} SubidentifiersRead(ns: seq<nat>, arcs: seq<nat>, body: Bytes)
    requires |ns| >= 1 && |arcs| == |ns| + 1 && GoodArcs(arcs)
    requires ns == [arcs[0] * 40 + arcs[1]] + arcs[2..]
    requires Subidentifiers(ns) <= body
    ensures OidFrom(body, 0, 0, []) == OidFrom(body, |Subidentifiers(ns)|, 0, arcs)
  {
    hide Subidentifier, OidFrom, GoodArcs;
    assert |arcs| >= 2 && (forall i :: 0 <= i < |ns| ==> ns[i] < TWO64) by { GoodValues(arcs); }
    var k := |ns| - 1;
    var before, s := Subidentifiers(ns[..k]), Subidentifier(ns[k]);
    assert Subidentifiers(ns) == before + s;
    assert body[|before|..|before| + |s|] == s;
    if k == 0 {
      FirstArc(arcs);
      SubidentifierReads(body, 0, ns[0], []);
      assert arcs[..2] == arcs;
    } else {
      var front := arcs[..k + 1];
      GoodFront(arcs, k + 1);
      assert front[2..] == arcs[2..][..k - 1];
      assert ns[..k] == [arcs[0] * 40 + arcs[1]] + front[2..];
      assert ns[k] == arcs[k + 1] && front + [ns[k]] == arcs;
      assert before <= body;
      hide Subidentifiers, Arc;
      SubidentifiersRead(ns[..k], front, body);
      NextArc(body, |before|, ns[k], front);
    }
  }

  lemma GoodValues(arcs: seq<nat>)
    requires GoodArcs(arcs)
    ensures |arcs| >= 2 && arcs[0] * 40 + arcs[1] < TWO64 && forall i :: 2 <= i < |arcs| ==> arcs[i] < TWO64
  {
  }

  lemma GoodFront(arcs: seq<nat>, k: nat)
    requires GoodArcs(arcs) && 2 <= k < |arcs|
    ensures GoodArcs(arcs[..k]) && arcs[k] < TWO64
  {
  }

  /** Any arcs, encoded in the fewest octets with subidentifiers of at most 64 bits, come back exactly. */
  lemma OidRoundTrip(arcs: seq<nat>)
    requires GoodArcs(arcs)
    ensures OidFrom(EncodeOid(arcs), 0, 0, []) == Arcs(arcs)
  {
    SubidentifiersRead([arcs[0] * 40 + arcs[1]] + arcs[2..], arcs, EncodeOid(arcs));
  }

  /** The value read up to octet `i`, in 64 bits, all octets so far being continued. */
  function Gathered(body: Bytes, i: nat): nat
    requires i <= |body|
  {
    if i == 0 then 0 else Push7(Gathered(body, i - 1), body[i - 1])
  }

  /** Where the first subidentifier ends. */
  predicate FirstEnds(body: Bytes, j: nat) {
    j < |body| && body[j] < 0x80 && forall k :: 0 <= k < j ==> body[k] >= 0x80
  }

  lemma {:induction false} FirstGathers(body: Bytes, i: nat)
    requires i <= |body| && forall k :: 0 <= k < i ==> body[k] >= 0x80
    ensures OidFrom(body, 0, 0, []) == OidFrom(body, i, Gathered(body, i), [])
  {
    if i > 0 {
      FirstGathers(body, i - 1);
    }
  }

  lemma {:induction false} NoLaterUnderflow(body: Bytes, i: nat, value: nat, arcs: seq<nat>)
    requires i <= |body| && arcs != []
    ensures OidFrom(body, i, value, arcs) != Underflow
    decreases |body| - i
  {
    if i < |body| {
      var v := Push7(value, body[i]);
      if body[i] >= 0x80 {
        NoLaterUnderflow(body, i + 1, v, arcs);
      } else {
        NoLaterUnderflow(body, i + 1, 0, arcs + [v]);
      }
    }
  }

  /**
   * Exactly when the subtraction goes below zero: the first subidentifier takes
   * more than one octet, and yet its 64-bit value is below 80.
   */
  lemma UnderflowIff(body: Bytes)
    ensures OidFrom(body, 0, 0, []) == Underflow <==>
      exists j: nat :: FirstEnds(body, j) && j >= 1 && Gathered(body, j + 1) < 80
  {
    var j := FirstShort(body, 0);
    FirstGathers(body, j);
    if j < |body| {
      var v := Gathered(body, j + 1);
      assert FirstEnds(body, j);
      assert forall k: nat :: FirstEnds(body, k) ==> k == j;
      if Arc([], j, v).Arcs? {
        NoLaterUnderflow(body, j + 1, 0, Arc([], j, v).arcs);
      }
    } else {
      assert forall k: nat :: !FirstEnds(body, k);
    }
  }

  function FirstShort(body: Bytes, i: nat): (j: nat)
    requires i <= |body| && forall k :: 0 <= k < i ==> body[k] >= 0x80
    ensures i <= j <= |body| && (j < |body| ==> body[j] < 0x80)
    ensures forall k :: 0 <= k < j ==> body[k] >= 0x80
    decreases |body| - i
  {
    if i == |body| || body[i] < 0x80 then i else FirstShort(body, i + 1)
  }

  function Pow128(n: nat): (r: nat)
    ensures r > 0
  {
    if n == 0 then 1 else 128 * Pow128(n - 1)
  }

  /** Up to nine octets fit in 64 bits, and a first octet that is not padding is never lost. */
  lemma {:induction false} GatheredIsBig(body: Bytes, i: nat)
    requires 1 <= i <= |body| && i <= 9 && body[0] % 128 != 0
    ensures Pow128(i - 1) <= Gathered(body, i) < Pow128(i) < TWO64
  {
    assert Pow128(0) == 1 && Pow128(1) == 128;
    assert Pow128(3) == 0x20_0000;
    assert Pow128(5) == 0x8_0000_0000;
    assert Pow128(7) == 0x2_0000_0000_0000;
    assert Pow128(9) == 0x8000_0000_0000_0000;
    if i > 1 {
      GatheredIsBig(body, i - 1);
      var before := Gathered(body, i - 1);
      assert before * 128 < TWO64;
      assert Gathered(body, i) == before * 128 + body[i - 1] % 128;
    } else {
      assert Gathered(body, 0) == 0;
    }
  }

  /**
   * So a body never makes it go below zero if its first octet is not the padding
   * that section 8.19.2 forbids, and its first subidentifier is at most nine octets.
   */
  lemma UnpaddedNeverUnderflows(body: Bytes)
    requires body == [] || body[0] != 0x80
    requires forall j: nat :: FirstEnds(body, j) ==> j < 9
    ensures OidFrom(body, 0, 0, []) != Underflow
  {
    UnderflowIff(body);
    if j: nat :| FirstEnds(body, j) && j >= 1 {
      assert body[0] >= 0x80;
      GatheredIsBig(body, j + 1);
      assert forall k: nat :: FirstEnds(body, k) ==> k == j;
      assert Pow128(1) == 128;
      Pow128Grows(1, j);
    }
  }

  lemma {:induction false} Pow128Grows(a: nat, b: nat)
    requires a <= b
    ensures Pow128(a) <= Pow128(b)
    decreases b
  {
    if a < b {
      Pow128Grows(a, b - 1);
    }
  }

  /** Such a body: a leading 0x80 octet, which section 8.19.2 forbids. */
  lemma PaddedOidUnderflows()
    ensures OidFrom([0x80, 0x01], 0, 0, []) == Underflow
  {
    var body: Bytes := [0x80, 0x01];
    assert Push7(0, body[0]) == 0;
    assert Push7(0, body[1]) == 1;
  }

  // ---------------------------------------------------------------------
  // The size of an INTEGER
  // ---------------------------------------------------------------------

  function LeadingZeros(b: byte): (z: nat)
    ensures z <= 8
  {
    if b >= 128 then 0 else if b >= 64 then 1 else if b >= 32 then 2 else if b >= 16 then 3
    else if b >= 8 then 4 else if b >= 4 then 5 else if b >= 2 then 6 else if b >= 1 then 7 else 8
  }

  /** The first octet that is not zero, or the length. */
  function FirstNonZero(body: Bytes): (i: nat)
    ensures i <= |body| && (i < |body| ==> body[i] != 0)
    ensures forall k :: 0 <= k < i ==> body[k] == 0
  {
    if body == [] || body[0] != 0 then 0 else 1 + FirstNonZero(body[1..])
  }

  /** `integer_bits`. */
  function IntegerBits(body: Bytes): int {
    var i := FirstNonZero(body);
    if i == |body| then 0
    else
      var trimmed := body[i..];
      |trimmed| * 8 - LeadingZeros(trimmed[0])
  }

  lemma {:induction false} ZerosAreNothing(body: Bytes, i: nat)
    requires i <= |body| && forall k :: 0 <= k < i ==> body[k] == 0
    ensures FromBigEndian(body) == FromBigEndian(body[i..])
    decreases |body|
  {
    if i < |body| {
      var front := body[..|body| - 1];
      ZerosAreNothing(front, i);
      assert front[i..] == body[i..][..|body| - i - 1];
    } else if i > 0 {
      ZerosAreNothing(body[..i - 1], i - 1);
    }
  }

  lemma {:induction false} Pow2Adds(a: nat, b: nat)
    ensures Pow2(a + b) == Pow2(a) * Pow2(b)
  {
    if a > 0 {
      Pow2Adds(a - 1, b);
    }
  }

  lemma Pow2Eight(n: nat)
    ensures Pow2(n + 8) == 256 * Pow2(n)
  {
    Pow2Adds(8, n);
    assert Pow2(8) == 256 by {
      assert Pow2(4) == 16;
      Pow2Adds(4, 4);
    }
  }

  /** The bits of a byte. */
  lemma ByteBits(b: byte)
    requires b != 0
    ensures Pow2(7 - LeadingZeros(b)) <= b < Pow2(8 - LeadingZeros(b))
  {
    assert Pow2(0) == 1 && Pow2(1) == 2 && Pow2(2) == 4 && Pow2(3) == 8;
    assert Pow2(4) == 16 && Pow2(5) == 32 && Pow2(6) == 64;
    assert Pow2(7) == 128 && Pow2(8) == 256;
  }

  lemma {:induction false} TrimmedBits(t: Bytes)
    requires t != [] && t[0] != 0
    ensures |t| * 8 - LeadingZeros(t[0]) >= 1
    ensures var bits := |t| * 8 - LeadingZeros(t[0]);
      Pow2(bits - 1) <= FromBigEndian(t) < Pow2(bits)
  {
    var bits := |t| * 8 - LeadingZeros(t[0]);
    if |t| == 1 {
      assert FromBigEndian(t[..0]) == 0;
      ByteBits(t[0]);
    } else {
      var front := t[..|t| - 1];
      hide LeadingZeros;
      TrimmedBits(front);
      Pow2Eight(bits - 9);
      Pow2Eight(bits - 8);
    }
  }

  /** The size of an integer is its number of bits: the least power of two above it. */
  lemma IntegerBitsIs(body: Bytes)
    ensures var v := FromBigEndian(body);
      var bits := IntegerBits(body);
      if v == 0 then bits == 0 else bits >= 1 && Pow2(bits - 1) <= v < Pow2(bits)
  {
    hide Pow2, LeadingZeros;
    var i := FirstNonZero(body);
    ZerosAreNothing(body, i);
    if i == |body| {
      assert body[i..] == [];
    } else {
      TrimmedBits(body[i..]);
    }
  }
}
