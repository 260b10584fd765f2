/** `inspect_at`: how deep the unwrapping of PEM, hex and base64 can go. */
module InspectDepth {
  import opened Base
  import Base64
  import Hex
  import Stdin = StdinSecret

  /** What was found: whether it was recognized, and the wrappings around it, outermost first. */
  datatype Finding = Finding(recognized: bool, wraps: seq<Wrap>)

  datatype Wrap = InPem | InHex | InBase64

  /** A finding, and the greatest depth `inspect_at` was called with on the way to it. */
  datatype Told = Told(found: Finding, deepest: nat)

  /**
   * The recognizers that do not unwrap, and the text primitives of the
   * standard library: nothing is assumed of them but that trimming does not
   * make text longer.
   */
  datatype World = World(
    binary: Bytes -> Option<Finding>,
    isText: Bytes -> bool,
    trim: Bytes -> Bytes,
    password: Bytes -> Option<Finding>,
    armor: Bytes -> Option<Finding>,
    special: (Bytes, Bytes) -> Option<Finding>,
    textual: Bytes -> Option<Finding>,
    byLength: Bytes -> Option<Finding>)

  ghost predicate Trims(w: World) {
    forall t :: |w.trim(t)| <= |t|
  }

  // ---------------------------------------------------------------------
  // Text
  // ---------------------------------------------------------------------

  // "-----BEGIN ", "-----", "-----END", "PGP "
  const BEGIN: Bytes := [0x2d, 0x2d, 0x2d, 0x2d, 0x2d, 0x42, 0x45, 0x47, 0x49, 0x4e, 0x20]
  const DASHES: Bytes := [0x2d, 0x2d, 0x2d, 0x2d, 0x2d]
  const END: Bytes := [0x2d, 0x2d, 0x2d, 0x2d, 0x2d, 0x45, 0x4e, 0x44]
  const PGP: Bytes := [0x50, 0x47, 0x50, 0x20]

  // "OPENSSH PRIVATE KEY", "SSH SIGNATURE", "RSA PUBLIC KEY"
  const OPENSSH: Bytes := [0x4f, 0x50, 0x45, 0x4e, 0x53, 0x53, 0x48, 0x20, 0x50, 0x52, 0x49, 0x56, 0x41, 0x54, 0x45,
                           0x20, 0x4b, 0x45, 0x59]
  const SSHSIG: Bytes := [0x53, 0x53, 0x48, 0x20, 0x53, 0x49, 0x47, 0x4e, 0x41, 0x54, 0x55, 0x52, 0x45]
  const RSAPUB: Bytes := [0x52, 0x53, 0x41, 0x20, 0x50, 0x55, 0x42, 0x4c, 0x49, 0x43, 0x20, 0x4b, 0x45, 0x59]

  /** `t` up to the first `sep`, or all of it. */
  function UpTo(t: Bytes, sep: Bytes): Bytes {
    if t == [] || sep <= t then [] else [t[0]] + UpTo(t[1..], sep)
  }

  /** A line without its carriage return. */
  function Chomped(line: Bytes): (l: Bytes)
    ensures |l| <= |line|
  {
    if line != [] && line[|line| - 1] == 0x0d then line[..|line| - 1] else line
  }

  /** `lines()`: cut at line feeds; what follows the last one is a line if it is not empty. */
  function Lines(t: Bytes, line: Bytes): seq<Bytes>
    decreases |t|
  {
    if t == [] then (if line == [] then [] else [line])
    else if t[0] == 0x0a then [Chomped(line)] + Lines(t[1..], [])
    else Lines(t[1..], line + [t[0]])
  }

  function BeforeEnd(ls: seq<Bytes>): seq<Bytes> {
    if ls == [] || END <= ls[0] then [] else [ls[0]] + BeforeEnd(ls[1..])
  }

  /** The lines without a colon, trimmed, in one. */
  function Joined(w: World, ls: seq<Bytes>): Bytes {
    if ls == [] then []
    else (if 0x3a in ls[0] then [] else w.trim(ls[0])) + Joined(w, ls[1..])
  }

  /** The base64 body of a PEM block: after the first line, before the end line. */
  function Body(w: World, text: Bytes): Bytes {
    var ls := Lines(text, []);
    if ls == [] then [] else Joined(w, BeforeEnd(ls[1..]))
  }

  function Total(ls: seq<Bytes>): nat {
    if ls == [] then 0 else |ls[0]| + Total(ls[1..])
  }

  lemma {:induction false} LinesTotal(t: Bytes, line: Bytes)
    ensures Total(Lines(t, line)) <= |t| + |line|
    decreases |t|
  {
    if t != [] {
      if t[0] == 0x0a {
        LinesTotal(t[1..], []);
        assert ([Chomped(line)] + Lines(t[1..], []))[1..] == Lines(t[1..], []);
      } else {
        LinesTotal(t[1..], line + [t[0]]);
      }
    } else if line != [] {
      assert [line][1..] == [];
    }
  }

  lemma {:induction false} BeforeEndTotal(ls: seq<Bytes>)
    ensures Total(BeforeEnd(ls)) <= Total(ls)
  {
    if ls != [] && !(END <= ls[0]) {
      BeforeEndTotal(ls[1..]);
      assert ([ls[0]] + BeforeEnd(ls[1..]))[1..] == BeforeEnd(ls[1..]);
    }
  }

  lemma {:induction false} JoinedTotal(w: World, ls: seq<Bytes>)
    requires Trims(w)
    ensures |Joined(w, ls)| <= Total(ls)
  {
    if ls != [] {
      JoinedTotal(w, ls[1..]);
      assert |w.trim(ls[0])| <= |ls[0]|;
    }
  }

  /** The body is no longer than the text it is in. */
  lemma BodyIsShorter(w: World, text: Bytes)
    requires Trims(w)
    ensures |Body(w, text)| <= |text|
  {
    LinesTotal(text, []);
    var ls := Lines(text, []);
    if ls != [] {
      BeforeEndTotal(ls[1..]);
      JoinedTotal(w, BeforeEnd(ls[1..]));
    }
  }

  // ---------------------------------------------------------------------
  // The recursion
  // ---------------------------------------------------------------------

  function Max(a: nat, b: nat): nat {
    if a > b then a else b
  }

  function Wrapped(f: Finding, how: Wrap): Finding {
    f.(wraps := [how] + f.wraps)
  }

  function Or(first: Option<Finding>, second: Option<Finding>): Option<Finding> {
    if first.Some? then first else second
  }

  /** `inspect_at`. */
  ghost function InspectAt(w: World, input: Bytes, depth: nat): Told
    requires Trims(w)
    decreases |input|, 2
  {
    if w.binary(input).Some? then Told(w.binary(input).value, depth)
    else
      var fallback := if w.byLength(input).Some? then w.byLength(input).value else Finding(false, []);
      if !w.isText(input) then Told(fallback, depth)
      else
        var text := w.trim(input);
        if w.password(text).Some? then Told(w.password(text).value, depth)
        else
          var (inPem, deep) := Pem(w, text, depth);
          var found := Or(inPem, w.textual(text));
          if found.Some? then Told(found.value, deep)
          else if depth < 2 then
            var (inside, deeper) := Unwrapped(w, text, depth);
            Told(if inside.Some? then inside.value else fallback, Max(deep, deeper))
          else Told(fallback, deep)
  }

  /** `pem`, and how deep it went. It has no guard on the depth. */
  ghost function Pem(w: World, text: Bytes, depth: nat): (Option<Finding>, nat)
    requires Trims(w)
    decreases |text|, 1
  {
    if !(BEGIN <= text) then (None, depth)
    else
      var kind := UpTo(text[|BEGIN|..], DASHES);
      if PGP <= kind then (w.armor(text), depth)
      else
        BodyIsShorter(w, text);
        var plain := Finding(true, []);
        match Base64.Decoded(Body(w, text))
        case Err(_) => (Some(Wrapped(plain, InPem)), depth)
        case Ok(b) =>
          if kind in [OPENSSH, SSHSIG, RSAPUB] then
            (Some(Wrapped(if w.special(kind, b).Some? then w.special(kind, b).value else plain, InPem)), depth)
          else
            Base64.DecodedLength(Body(w, text));
            var inner := InspectAt(w, b, depth + 1);
            (Some(Wrapped(if inner.found.recognized then inner.found else plain, InPem)), Max(depth, inner.deepest))
  }

  predicate HexDigit(c: byte) {
    0x30 <= c <= 0x39 || 0x41 <= c <= 0x46 || 0x61 <= c <= 0x66
  }

  function Lower(t: Bytes): (l: Bytes)
    ensures |l| == |t|
  {
    seq(|t|, i requires 0 <= i < |t| => if 0x41 <= t[i] <= 0x5a then t[i] + 0x20 else t[i])
  }

  /** `unwrapped`, and how deep it went. */
  ghost function Unwrapped(w: World, text: Bytes, depth: nat): (Option<Finding>, nat)
    requires Trims(w)
    decreases |text|, 1
  {
    if |text| >= 2 && (forall i :: 0 <= i < |text| ==> HexDigit(text[i])) && Hex.Decoded(Lower(text)).Ok? then
      Hex.DecodedLength(Lower(text));
      var inner := InspectAt(w, Hex.Decoded(Lower(text)).value, depth + 1);
      (Some(Wrapped(inner.found, InHex)), Max(depth, inner.deepest))
    else if |text| >= 8 && Base64.Decoded(text).Ok? then
      Base64.DecodedLength(text);
      var inner := InspectAt(w, Base64.Decoded(text).value, depth + 1);
      (if inner.found.recognized then Some(Wrapped(inner.found, InBase64)) else None, Max(depth, inner.deepest))
    else (None, depth)
  }

  // ---------------------------------------------------------------------
  // What it finds
  // ---------------------------------------------------------------------

  /** `c` is the hex digit of `v`, small or capital. */
  predicate DigitOf(c: byte, v: nat) {
    if v < 10 then c == 0x30 + v else c == 0x61 + (v - 10) || c == 0x41 + (v - 10)
  }

  /** `text` spells `b` in hex: two digits a byte, the high one first, in either case of letters. */
  predicate IsHexOf(text: Bytes, b: Bytes) {
    |b| >= 1 && |text| == 2 * |b|
    && forall i :: 0 <= i < |b| ==> DigitOf(text[2 * i], b[i] / 16) && DigitOf(text[2 * i + 1], b[i] % 16)
  }

  lemma LowerDigit(c: byte, v: nat)
    requires v < 16
    ensures HexDigit(c) && Lower([c]) == [Hex.Digit(v)] <==> DigitOf(c, v)
  {
    assert Lower([c])[0] == if 0x41 <= c <= 0x5a then c + 0x20 else c;
  }

  lemma {:induction false} EncodedAt(b: Bytes, i: nat)
    requires i < |b|
    ensures |Hex.Encoded(b)| == 2 * |b|
    ensures Hex.Encoded(b)[2 * i] == Hex.Digit(b[i] / 16) && Hex.Encoded(b)[2 * i + 1] == Hex.Digit(b[i] % 16)
  {
    Hex.EncodedLength(b);
    var front := b[..|b| - 1];
    Hex.EncodedLength(front);
    if i < |b| - 1 {
      EncodedAt(front, i);
    }
  }

  /** The check and the lower casing before the decoder accept exactly hex in either case. */
  lemma LowerIsHex(text: Bytes, b: Bytes)
    ensures |text| >= 2 && (forall i :: 0 <= i < |text| ==> HexDigit(text[i])) && Lower(text) == Hex.Encoded(b)
      <==> IsHexOf(text, b)
  {
    Hex.EncodedLength(b);
    var l, e := Lower(text), Hex.Encoded(b);
    if |text| == 2 * |b| {
      forall i | 0 <= i < |b|
        ensures e[2 * i] == Hex.Digit(b[i] / 16) && e[2 * i + 1] == Hex.Digit(b[i] % 16)
        ensures HexDigit(text[2 * i]) && l[2 * i] == Hex.Digit(b[i] / 16) <==> DigitOf(text[2 * i], b[i] / 16)
        ensures HexDigit(text[2 * i + 1]) && l[2 * i + 1] == Hex.Digit(b[i] % 16) <==>
          DigitOf(text[2 * i + 1], b[i] % 16)
      {
        EncodedAt(b, i);
        LowerDigit(text[2 * i], b[i] / 16);
        LowerDigit(text[2 * i + 1], b[i] % 16);
      }
      hide HexDigit, DigitOf, Hex.Digit, Lower;
      if IsHexOf(text, b) {
        forall j | 0 <= j < |text| ensures HexDigit(text[j]) && l[j] == e[j] {
          var i := j / 2;
          assert DigitOf(text[2 * i], b[i] / 16) && DigitOf(text[2 * i + 1], b[i] % 16);
          assert j == 2 * i || j == 2 * i + 1;
        }
      }
    }
  }

  /** `text` spells `b` in base64, and is long enough to be taken for it. */
  predicate IsBase64Of(text: Bytes, b: Bytes) {
    |text| >= 8 && text == Base64.Padded(b)
  }

  /** The hex decoder is asked, and answers, exactly if the text spells bytes in hex; and then with them. */
  lemma HexTaken(text: Bytes, b: Bytes)
    ensures var asked := |text| >= 2 && (forall i :: 0 <= i < |text| ==> HexDigit(text[i]));
      && (asked && Hex.Decoded(Lower(text)) == Ok(b) <==> IsHexOf(text, b))
      && (asked && Hex.Decoded(Lower(text)).Ok? ==> IsHexOf(text, Hex.Decoded(Lower(text)).value))
  {
    hide Hex.Decoded, IsHexOf, HexDigit, Lower;
    LowerIsHex(text, b);
    Hex.DecodeIff(Lower(text), b);
    if Hex.Decoded(Lower(text)).Ok? {
      var x := Hex.Decoded(Lower(text)).value;
      Hex.DecodeIff(Lower(text), x);
      LowerIsHex(text, x);
    }
  }

  lemma Base64Taken(text: Bytes, b: Bytes)
    ensures (|text| >= 8 && Base64.Decoded(text) == Ok(b)) <==> IsBase64Of(text, b)
    ensures |text| >= 8 && Base64.Decoded(text).Ok? ==> IsBase64Of(text, Base64.Decoded(text).value)
  {
    hide Base64.Decoded;
    Base64.DecodeIff(text, b);
    if Base64.Decoded(text).Ok? { Base64.DecodeIff(text, Base64.Decoded(text).value); }
  }

  /**
   * Text that spells bytes in hex is told as what they are, recognized or not; text
   * that does not, but spells bytes in base64, is told as what they are if that is
   * recognized; and any other text is not unwrapped.
   */
  lemma UnwrappedIs(w: World, text: Bytes, depth: nat, b: Bytes)
    requires Trims(w)
    ensures IsHexOf(text, b) ==>
      Unwrapped(w, text, depth).0 == Some(Wrapped(InspectAt(w, b, depth + 1).found, InHex))
    ensures (forall x :: !IsHexOf(text, x)) && IsBase64Of(text, b) ==>
      Unwrapped(w, text, depth).0 ==
        if InspectAt(w, b, depth + 1).found.recognized then Some(Wrapped(InspectAt(w, b, depth + 1).found, InBase64))
        else None
    ensures (forall x :: !IsHexOf(text, x)) && (forall x :: !IsBase64Of(text, x)) ==>
      Unwrapped(w, text, depth).0 == None
  {
    hide InspectAt, Hex.Decoded, Base64.Decoded, IsHexOf, IsBase64Of, HexDigit, Lower;
    HexTaken(text, b);
    Base64Taken(text, b);
  }

  /**
   * A PEM block whose body spells bytes is told as what they are, told by its label if
   * that names a format of its own, and as a block of its label if they are not
   * recognized or its body spells nothing. A PGP block is told by its armor.
   */
  lemma PemIs(w: World, kind: Bytes, rest: Bytes, depth: nat, b: Bytes)
    requires Trims(w) && DashFree(kind)
    ensures var text := BEGIN + kind + DASHES + rest;
      var r := Pem(w, text, depth).0;
      && (PGP <= kind ==> r == w.armor(text))
      && (!(PGP <= kind) && (forall x :: Body(w, text) != Base64.Padded(x)) ==>
            r == Some(Wrapped(Finding(true, []), InPem)))
      && (!(PGP <= kind) && Body(w, text) == Base64.Padded(b) ==>
            r == Some(Wrapped(
              if kind in [OPENSSH, SSHSIG, RSAPUB] then
                if w.special(kind, b).Some? then w.special(kind, b).value else Finding(true, [])
              else if InspectAt(w, b, depth + 1).found.recognized then InspectAt(w, b, depth + 1).found
              else Finding(true, []), InPem)))
    ensures forall text :: !(BEGIN <= text) ==> Pem(w, text, depth).0 == None
  {
    var text := BEGIN + kind + DASHES + rest;
    assert text[|BEGIN|..] == kind + (DASHES + rest);
    LabelIs(kind, rest);
    hide InspectAt, Base64.Decoded, Body, UpTo;
    Base64.DecodeIff(Body(w, text), b);
    if Base64.Decoded(Body(w, text)).Ok? {
      Base64.DecodeIff(Body(w, text), Base64.Decoded(Body(w, text)).value);
    }
  }

  /** A label has no dash in it. */
  predicate DashFree(kind: Bytes) {
    0x2d !in kind
  }

  lemma {:induction false} LabelIs(kind: Bytes, rest: Bytes)
    requires DashFree(kind)
    ensures UpTo(kind + (DASHES + rest), DASHES) == kind
  {
    var t := kind + (DASHES + rest);
    if kind == [] {
      assert t == DASHES + rest;
    } else {
      assert t[0] == kind[0] && kind[0] in kind;
      assert t[1..] == kind[1..] + (DASHES + rest);
      LabelIs(kind[1..], rest);
    }
  }

  /** The first finding there is, as `find_map` and `or_else` give it. */
  function First(found: seq<Option<Finding>>, otherwise: Finding): Finding {
    if found == [] then otherwise
    else if found[0].Some? then found[0].value
    else First(found[1..], otherwise)
  }

  /**
   * The order in which the recognizers are asked: the formats told from bytes; of text,
   * the password hash, PEM, the formats told from text, and, less than two wrappings
   * deep, what the text unwraps to; then what only the length tells.
   */
  lemma AskedInOrder(w: World, input: Bytes, depth: nat)
    requires Trims(w)
    ensures var t := w.trim(input);
      var ofText := [w.password(t), Pem(w, t, depth).0, w.textual(t)];
      var unwrapped := if depth < 2 then [Unwrapped(w, t, depth).0] else [];
      InspectAt(w, input, depth).found ==
        First([w.binary(input)] + (if w.isText(input) then ofText + unwrapped else []) + [w.byLength(input)],
              Finding(false, []))
  {
    var t := w.trim(input);
    var pem, un := Pem(w, t, depth).0, Unwrapped(w, t, depth).0;
    hide Pem, Unwrapped;
    var none := Finding(false, []);
    var last := [w.byLength(input)];
    AskNext(w.byLength(input), [], none);
    AskNext(un, last, none);
    AskNext(w.textual(t), last, none);
    AskNext(w.textual(t), [un] + last, none);
    AskNext(pem, [w.textual(t)] + last, none);
    AskNext(pem, [w.textual(t)] + ([un] + last), none);
    AskNext(w.password(t), [pem] + ([w.textual(t)] + last), none);
    AskNext(w.password(t), [pem] + ([w.textual(t)] + ([un] + last)), none);
    AskNext(w.binary(input), last, none);
    AskNext(w.binary(input), [w.password(t)] + ([pem] + ([w.textual(t)] + last)), none);
    AskNext(w.binary(input), [w.password(t)] + ([pem] + ([w.textual(t)] + ([un] + last))), none);
    hide First;
    assert [w.binary(input)] + [] + last == [w.binary(input)] + last && last + [] == last;
    assert [w.binary(input)] + ([w.password(t), pem, w.textual(t)] + []) + last
      == [w.binary(input)] + ([w.password(t)] + ([pem] + ([w.textual(t)] + last)));
    assert [w.binary(input)] + ([w.password(t), pem, w.textual(t)] + [un]) + last
      == [w.binary(input)] + ([w.password(t)] + ([pem] + ([w.textual(t)] + ([un] + last))));
    assert [w.byLength(input)] + [] == last;
  }

  lemma AskNext(f: Option<Finding>, rest: seq<Option<Finding>>, otherwise: Finding)
    ensures First([f] + rest, otherwise) == if f.Some? then f.value else First(rest, otherwise)
    ensures First([], otherwise) == otherwise
  {
    assert ([f] + rest)[1..] == rest;
  }

  // ---------------------------------------------------------------------
  // The body of a PEM block
  // ---------------------------------------------------------------------

  /** A line can be written with a line feed behind it, or with a carriage return and a line feed. */
  predicate PlainLine(l: Bytes) {
    0x0a !in l && (l == [] || l[|l| - 1] != 0x0d)
  }

  function Written(l: Bytes, cr: bool): Bytes {
    l + (if cr then [0x0d, 0x0a] else [0x0a])
  }

  function AllWritten(ls: seq<Bytes>, crs: seq<bool>): Bytes
    requires |crs| == |ls|
  {
    if ls == [] then [] else Written(ls[0], crs[0]) + AllWritten(ls[1..], crs[1..])
  }

  lemma {:induction false} LineEnds(l: Bytes, rest: Bytes, line: Bytes)
    requires 0x0a !in l
    ensures Lines(l + [0x0a] + rest, line) == [Chomped(line + l)] + Lines(rest, [])
    decreases |l|
  {
    var t := l + [0x0a] + rest;
    if l == [] {
      assert t[1..] == rest && line + l == line;
    } else {
      assert t[0] == l[0] && t[0] in l;
      assert t[1..] == l[1..] + [0x0a] + rest;
      LineEnds(l[1..], rest, line + [l[0]]);
      assert line + [l[0]] + l[1..] == line + l;
    }
  }

  lemma LineComesBack(l: Bytes, cr: bool, tail: Bytes)
    requires PlainLine(l)
    ensures Lines(Written(l, cr) + tail, []) == [l] + Lines(tail, [])
  {
    var body := if cr then l + [0x0d] else l;
    assert Written(l, cr) == body + [0x0a];
    LineEnds(body, tail, []);
    assert [] + body == body;
    assert Chomped(body) == l;
  }

  lemma {:induction false} LastLine(l: Bytes, line: Bytes)
    requires 0x0a !in l
    ensures Lines(l, line) == if line + l == [] then [] else [line + l]
    decreases |l|
  {
    if l == [] {
      assert line + l == line;
    } else {
      assert l[0] in l;
      LastLine(l[1..], line + [l[0]]);
      assert line + [l[0]] + l[1..] == line + l;
    }
  }

  /**
   * Lines come back as they were written, with either ending, whatever follows; a last
   * line that is not ended is a line too.
   */
  lemma {:induction false} LinesComeBack(ls: seq<Bytes>, crs: seq<bool>, rest: Bytes)
    requires |crs| == |ls| && forall i :: 0 <= i < |ls| ==> PlainLine(ls[i])
    ensures Lines(AllWritten(ls, crs) + rest, []) == ls + Lines(rest, [])
    ensures 0x0a !in rest ==> Lines(rest, []) == if rest == [] then [] else [rest]
  {
    hide Lines, Written, PlainLine;
    if 0x0a !in rest {
      LastLine(rest, []);
      assert [] + rest == rest;
    }
    if ls == [] {
      assert AllWritten(ls, crs) + rest == rest;
      assert ls + Lines(rest, []) == Lines(rest, []);
    } else {
      var more := AllWritten(ls[1..], crs[1..]);
      assert PlainLine(ls[0]);
      assert AllWritten(ls, crs) + rest == Written(ls[0], crs[0]) + (more + rest);
      LineComesBack(ls[0], crs[0], more + rest);
      LinesComeBack(ls[1..], crs[1..], rest);
      assert ls + Lines(rest, []) == [ls[0]] + (ls[1..] + Lines(rest, []));
    }
  }

  function Flat(w: World, ls: seq<Bytes>): Bytes {
    if ls == [] then [] else w.trim(ls[0]) + Flat(w, ls[1..])
  }

  predicate StartsBlock(ls: seq<Bytes>, headers: nat) {
    && headers <= |ls|
    && (forall i :: 0 <= i < |ls| ==> !(END <= ls[i]))
    && (forall i :: 0 <= i < headers ==> 0x3a in ls[i])
    && (forall i :: headers <= i < |ls| ==> 0x3a !in ls[i])
  }

  lemma {:induction false} JoinedIs(w: World, ls: seq<Bytes>, headers: nat)
    requires StartsBlock(ls, headers)
    ensures Joined(w, ls) == Flat(w, ls[headers..])
    decreases |ls|
  {
    if ls == [] {
      assert ls[headers..] == [];
    } else if headers > 0 {
      JoinedIs(w, ls[1..], headers - 1);
      assert ls[1..][headers - 1..] == ls[headers..];
      assert [] + Joined(w, ls[1..]) == Joined(w, ls[1..]);
    } else {
      JoinedIs(w, ls[1..], 0);
      assert ls[0..] == ls && ls[1..][0..] == ls[1..];
    }
  }

  lemma {:induction false} BeforeEndIs(ls: seq<Bytes>, end: Bytes, more: seq<Bytes>)
    requires END <= end && forall i :: 0 <= i < |ls| ==> !(END <= ls[i])
    ensures BeforeEnd(ls + ([end] + more)) == ls
  {
    var all := ls + ([end] + more);
    if ls == [] {
      assert all[0] == end;
    } else {
      assert all[0] == ls[0] && all[1..] == ls[1..] + ([end] + more);
      BeforeEndIs(ls[1..], end, more);
    }
  }

  /**
   * Of a block as it is written, a first line, headers with a colon, lines without, and
   * an end line, with either line ending and anything behind it: the body is the lines,
   * trimmed, in order, without the headers.
   */
  lemma PemBodyIs(w: World, first: Bytes, ls: seq<Bytes>, headers: nat, end: Bytes, crs: seq<bool>, rest: Bytes)
    requires PlainLine(first) && PlainLine(end) && (forall i :: 0 <= i < |ls| ==> PlainLine(ls[i]))
    requires StartsBlock(ls, headers) && END <= end && |crs| == |ls| + 2
    ensures Body(w, AllWritten([first] + ls + [end], crs) + rest) == Flat(w, ls[headers..])
  {
    var all := [first] + ls + [end];
    LinesComeBack(all, crs, rest);
    var more := Lines(rest, []);
    assert (all + more)[1..] == ls + ([end] + more);
    hide Lines, AllWritten, PlainLine;
    BeforeEndIs(ls, end, more);
    JoinedIs(w, ls, headers);
  }

  // ---------------------------------------------------------------------
  // How deep it goes
  // ---------------------------------------------------------------------

  /** The most bytes there can be at a depth: three quarters are left each time. */
  function Room(depth: nat): real {
    if depth == 0 then Stdin.MAX_STDIN as real else Room(depth - 1) * 0.75
  }

  const DEEPEST: nat := 63

  /** Eight times three quarters is 6561 in 65536. */
  lemma EightDeeper(depth: nat)
    ensures Room(depth + 8) == Room(depth) * 6561.0 / 65536.0
  {
    assert Room(depth + 1) == Room(depth) * 0.75;
    assert Room(depth + 2) == Room(depth + 1) * 0.75;
    assert Room(depth + 3) == Room(depth + 2) * 0.75;
    assert Room(depth + 4) == Room(depth + 3) * 0.75;
    assert Room(depth + 5) == Room(depth + 4) * 0.75;
    assert Room(depth + 6) == Room(depth + 5) * 0.75;
    assert Room(depth + 7) == Room(depth + 6) * 0.75;
  }

  lemma OneDeeper(depth: nat)
    ensures Room(depth + 1) == Room(depth) * 0.75
    ensures depth == 0 ==> Room(depth) == Stdin.MAX_STDIN as real
  {
  }

  /** At the deepest, there is room for less than one byte. */
  lemma RoomRunsOut(depth: nat)
    requires depth == DEEPEST
    ensures Room(depth) < 1.0
  {
    hide Room;
    var top := depth - DEEPEST;
    OneDeeper(top);
    EightDeeper(top);
    EightDeeper(top + 8);
    EightDeeper(top + 16);
    EightDeeper(top + 24);
    EightDeeper(top + 32);
    EightDeeper(top + 40);
    EightDeeper(top + 48);
    OneDeeper(top + 56);
    OneDeeper(top + 57);
    OneDeeper(top + 58);
    OneDeeper(top + 59);
    OneDeeper(top + 60);
    OneDeeper(top + 61);
    OneDeeper(top + 62);
  }

  /** The depth told is that of the deepest call: no call on the way is left out. */
  lemma DeepestIsReached(w: World, text: Bytes, depth: nat, b: Bytes)
    requires Trims(w)
    ensures Pem(w, text, depth).1 >= depth && Unwrapped(w, text, depth).1 >= depth
    ensures
      (&& BEGIN <= text && !(PGP <= UpTo(text[|BEGIN|..], DASHES))
       && UpTo(text[|BEGIN|..], DASHES) !in [OPENSSH, SSHSIG, RSAPUB] && Base64.Decoded(Body(w, text)) == Ok(b)) ==>
      Pem(w, text, depth).1 >= InspectAt(w, b, depth + 1).deepest
    ensures IsHexOf(text, b) ==> Unwrapped(w, text, depth).1 >= InspectAt(w, b, depth + 1).deepest
    ensures (forall x :: !IsHexOf(text, x)) && IsBase64Of(text, b) ==>
      Unwrapped(w, text, depth).1 >= InspectAt(w, b, depth + 1).deepest
  {
    hide InspectAt, Hex.Decoded, Base64.Decoded, IsHexOf, IsBase64Of, HexDigit, Lower;
    HexTaken(text, b);
    Base64Taken(text, b);
  }

  lemma DeepestCovers(w: World, input: Bytes, depth: nat)
    requires Trims(w)
    ensures var t := w.trim(input);
      && InspectAt(w, input, depth).deepest >= depth
      && (w.binary(input).None? && w.isText(input) && w.password(t).None? ==>
            && InspectAt(w, input, depth).deepest >= Pem(w, t, depth).1
            && (Pem(w, t, depth).0.None? && w.textual(t).None? && depth < 2 ==>
                  InspectAt(w, input, depth).deepest >= Unwrapped(w, t, depth).1))
  {
    DeepestIsReached(w, w.trim(input), depth, []);
    hide Pem, Unwrapped;
  }

  /** From an input that fits its depth, no call is deeper than `DEEPEST`. */
  lemma {:induction false} StaysAbove(w: World, input: Bytes, depth: nat)
    requires Trims(w) && depth <= DEEPEST && |input| as real <= Room(depth)
    ensures InspectAt(w, input, depth).deepest <= DEEPEST
    decreases |input|, 2
  {
    var text := w.trim(input);
    PemStaysAbove(w, text, depth);
    if depth < 2 {
      UnwrappedStaysAbove(w, text, depth);
    }
    hide Pem, Unwrapped, Room;
  }

  lemma NextFits(from: nat, to: nat, depth: nat)
    requires 4 * to <= 3 * from && 0 < from && from as real <= Room(depth) && depth <= DEEPEST
    ensures depth < DEEPEST && to as real <= Room(depth + 1) && to < from
  {
    hide Room;
    RoomRunsOut(DEEPEST);
    OneDeeper(depth);
    assert 4.0 * to as real <= 3.0 * from as real;
  }

  lemma {:induction false} PemStaysAbove(w: World, text: Bytes, depth: nat)
    requires Trims(w) && depth <= DEEPEST && |text| as real <= Room(depth)
    ensures Pem(w, text, depth).1 <= DEEPEST
    decreases |text|, 1
  {
    hide Room, Base64.Decoded, InspectAt, Body;
    if BEGIN <= text && Base64.Decoded(Body(w, text)).Ok? {
      BodyIsShorter(w, text);
      Base64.DecodedLength(Body(w, text));
      var b := Base64.Decoded(Body(w, text)).value;
      NextFits(|text|, |b|, depth);
      StaysAbove(w, b, depth + 1);
    }
  }

  lemma {:induction false} UnwrappedStaysAbove(w: World, text: Bytes, depth: nat)
    requires Trims(w) && depth <= DEEPEST && |text| as real <= Room(depth)
    ensures Unwrapped(w, text, depth).1 <= DEEPEST
    decreases |text|, 1
  {
    hide Room, Base64.Decoded, Hex.Decoded, InspectAt;
    if |text| >= 2 && Hex.Decoded(Lower(text)).Ok? {
      Hex.DecodedLength(Lower(text));
      var b := Hex.Decoded(Lower(text)).value;
      NextFits(|text|, |b|, depth);
      StaysAbove(w, b, depth + 1);
    }
    if |text| >= 8 && Base64.Decoded(text).Ok? {
      Base64.DecodedLength(text);
      var b := Base64.Decoded(text).value;
      NextFits(|text|, |b|, depth);
      StaysAbove(w, b, depth + 1);
    }
  }

  /**
   * For every input that stdin may hold, no `depth + 1` leaves a byte: the
   * recursion, which ends on every input, stays below depth 64 though the PEM
   * path has no guard.
   */
  lemma DepthFitsAByte(w: World, input: Bytes)
    requires Trims(w) && |input| <= Stdin.MAX_STDIN
    ensures InspectAt(w, input, 0).deepest < 64
  {
    hide InspectAt;
    StaysAbove(w, input, 0);
  }

  /** Hex and base64 by themselves are unwrapped twice at most, on any input. */
  lemma UnwrapsTwice(w: World, input: Bytes, depth: nat)
    requires Trims(w) && depth >= 2
    requires !(BEGIN <= w.trim(input))
    ensures InspectAt(w, input, depth).deepest == depth
  {
  }
}
