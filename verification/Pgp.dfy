/** `packets`: OpenPGP packet framing (section 4.2 of RFC 9580), old and new. */
module Pgp {
  import opened Base

  /** A packet; `body` is absent for a body of partial or indeterminate length. */
  datatype Packet = Packet(tag: byte, body: Option<Bytes>, head: Bytes)

  // ---------------------------------------------------------------------
  // The framing, stated without parsing
  // ---------------------------------------------------------------------

  /** The definite length forms: new with 1, 2 and 5 octets, old with 1, 2 and 4. */
  datatype Form = New1 | New2 | New5 | Old1 | Old2 | Old4

  predicate IsNew(f: Form) {
    f.New1? || f.New2? || f.New5?
  }

  predicate Allows(f: Form, tag: byte, len: nat) {
    && 0 < tag < (if IsNew(f) then 64 else 16)
    && match f
       case New1 => len < 192
       case New2 => 192 <= len < 8384
       case New5 => len < Pow256(4)
       case Old1 => len < Pow256(1)
       case Old2 => len < Pow256(2)
       case Old4 => len < Pow256(4)
  }

  function EncodeHeader(f: Form, tag: byte, len: nat): Bytes
    requires Allows(f, tag, len)
  {
    match f
    case New1 => [0xc0 + tag, len]
    case New2 => [0xc0 + tag, (len - 192) / 256 + 192, (len - 192) % 256]
    case New5 => [0xc0 + tag, 255] + BigEndian(len, 4)
    case Old1 => [0x80 + tag * 4] + BigEndian(len, 1)
    case Old2 => [0x80 + tag * 4 + 1] + BigEndian(len, 2)
    case Old4 => [0x80 + tag * 4 + 2] + BigEndian(len, 4)
  }

  predicate Definite(p: Packet) {
    p.body == Some(p.head)
  }

  predicate Fits(p: Packet, f: Form) {
    Definite(p) && Allows(f, p.tag, |p.head|)
  }

  function Encode(p: Packet, f: Form): Bytes
    requires Fits(p, f)
  {
    EncodeHeader(f, p.tag, |p.head|) + p.head
  }

  predicate AllFit(ps: seq<Packet>, fs: seq<Form>) {
    |ps| == |fs| && forall i :: 0 <= i < |ps| ==> Fits(ps[i], fs[i])
  }

  function EncodeAll(ps: seq<Packet>, fs: seq<Form>): Bytes
    requires AllFit(ps, fs)
    decreases |ps|
  {
    if ps == [] then [] else Encode(ps[0], fs[0]) + EncodeAll(ps[1..], fs[1..])
  }

  /** What may come after the definite packets: nothing, or one body without a stated length. */
  datatype Tail = NoTail | Partial(tag: byte, first: byte, head: Bytes) | Indeterminate(tag: byte, head: Bytes)

  predicate GoodTail(t: Tail) {
    match t
    case NoTail => true
    case Partial(tag, first, _) => 0 < tag < 64 && 224 <= first < 255
    case Indeterminate(tag, _) => 0 < tag < 16
  }

  function EncodeTail(t: Tail): Bytes
    requires GoodTail(t)
  {
    match t
    case NoTail => []
    case Partial(tag, first, head) => [0xc0 + tag, first] + head
    case Indeterminate(tag, head) => [0x80 + tag * 4 + 3] + head
  }

  function TailPackets(t: Tail): seq<Packet> {
    match t
    case NoTail => []
    case Partial(tag, _, head) => [Packet(tag, None, head)]
    case Indeterminate(tag, head) => [Packet(tag, None, head)]
  }

  /** A packet that holds an encrypted session key. */
  predicate IsKey(p: Packet) {
    p.tag == 1 || p.tag == 3
  }

  predicate HasKey(ps: seq<Packet>) {
    exists i :: 0 <= i < |ps| && IsKey(ps[i])
  }

  // ---------------------------------------------------------------------
  // Reading
  // ---------------------------------------------------------------------

  /** The tag, the stated length if there is one, and what follows the length. */
  function ReadHeader(input: Bytes): (r: Option<(byte, Option<nat>, Bytes)>)
    ensures r.Some? ==> |r.value.2| < |input|
  {
    if input == [] then None
    else
      var first, after := input[0], input[1..];
      if first < 0x80 then None
      else if first >= 0xc0 then
        var tag := first % 64;
        if after == [] then None
        else
          var l1: nat, after1 := after[0], after[1..];
          if l1 <= 191 then Some((tag, Some(l1), after1))
          else if l1 <= 223 then
            if after1 == [] then None
            else
              var len: nat := (l1 - 192) * 256 + after1[0] + 192;
              Some((tag, Some(len), after1[1..]))
          else if l1 == 255 then Stated(tag, 4, after1)
          else Some((tag, None, after1))
      else
        var tag := first / 4 % 16;
        match first % 4
        case 0 => Stated(tag, 1, after)
        case 1 => Stated(tag, 2, after)
        case 2 => Stated(tag, 4, after)
        case _ => Some((tag, None, after))
  }

  /** A length in `n` octets, highest first. */
  function Stated(tag: byte, n: nat, after: Bytes): (r: Option<(byte, Option<nat>, Bytes)>)
    ensures r.Some? ==> |r.value.2| <= |after|
  {
    if |after| < n then None else Some((tag, Some(FromBigEndian(after[..n])), after[n..]))
  }

  /** One turn of the loop: a packet and the rest, or the last packet. */
  function ReadPacket(rest: Bytes): (r: Option<(Packet, Bytes)>)
    ensures r.Some? ==> |r.value.1| < |rest|
  {
    match ReadHeader(rest)
    case None => None
    case Some((tag, len, after)) =>
      if tag == 0 then None
      else match len
        case Some(n) => if |after| < n then None else Some((Packet(tag, Some(after[..n]), after[..n]), after[n..]))
        case None => Some((Packet(tag, None, after), []))
  }

  /** The packets of `rest`; `seen` tells whether a key packet came before. */
  function PacketsFrom(rest: Bytes, seen: bool): Option<seq<Packet>>
    decreases |rest|
  {
    if rest == [] then Some([])
    else match ReadPacket(rest)
      case None => None
      case Some((p, next)) =>
        if p.body.None? then (if seen then Some([p]) else None)
        else match PacketsFrom(next, seen || IsKey(p))
          case None => None
          case Some(ps) => Some([p] + ps)
  }

  function PacketsOf(input: Bytes): Option<seq<Packet>> {
    var ps := PacketsFrom(input, false);
    if ps.Some? && ps.value != [] then ps else None
  }

  /** `packets`: the loop over `rest` and `out`. */
  method Packets(input: Bytes) returns (r: Option<seq<Packet>>)
    ensures r == PacketsOf(input)
  {
    hide ReadPacket;
    var out: seq<Packet> := [];
    var rest := input;
    ghost var all := PacketsFrom(input, false);
    JoinedNothing(all);
    while rest != []
      invariant all == Joined(out, PacketsFrom(rest, HasKey(out)))
      decreases |rest|
    {
      var next := ReadPacket(rest);
      if next.None? {
        return None;
      }
      var p := next.value.0;
      HasKeyMore(out, p);
      if p.body.None? {
        if !HasKey(out) {
          return None;
        }
        out := out + [p];
        rest := [];
        assert out + [] == out;
        break;
      }
      JoinedMore(out, [p], PacketsFrom(next.value.1, HasKey(out + [p])));
      out := out + [p];
      rest := next.value.1;
    }
    assert out + [] == out;
    return if out == [] then None else Some(out);
  }

  lemma HasKeyMore(ps: seq<Packet>, p: Packet)
    ensures HasKey(ps + [p]) <==> HasKey(ps) || IsKey(p)
    ensures HasKey([p] + ps) <==> HasKey(ps) || IsKey(p)
    ensures !HasKey([])
  {
    if HasKey(ps) {
      var i :| 0 <= i < |ps| && IsKey(ps[i]);
      assert (ps + [p])[i] == ps[i] && ([p] + ps)[i + 1] == ps[i];
    }
    assert (ps + [p])[|ps|] == p && ([p] + ps)[0] == p;
    if HasKey([p] + ps) && !IsKey(p) {
      var i :| 0 <= i <= |ps| && IsKey(([p] + ps)[i]);
      assert ps[i - 1] == ([p] + ps)[i];
    }
  }

  // ---------------------------------------------------------------------
  // Framing and reading are inverse
  // ---------------------------------------------------------------------

  /** A header reads back as the tag and length it was made from. */
  lemma HeaderReads(f: Form, tag: byte, len: nat, rest: Bytes)
    requires Allows(f, tag, len)
    ensures ReadHeader(EncodeHeader(f, tag, len) + rest) == Some((tag, Some(len), rest))
  {
    hide BigEndian, FromBigEndian, Pow256;
    var d := EncodeHeader(f, tag, len) + rest;
    match f {
      case New1 => assert d[1..][1..] == rest;
      case New2 => assert d[1..][1..][1..] == rest;
      case New5 =>
        BigEndianInverts(len, 4);
        assert d[1..][1..][..4] == BigEndian(len, 4) && d[1..][1..][4..] == rest;
      case Old1 =>
        BigEndianInverts(len, 1);
        assert d[1..][..1] == BigEndian(len, 1) && d[1..][1..] == rest;
      case Old2 =>
        BigEndianInverts(len, 2);
        assert d[1..][..2] == BigEndian(len, 2) && d[1..][2..] == rest;
      case Old4 =>
        BigEndianInverts(len, 4);
        assert d[1..][..4] == BigEndian(len, 4) && d[1..][4..] == rest;
    }
  }

  lemma PacketReads(p: Packet, f: Form, rest: Bytes)
    requires Fits(p, f)
    ensures ReadPacket(Encode(p, f) + rest) == Some((p, rest))
  {
    hide ReadHeader, EncodeHeader;
    var d := Encode(p, f) + rest;
    assert d == EncodeHeader(f, p.tag, |p.head|) + (p.head + rest);
    HeaderReads(f, p.tag, |p.head|, p.head + rest);
    assert (p.head + rest)[..|p.head|] == p.head && (p.head + rest)[|p.head|..] == rest;
  }

  /** A header with a stated length was made so, in one of the six forms. */
  lemma HeaderWasMade(d: Bytes) returns (f: Form)
    requires ReadHeader(d).Some? && ReadHeader(d).value.0 != 0 && ReadHeader(d).value.1.Some?
    ensures var (tag, len, after) := ReadHeader(d).value;
      Allows(f, tag, len.value) && d == EncodeHeader(f, tag, len.value) + after
  {
    hide BigEndian, FromBigEndian, Pow256;
    var first, after := d[0], d[1..];
    assert d == [first] + after;
    if first >= 0xc0 {
      var l1, after1 := after[0], after[1..];
      assert after == [l1] + after1;
      if l1 <= 191 {
        f := New1;
      } else if l1 <= 223 {
        f := New2;
        assert after1 == [after1[0]] + after1[1..];
        TwoOctets(l1, after1[0]);
      } else {
        f := New5;
        MadeOf(after1, 4);
      }
    } else {
      OldTag(first);
      if first % 4 == 0 {
        f := Old1;
        MadeOf(after, 1);
      } else if first % 4 == 1 {
        f := Old2;
        MadeOf(after, 2);
      } else {
        f := Old4;
        MadeOf(after, 4);
      }
    }
  }

  lemma MadeOf(after: Bytes, n: nat)
    requires n <= |after|
    ensures FromBigEndian(after[..n]) < Pow256(n)
    ensures after == BigEndian(FromBigEndian(after[..n]), n) + after[n..]
  {
    FromBigEndianInverts(after[..n]);
  }

  lemma TwoOctets(l1: byte, l2: byte)
    requires 192 <= l1 <= 223
    ensures var len := (l1 - 192) * 256 + l2 + 192;
      192 <= len < 8384 && (len - 192) / 256 + 192 == l1 && (len - 192) % 256 == l2
  {
  }

  lemma OldTag(first: byte)
    requires 0x80 <= first < 0xc0
    ensures first / 4 % 16 < 16 && first == 0x80 + first / 4 % 16 * 4 + first % 4
  {
  }

  lemma PacketWasMade(d: Bytes) returns (f: Form)
    requires ReadPacket(d).Some? && ReadPacket(d).value.0.body.Some?
    ensures var (p, rest) := ReadPacket(d).value; Fits(p, f) && d == Encode(p, f) + rest
  {
    hide ReadHeader, EncodeHeader;
    f := HeaderWasMade(d);
    var (tag, len, after) := ReadHeader(d).value;
    var n := len.value;
    assert after == after[..n] + after[n..];
    assert d == EncodeHeader(f, tag, n) + after[..n] + after[n..];
  }

  /** A packet without a stated length is the last, and was made so. */
  lemma TailWasMade(d: Bytes) returns (t: Tail)
    requires ReadPacket(d).Some? && ReadPacket(d).value.0.body.None?
    ensures GoodTail(t) && t != NoTail && d == EncodeTail(t) && TailPackets(t) == [ReadPacket(d).value.0]
  {
    hide FromBigEndian;
    var first, after := d[0], d[1..];
    assert d == [first] + after;
    if first >= 0xc0 {
      assert after == [after[0]] + after[1..];
      t := Partial(first % 64, after[0], after[1..]);
    } else {
      OldTag(first);
      t := Indeterminate(first / 4 % 16, after);
    }
  }

  lemma PartialReads(tag: byte, first: byte, head: Bytes)
    requires GoodTail(Partial(tag, first, head))
    ensures ReadHeader([0xc0 + tag, first] + head) == Some((tag, None, head))
  {
    assert ([0xc0 + tag, first] + head)[1..][1..] == head;
  }

  lemma IndeterminateReads(tag: byte, head: Bytes)
    requires GoodTail(Indeterminate(tag, head))
    ensures ReadHeader([0x80 + tag * 4 + 3] + head) == Some((tag, None, head))
  {
    assert ([0x80 + tag * 4 + 3] + head)[1..] == head;
  }

  lemma TailReads(t: Tail)
    requires GoodTail(t) && t != NoTail
    ensures EncodeTail(t) != [] && ReadPacket(EncodeTail(t)) == Some((TailPackets(t)[0], []))
    ensures TailPackets(t)[0].body.None?
  {
    match t {
      case Partial(tag, first, head) => PartialReads(tag, first, head);
      case Indeterminate(tag, head) => IndeterminateReads(tag, head);
      case NoTail =>
    }
    hide ReadHeader;
  }

  /** `d` is the packets `ps`, in the forms `fs`, and then `t`. */
  ghost predicate Frames(d: Bytes, ps: seq<Packet>, fs: seq<Form>, t: Tail) {
    AllFit(ps, fs) && GoodTail(t) && d == EncodeAll(ps, fs) + EncodeTail(t)
  }

  lemma PacketStep(p: Packet, f: Form, rest: Bytes, seen: bool)
    requires Fits(p, f)
    ensures PacketsFrom(Encode(p, f) + rest, seen) == Joined([p], PacketsFrom(rest, seen || IsKey(p)))
  {
    hide ReadPacket, EncodeHeader, Allows;
    PacketReads(p, f, rest);
    HeaderIsSome(f, p.tag, |p.head|);
  }

  lemma HeaderIsSome(f: Form, tag: byte, len: nat)
    requires Allows(f, tag, len)
    ensures |EncodeHeader(f, tag, len)| >= 1
  {
  }

  lemma TailStep(t: Tail, seen: bool)
    requires GoodTail(t) && (t == NoTail || seen)
    ensures PacketsFrom(EncodeTail(t), seen) == Some(TailPackets(t))
  {
    if t != NoTail {
      TailReads(t);
      hide ReadPacket, EncodeTail;
    }
  }

  lemma {:induction false} FramesRead(d: Bytes, ps: seq<Packet>, fs: seq<Form>, t: Tail, seen: bool)
    requires Frames(d, ps, fs, t) && (t == NoTail || seen || HasKey(ps))
    ensures PacketsFrom(d, seen) == Some(ps + TailPackets(t))
    decreases |ps|
  {
    hide PacketsFrom, EncodeTail, Encode, Fits, IsKey, TailPackets;
    if ps == [] {
      HasKeyMore(ps, Packet(0, None, []));
      TailStep(t, seen);
      assert d == EncodeTail(t);
      assert ps + TailPackets(t) == TailPackets(t);
    } else {
      var p, rest := ps[0], EncodeAll(ps[1..], fs[1..]) + EncodeTail(t);
      assert Fits(ps[0], fs[0]);
      assert d == Encode(p, fs[0]) + rest;
      PacketStep(p, fs[0], rest, seen);
      assert ps == [p] + ps[1..];
      HasKeyMore(ps[1..], p);
      FramesRead(rest, ps[1..], fs[1..], t, seen || IsKey(p));
      assert [p] + (ps[1..] + TailPackets(t)) == ps + TailPackets(t);
    }
  }

  lemma {:induction false} ReadFrames(d: Bytes, seen: bool) returns (ps: seq<Packet>, fs: seq<Form>, t: Tail)
    requires PacketsFrom(d, seen).Some?
    ensures Frames(d, ps, fs, t) && PacketsFrom(d, seen).value == ps + TailPackets(t)
    ensures t == NoTail || seen || HasKey(ps)
    decreases |d|
  {
    hide ReadPacket, Encode, Fits, IsKey, EncodeTail, HasKey;
    if d == [] {
      ps, fs, t := [], [], NoTail;
      NothingFramed();
    } else {
      var (p, next) := ReadPacket(d).value;
      if p.body.None? {
        t := TailWasMade(d);
        ps, fs := [], [];
        assert d == [] + EncodeTail(t) && [p] == [] + TailPackets(t);
      } else {
        var f := PacketWasMade(d);
        ps, fs, t := ReadFrames(next, seen || IsKey(p));
        OneMoreFramed(d, p, f, next, ps, fs, t, seen);
        ps, fs := [p] + ps, [f] + fs;
      }
    }
  }

  lemma OneMoreFramed(d: Bytes, p: Packet, f: Form, next: Bytes, ps: seq<Packet>, fs: seq<Form>, t: Tail, seen: bool)
    requires Fits(p, f) && d == Encode(p, f) + next && Frames(next, ps, fs, t)
    ensures Frames(d, [p] + ps, [f] + fs, t) && [p] + (ps + TailPackets(t)) == ([p] + ps) + TailPackets(t)
    ensures seen || IsKey(p) || HasKey(ps) <==> seen || HasKey([p] + ps)
  {
    hide Fits, Encode, EncodeTail, TailPackets, HasKey, IsKey, EncodeAll, AllFit, GoodTail;
    HasKeyMore(ps, p);
    EncodeAllMore(p, f, ps, fs);
    assert d == Encode(p, f) + (EncodeAll(ps, fs) + EncodeTail(t));
  }

  lemma NothingFramed()
    ensures Frames([], [], [], NoTail)
  {
  }

  lemma EncodeAllMore(p: Packet, f: Form, ps: seq<Packet>, fs: seq<Form>)
    requires Fits(p, f) && AllFit(ps, fs)
    ensures AllFit([p] + ps, [f] + fs)
    ensures EncodeAll([p] + ps, [f] + fs) == Encode(p, f) + EncodeAll(ps, fs)
  {
    hide Fits, Encode;
    assert forall i :: 0 <= i < |ps| ==> ([p] + ps)[i + 1] == ps[i] && ([f] + fs)[i + 1] == fs[i];
    assert ([p] + ps)[1..] == ps && ([f] + fs)[1..] == fs;
  }

  /**
   * What is read, and when: an input gives the packets `out` exactly if it is,
   * from first byte to last, definite packets with tags that are not zero, each
   * in any form its length allows, and then possibly one body without a stated
   * length, which a packet with tag 1 or 3 must come before.
   */
  lemma PacketsIff(d: Bytes, out: seq<Packet>)
    ensures PacketsOf(d) == Some(out) <==>
      out != [] && exists ps, fs, t ::
        && Frames(d, ps, fs, t) && out == ps + TailPackets(t)
        && (t == NoTail || exists j :: 0 <= j < |ps| && (ps[j].tag == 1 || ps[j].tag == 3))
  {
    if PacketsOf(d) == Some(out) {
      var ps, fs, t := ReadFrames(d, false);
      HasKeyIff(ps);
    }
    if ps, fs, t :|
      && Frames(d, ps, fs, t) && out == ps + TailPackets(t)
      && (t == NoTail || exists j :: 0 <= j < |ps| && (ps[j].tag == 1 || ps[j].tag == 3))
    {
      HasKeyIff(ps);
      FramesRead(d, ps, fs, t, false);
    }
  }

  /** A session key packet is one with tag 1 (public key) or 3 (password): sections 5.1 and 5.3 of RFC 9580. */
  lemma HasKeyIff(ps: seq<Packet>)
    ensures HasKey(ps) <==> exists j :: 0 <= j < |ps| && (ps[j].tag == 1 || ps[j].tag == 3)
  {
    if j :| 0 <= j < |ps| && (ps[j].tag == 1 || ps[j].tag == 3) {
      assert IsKey(ps[j]);
    }
  }

  /** In particular: any definite packets, in any mix of forms, come back exactly. */
  lemma DefiniteRoundTrip(ps: seq<Packet>, fs: seq<Form>)
    requires ps != [] && AllFit(ps, fs)
    ensures PacketsOf(EncodeAll(ps, fs)) == Some(ps)
  {
    var d := EncodeAll(ps, fs);
    assert d + EncodeTail(NoTail) == d && ps + TailPackets(NoTail) == ps;
    FramesRead(d, ps, fs, NoTail, false);
  }

  /** A body without a stated length is only ever the last, after a packet with tag 1 or 3. */
  lemma OnlyTheLastIsOpen(d: Bytes, i: nat)
    requires PacketsOf(d).Some? && i < |PacketsOf(d).value| && PacketsOf(d).value[i].body.None?
    ensures i == |PacketsOf(d).value| - 1
    ensures exists j :: 0 <= j < i && (PacketsOf(d).value[j].tag == 1 || PacketsOf(d).value[j].tag == 3)
  {
    var out := PacketsOf(d).value;
    var ps, fs, t := ReadFrames(d, false);
    forall k | 0 <= k < |ps| ensures out[k].body.Some? {
      assert Fits(ps[k], fs[k]);
    }
    assert out[..|ps|] == ps;
    HasKeyIff(ps);
    var j :| 0 <= j < |ps| && (ps[j].tag == 1 || ps[j].tag == 3);
    assert out[j] == ps[j];
  }

  /** A body without a stated length, with no packet of tag 1 or 3 before it, makes the whole input no OpenPGP. */
  lemma OpenNeedsAKey(ps: seq<Packet>, fs: seq<Form>, t: Tail)
    requires AllFit(ps, fs) && GoodTail(t) && t != NoTail
    ensures PacketsOf(EncodeAll(ps, fs) + EncodeTail(t)).Some? <==>
      exists j :: 0 <= j < |ps| && (ps[j].tag == 1 || ps[j].tag == 3)
  {
    var d := EncodeAll(ps, fs) + EncodeTail(t);
    HasKeyIff(ps);
    if HasKey(ps) {
      FramesRead(d, ps, fs, t, false);
    } else {
      FramesRefused(d, ps, fs, t);
    }
  }

  lemma TailRefused(t: Tail)
    requires GoodTail(t) && t != NoTail
    ensures PacketsFrom(EncodeTail(t), false).None?
  {
    TailReads(t);
    hide ReadPacket, EncodeTail;
  }

  lemma {:induction false} FramesRefused(d: Bytes, ps: seq<Packet>, fs: seq<Form>, t: Tail)
    requires Frames(d, ps, fs, t) && t != NoTail && !HasKey(ps)
    ensures PacketsFrom(d, false).None?
    decreases |ps|
  {
    hide PacketsFrom, EncodeTail, Encode, Fits, IsKey, HasKey;
    if ps == [] {
      assert d == EncodeTail(t);
      TailRefused(t);
    } else {
      var p, rest := ps[0], EncodeAll(ps[1..], fs[1..]) + EncodeTail(t);
      assert Fits(ps[0], fs[0]);
      assert d == Encode(p, fs[0]) + rest;
      assert ps == [p] + ps[1..];
      HasKeyMore(ps[1..], p);
      FramesRefused(rest, ps[1..], fs[1..], t);
      PacketStep(p, fs[0], rest, false);
    }
  }
}
