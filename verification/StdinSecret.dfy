/**
 * `read_stdin_secret`: a secret of unknown length read in chunks, into a buffer
 * that is wiped whenever it is outgrown.
 */
module StdinSecret {
  import opened Base
  import opened SecretMemory

  /** The most stdin may hold. */
  const MAX_STDIN: nat := 64 * 1024 * 1024
  const CHUNK: nat := 64 * 1024

  /** What one `read` gives. No bytes is the end of the input. */
  datatype Read = Data(bytes: Bytes) | Interrupted | Failed

  datatype Outcome = Done(bytes: Bytes) | ReadFailed | TooLong

  ghost predicate Fits(input: seq<Read>) {
    forall i :: 0 <= i < |input| && input[i].Data? ==> |input[i].bytes| <= CHUNK
  }

  // ---------------------------------------------------------------------
  // What the reads amount to
  // ---------------------------------------------------------------------

  /** The outcome of `input` once `sofar` has been read. Input also ends with the list. */
  function Outcomes(sofar: Bytes, input: seq<Read>): Outcome
    decreases |input|
  {
    if input == [] || input[0] == Data([]) then Done(sofar)
    else match input[0]
      case Interrupted => Outcomes(sofar, input[1..])
      case Failed => ReadFailed
      case Data(b) => if |sofar| + |b| > MAX_STDIN then TooLong else Outcomes(sofar + b, input[1..])
  }

  /** The reads before the end of the input. */
  function BeforeEnd(input: seq<Read>): (r: seq<Read>)
    ensures r <= input && Data([]) !in r
  {
    if input == [] || input[0] == Data([]) then [] else [input[0]] + BeforeEnd(input[1..])
  }

  function Concat(input: seq<Read>): Bytes {
    if input == [] then []
    else (if input[0].Data? then input[0].bytes else []) + Concat(input[1..])
  }

  /**
   * The secret is exactly the concatenation of what was read up to the end of
   * the input, and there is one exactly when no read failed before that and the
   * concatenation is not longer than the limit.
   */
  lemma {:induction false} OutcomeIff(sofar: Bytes, input: seq<Read>, all: Bytes)
    requires |sofar| <= MAX_STDIN
    ensures var before := BeforeEnd(input);
      Outcomes(sofar, input) == Done(all) <==>
        Failed !in before && all == sofar + Concat(before) && |all| <= MAX_STDIN
    decreases |input|
  {
    var before := BeforeEnd(input);
    if before != [] {
      assert before[1..] == BeforeEnd(input[1..]);
      assert Failed in before <==> input[0] == Failed || Failed in before[1..];
      match input[0]
      case Interrupted =>
        OutcomeIff(sofar, input[1..], all);
        assert [] + Concat(before[1..]) == Concat(before[1..]);
      case Failed =>
      case Data(b) =>
        assert sofar + Concat(before) == (sofar + b) + Concat(before[1..]);
        if |sofar| + |b| <= MAX_STDIN {
          OutcomeIff(sofar + b, input[1..], all);
        }
    } else {
      assert sofar + [] == sofar;
    }
  }

  /** It is too long exactly when the reads that came before any failure already are. */
  lemma {:induction false} TooLongIff(sofar: Bytes, input: seq<Read>)
    requires |sofar| <= MAX_STDIN
    ensures Outcomes(sofar, input) == TooLong <==>
      exists k :: 0 <= k <= |BeforeEnd(input)| &&
        Failed !in BeforeEnd(input)[..k] && |sofar + Concat(BeforeEnd(input)[..k])| > MAX_STDIN
    decreases |input|
  {
    var before := BeforeEnd(input);
    if before != [] {
      var rest := BeforeEnd(input[1..]);
      assert before == [input[0]] + rest;
      var more := if input[0].Data? then input[0].bytes else [];
      forall k | 0 < k <= |before|
        ensures Failed in before[..k] <==> input[0] == Failed || Failed in rest[..k - 1]
        ensures sofar + Concat(before[..k]) == (sofar + more) + Concat(rest[..k - 1])
      {
        assert before[..k] == [input[0]] + rest[..k - 1];
        assert before[..k][1..] == rest[..k - 1];
      }
      if input[0] != Failed && |sofar + more| <= MAX_STDIN {
        TooLongIff(sofar + more, input[1..]);
        assert sofar + more == if input[0].Data? then sofar + more else sofar;
        if k :| 0 <= k <= |rest| && Failed !in rest[..k] && |(sofar + more) + Concat(rest[..k])| > MAX_STDIN {
          assert Failed !in before[..k + 1] && |sofar + Concat(before[..k + 1])| > MAX_STDIN;
        }
      } else if input[0] != Failed {
        assert rest[..0] == [];
        assert Failed !in before[..1] && |sofar + Concat(before[..1])| > MAX_STDIN;
      }
    }
  }

  // ---------------------------------------------------------------------
  // Reading
  // ---------------------------------------------------------------------

  /** The buffers that are allocated. None goes back that is not wiped. */
  class Heap {
    ghost var live: set<array<byte>>

    constructor ()
      ensures live == {}
    {
      live := {};
    }

    method Alloc(n: nat) returns (a: array<byte>)
      modifies this
      ensures fresh(a) && a.Length == n && live == old(live) + {a}
    {
      a := new byte[n];
      live := live + {a};
    }

    method Free(a: array<byte>)
      requires a in live && forall i :: 0 <= i < a.Length ==> a[i] == 0
      modifies this
      ensures live == old(live) - {a}
    {
      live := live - {a};
    }
  }

  /** What dropping a `Zeroizing` buffer does. */
  method Discard(heap: Heap, a: array<byte>)
    requires a in heap.live
    modifies heap, a
    ensures heap.live == old(heap.live) - {a} && forall i :: 0 <= i < a.Length ==> a[i] == 0
  {
    for i := 0 to a.Length
      invariant forall k :: 0 <= k < i ==> a[k] == 0
      modifies a
    {
      a[i] := 0;
    }
    heap.Free(a);
  }

  /** `extend_from_slice` within capacity: it writes in place and allocates nothing. */
  method Append(to: array<byte>, len: nat, from: array<byte>, n: nat)
    requires to != from && n <= from.Length && len + n <= to.Length
    modifies to
    ensures to[..len + n] == old(to[..len]) + from[..n]
  {
    for i := 0 to n
      invariant to[..len] == old(to[..len])
      invariant forall k :: 0 <= k < i ==> to[len + k] == from[k]
    {
      to[len + i] := from[i];
    }
  }

  /** What `read` does to the chunk. */
  method Fill(chunk: array<byte>, bytes: Bytes)
    requires |bytes| <= chunk.Length
    modifies chunk
    ensures chunk[..|bytes|] == bytes
  {
    for i := 0 to |bytes|
      invariant forall k :: 0 <= k < i ==> chunk[k] == bytes[k]
    {
      chunk[i] := bytes[i];
    }
  }

  /**
   * A chunk goes into the vector. If there is no room for it, the vector moves to a
   * bigger buffer first, and the one it leaves is wiped.
   */
  method Take(heap: Heap, buf: array<byte>, len: nat, chunk: array<byte>, n: nat, allot: nat -> nat)
    returns (next: array<byte>, copied: nat)
    requires buf in heap.live && len <= buf.Length && n <= chunk.Length && chunk != buf
    requires forall k :: allot(k) >= k
    modifies heap, buf
    ensures len + n <= next.Length && next[..len + n] == old(buf[..len]) + chunk[..n]
    ensures len + n <= buf.Length ==> next == buf && copied == 0 && heap.live == old(heap.live)
    ensures len + n > buf.Length ==>
      fresh(next) && copied == len && next.Length >= 2 * buf.Length && heap.live == old(heap.live) - {buf} + {next}
  {
    next, copied := buf, 0;
    if len + n > buf.Length {
      var size := if len + n > 2 * buf.Length then len + n else 2 * buf.Length;
      next := heap.Alloc(allot(size));
      Append(next, 0, buf, len);
      copied := len;
      Discard(heap, buf);
    }
    Append(next, len, chunk, n);
  }

  /**
   * The loop of `read_stdin_secret`. The vector is `buf`, of which `len` bytes are in
   * use; `allot` is the allocator, which may give more room than it is asked for.
   * Of all the buffers allocated, only the one that holds the secret is left.
   */
  method ReadAll(heap: Heap, input: seq<Read>, allot: nat -> nat)
    returns (r: Outcome, buf: array<byte>, copied: nat)
    requires Fits(input) && forall n :: allot(n) >= n
    modifies heap
    ensures r == Outcomes([], input)
    ensures r.Done? ==> fresh(buf) && |r.bytes| <= buf.Length && buf[..|r.bytes|] == r.bytes
    ensures heap.live == old(heap.live) + if r.Done? then {buf} else {}
    ensures r.Done? ==> buf !in old(heap.live)
    ensures r.Done? ==> copied == 0 || copied < 2 * |r.bytes|
    ensures copied <= 2 * MAX_STDIN
  {
    var chunk := heap.Alloc(CHUNK);
    buf := heap.Alloc(0);
    ghost var others := old(heap.live);
    var len := 0;
    copied := 0;
    var i := 0;
    while i < |input| && input[i] != Data([])
      invariant 0 <= i <= |input| && fresh(chunk) && fresh(buf)
      invariant chunk.Length == CHUNK && chunk != buf
      invariant chunk !in others && buf !in others && heap.live == others + {chunk, buf}
      invariant 0 <= len <= buf.Length && len <= MAX_STDIN
      invariant Outcomes([], input) == Outcomes(buf[..len], input[i..])
      invariant 0 <= copied <= buf.Length && (copied == 0 || copied < 2 * len)
    {
      assert input[i..][0] == input[i] && input[i..][1..] == input[i + 1..];
      match input[i] {
        case Interrupted =>
        case Failed =>
          Discard(heap, buf);
          Discard(heap, chunk);
          return ReadFailed, buf, copied;
        case Data(bytes) =>
          var n := |bytes|;
          Fill(chunk, bytes);
          if len + n > MAX_STDIN {
            Discard(heap, buf);
            Discard(heap, chunk);
            return TooLong, buf, copied;
          }
          var next, moved := Take(heap, buf, len, chunk, n, allot);
          copied := copied + moved;
          buf := next;
          len := len + n;
      }
      i := i + 1;
    }
    r := Done(buf[..len]);
    Discard(heap, chunk);
  }

  /**
   * All of `read_stdin_secret`: the bytes end up in locked pages and nowhere else, or
   * there is an error; either way every buffer that held any of them is wiped and gone.
   */
  method ReadStdinSecret(heap: Heap, p: Process, input: seq<Read>, allot: nat -> nat, envs: nat -> MapEnv)
    returns (r: Option<Result<Region>>)
    requires p.page > 0 && Fits(input) && forall n :: allot(n) >= n
    requires forall n: nat :: n <= MAX_STDIN ==> GoodEnv(p.mem, n, p.page, envs(n))
    modifies heap, p
    ensures heap.live == old(heap.live)
    ensures r.None? <==> !Outcomes([], input).Done?
    ensures r.None? ==> p.mem == old(p.mem)
    ensures r.Some? ==>
      var secret := Outcomes([], input).bytes;
      (p.mem, r.value) == Filled(old(p.mem), secret, p.page, envs(|secret|))
  {
    var outcome, buf, copied := ReadAll(heap, input, allot);
    if !outcome.Done? {
      return None;
    }
    OutcomeIff([], input, outcome.bytes);
    var secret := p.FromVec(buf, |outcome.bytes|, envs(|outcome.bytes|));
    heap.Free(buf);
    return Some(secret);
  }
}
