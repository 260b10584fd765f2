/** Bytes, errors and fixed-width numbers, shared by every other module. */
module Base {

  type byte = x: int | 0 <= x < 256
  type Bytes = seq<byte>

  datatype Option<+T> = None | Some(value: T)

  /** The error kinds of the crate. The messages they carry are not modelled. */
  datatype Error = Io | Hardening | Format | Auth | KeyNotFound

  datatype Result<+T> = Ok(value: T) | Err(error: Error) {
    predicate IsFailure() {
      Err?
    }

    function PropagateFailure<U>(): Result<U>
      requires Err?
    {
      Err(error)
    }

    function Extract(): T
      requires Ok?
    {
      value
    }
  }

  // What a reading loop has done, and what it has still to do: one function for each kind of result.

  function Continued<T>(done: seq<T>, todo: Result<seq<T>>): Result<seq<T>> {
    if todo.Err? then todo else Ok(done + todo.value)
  }

  function Joined<T>(done: seq<T>, todo: Option<seq<T>>): Option<seq<T>> {
    if todo.None? then None else Some(done + todo.value)
  }

  lemma ContinuedNothing<T>(todo: Result<seq<T>>)
    ensures Continued([], todo) == todo
  {
    if todo.Ok? {
      assert [] + todo.value == todo.value;
    }
  }

  lemma ContinuedMore<T>(done: seq<T>, more: seq<T>, todo: Result<seq<T>>)
    ensures Continued(done, Continued(more, todo)) == Continued(done + more, todo)
  {
    if todo.Ok? {
      assert done + (more + todo.value) == done + more + todo.value;
    }
  }

  lemma JoinedNothing<T>(todo: Option<seq<T>>)
    ensures Joined([], todo) == todo
  {
    if todo.Some? {
      assert [] + todo.value == todo.value;
    }
  }

  lemma JoinedMore<T>(done: seq<T>, more: seq<T>, todo: Option<seq<T>>)
    ensures Joined(done, Joined(more, todo)) == Joined(done + more, todo)
  {
    if todo.Some? {
      assert done + (more + todo.value) == done + more + todo.value;
    }
  }

  lemma AtLeastOnce(k: int, m: nat)
    requires k > 0
    ensures k * m >= m
  {
  }

  lemma TimesMonotone(a: int, b: int, m: nat)
    requires a <= b
    ensures a * m <= b * m
  {
    assert b * m == a * m + (b - a) * m;
  }

  /** A quotient and a remainder below the divisor are the ones. */
  lemma DivisionIs(n: nat, q: nat, r: nat, m: nat)
    requires r < m && n == q * m + r
    ensures n / m == q && n % m == r
  {
    var q', r' := n / m, n % m;
    assert n == q' * m + r';
    assert (q - q') * m == r' - r && (q' - q) * m == r - r';
    if q > q' {
      AtLeastOnce(q - q', m);
    } else if q' > q {
      AtLeastOnce(q' - q, m);
    }
  }

  function Pow2(n: nat): (r: nat)
    ensures r > 0
  {
    if n == 0 then 1 else 2 * Pow2(n - 1)
  }

  function Pow256(width: nat): (r: nat)
    ensures r > 0
  {
    if width == 0 then 1 else 256 * Pow256(width - 1)
  }

  /** `n` in `width` bytes, lowest byte first; higher bytes of `n` are cut off, as by `as u16`. */
  function LittleEndian(n: nat, width: nat): (b: Bytes)
    ensures |b| == width
  {
    if width == 0 then [] else [n % 256] + LittleEndian(n / 256, width - 1)
  }

  function FromLittleEndian(b: Bytes): nat {
    if b == [] then 0 else b[0] + 256 * FromLittleEndian(b[1..])
  }

  /** `n` in `width` bytes, highest byte first; higher bytes of `n` are cut off. */
  function BigEndian(n: nat, width: nat): (b: Bytes)
    ensures |b| == width
  {
    if width == 0 then [] else BigEndian(n / 256, width - 1) + [n % 256]
  }

  function FromBigEndian(b: Bytes): nat {
    if b == [] then 0 else 256 * FromBigEndian(b[..|b| - 1]) + b[|b| - 1]
  }

  lemma {:induction false} LittleEndianInverts(n: nat, width: nat)
    requires n < Pow256(width)
    ensures FromLittleEndian(LittleEndian(n, width)) == n
  {
    if width > 0 {
      LittleEndianInverts(n / 256, width - 1);
      assert LittleEndian(n, width)[1..] == LittleEndian(n / 256, width - 1);
    }
  }

  lemma {:induction false} FromLittleEndianInverts(b: Bytes)
    ensures FromLittleEndian(b) < Pow256(|b|)
    ensures LittleEndian(FromLittleEndian(b), |b|) == b
  {
    if b != [] {
      var rest := FromLittleEndian(b[1..]);
      FromLittleEndianInverts(b[1..]);
      assert (b[0] + 256 * rest) % 256 == b[0] && (b[0] + 256 * rest) / 256 == rest;
    }
  }

  /** The ranges of two- and four-byte numbers. */
  lemma WidthRanges()
    ensures Pow256(2) == 0x1_0000 && Pow256(4) == 0x1_0000_0000
  {
    assert Pow256(1) == 256 && Pow256(3) == 0x100_0000;
  }

  lemma {:induction false} BigEndianInverts(n: nat, width: nat)
    requires n < Pow256(width)
    ensures FromBigEndian(BigEndian(n, width)) == n
  {
    if width > 0 {
      BigEndianInverts(n / 256, width - 1);
      assert BigEndian(n, width)[..width - 1] == BigEndian(n / 256, width - 1);
    }
  }

  lemma {:induction false} FromBigEndianInverts(b: Bytes)
    ensures FromBigEndian(b) < Pow256(|b|)
    ensures BigEndian(FromBigEndian(b), |b|) == b
  {
    if b != [] {
      var last, rest := b[|b| - 1], FromBigEndian(b[..|b| - 1]);
      FromBigEndianInverts(b[..|b| - 1]);
      assert (256 * rest + last) % 256 == last && (256 * rest + last) / 256 == rest;
    }
  }
}
