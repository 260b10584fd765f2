/**
 * `LockedPages` and `SecretBuf`: the memory of a secret, on pages of its own.
 *
 * Memory is modelled by the byte; every call that changes how memory may be
 * used takes whole pages.
 */
module SecretMemory {
  import opened Base

  const USIZE_MAX: nat := 0xffff_ffff_ffff_ffff

  datatype Cell = Cell(value: byte, access: bool, locked: bool, dumped: bool)

  const FRESH := Cell(0, true, false, true)

  type Memory = map<nat, Cell>

  /** `LockedPages`: the whole mapping, and the secret in it. `mapLen` is 0 for an empty secret. */
  datatype Region = Region(start: nat, mapLen: nat, data: nat, len: nat)

  const EMPTY := Region(0, 0, 0, 0)

  /** The call that fails, if one does. */
  datatype Fault = NoFault | PageSize | Mmap | FrontGuard | BackGuard | Lock | Advise

  /** What the system decides: where the mapping goes, and what fails. */
  datatype MapEnv = MapEnv(at: nat, fault: Fault)

  // ---------------------------------------------------------------------
  // The system calls
  // ---------------------------------------------------------------------

  predicate InRange(a: nat, start: nat, len: nat) {
    start <= a < start + len
  }

  /** `mmap`: fresh zeroed memory, readable and writable. */
  function Map(m: Memory, start: nat, len: nat): Memory {
    m + map a: nat | start <= a < start + len && InRange(a, start, len) :: FRESH
  }

  function Protect(m: Memory, start: nat, len: nat): Memory {
    map a | a in m :: if InRange(a, start, len) then m[a].(access := false) else m[a]
  }

  function Locked(m: Memory, start: nat, len: nat): Memory {
    map a | a in m :: if InRange(a, start, len) then m[a].(locked := true) else m[a]
  }

  function DontDump(m: Memory, start: nat, len: nat): Memory {
    map a | a in m :: if InRange(a, start, len) then m[a].(dumped := false) else m[a]
  }

  function Unmap(m: Memory, start: nat, len: nat): Memory {
    map a | a in m && !InRange(a, start, len) :: m[a]
  }

  function Store(m: Memory, at: nat, data: Bytes): Memory {
    map a | a in m :: if InRange(a, at, |data|) then m[a].(value := data[a - at]) else m[a]
  }

  function Zeros(n: nat): (z: Bytes)
    ensures |z| == n && forall i :: 0 <= i < n ==> z[i] == 0
  {
    seq(n, _ => 0)
  }

  ghost predicate Free(m: Memory, start: nat, len: nat) {
    forall a :: InRange(a, start, len) ==> a !in m
  }

  ghost predicate AllMapped(m: Memory, start: nat, len: nat) {
    forall a :: InRange(a, start, len) ==> a in m
  }

  /** `now` is `m` and a mapping of zero bytes at `start`, whatever may be done with those bytes. */
  ghost predicate Extends(m: Memory, now: Memory, start: nat, len: nat) {
    forall a: nat ::
      if InRange(a, start, len) then a !in m && a in now && now[a].value == 0
      else (a in m <==> a in now) && (a in m ==> now[a] == m[a])
  }

  lemma MapExtends(m: Memory, start: nat, len: nat)
    requires Free(m, start, len)
    ensures Extends(m, Map(m, start, len), start, len)
  {
  }

  /** A call on part of the mapping changes no byte and nothing outside. */
  lemma ProtectKeepsExtends(m: Memory, now: Memory, start: nat, len: nat, at: nat, n: nat)
    requires Extends(m, now, start, len) && start <= at && at + n <= start + len
    ensures Extends(m, Protect(now, at, n), start, len) && AllMapped(now, at, n)
  {
    forall a | InRange(a, at, n) ensures InRange(a, start, len) {
    }
  }

  lemma LockedKeepsExtends(m: Memory, now: Memory, start: nat, len: nat, at: nat, n: nat)
    requires Extends(m, now, start, len) && start <= at && at + n <= start + len
    ensures Extends(m, Locked(now, at, n), start, len) && AllMapped(now, at, n)
  {
    forall a | InRange(a, at, n) ensures InRange(a, start, len) {
    }
  }

  lemma DontDumpKeepsExtends(m: Memory, now: Memory, start: nat, len: nat, at: nat, n: nat)
    requires Extends(m, now, start, len) && start <= at && at + n <= start + len
    ensures Extends(m, DontDump(now, at, n), start, len) && AllMapped(now, at, n)
  {
    forall a | InRange(a, at, n) ensures InRange(a, start, len) {
    }
  }

  /** Unmapping what was mapped, and only that, gives the memory there was. */
  lemma UnmappedAgain(m: Memory, now: Memory, start: nat, len: nat)
    requires Extends(m, now, start, len)
    ensures Unmap(now, start, len) == m
  {
    assert forall a :: a in Unmap(now, start, len) <==> a in m;
  }

  // ---------------------------------------------------------------------
  // Layout
  // ---------------------------------------------------------------------

  /** `checked_next_multiple_of`, before the check. */
  function RoundUp(len: nat, page: nat): (r: nat)
    requires page > 0
    ensures len <= r < len + page
  {
    if len % page == 0 then len else len + (page - len % page)
  }

  /** The lengths of the data pages and of the mapping, unless a sum passes 64 bits. */
  function Layout(len: nat, page: nat): (r: Option<(nat, nat)>)
    requires page > 0
  {
    var dataLen := RoundUp(len, page);
    if dataLen > USIZE_MAX then None
    else if dataLen + 2 * page > USIZE_MAX then None
    else Some((dataLen, dataLen + 2 * page))
  }

  predicate Aligned(a: nat, page: nat)
    requires page > 0
  {
    a % page == 0
  }

  lemma MultipleIsAligned(k: nat, page: nat)
    requires page > 0
    ensures Aligned(k * page, page)
  {
    DivisionIs(k * page, k, 0, page);
  }

  lemma OnePageOn(a: nat, page: nat)
    requires page > 0
    ensures Aligned(a + page, page) == Aligned(a, page)
  {
    var q, r := a / page, a % page;
    assert a == q * page + r;
    assert a + page == (q + 1) * page + r;
    DivisionIs(a + page, q + 1, r, page);
  }

  lemma AlignedSum(a: nat, b: nat, page: nat)
    requires page > 0 && Aligned(a, page) && Aligned(b, page)
    ensures Aligned(a + b, page)
  {
    var x, y := a / page, b / page;
    assert a == x * page && b == y * page;
    assert a + b == (x + y) * page;
    MultipleIsAligned(x + y, page);
  }

  lemma RoundsToPages(len: nat, page: nat)
    requires page > 0
    ensures Aligned(RoundUp(len, page), page)
  {
    var q, r := len / page, len % page;
    if r != 0 {
      assert len == q * page + r;
      assert RoundUp(len, page) == (q + 1) * page;
      MultipleIsAligned(q + 1, page);
    }
  }

  lemma AlignedParts(at: nat, len: nat, page: nat)
    requires page > 0 && Aligned(at, page)
    ensures var dataLen := RoundUp(len, page);
      Aligned(at + page, page) && Aligned(at + page + dataLen, page) && Aligned(dataLen + 2 * page, page)
  {
    var dataLen := RoundUp(len, page);
    RoundsToPages(len, page);
    hide Aligned, RoundUp;
    OnePageOn(at, page);
    AlignedSum(at + page, dataLen, page);
    OnePageOn(dataLen, page);
    OnePageOn(dataLen + page, page);
  }

  // ---------------------------------------------------------------------
  // Creating and dropping
  // ---------------------------------------------------------------------

  /** The region of a mapping at `at`: the secret ends where the back guard begins. */
  function RegionAt(at: nat, len: nat, page: nat): Region
    requires page > 0
  {
    var dataLen := RoundUp(len, page);
    Region(at, dataLen + 2 * page, at + page + (dataLen - len), len)
  }

  /** The first byte past the secret. */
  function PastEnd(r: Region): nat {
    r.data + r.len
  }

  /** A mapping after its guards are set and its data pages locked and kept out of dumps. */
  function Fortified(m: Memory, r: Region, page: nat): Memory
    requires r.mapLen >= 2 * page
  {
    WithLocks(WithGuards(m, r, page), r, page)
  }

  function WithLocks(m: Memory, r: Region, page: nat): Memory
    requires r.mapLen >= 2 * page
  {
    var dataPages, dataLen := r.start + page, r.mapLen - 2 * page;
    DontDump(Locked(m, dataPages, dataLen), dataPages, dataLen)
  }

  function WithGuards(m: Memory, r: Region, page: nat): Memory {
    Protect(Protect(m, r.start, page), PastEnd(r), page)
  }

  /** What `new` makes of fresh pages. */
  function Made(m: Memory, r: Region, page: nat): Memory
    requires r.mapLen >= 2 * page
  {
    Fortified(Map(m, r.start, r.mapLen), r, page)
  }

  /** `LockedPages::new`: all of it, or an error and memory as it was. */
  function NewPages(m: Memory, len: nat, page: nat, env: MapEnv): (Memory, Result<Region>)
    requires page > 0
  {
    if len == 0 then (m, Ok(EMPTY))
    else if Layout(len, page).None? || !env.fault.NoFault? then (m, Err(Hardening))
    else (Made(m, RegionAt(env.at, len, page), page), Ok(RegionAt(env.at, len, page)))
  }

  /** `k` pages hold `len` bytes, and with the two guards the mapping has a length of 64 bits. */
  predicate Fits(len: nat, page: nat, k: nat) {
    len <= k * page && (k + 2) * page <= 0xffff_ffff_ffff_ffff
  }

  /**
   * `new` succeeds exactly if the secret is empty, or nothing fails and some number of
   * pages holds it. Otherwise it is `Hardening`, with memory as it was. The mapping
   * has the fewest pages that hold the secret, and a guard on each side; the secret is
   * at the end of them.
   */
  lemma NewSucceedsIff(m: Memory, len: nat, page: nat, env: MapEnv)
    requires page > 0
    ensures var (m', r) := NewPages(m, len, page, env);
      && (r.Ok? <==> len == 0 || (env.fault.NoFault? && exists k: nat :: Fits(len, page, k)))
      && (r.Err? ==> m' == m && r == Err(Hardening))
      && (r.Ok? && len == 0 ==> m' == m && r.value.mapLen == 0)
      && (r.Ok? && len > 0 ==>
            exists k: nat ::
              && Fits(len, page, k) && (k - 1) * page < len
              && r.value == Region(env.at, (k + 2) * page, env.at + (k + 1) * page - len, len))
  {
    if len > 0 {
      var k := FewestPages(len, page);
      assert RoundUp(len, page) + 2 * page == (k + 2) * page;
      if j: nat :| Fits(len, page, j) {
        MorePages(len, page, k, j);
      }
      if Layout(len, page).Some? {
        assert Fits(len, page, k);
        assert RegionAt(env.at, len, page) == Region(env.at, (k + 2) * page, env.at + (k + 1) * page - len, len);
      }
    }
  }

  /** Rounding up gives whole pages, and the fewest. */
  lemma FewestPages(len: nat, page: nat) returns (k: nat)
    requires page > 0 && len > 0
    ensures RoundUp(len, page) == k * page && len <= k * page && (k - 1) * page < len
  {
    var q, r := len / page, len % page;
    assert len == q * page + r;
    k := if r == 0 then q else q + 1;
    assert (q + 1) * page == q * page + page && (q - 1) * page == q * page - page;
  }

  lemma MorePages(len: nat, page: nat, k: nat, j: nat)
    requires page > 0 && (k - 1) * page < len <= j * page
    ensures (k + 2) * page <= (j + 2) * page
  {
    assert k <= j by {
      if k > j { TimesMonotone(j, k - 1, page); }
    }
    TimesMonotone(k + 2, j + 2, page);
  }

  /** The system hands out page-aligned memory nobody has, within the address space. */
  ghost predicate GoodEnv(m: Memory, len: nat, page: nat, env: MapEnv)
    requires page > 0
  {
    Aligned(env.at, page) &&
    (Layout(len, page).Some? ==>
      Free(m, env.at, Layout(len, page).value.1) && env.at + Layout(len, page).value.1 <= USIZE_MAX)
  }

  /** A new secret holding `data`. */
  function Filled(m: Memory, data: Bytes, page: nat, env: MapEnv): (Memory, Result<Region>)
    requires page > 0
  {
    var (m', r) := NewPages(m, |data|, page, env);
    (if r.Ok? then Store(m', r.value.data, data) else m', r)
  }

  /** Wiped and unmapped. */
  function Dropped(m: Memory, r: Region): Memory {
    var wiped := Store(m, r.data, Zeros(r.len));
    if r.mapLen == 0 then wiped else Unmap(wiped, r.start, r.mapLen)
  }

  /** The memory of the process, changed call by call. */
  class Process {
    var mem: Memory
    const page: nat

    constructor (page: nat, start: Memory)
      ensures mem == start && this.page == page
    {
      this.page := page;
      mem := start;
    }

    /** `munmap`. Nothing may be unmapped that is not wiped. */
    method Munmap(start: nat, len: nat)
      requires page > 0 && Aligned(start, page) && Aligned(len, page)
      requires forall a :: InRange(a, start, len) ==> a in mem && mem[a].value == 0
      modifies this
      ensures mem == Unmap(old(mem), start, len)
    {
      mem := Unmap(mem, start, len);
    }

    /** `mprotect` to no access at all. */
    method Mprotect(start: nat, len: nat, fails: bool) returns (ok: bool)
      requires page > 0 && Aligned(start, page)
      requires AllMapped(mem, start, len)
      modifies this
      ensures ok == !fails && (ok ==> mem == Protect(old(mem), start, len)) && (!ok ==> mem == old(mem))
    {
      if !fails {
        mem := Protect(mem, start, len);
      }
      return !fails;
    }

    /** `mlock`. */
    method Mlock(start: nat, len: nat, fails: bool) returns (ok: bool)
      requires page > 0 && Aligned(start, page)
      requires AllMapped(mem, start, len)
      modifies this
      ensures ok == !fails && (ok ==> mem == Locked(old(mem), start, len)) && (!ok ==> mem == old(mem))
    {
      if !fails {
        mem := Locked(mem, start, len);
      }
      return !fails;
    }

    /** `madvise` with `MADV_DONTDUMP`. */
    method Madvise(start: nat, len: nat, fails: bool) returns (ok: bool)
      requires page > 0 && Aligned(start, page)
      requires AllMapped(mem, start, len)
      modifies this
      ensures ok == !fails && (ok ==> mem == DontDump(old(mem), start, len)) && (!ok ==> mem == old(mem))
    {
      if !fails {
        mem := DontDump(mem, start, len);
      }
      return !fails;
    }

    /** What `?` does in `new` once the mapping is made: dropping `pages` unmaps it. */
    method Abandon(pages: Region, ghost before: Memory)
      requires page > 0 && Aligned(pages.start, page) && Aligned(pages.mapLen, page)
      requires Extends(before, mem, pages.start, pages.mapLen)
      modifies this
      ensures mem == before
    {
      UnmappedAgain(before, mem, pages.start, pages.mapLen);
      Munmap(pages.start, pages.mapLen);
    }

    /** The two guards; the second is not tried if the first fails. */
    method SetGuards(pages: Region, fault: Fault, ghost before: Memory) returns (ok: bool)
      requires LaidOut(pages, page) && Extends(before, mem, pages.start, pages.mapLen)
      modifies this
      ensures ok == !(fault.FrontGuard? || fault.BackGuard?)
      ensures ok ==> mem == WithGuards(old(mem), pages, page)
      ensures Extends(before, mem, pages.start, pages.mapLen)
    {
      var start, mapLen, backGuard := pages.start, pages.mapLen, PastEnd(pages);
      hide Aligned, Protect, Locked, DontDump, Extends, InRange, Unmap, AllMapped;
      ProtectKeepsExtends(before, mem, start, mapLen, start, page);
      ok := Mprotect(start, page, fault.FrontGuard?);
      if ok {
        ProtectKeepsExtends(before, mem, start, mapLen, backGuard, page);
        ok := Mprotect(backGuard, page, fault.BackGuard?);
      }
    }

    /** Locking, then keeping out of dumps; the second is not tried if the first fails. */
    method LockPages(pages: Region, fault: Fault, ghost before: Memory) returns (ok: bool)
      requires LaidOut(pages, page) && Extends(before, mem, pages.start, pages.mapLen)
      modifies this
      ensures ok == !(fault.Lock? || fault.Advise?)
      ensures ok ==> mem == WithLocks(old(mem), pages, page)
      ensures Extends(before, mem, pages.start, pages.mapLen)
    {
      var dataPages, dataLen := pages.start + page, pages.mapLen - 2 * page;
      OnePageOn(pages.start, page);
      hide Aligned, Locked, DontDump, Extends, InRange, Unmap, AllMapped;
      LockedKeepsExtends(before, mem, pages.start, pages.mapLen, dataPages, dataLen);
      ok := Mlock(dataPages, dataLen, fault.Lock?);
      if ok {
        DontDumpKeepsExtends(before, mem, pages.start, pages.mapLen, dataPages, dataLen);
        ok := Madvise(dataPages, dataLen, fault.Advise?);
      }
    }

    /** The calls of `new` on the pages it mapped: if one fails the rest are not made, and the mapping goes again. */
    method Fortify(pages: Region, fault: Fault, ghost before: Memory) returns (ok: bool)
      requires LaidOut(pages, page) && Extends(before, mem, pages.start, pages.mapLen)
      modifies this
      ensures ok == !(fault.FrontGuard? || fault.BackGuard? || fault.Lock? || fault.Advise?)
      ensures ok ==> mem == Fortified(old(mem), pages, page)
      ensures !ok ==> mem == before
    {
      hide Aligned, WithGuards, WithLocks, Extends, Unmap;
      ok := SetGuards(pages, fault, before);
      if ok {
        ok := LockPages(pages, fault, before);
      }
      if !ok {
        Abandon(pages, before);
      }
    }

    /** `LockedPages::new`: the mapping laid out and fortified, or an error and memory as it was. */
    method New(len: nat, env: MapEnv) returns (r: Result<Region>)
      requires page > 0 && GoodEnv(mem, len, page, env)
      modifies this
      ensures (mem, r) == NewPages(old(mem), len, page, env)
    {
      if len == 0 {
        return Ok(EMPTY);
      }
      if env.fault.PageSize? {
        return Err(Hardening);
      }
      var layout := Layout(len, page);
      if layout.None? {
        return Err(Hardening);
      }
      var (dataLen, mapLen) := layout.value;
      if env.fault.Mmap? {
        return Err(Hardening);
      }
      var dataPages := env.at + page;
      var pages := Region(env.at, mapLen, dataPages + (dataLen - len), len);
      assert pages == RegionAt(env.at, len, page);
      RegionIsLaidOut(mem, len, page, env);
      MapExtends(mem, env.at, mapLen);
      hide LaidOut, Extends, Map, Fortified, GoodEnv;
      ghost var before := mem;
      mem := Map(mem, env.at, mapLen);
      var ok := Fortify(pages, env.fault, before);
      if !ok {
        return Err(Hardening);
      }
      return Ok(pages);
    }

    /** `SecretBuf::drop`, then `LockedPages::drop`: wipe, then unmap. */
    method Drop(r: Region)
      requires page > 0 && (r == EMPTY || Guarded(mem, r, page))
      modifies this
      ensures mem == Dropped(old(mem), r)
    {
      if r != EMPTY {
        WipedIsZero(mem, r, page);
      }
      mem := Store(mem, r.data, Zeros(r.len));
      if r.mapLen == 0 {
        return;
      }
      Munmap(r.start, r.mapLen);
    }

    /**
     * `SecretBuf::from_vec` of a vector of `n` bytes with room for `v.Length`: the
     * source, spare room included, is wiped whether or not there is memory for the secret.
     */
    method FromVec(v: array<byte>, n: nat, env: MapEnv) returns (r: Result<Region>)
      requires n <= v.Length && page > 0 && GoodEnv(mem, n, page, env)
      modifies this, v
      ensures (mem, r) == Filled(old(mem), old(v[..n]), page, env)
      ensures forall i :: 0 <= i < v.Length ==> v[i] == 0
    {
      r := New(n, env);
      if r.Ok? {
        mem := Store(mem, r.value.data, v[..n]);
      }
      var i := 0;
      while i < v.Length
        invariant 0 <= i <= v.Length
        invariant forall k :: 0 <= k < i ==> v[k] == 0
        modifies v
      {
        v[i] := 0;
        i := i + 1;
      }
    }

    /**
     * `SecretBuf::fill_with`: `written` is in the buffer when `fill` returns. If
     * `fill` fails, what it wrote is wiped and the mapping is gone.
     */
    method FillWith(written: Bytes, fails: bool, env: MapEnv) returns (r: Result<Region>)
      requires page > 0 && GoodEnv(mem, |written|, page, env)
      modifies this
      ensures NewPages(old(mem), |written|, page, env).1.Err? || !fails ==>
        (mem, r) == Filled(old(mem), written, page, env)
      ensures NewPages(old(mem), |written|, page, env).1.Ok? && fails ==>
        r == Err(Hardening) && mem == old(mem)
    {
      ghost var before := mem;
      var s :- New(|written|, env);
      ghost var made := mem;
      mem := Store(mem, s.data, written);
      if fails {
        if |written| > 0 {
          MadeIsGuarded(before, |written|, page, env);
          StoreKeepsGuards(made, s, written, page);
        }
        DropUndoesFill(before, written, page, env);
        Drop(s);
        return Err(Hardening);
      }
      return Ok(s);
    }

    /** `SecretBuf::random_with_limit`: nothing is mapped for a length above the limit. */
    method RandomWithLimit(len: nat, limit: nat, drawn: Bytes, fails: bool, env: MapEnv) returns (r: Result<Region>)
      requires page > 0 && |drawn| == len && GoodEnv(mem, len, page, env)
      modifies this
      ensures len > limit ==> r == Err(Format) && mem == old(mem)
      ensures len <= limit && fails ==> r == Err(Hardening)
      ensures len <= limit && !fails ==> (mem, r) == Filled(old(mem), drawn, page, env)
      ensures r.Err? ==> mem == old(mem)
    {
      if len > limit {
        return Err(Format);
      }
      r := FillWith(drawn, fails, env);
    }
  }

  // ---------------------------------------------------------------------
  // What a live secret is
  // ---------------------------------------------------------------------

  /** The layout of a mapping: whole pages, a guard on each side, the secret against the back one. */
  predicate LaidOut(r: Region, page: nat) {
    && page > 0 && r.len > 0
    && Aligned(r.start, page) && Aligned(r.mapLen, page) && Aligned(PastEnd(r), page)
    && r.start + page <= r.data
    && PastEnd(r) + page == r.start + r.mapLen
    && r.start + r.mapLen <= USIZE_MAX
  }

  /**
   * One byte of a live secret's mapping. On the data pages it can be used, is
   * locked and stays out of dumps; on the guard pages it cannot be touched.
   * Outside the secret itself it is zero.
   */
  predicate CellOk(m: Memory, r: Region, page: nat, a: nat) {
    && a in m
    && (if r.start + page <= a < PastEnd(r) then m[a].access && m[a].locked && !m[a].dumped
        else !m[a].access && !m[a].locked)
    && (!InRange(a, r.data, r.len) ==> m[a].value == 0)
  }

  ghost predicate Guarded(m: Memory, r: Region, page: nat) {
    LaidOut(r, page) && forall a :: InRange(a, r.start, r.mapLen) ==> CellOk(m, r, page, a)
  }

  /**
   * What a live secret has, byte by byte: its own bytes can be used, are locked and
   * stay out of dumps; the page before its data pages and the page right behind its
   * last byte cannot be touched; and all of it is whole pages.
   */
  lemma GuardedMeans(m: Memory, r: Region, page: nat, a: nat)
    requires Guarded(m, r, page)
    ensures page > 0 && r.start % page == 0 && r.mapLen % page == 0 && (r.data + r.len) % page == 0
    ensures r.start + page <= r.data && r.data + r.len + page == r.start + r.mapLen
    ensures r.data <= a < r.data + r.len ==> a in m && m[a].access && m[a].locked && !m[a].dumped
    ensures r.start <= a < r.start + page || r.data + r.len <= a < r.data + r.len + page ==>
      a in m && !m[a].access && !m[a].locked && m[a].value == 0
    ensures r.start + page <= a < r.data ==> a in m && m[a].value == 0
  {
    assert InRange(a, r.start, r.mapLen) ==> CellOk(m, r, page, a);
  }

  predicate Apart(r: Region, q: Region) {
    r.start + r.mapLen <= q.start || q.start + q.mapLen <= r.start
  }

  /** The bytes the owner of `r` reads. */
  function SecretOf(m: Memory, r: Region): (s: Bytes)
    ensures |s| == r.len
  {
    seq<byte>(r.len, i requires 0 <= i < r.len => ValueAt(m, r.data + i))
  }

  function ValueAt(m: Memory, a: nat): byte {
    if a in m then m[a].value else 0
  }

  lemma RegionIsLaidOut(m: Memory, len: nat, page: nat, env: MapEnv)
    requires page > 0 && len > 0 && GoodEnv(m, len, page, env) && Layout(len, page).Some?
    ensures LaidOut(RegionAt(env.at, len, page), page)
  {
    AlignedParts(env.at, len, page);
    hide Aligned;
  }

  /** No sum of the layout passes 64 bits, for any page size `sysconf` can report and any mapping it can get. */
  lemma LayoutFits(len: nat, page: nat, env: MapEnv, m: Memory)
    requires 0 < page < 0x8000_0000_0000_0000
    requires GoodEnv(m, len, page, env) && Layout(len, page).Some?
    ensures var (dataLen, mapLen) := Layout(len, page).value;
      && 2 * page <= USIZE_MAX
      && env.at + page + (dataLen - len) + len == env.at + page + dataLen
      && env.at + page + dataLen + page == env.at + mapLen <= USIZE_MAX
  {
  }

  lemma MadeIsGuarded(m: Memory, len: nat, page: nat, env: MapEnv)
    requires page > 0 && len > 0 && GoodEnv(m, len, page, env) && Layout(len, page).Some?
    ensures var r := RegionAt(env.at, len, page);
      Guarded(Made(m, r, page), r, page) && Extends(m, Made(m, r, page), r.start, r.mapLen)
  {
    var r := RegionAt(env.at, len, page);
    RegionIsLaidOut(m, len, page, env);
    assert Free(m, r.start, r.mapLen) && r.mapLen >= 2 * page;
    hide RoundUp, RegionAt, Layout, GoodEnv, Aligned;
    MadeFlags(m, r, page);
  }

  lemma MadeFlags(m: Memory, r: Region, page: nat)
    requires LaidOut(r, page) && Free(m, r.start, r.mapLen)
    ensures Extends(m, Made(m, r, page), r.start, r.mapLen)
    ensures forall a :: InRange(a, r.start, r.mapLen) ==> CellOk(Made(m, r, page), r, page, a)
  {
    hide Aligned;
    var made := Made(m, r, page);
    forall a: nat
      ensures a in made <==> a in m || InRange(a, r.start, r.mapLen)
      ensures InRange(a, r.start, r.mapLen) ==> CellOk(made, r, page, a) && made[a].value == 0
      ensures a in m && !InRange(a, r.start, r.mapLen) ==> made[a] == m[a]
    {
      MadeCell(m, r, page, a);
    }
  }

  /** What `new` does to one byte. */
  lemma MadeCell(m: Memory, r: Region, page: nat, a: nat)
    requires LaidOut(r, page)
    ensures var made := Made(m, r, page);
      if InRange(a, r.start, r.mapLen) then
        a in made && (
        var onData := r.start + page <= a < PastEnd(r);
        made[a] == Cell(0, onData, onData, !onData))
      else (a in made <==> a in m) && (a in m ==> made[a] == m[a])
  {
    hide Aligned;
  }

  lemma StoreKeepsGuards(m: Memory, r: Region, data: Bytes, page: nat)
    requires Guarded(m, r, page) && |data| == r.len
    ensures Guarded(Store(m, r.data, data), r, page)
    ensures SecretOf(Store(m, r.data, data), r) == data
  {
    hide Aligned;
    var stored := Store(m, r.data, data);
    forall a | InRange(a, r.start, r.mapLen) ensures CellOk(stored, r, page, a) {
      assert CellOk(m, r, page, a);
    }
    forall i | 0 <= i < r.len ensures SecretOf(stored, r)[i] == data[i] {
      assert InRange(r.data + i, r.start, r.mapLen);
      assert CellOk(m, r, page, r.data + i);
      assert InRange(r.data + i, r.data, |data|);
    }
  }

  /** Once the secret is wiped, its whole mapping is zero: nothing of it is left to unmap. */
  lemma WipedIsZero(m: Memory, r: Region, page: nat)
    requires Guarded(m, r, page)
    ensures var wiped := Store(m, r.data, Zeros(r.len));
      forall a :: InRange(a, r.start, r.mapLen) ==> a in wiped && wiped[a].value == 0
  {
    hide Aligned;
    var wiped := Store(m, r.data, Zeros(r.len));
    forall a | InRange(a, r.start, r.mapLen) ensures a in wiped && wiped[a].value == 0 {
      assert CellOk(m, r, page, a);
    }
  }

  /** A secret dropped right after it was made leaves the memory there was. */
  lemma DropUndoesFill(m: Memory, data: Bytes, page: nat, env: MapEnv)
    requires page > 0 && GoodEnv(m, |data|, page, env) && Filled(m, data, page, env).1.Ok?
    ensures Dropped(Filled(m, data, page, env).0, Filled(m, data, page, env).1.value) == m
  {
    if data == [] {
      assert Store(m, 0, data) == m && Store(m, 0, Zeros(0)) == m;
    } else {
      var r := RegionAt(env.at, |data|, page);
      MadeIsGuarded(m, |data|, page, env);
      assert r.len == |data| && LaidOut(r, page) && Free(m, r.start, r.mapLen);
      var made := Made(m, r, page);
      assert Filled(m, data, page, env) == (Store(made, r.data, data), Ok(r));
      assert r.mapLen > 0;
      hide Made, Extends, Unmap, Store, RegionAt, Layout, GoodEnv, RoundUp, NewPages, Filled, Guarded, LaidOut;
      WipedAgain(m, made, r, data, page);
      UnmappedAgain(m, Store(Store(made, r.data, data), r.data, Zeros(r.len)), r.start, r.mapLen);
    }
  }

  lemma WipedAgain(m: Memory, made: Memory, r: Region, data: Bytes, page: nat)
    requires LaidOut(r, page) && |data| == r.len && Extends(m, made, r.start, r.mapLen)
    ensures Extends(m, Store(Store(made, r.data, data), r.data, Zeros(r.len)), r.start, r.mapLen)
  {
    SecretIsInside(r, page);
    hide Aligned;
  }

  // ---------------------------------------------------------------------
  // Any run of creations, failures and drops
  // ---------------------------------------------------------------------

  type Id = nat

  datatype State = State(mem: Memory, live: map<Id, Region>)

  /** A secret made (or not, if a step fails), a secret whose filling fails, or a secret dropped. */
  datatype Event =
    | Create(id: Id, data: Bytes, env: MapEnv)
    | FailedFill(data: Bytes, env: MapEnv)
    | DropIt(id: Id)

  ghost predicate CanHappen(s: State, e: Event, page: nat)
    requires page > 0
  {
    match e
    case Create(id, data, env) => id !in s.live && GoodEnv(s.mem, |data|, page, env)
    case FailedFill(data, env) => GoodEnv(s.mem, |data|, page, env)
    case DropIt(id) => id in s.live
  }

  ghost function Happens(s: State, e: Event, page: nat): State
    requires page > 0 && CanHappen(s, e, page)
  {
    match e
    case Create(id, data, env) =>
      var (m, r) := Filled(s.mem, data, page, env);
      if r.Ok? then State(m, s.live[id := r.value]) else State(m, s.live)
    case FailedFill(data, env) =>
      var (m, r) := Filled(s.mem, data, page, env);
      if r.Ok? then State(Dropped(m, r.value), s.live) else State(m, s.live)
    case DropIt(id) => State(Dropped(s.mem, s.live[id]), s.live - {id})
  }

  /** Every live secret is guarded, and no two share a page. */
  ghost predicate AllGuarded(s: State, page: nat) {
    && (forall id :: id in s.live ==> s.live[id] == EMPTY || Guarded(s.mem, s.live[id], page))
    && (forall i, j :: i in s.live && j in s.live && i != j && s.live[i] != EMPTY && s.live[j] != EMPTY ==>
          Apart(s.live[i], s.live[j]))
  }

  /** A process without secrets is where a run may start, whatever its memory. */
  lemma NoSecrets(m: Memory, page: nat)
    ensures AllGuarded(State(m, map[]), page)
  {
  }

  /** Every byte outside the mapping `r`, and whether there is one, is as it was. */
  ghost predicate OnlyTouches(m: Memory, m': Memory, r: Region) {
    forall a: nat :: !InRange(a, r.start, r.mapLen) ==> (a in m <==> a in m') && (a in m ==> m'[a] == m[a])
  }

  lemma GuardedElsewhere(m: Memory, m': Memory, r: Region, q: Region, page: nat)
    requires Guarded(m, r, page) && OnlyTouches(m, m', q) && Apart(r, q)
    ensures Guarded(m', r, page) && SecretOf(m', r) == SecretOf(m, r)
  {
    hide Aligned;
    forall a | InRange(a, r.start, r.mapLen) ensures CellOk(m', r, page, a) && m'[a] == m[a] {
      assert CellOk(m, r, page, a) && !InRange(a, q.start, q.mapLen);
    }
    forall i | 0 <= i < r.len ensures SecretOf(m', r)[i] == SecretOf(m, r)[i] {
      var a := r.data + i;
      assert InRange(a, r.start, r.mapLen);
      assert CellOk(m, r, page, a) && CellOk(m', r, page, a);
      assert SecretOf(m', r)[i] == ValueAt(m', a) && SecretOf(m, r)[i] == ValueAt(m, a);
    }
  }

  /** A creation that fails, at any step, leaves memory exactly as it was; so does a filling that fails. */
  lemma FailureLeavesNothing(s: State, e: Event, page: nat)
    requires page > 0 && CanHappen(s, e, page)
    requires e.FailedFill? || (e.Create? && Filled(s.mem, e.data, page, e.env).1.Err?)
    ensures Happens(s, e, page) == s
  {
    if e.FailedFill? && Filled(s.mem, e.data, page, e.env).1.Ok? {
      DropUndoesFill(s.mem, e.data, page, e.env);
    }
  }

  /** A creation that succeeds makes a guarded mapping of fresh pages, holding the data, and touches nothing else. */
  lemma CreationGuards(m: Memory, data: Bytes, page: nat, env: MapEnv)
    requires page > 0 && GoodEnv(m, |data|, page, env) && Filled(m, data, page, env).1.Ok?
    ensures var (m', r) := Filled(m, data, page, env);
      && OnlyTouches(m, m', r.value)
      && (data == [] ==> r.value == EMPTY && m' == m)
      && (data != [] ==>
            && Guarded(m', r.value, page) && SecretOf(m', r.value) == data
            && Free(m, r.value.start, r.value.mapLen))
  {
    if data == [] {
      assert Store(m, 0, data) == m;
    } else {
      var r := RegionAt(env.at, |data|, page);
      MadeIsGuarded(m, |data|, page, env);
      assert Free(m, r.start, r.mapLen) && r.len == |data| && LaidOut(r, page);
      var made := Made(m, r, page);
      assert Filled(m, data, page, env) == (Store(made, r.data, data), Ok(r));
      hide *;
      StoreKeepsGuards(made, r, data, page);
      StoreIsInside(m, made, r, data, page);
    }
  }

  lemma StoreIsInside(m: Memory, made: Memory, r: Region, data: Bytes, page: nat)
    requires LaidOut(r, page) && |data| == r.len && Extends(m, made, r.start, r.mapLen)
    ensures OnlyTouches(m, Store(made, r.data, data), r)
  {
    SecretIsInside(r, page);
  }

  lemma SecretIsInside(r: Region, page: nat)
    requires LaidOut(r, page)
    ensures forall a :: InRange(a, r.data, r.len) ==> InRange(a, r.start, r.mapLen)
  {
    hide Aligned;
  }

  /** Dropping one secret takes away its own pages and changes nothing of any other. */
  lemma DropTouchesOwnPages(m: Memory, r: Region, page: nat)
    requires r == EMPTY || Guarded(m, r, page)
    ensures OnlyTouches(m, Dropped(m, r), r) && Free(Dropped(m, r), r.start, r.mapLen)
    ensures r == EMPTY ==> Dropped(m, r) == m
  {
    if r == EMPTY {
      assert Store(m, 0, Zeros(0)) == m;
    } else {
      SecretIsInside(r, page);
      hide Aligned;
    }
  }

  /** Free memory holds no live secret: a fresh mapping is apart from all of them. */
  lemma FreshIsApart(m: Memory, r: Region, q: Region, page: nat)
    requires Guarded(m, r, page) && q.mapLen > 0 && Free(m, q.start, q.mapLen)
    ensures Apart(r, q)
  {
    hide Aligned;
    var a := if q.start >= r.start then q.start else r.start;
    assert InRange(a, r.start, r.mapLen) ==> CellOk(m, r, page, a);
    assert InRange(a, q.start, q.mapLen) ==> a !in m;
  }

  /** Every event keeps every live secret guarded and apart, and keeps the bytes of those it does not drop. */
  lemma EventKeepsGuards(s: State, e: Event, page: nat)
    requires page > 0 && AllGuarded(s, page) && CanHappen(s, e, page)
    ensures var s' := Happens(s, e, page);
      && AllGuarded(s', page)
      && (forall id :: id in s.live && !(e.DropIt? && id == e.id) ==>
            id in s'.live && s'.live[id] == s.live[id] && SecretOf(s'.mem, s.live[id]) == SecretOf(s.mem, s.live[id]))
  {
    if e.Create? && Filled(s.mem, e.data, page, e.env).1.Ok? {
      var (m', r) := Filled(s.mem, e.data, page, e.env);
      CreationGuards(s.mem, e.data, page, e.env);
      hide Filled, GoodEnv, AllGuarded, OnlyTouches, Guarded, Free;
      JoinKeepsGuards(s, m', e.id, r.value, page);
    } else if e.DropIt? {
      DropKeepsGuards(s, e.id, page);
    } else {
      FailureLeavesNothing(s, e, page);
    }
  }

  /** A guarded mapping of fresh pages joins the live secrets. */
  lemma JoinKeepsGuards(s: State, m': Memory, id: Id, r: Region, page: nat)
    requires AllGuarded(s, page) && id !in s.live && OnlyTouches(s.mem, m', r)
    requires if r == EMPTY then m' == s.mem else Guarded(m', r, page) && Free(s.mem, r.start, r.mapLen)
    ensures AllGuarded(State(m', s.live[id := r]), page)
    ensures forall i :: i in s.live ==> SecretOf(m', s.live[i]) == SecretOf(s.mem, s.live[i])
  {
    hide Guarded, OnlyTouches, Free, SecretOf;
    forall i | i in s.live
      ensures s.live[i] == EMPTY || Guarded(m', s.live[i], page)
      ensures SecretOf(m', s.live[i]) == SecretOf(s.mem, s.live[i])
      ensures r == EMPTY || s.live[i] == EMPTY || Apart(s.live[i], r)
    {
      if s.live[i] == EMPTY {
        NoBytes(m', s.mem);
      } else if r != EMPTY {
        HasPages(m', r, page);
        FreshIsApart(s.mem, s.live[i], r, page);
        GuardedElsewhere(s.mem, m', s.live[i], r, page);
      }
    }
  }

  lemma NoBytes(m: Memory, m': Memory)
    ensures SecretOf(m, EMPTY) == SecretOf(m', EMPTY)
  {
  }

  lemma HasPages(m: Memory, r: Region, page: nat)
    requires Guarded(m, r, page)
    ensures r.mapLen > 0 && r != EMPTY
  {
  }

  lemma DropKeepsGuards(s: State, id: Id, page: nat)
    requires page > 0 && AllGuarded(s, page) && id in s.live
    ensures var s' := Happens(s, DropIt(id), page);
      && AllGuarded(s', page)
      && (forall i :: i in s.live && i != id ==> SecretOf(s'.mem, s.live[i]) == SecretOf(s.mem, s.live[i]))
  {
    var s' := Happens(s, DropIt(id), page);
    DropTouchesOwnPages(s.mem, s.live[id], page);
    hide Dropped, Guarded, OnlyTouches, Free;
    forall i | i in s.live && i != id && s.live[i] != EMPTY
      ensures Guarded(s'.mem, s.live[i], page) && SecretOf(s'.mem, s.live[i]) == SecretOf(s.mem, s.live[i])
    {
      if s.live[id] != EMPTY {
        GuardedElsewhere(s.mem, s'.mem, s.live[i], s.live[id], page);
      }
    }
  }

  ghost predicate CanRun(s: State, es: seq<Event>, page: nat)
    requires page > 0
    decreases |es|
  {
    es == [] || (CanHappen(s, es[0], page) && CanRun(Happens(s, es[0], page), es[1..], page))
  }

  ghost function After(s: State, es: seq<Event>, page: nat): State
    requires page > 0 && CanRun(s, es, page)
    decreases |es|
  {
    if es == [] then s else After(Happens(s, es[0], page), es[1..], page)
  }

  /** Over any run of creations, failures at any step, and drops. */
  lemma {:induction false} EveryRunGuards(s: State, es: seq<Event>, page: nat)
    requires page > 0 && AllGuarded(s, page) && CanRun(s, es, page)
    ensures AllGuarded(After(s, es, page), page)
    decreases |es|
  {
    if es != [] {
      EventKeepsGuards(s, es[0], page);
      hide AllGuarded, Happens, CanHappen;
      EveryRunGuards(Happens(s, es[0], page), es[1..], page);
    }
  }

  ghost predicate NeverDropped(es: seq<Event>, id: Id) {
    forall i :: 0 <= i < |es| ==> es[i] != DropIt(id)
  }

  /** A secret keeps its place and its bytes through any run that does not drop it. */
  lemma {:induction false} SecretsLast(s: State, es: seq<Event>, page: nat, id: Id)
    requires page > 0 && AllGuarded(s, page) && CanRun(s, es, page)
    requires id in s.live && NeverDropped(es, id)
    ensures var s' := After(s, es, page);
      && id in s'.live && s'.live[id] == s.live[id]
      && SecretOf(s'.mem, s.live[id]) == SecretOf(s.mem, s.live[id])
    decreases |es|
  {
    if es != [] {
      EventKeepsGuards(s, es[0], page);
      assert es[0] != DropIt(id);
      assert NeverDropped(es[1..], id) by {
        forall i | 0 <= i < |es[1..]| ensures es[1..][i] != DropIt(id) {
          assert es[1..][i] == es[i + 1];
        }
      }
      hide AllGuarded, Happens, CanHappen, SecretOf;
      SecretsLast(Happens(s, es[0], page), es[1..], page, id);
    }
  }
}
