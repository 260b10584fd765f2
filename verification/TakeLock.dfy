/**
 * `take_lock`, seen from one process: three attempts at a lock file that others
 * may lock, replace or remove at any moment.
 */
module TakeLock {
  import opened Base
  import Protocol = LockProtocol

  type Ino = Protocol.Ino

  const TRIES := Protocol.TRIES

  /** What opening the lock file gives: the file, an error, or no permission to write it. */
  datatype Opened = File(ino: Ino) | ReadOnlySystem | Denied(readable: Reopened) | OpenFails

  /** What opening it again, only to read, gives. */
  datatype Reopened = Readable(ino: Ino) | Missing | ReopenFails

  datatype Tried = Locked | Busy | TryFails

  /** What is at the lock path when it is looked at again. */
  datatype Seen = Now(ino: Ino) | Nothing | LookFails

  /** What the system answers in one attempt, as far as it gets. */
  datatype Attempt = Attempt(open: Opened, try: Tried, look: Seen)

  /** `open_lock_file`: `None` if there is no lock file and none can be made. */
  function OpenLockFile(o: Opened): Result<Option<Ino>> {
    match o
    case File(ino) => Ok(Some(ino))
    case ReadOnlySystem => Ok(None)
    case Denied(Readable(ino)) => Ok(Some(ino))
    case Denied(Missing) => Ok(None)
    case Denied(ReopenFails) => Err(Io)
    case OpenFails => Err(Io)
  }

  /** `is_same_file`. */
  function IsSameFile(f: Ino, s: Seen): Result<bool> {
    match s
    case Now(ino) => Ok(ino == f)
    case Nothing => Ok(false)
    case LookFails => Err(Io)
  }

  /** The system opens `f` for this attempt, to write or only to read. */
  predicate Opens(a: Attempt, f: Ino) {
    a.open == File(f) || a.open == Denied(Readable(f))
  }

  /** The attempt locks `f`, and `f` is what is at the path. */
  predicate Takes(a: Attempt, f: Ino) {
    Opens(a, f) && a.try.Locked? && a.look == Now(f)
  }

  /** The attempt locks a file that is at the path no longer. */
  ghost predicate Outrun(a: Attempt) {
    exists f :: Opens(a, f) && a.try.Locked? && (a.look.Nothing? || (a.look.Now? && a.look.ino != f))
  }

  predicate CannotWrite(a: Attempt) {
    a.open.ReadOnlySystem? || a.open == Denied(Missing)
  }

  /** The kernel gives no lock twice, not even to one process. */
  ghost predicate Exclusive(mine: set<Ino>, a: Attempt) {
    forall f :: Opens(a, f) && a.try.Locked? ==> f !in mine
  }

  /** Attempt `k` is made: all before it were outrun. */
  ghost predicate Made(tries: seq<Attempt>, k: int) {
    0 <= k <= |tries| && forall j :: 0 <= j < k ==> Outrun(tries[j])
  }

  /** The locks a process holds. */
  class Process {
    var mine: set<Ino>

    constructor ()
      ensures mine == {}
    {
      mine := {};
    }

    /**
     * `take_lock`. It locks the file at the path exactly if one of its attempts does,
     * each before it having been outrun; it gives no lock exactly if an attempt made
     * finds the directory not writable; and the process then holds one lock more
     * exactly if it was given one.
     */
    method TakeLock(tries: seq<Attempt>) returns (r: Result<Option<Ino>>)
      requires |tries| == TRIES && forall i :: 0 <= i < TRIES ==> Exclusive(mine, tries[i])
      modifies this
      ensures forall f: Ino :: r == Ok(Some(f)) <==> exists k :: 0 <= k < TRIES && Made(tries, k) && Takes(tries[k], f)
      ensures r == Ok(None) <==> exists k :: 0 <= k < TRIES && Made(tries, k) && CannotWrite(tries[k])
      ensures r.Err? ==> r == Err(Io)
      ensures mine == old(mine) + if r.Ok? && r.value.Some? then {r.value.value} else {}
    {
      for i := 0 to TRIES
        invariant mine == old(mine) && Made(tries, i)
      {
        assert Exclusive(mine, tries[i]);
        var lockFile :- OpenLockFile(tries[i].open);
        if lockFile.None? {
          return Ok(None);
        }
        var f := lockFile.value;
        assert Opens(tries[i], f);
        match tries[i].try {
          case Locked => mine := mine + {f};
          case Busy => return Err(Io);
          case TryFails => return Err(Io);
        }
        var same := IsSameFile(f, tries[i].look);
        if same.Err? {
          mine := mine - {f};
          return Err(same.error);
        }
        if same.value {
          return Ok(Some(f));
        }
        mine := mine - {f};
      }
      return Err(Io);
    }
  }

  // ---------------------------------------------------------------------
  // As steps of the protocol
  // ---------------------------------------------------------------------

  // What a handle does next, by what the system answers.

  function OpenStep(h: Protocol.Pid, a: Attempt): Protocol.Action {
    match OpenLockFile(a.open)
    case Ok(Some(f)) => Protocol.OpenLock(h, f)
    case Ok(None) => Protocol.OpenLockless(h)
    case Err(_) => Protocol.Leave(h)
  }

  function TryStep(h: Protocol.Pid, a: Attempt): Protocol.Action {
    if a.try.TryFails? then Protocol.Leave(h) else Protocol.TryLock(h)
  }

  function LookStep(h: Protocol.Pid, a: Attempt): Protocol.Action {
    if a.look.LookFails? then Protocol.Leave(h) else Protocol.Check(h)
  }

  /** The answer to the try is what the lock's owner says, and the answer to the look is what is at the path. */
  predicate Answers(a: Attempt, f: Ino, s2: Protocol.System, s3: Protocol.System) {
    && (a.try.Busy? ==> f in s2.owner) && (a.try.Locked? ==> f !in s2.owner)
    && (a.look.Now? ==> s3.lockPath == Some(a.look.ino)) && (a.look.Nothing? ==> s3.lockPath == None)
  }

  predicate At(s: Protocol.System, h: Protocol.Pid, p: Protocol.Phase) {
    h in s.procs && s.procs[h] == p
  }

  ghost predicate OwnsNothing(s: Protocol.System, h: Protocol.Pid) {
    forall i :: i in s.owner ==> s.owner[i] != h
  }

  lemma OpeningEnds(s: Protocol.System, h: Protocol.Pid, left: nat, a: Attempt)
    requires At(s, h, Protocol.Opening(left)) && Protocol.Enabled(s, OpenStep(h, a))
    ensures var p := Protocol.Apply(s, OpenStep(h, a)).procs[h];
      match OpenLockFile(a.open)
      case Ok(Some(f)) => p == Protocol.Locking(f, left, s.replaced)
      case Ok(None) => p == Protocol.Lockless
      case Err(_) => p == Protocol.Gone
  {
  }

  lemma LockingEnds(s: Protocol.System, h: Protocol.Pid, f: Ino, left: nat, since: nat, a: Attempt)
    requires At(s, h, Protocol.Locking(f, left, since))
    requires (a.try.Busy? ==> f in s.owner) && (a.try.Locked? ==> f !in s.owner)
    ensures Protocol.Enabled(s, TryStep(h, a))
    ensures var t := Protocol.Apply(s, TryStep(h, a));
      && h in t.procs
      && t.procs[h] == (if a.try.Locked? then Protocol.Checking(f, left, since) else Protocol.Gone)
      && t.owner == if a.try.Locked? then s.owner[f := h] else s.owner
  {
  }

  lemma CheckingEnds(s: Protocol.System, h: Protocol.Pid, f: Ino, left: nat, since: nat, a: Attempt)
    requires At(s, h, Protocol.Checking(f, left, since))
    requires (a.look.Now? ==> s.lockPath == Some(a.look.ino)) && (a.look.Nothing? ==> s.lockPath == None)
    ensures Protocol.Enabled(s, LookStep(h, a))
    ensures var t := Protocol.Apply(s, LookStep(h, a));
      h in t.procs &&
      if a.look == Now(f) then t.procs[h] == Protocol.Reading(f) && t.owner == s.owner
      else
        && t.procs[h] == (if left > 1 && !a.look.LookFails? then Protocol.Opening(left - 1) else Protocol.Gone)
        && t.owner == s.owner - {f}
  {
  }

  /** Three states in which handle `h` takes the steps of attempt `a`, others having moved in between. */
  ghost predicate Attempts(a: Attempt, h: Protocol.Pid, left: nat, s1: Protocol.System, s2: Protocol.System,
                           s3: Protocol.System) {
    && At(s1, h, Protocol.Opening(left)) && Protocol.Enabled(s1, OpenStep(h, a))
    && match OpenLockFile(a.open)
       case Ok(Some(f)) =>
         && At(s2, h, Protocol.Locking(f, left, s1.replaced))
         && (a.try.Locked? ==> At(s3, h, Protocol.Checking(f, left, s1.replaced)))
         && Answers(a, f, s2, s3)
       case _ => true
  }

  /** The state after the last step that the attempt gets to. */
  ghost function Ended(a: Attempt, h: Protocol.Pid, left: nat, s1: Protocol.System, s2: Protocol.System,
                       s3: Protocol.System): Protocol.System
    requires Attempts(a, h, left, s1, s2, s3)
  {
    if OpenLockFile(a.open).Err? || OpenLockFile(a.open).value.None? then Protocol.Apply(s1, OpenStep(h, a))
    else
      var f := OpenLockFile(a.open).value.value;
      LockingEnds(s2, h, f, left, s1.replaced, a);
      if !a.try.Locked? then Protocol.Apply(s2, TryStep(h, a))
      else
        CheckingEnds(s3, h, f, left, s1.replaced, a);
        Protocol.Apply(s3, LookStep(h, a))
  }

  /** Where a handle is after an attempt, told from the attempt alone. */
  ghost predicate EndsAs(a: Attempt, left: nat, p: Protocol.Phase) {
    && (forall f: Ino :: Takes(a, f) <==> p == Protocol.Reading(f))
    && (CannotWrite(a) <==> p == Protocol.Lockless)
    && (Outrun(a) && left > 1 ==> p == Protocol.Opening(left - 1))
    && (Outrun(a) && left <= 1 ==> p == Protocol.Gone)
    && (p.Reading? || p.Lockless? || p.Gone? || (p.Opening? && Outrun(a)))
  }

  /**
   * An attempt, whatever the system answers, is up to three steps of the protocol, and
   * they end as it does: live at the file it took, lockless, with one try less, or
   * gone; with the lock in the first case only.
   */
  lemma AttemptIsThreeSteps(a: Attempt, h: Protocol.Pid, left: nat, s1: Protocol.System, s2: Protocol.System,
                            s3: Protocol.System)
    requires Attempts(a, h, left, s1, s2, s3)
    requires Protocol.LocksHeld(s1) && Protocol.LocksHeld(s2) && Protocol.LocksHeld(s3)
    ensures var t := Ended(a, h, left, s1, s2, s3);
      && h in t.procs
      && EndsAs(a, left, t.procs[h])
      && (!t.procs[h].Reading? ==> OwnsNothing(t, h))
  {
    hide Protocol.Apply, Protocol.Enabled, Protocol.LocksHeld;
    var t := Ended(a, h, left, s1, s2, s3);
    OpeningEnds(s1, h, left, a);
    if OpenLockFile(a.open).Ok? && OpenLockFile(a.open).value.Some? {
      var f := OpenLockFile(a.open).value.value;
      assert Opens(a, f);
      LockingEnds(s2, h, f, left, s1.replaced, a);
      if a.try.Locked? {
        CheckingEnds(s3, h, f, left, s1.replaced, a);
        OwnsOnly(s3, h);
      } else {
        OwnsOnly(s2, h);
      }
    } else {
      OpenKeepsOwners(s1, h, a);
      OwnsOnly(s1, h);
    }
  }

  lemma OpenKeepsOwners(s: Protocol.System, h: Protocol.Pid, a: Attempt)
    requires h in s.procs && s.procs[h].Opening? && Protocol.Enabled(s, OpenStep(h, a))
    ensures h in Protocol.Apply(s, OpenStep(h, a)).procs && Protocol.Apply(s, OpenStep(h, a)).owner == s.owner
  {
  }

  /** A handle owns no lock but the one it has open, and that only from its try on. */
  lemma OwnsOnly(s: Protocol.System, h: Protocol.Pid)
    requires Protocol.LocksHeld(s) && h in s.procs
    ensures !Protocol.Owning(s.procs[h]) ==> OwnsNothing(s, h)
    ensures Protocol.Owning(s.procs[h]) ==> forall i :: i in s.owner && s.owner[i] == h ==> i == s.procs[h].fd
  {
  }
}
