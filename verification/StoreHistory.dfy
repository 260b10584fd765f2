/** The changes written to a store file, one after the other, and the file they add up to. */
module StoreHistory {
  import opened Base
  import opened StoreFormat

  /**
   * What one write changes. `Reseal` gives each entry a new blob by its name and old
   * blob, so it says of which contents it is a re-encryption.
   */
  datatype Change =
    | Create(created: Contents)
    | Set(name: Bytes, blob: Bytes)
    | Remove(name: Bytes)
    | Reseal(salt: Bytes, keyId: Bytes, blobs: map<(Bytes, Bytes), Bytes>)

  /** A change that was written, and whether the call that wrote it returned `Ok`. */
  datatype Entry = Entry(change: Change, acked: bool)

  function Applied(c: Contents, ch: Change): Contents {
    match ch
    case Create(_) => c
    case Set(name, blob) => c.(entries := c.entries[name := blob])
    case Remove(name) => c.(entries := c.entries - {name})
    case Reseal(salt, keyId, blobs) =>
      Contents(salt, keyId, map n | n in c.entries ::
                 if (n, c.entries[n]) in blobs then blobs[(n, c.entries[n])] else c.entries[n])
  }

  predicate Writable(c: Contents) {
    ValidContents(c) && Serialized(c).Ok?
  }

  function ImageOf(c: Contents): Bytes {
    if Serialized(c).Ok? then Serialized(c).value else []
  }

  /** The file after a change. A store is only created where there is none, and only a readable one is changed. */
  function NextFile(file: Option<Bytes>, ch: Change): Option<Bytes> {
    match file
    case None => if ch.Create? then Some(ImageOf(ch.created)) else None
    case Some(d) =>
      if !ch.Create? && ReadStore(d).Ok? then Some(ImageOf(Applied(ReadStore(d).value, ch))) else file
  }

  function FileAfter(start: Option<Bytes>, chs: seq<Change>): Option<Bytes> {
    if chs == [] then start else NextFile(FileAfter(start, chs[..|chs| - 1]), chs[|chs| - 1])
  }

  function Changes(log: seq<Entry>): (chs: seq<Change>)
    ensures |chs| == |log|
  {
    if log == [] then [] else Changes(log[..|log| - 1]) + [log[|log| - 1].change]
  }

  /** The changes that were acknowledged, in order. */
  function Acked(log: seq<Entry>): seq<Change> {
    if log == [] then []
    else Acked(log[..|log| - 1]) + if log[|log| - 1].acked then [log[|log| - 1].change] else []
  }

  predicate AllAcked(log: seq<Entry>) {
    forall i :: 0 <= i < |log| ==> log[i].acked
  }

  lemma {:induction false} AllAckedChanges(log: seq<Entry>)
    requires AllAcked(log)
    ensures Changes(log) == Acked(log)
  {
    if log != [] {
      AllAckedChanges(log[..|log| - 1]);
    }
  }

  lemma OneMore(start: Option<Bytes>, log: seq<Entry>, e: Entry)
    ensures FileAfter(start, Changes(log + [e])) == NextFile(FileAfter(start, Changes(log)), e.change)
    ensures Acked(log + [e]) == Acked(log) + if e.acked then [e.change] else []
    ensures AllAcked(log + [e]) <==> AllAcked(log) && e.acked
  {
    var all := log + [e];
    assert all[..|all| - 1] == log && all[|all| - 1] == e;
    assert Changes(all)[..|all| - 1] == Changes(log);
    if AllAcked(all) {
      forall i | 0 <= i < |log| ensures log[i].acked {
        assert all[i] == log[i];
      }
    }
  }
}
