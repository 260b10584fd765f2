/** The byte-wise order in which `persist` writes names, and sorting by it. */
module NameOrder {
  import opened Base

  /** `a` comes before `b`, or is `b`. */
  predicate LexLe(a: Bytes, b: Bytes) {
    a == [] || (b != [] && (a[0] < b[0] || (a[0] == b[0] && LexLe(a[1..], b[1..]))))
  }

  predicate LexLt(a: Bytes, b: Bytes) {
    LexLe(a, b) && a != b
  }

  lemma {:induction false} LexAntisymmetric(a: Bytes, b: Bytes)
    requires LexLe(a, b) && LexLe(b, a)
    ensures a == b
  {
    if a != [] {
      LexAntisymmetric(a[1..], b[1..]);
      assert a == [a[0]] + a[1..] && b == [b[0]] + b[1..];
    }
  }

  lemma {:induction false} LexTotal(a: Bytes, b: Bytes)
    ensures LexLe(a, b) || LexLe(b, a)
  {
    if a != [] && b != [] {
      LexTotal(a[1..], b[1..]);
    }
  }

  lemma {:induction false} LexTransitive(a: Bytes, b: Bytes, c: Bytes)
    requires LexLe(a, b) && LexLe(b, c)
    ensures LexLe(a, c)
  {
    if a != [] && b != [] && a[0] == b[0] == c[0] {
      LexTransitive(a[1..], b[1..], c[1..]);
    }
  }

  predicate IsLeast(m: Bytes, names: set<Bytes>) {
    m in names && forall n :: n in names ==> LexLe(m, n)
  }

  lemma {:induction false} LeastExists(names: set<Bytes>) returns (m: Bytes)
    requires names != {}
    ensures IsLeast(m, names)
  {
    var x :| x in names;
    m := x;
    var rest := names - {x};
    LexTotal(x, x);
    assert forall n :: n in names ==> n == x || n in rest;
    if rest != {} {
      var y := LeastExists(rest);
      LexTotal(x, y);
      if LexLe(x, y) {
        forall n | n in names ensures LexLe(x, n) {
          if n != x { LexTransitive(x, y, n); }
        }
      } else {
        m := y;
      }
    }
  }

  /** The first of `names`. */
  function Least(names: set<Bytes>): (m: Bytes)
    requires names != {}
    ensures IsLeast(m, names)
  {
    assert exists m :: IsLeast(m, names) by {
      var m := LeastExists(names);
    }
    assert forall a, b :: IsLeast(a, names) && IsLeast(b, names) ==> a == b by {
      forall a, b | IsLeast(a, names) && IsLeast(b, names) ensures a == b {
        LexAntisymmetric(a, b);
      }
    }
    var m :| IsLeast(m, names);
    m
  }

  /** `names` in order, as `names.sort()` leaves them. */
  function Sorted(names: set<Bytes>): (s: seq<Bytes>)
    ensures forall n :: n in s <==> n in names
    ensures Ascending(s)
  {
    if names == {} then [] else
      var m := Least(names);
      [m] + Sorted(names - {m})
  }

  predicate Ascending(s: seq<Bytes>) {
    forall i, j :: 0 <= i < j < |s| ==> LexLt(s[i], s[j])
  }

  /** There is only one ascending list of a set of names. */
  lemma {:induction false} AscendingIsSorted(s: seq<Bytes>, names: set<Bytes>)
    requires Ascending(s)
    requires forall n :: n in s <==> n in names
    ensures s == Sorted(names)
  {
    if s == [] {
      assert forall n :: n in names ==> n in s;
    } else {
      assert s[0] in names;
      var m := Least(names);
      assert m in s;
      var k :| 0 <= k < |s| && s[k] == m;
      if k > 0 {
        assert LexLe(s[0], s[k]);
        LexAntisymmetric(s[0], m);
      }
      assert s == [m] + s[1..];
      assert forall i :: 1 <= i < |s| ==> LexLt(s[0], s[i]);
      AscendingIsSorted(s[1..], names - {m});
    }
  }
}
