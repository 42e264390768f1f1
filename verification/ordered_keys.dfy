/**
 * The ordered key space of one column of the storage engine. The engine is an
 * ordered key-value store; keys encode sequence numbers big-endian, so their
 * byte order is numeric order and the model works on the numbers directly.
 * `SeekGE`, `SeekLT` and `KeysInRange` are the iterator moves the storage code
 * uses: seek to the first key at or after a target, take the last key below an
 * exclusive upper bound, and walk a bounded range forward.
 */
module OrderedKeys {
  import opened Types
  import opened Wrappers

  predicate IsLeast(k: U64, s: set<U64>) {
    k in s && forall x | x in s :: k <= x
  }

  predicate IsGreatest(k: U64, s: set<U64>) {
    k in s && forall x | x in s :: x <= k
  }

  lemma HasElement(s: set<U64>)
    requires s != {}
    ensures exists x :: x in s
  {
    if forall x :: x !in s {
      assert false;
    }
  }

  lemma LeastExists(s: set<U64>)
    requires s != {}
    ensures exists k :: IsLeast(k, s)
    decreases |s|
  {
    HasElement(s);
    var y :| y in s;
    if s == {y} {
      assert IsLeast(y, s);
    } else {
      var rest := s - {y};
      assert |rest| < |s|;
      LeastExists(rest);
      var m :| IsLeast(m, rest);
      var least := if y < m then y else m;
      forall x | x in s ensures least <= x {
        if x != y { assert x in rest; }
      }
      assert IsLeast(least, s);
    }
  }

  lemma GreatestExists(s: set<U64>)
    requires s != {}
    ensures exists k :: IsGreatest(k, s)
    decreases |s|
  {
    HasElement(s);
    var y :| y in s;
    if s == {y} {
      assert IsGreatest(y, s);
    } else {
      var rest := s - {y};
      assert |rest| < |s|;
      GreatestExists(rest);
      var m :| IsGreatest(m, rest);
      var greatest := if y < m then m else y;
      forall x | x in s ensures x <= greatest {
        if x != y { assert x in rest; }
      }
      assert IsGreatest(greatest, s);
    }
  }

  function Least(s: set<U64>): (k: U64)
    requires s != {}
    ensures IsLeast(k, s)
  {
    LeastExists(s);
    var k :| IsLeast(k, s); k
  }

  function Greatest(s: set<U64>): (k: U64)
    requires s != {}
    ensures IsGreatest(k, s)
  {
    GreatestExists(s);
    var k :| IsGreatest(k, s); k
  }

  /** A key at least as large as every other key is the greatest. */
  lemma GreatestIs(s: set<U64>, k: U64)
    requires IsGreatest(k, s)
    ensures Greatest(s) == k
  {
  }

  /** The key an iterator lands on after seeking to `target`: the smallest key at or after it. */
  function SeekGE(keys: set<U64>, target: int): (r: Option<U64>)
    ensures r.None? <==> forall k | k in keys :: k < target
    ensures r.Some? ==> r.value in keys && target <= r.value
    ensures r.Some? ==> forall k | k in keys && target <= k :: r.value <= k
  {
    var above := set k | k in keys && target <= k;
    if above == {} then
      assert forall k | k in keys :: k < target by {
        forall k | k in keys ensures k < target { assert k !in above; }
      }
      None
    else
      var m := Least(above);
      assert forall k | k in keys && target <= k :: m <= k by {
        forall k | k in keys && target <= k ensures m <= k { assert k in above; }
      }
      Some(m)
  }

  /** The key `Last()` finds under an exclusive upper bound: the greatest key below `bound`. */
  function SeekLT(keys: set<U64>, bound: int): (r: Option<U64>)
    ensures r.None? <==> forall k | k in keys :: bound <= k
    ensures r.Some? ==> r.value in keys && r.value < bound
    ensures r.Some? ==> forall k | k in keys && k < bound :: k <= r.value
  {
    var below := set k | k in keys && k < bound;
    if below == {} then
      assert forall k | k in keys :: bound <= k by {
        forall k | k in keys ensures bound <= k { assert k !in below; }
      }
      None
    else
      var m := Greatest(below);
      assert forall k | k in keys && k < bound :: k <= m by {
        forall k | k in keys && k < bound ensures k <= m { assert k in below; }
      }
      Some(m)
  }

  /** The keys a forward scan of [lo, hi) visits, in the order it visits them. */
  function KeysInRange(keys: set<U64>, lo: int, hi: int): (r: seq<U64>)
    ensures forall i | 0 <= i < |r| :: r[i] in keys && lo <= r[i] < hi
    ensures forall i, j | 0 <= i < j < |r| :: r[i] < r[j]
    ensures forall k | k in keys && lo <= k < hi :: k in r
    ensures hi <= lo ==> r == []
    decreases hi - lo
  {
    match SeekGE(keys, lo)
    case None => []
    case Some(k) => if hi <= k then [] else [k] + KeysInRange(keys, k + 1, hi)
  }

  /** A forward scan of [lo, hi) visits as many keys as the range holds. */
  lemma KeysInRangeCount(keys: set<U64>, lo: int, hi: int)
    ensures |KeysInRange(keys, lo, hi)| == |KeysBetween(keys, lo, hi)|
  {
    var r := KeysInRange(keys, lo, hi);
    assert Elements(r) == KeysBetween(keys, lo, hi);
    DistinctCount(r);
  }

  /** The keys in [lo, hi). */
  function KeysBetween(keys: set<U64>, lo: int, hi: int): set<U64> {
    set k | k in keys && lo <= k < hi
  }

  /** The keys a sequence holds. */
  function Elements(xs: seq<U64>): set<U64> {
    set k | k in xs
  }

  /** The keys of a non-empty sequence: its head and the keys of its tail. */
  lemma ElementsOfCons(xs: seq<U64>)
    requires xs != []
    ensures Elements(xs) == Elements(xs[1..]) + {xs[0]}
  {
    var tail := xs[1..];
    forall k | k in Elements(xs) ensures k in Elements(tail) + {xs[0]} {
      var i :| 0 <= i < |xs| && xs[i] == k;
      if i > 0 {
        assert tail[i - 1] == k;
      }
    }
    forall k | k in Elements(tail) + {xs[0]} ensures k in Elements(xs) {
      if k != xs[0] {
        var j :| 0 <= j < |tail| && tail[j] == k;
        assert xs[j + 1] == k;
      }
    }
  }

  /** A strictly ascending sequence has as many elements as its set of elements. */
  lemma {:induction false} DistinctCount(xs: seq<U64>)
    requires forall i, j | 0 <= i < j < |xs| :: xs[i] < xs[j]
    ensures |Elements(xs)| == |xs|
  {
    if xs == [] {
      assert Elements(xs) == {};
    } else {
      var tail := xs[1..];
      DistinctCount(tail);
      forall k | k in tail ensures xs[0] < k {
        var j :| 0 <= j < |tail| && tail[j] == k;
        assert tail[j] == xs[j + 1];
      }
      assert xs[0] !in Elements(tail);
      ElementsOfCons(xs);
    }
  }
}
