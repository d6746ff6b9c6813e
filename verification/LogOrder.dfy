/** The lexicographic order on log IDs: the order of the directory and of the binary search. */
module LogOrder {
  import opened ByteStrings

  datatype Ordering = Less | Equal | Greater

  /** `slice::cmp` on byte slices. */
  function Compare(a: Bytes, b: Bytes): Ordering {
    if a == [] then (if b == [] then Equal else Less)
    else if b == [] then Greater
    else if a[0] < b[0] then Less
    else if a[0] > b[0] then Greater
    else Compare(a[1..], b[1..])
  }

  predicate Lt(a: Bytes, b: Bytes) { Compare(a, b) == Less }

  lemma {:induction false} CompareEqual(a: Bytes, b: Bytes)
    ensures Compare(a, b) == Equal <==> a == b
  {
    if a != [] && b != [] && a[0] == b[0] {
      CompareEqual(a[1..], b[1..]);
      assert a == [a[0]] + a[1..] && b == [b[0]] + b[1..];
    }
  }

  lemma {:induction false} CompareFlips(a: Bytes, b: Bytes)
    ensures Compare(a, b) == Less <==> Compare(b, a) == Greater
  {
    if a != [] && b != [] && a[0] == b[0] {
      CompareFlips(a[1..], b[1..]);
    }
  }

  lemma {:induction false} LtTransitive(a: Bytes, b: Bytes, c: Bytes)
    requires Lt(a, b) && Lt(b, c)
    ensures Lt(a, c)
  {
    if a != [] && c != [] && a[0] == b[0] == c[0] {
      LtTransitive(a[1..], b[1..], c[1..]);
    }
  }

  lemma LtTotal(a: Bytes, b: Bytes)
    ensures a == b || Lt(a, b) || Lt(b, a)
    ensures !(Lt(a, b) && Lt(b, a)) && !Lt(a, a)
  {
    CompareEqual(a, b);
    CompareEqual(a, a);
    CompareFlips(a, b);
    CompareFlips(b, a);
  }

  /** Lexicographic order by unsigned bytes: at the first difference the smaller byte, or the end of `a`. */
  ghost predicate Precedes(a: Bytes, b: Bytes) {
    exists k: nat :: PrecedesAt(a, b, k)
  }

  ghost predicate PrecedesAt(a: Bytes, b: Bytes, k: nat) {
    k <= |a| && k <= |b| && a[..k] == b[..k] &&
    ((k == |a| && k < |b|) || (k < |a| && k < |b| && a[k] < b[k]))
  }

  lemma SameHead(a: Bytes, b: Bytes, k: nat)
    requires PrecedesAt(a, b, k)
    ensures k == 0 || a[0] == b[0]
  {
    if k > 0 {
      assert a[..k][0] == b[..k][0];
    }
  }

  lemma {:induction false} LtIsPrecedes(a: Bytes, b: Bytes)
    ensures Lt(a, b) <==> Precedes(a, b)
  {
    if a != [] && b != [] && a[0] == b[0] {
      LtIsPrecedes(a[1..], b[1..]);
      if Precedes(a[1..], b[1..]) {
        var k: nat :| PrecedesAt(a[1..], b[1..], k);
        assert a[..k + 1] == [a[0]] + a[1..][..k] && b[..k + 1] == [b[0]] + b[1..][..k];
        assert PrecedesAt(a, b, k + 1);
      }
      if Precedes(a, b) {
        var k: nat :| PrecedesAt(a, b, k);
        assert a[1..][..k - 1] == a[..k][1..] && b[1..][..k - 1] == b[..k][1..];
        assert PrecedesAt(a[1..], b[1..], k - 1);
      }
    } else {
      if Lt(a, b) {
        assert PrecedesAt(a, b, 0);
      }
      if Precedes(a, b) {
        var k: nat :| PrecedesAt(a, b, k);
        SameHead(a, b, k);
      }
    }
  }

  /** For log IDs, which have one length, there is a first byte that differs, and it is smaller. */
  lemma SameLengthPrecedes(a: Bytes, b: Bytes)
    requires |a| == |b|
    ensures Lt(a, b) <==> exists k: nat :: k < |a| && a[..k] == b[..k] && a[k] < b[k]
  {
    LtIsPrecedes(a, b);
    if Precedes(a, b) {
      var k: nat :| PrecedesAt(a, b, k);
      assert a[..k] == b[..k] && a[k] < b[k];
    }
    if k: nat :| k < |a| && a[..k] == b[..k] && a[k] < b[k] {
      assert PrecedesAt(a, b, k);
    }
  }

  ghost predicate StrictlySorted(ids: seq<Bytes>) {
    forall i, j :: 0 <= i < j < |ids| ==> Lt(ids[i], ids[j])
  }

  /** A set of keys has only one sorted listing: iteration over an ordered map is determined. */
  lemma {:induction false} SortedUnique(a: seq<Bytes>, b: seq<Bytes>)
    requires StrictlySorted(a) && StrictlySorted(b)
    requires forall x :: x in a <==> x in b
    ensures a == b
  {
    assert forall i :: 0 <= i < |a| ==> a[i] in b;
    assert forall i :: 0 <= i < |b| ==> b[i] in a;
    if a != [] && b != [] {
      assert a[0] in a && a[0] in b;
      var i :| 0 <= i < |b| && b[i] == a[0];
      assert b[0] in b && b[0] in a;
      var j :| 0 <= j < |a| && a[j] == b[0];
      LtTotal(a[0], b[0]);
      assert i == 0;
      forall x
        ensures x in a[1..] <==> x in b[1..]
      {
        LtTotal(a[0], a[0]);
        assert x in a <==> x == a[0] || x in a[1..];
        assert x in b <==> x == b[0] || x in b[1..];
      }
      SortedUnique(a[1..], b[1..]);
      assert a == [a[0]] + a[1..] && b == [b[0]] + b[1..];
    }
  }
}
