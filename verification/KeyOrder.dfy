/** The bytewise lexicographic order in which a Kinetic drive keeps its keys. */
module KeyOrder {
  import opened Basics

  type Key = Bytes

  /** Strict lexicographic order; a proper prefix comes first. */
  predicate Less(a: Key, b: Key) {
    if b == [] then false
    else if a == [] then true
    else a[0] < b[0] || (a[0] == b[0] && Less(a[1..], b[1..]))
  }

  lemma {:induction false} Transitive(a: Key, b: Key, c: Key)
    requires Less(a, b) && Less(b, c)
    ensures Less(a, c)
  {
    if a != [] && a[0] == b[0] && b[0] == c[0] {
      Transitive(a[1..], b[1..], c[1..]);
    }
  }

  lemma {:induction false} Irreflexive(a: Key)
    ensures !Less(a, a)
  {
    if a != [] {
      Irreflexive(a[1..]);
    }
  }

  lemma {:induction false} Total(a: Key, b: Key)
    ensures a == b || Less(a, b) || Less(b, a)
  {
    if a != [] && b != [] && a[0] == b[0] {
      Total(a[1..], b[1..]);
      assert a == [a[0]] + a[1..] && b == [b[0]] + b[1..];
    }
  }

  /** Comparing under a common prefix compares what follows it. */
  lemma {:induction false} CommonPrefix(p: Key, a: Key, b: Key)
    ensures Less(p + a, p + b) == Less(a, b)
  {
    if p == [] {
      assert p + a == a && p + b == b;
    } else {
      CommonPrefix(p[1..], a, b);
      assert (p + a)[1..] == p[1..] + a && (p + b)[1..] == p[1..] + b;
    }
  }

  /** Whatever lies between a key and one of its extensions extends that key. */
  lemma {:induction false} BetweenExtensions(p: Key, k: Key, tail: Key)
    requires Less(p, k) && Less(k, p + tail)
    ensures p <= k
  {
    if p != [] {
      assert (p + tail)[1..] == p[1..] + tail;
      BetweenExtensions(p[1..], k[1..], tail);
    }
  }

  /** Strictly between two bounds, as GetKeyRange asks with both `Include` flags off. */
  predicate Between(lo: Key, k: Key, hi: Key) {
    Less(lo, k) && Less(k, hi)
  }

  ghost predicate Sorted(ks: seq<Key>) {
    forall i, j :: 0 <= i < j < |ks| ==> Less(ks[i], ks[j])
  }

  predicate IsLeast(k: Key, ks: set<Key>) {
    k in ks && forall j :: j in ks && j != k ==> Less(k, j)
  }

  lemma {:induction false} LeastExists(ks: set<Key>)
    requires ks != {}
    ensures exists k :: IsLeast(k, ks)
  {
    var x :| x in ks;
    if ks == {x} {
      assert IsLeast(x, ks);
    } else {
      LeastExists(ks - {x});
      var m :| IsLeast(m, ks - {x});
      Total(m, x);
      if Less(x, m) {
        forall j | j in ks && j != x ensures Less(x, j) {
          if j != m {
            Transitive(x, m, j);
          }
        }
        assert IsLeast(x, ks);
      } else {
        assert IsLeast(m, ks);
      }
    }
  }

  lemma LeastUnique(a: Key, b: Key, ks: set<Key>)
    requires IsLeast(a, ks) && IsLeast(b, ks)
    ensures a == b
  {
    if a != b {
      Transitive(a, b, a);
      Irreflexive(a);
    }
  }

  function Least(ks: set<Key>): (k: Key)
    requires ks != {}
    ensures IsLeast(k, ks)
  {
    LeastExists(ks);
    assert forall a, b :: IsLeast(a, ks) && IsLeast(b, ks) ==> a == b by {
      forall a, b | IsLeast(a, ks) && IsLeast(b, ks) ensures a == b { LeastUnique(a, b, ks); }
    }
    var k :| k in ks && IsLeast(k, ks);
    k
  }

  /** The keys of a set in ascending order. */
  function Ascending(ks: set<Key>): (s: seq<Key>)
    ensures forall k :: k in s <==> k in ks
    ensures Sorted(s)
    decreases |ks|
  {
    if ks == {} then []
    else
      var k := Least(ks);
      assert |ks - {k}| < |ks|;
      [k] + Ascending(ks - {k})
  }
}
