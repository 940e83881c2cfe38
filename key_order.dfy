/** The order in which an S3-compatible store lists the keys of a bucket:
    character by character, by code point (for Unicode scalar values this is
    the order of their UTF-8 encodings). */
module KeyOrder {

  /** `a` sorts strictly before `b`. */
  predicate Below(a: string, b: string)
  {
    |b| > 0 && (|a| == 0 || a[0] < b[0] || (a[0] == b[0] && Below(a[1..], b[1..])))
  }

  lemma {:induction false} BelowIrreflexive(a: string)
    ensures !Below(a, a)
  {
    if |a| > 0 {
      BelowIrreflexive(a[1..]);
    }
  }

  lemma {:induction false} BelowTransitive(a: string, b: string, c: string)
    requires Below(a, b) && Below(b, c)
    ensures Below(a, c)
  {
    if |a| > 0 && a[0] == b[0] && b[0] == c[0] {
      BelowTransitive(a[1..], b[1..], c[1..]);
    }
  }

  /** Two different keys are always ordered one way or the other. */
  lemma {:induction false} BelowTotal(a: string, b: string)
    requires a != b
    ensures Below(a, b) || Below(b, a)
  {
    if |a| > 0 && |b| > 0 && a[0] == b[0] {
      assert a == [a[0]] + a[1..] && b == [b[0]] + b[1..];
      BelowTotal(a[1..], b[1..]);
    }
  }

  /** `k` is the key of `keys` that sorts first. */
  predicate Least(k: string, keys: set<string>)
  {
    k in keys && forall j :: j in keys ==> !Below(j, k)
  }

  lemma {:induction false} LeastExists(keys: set<string>)
    requires keys != {}
    ensures exists k :: Least(k, keys)
    decreases |keys|
  {
    var x :| x in keys;
    if keys == {x} {
      BelowIrreflexive(x);
      assert Least(x, keys);
    } else {
      LeastExists(keys - {x});
      var m :| Least(m, keys - {x});
      if Below(x, m) {
        forall j | j in keys
          ensures !Below(j, x)
        {
          if j == x {
            BelowIrreflexive(x);
          } else if Below(j, x) {
            BelowTransitive(j, x, m);
          }
        }
        assert Least(x, keys);
      } else {
        assert Least(m, keys);
      }
    }
  }

  /** The least key sorts before every other key of the set, so it is unique. */
  lemma LeastBelowOthers(keys: set<string>)
    ensures forall k, j :: Least(k, keys) && j in keys && j != k ==> Below(k, j)
    ensures forall k, j :: Least(k, keys) && Least(j, keys) ==> j == k
  {
    forall k, j | Least(k, keys) && j in keys && j != k
      ensures Below(k, j) && !Least(j, keys)
    {
      BelowTotal(k, j);
    }
  }

  /** The keys of a set in listing order, each exactly once. */
  function SortedKeys(keys: set<string>): (r: seq<string>)
    ensures |r| == |keys|
    ensures forall k :: k in keys <==> k in r
    ensures forall i, j :: 0 <= i < j < |r| ==> Below(r[i], r[j])
    decreases |keys|
  {
    if keys == {} then []
    else
      LeastExists(keys);
      LeastBelowOthers(keys);
      var k :| Least(k, keys);
      [k] + SortedKeys(keys - {k})
  }
}
