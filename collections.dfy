/** Sequence helpers shared by both schedulers: flattening a list of processor
    queues, removing one occurrence of an element, and the error results that
    stand for the exceptions the .NET collections throw. */
module Collections {

  /** The exceptions the scheduling code can raise through the .NET library. */
  datatype Exception =
    | ArgumentOutOfRange   // List indexer or Random.Next / Enumerable.Range with a bad argument
    | InvalidOperation     // Enumerable.Max over an empty sequence

  /** The value an operation returns, or the exception it throws. */
  datatype Result<+T> = Ok(value: T) | Threw(error: Exception)

  /** `SelectMany(p => p)`: the queues concatenated in processor order. */
  function Flatten<X>(s: seq<seq<X>>): (r: seq<X>)
    ensures |r| == TotalLength(s)
    decreases |s|
  {
    if s == [] then [] else s[0] + Flatten(s[1..])
  }

  /** The sum of the queue lengths. */
  function TotalLength<X>(s: seq<seq<X>>): nat
    decreases |s|
  {
    if s == [] then 0 else |s[0]| + TotalLength(s[1..])
  }

  predicate NoDuplicates<X(==)>(s: seq<X>) {
    forall i, j :: 0 <= i < j < |s| ==> s[i] != s[j]
  }

  /** An element is in the flattened solution exactly when some queue holds it. */
  lemma {:induction false} FlattenMember<X>(s: seq<seq<X>>, x: X)
    ensures x in Flatten(s) <==> exists p :: 0 <= p < |s| && x in s[p]
    decreases |s|
  {
    if s != [] {
      FlattenMember(s[1..], x);
      if x in Flatten(s[1..]) {
        var p :| 0 <= p < |s[1..]| && x in s[1..][p];
        assert x in s[p + 1];
      }
      if exists p :: 0 <= p < |s| && x in s[p] {
        var p :| 0 <= p < |s| && x in s[p];
        if p > 0 {
          assert x in s[1..][p - 1];
        }
      }
    }
  }

  /** Position-wise form of FlattenMember: every queued element is in the flattening. */
  lemma FlattenContains<X>(s: seq<seq<X>>, p: int, i: int)
    requires 0 <= p < |s| && 0 <= i < |s[p]|
    ensures s[p][i] in Flatten(s)
  {
    FlattenMember(s, s[p][i]);
  }

  /** The flattening is empty exactly when every queue is empty. */
  lemma {:induction false} FlattenEmpty<X>(s: seq<seq<X>>)
    ensures Flatten(s) == [] <==> forall p :: 0 <= p < |s| ==> s[p] == []
    decreases |s|
  {
    if s != [] {
      FlattenEmpty(s[1..]);
      assert forall p :: 1 <= p < |s| ==> s[p] == s[1..][p - 1];
    }
  }

  /** `List<T>.Remove(x)`: drops the first occurrence of x, if any. */
  function RemoveFirst<X(==)>(s: seq<X>, x: X): (r: seq<X>)
    ensures x in s ==> multiset(r) == multiset(s) - multiset{x}
    ensures x !in s ==> r == s
    ensures forall y :: y in r ==> y in s
    decreases |s|
  {
    if s == [] then []
    else
      assert s == [s[0]] + s[1..];
      assert multiset(s) == multiset{s[0]} + multiset(s[1..]);
      if s[0] == x then s[1..]
      else
        var rest := RemoveFirst(s[1..], x);
        assert x in s ==> x in s[1..];
        assert multiset([s[0]] + rest) == multiset{s[0]} + multiset(rest);
        [s[0]] + rest
  }

  /** A multiset count of one in the flattening means one queue holds the element once
      and no other queue holds it. */
  lemma {:induction false} FlattenCountOne<X>(s: seq<seq<X>>, x: X)
    requires multiset(Flatten(s))[x] == 1
    ensures exists p :: 0 <= p < |s| && multiset(s[p])[x] == 1 &&
                        forall q :: 0 <= q < |s| && q != p ==> x !in s[q]
    decreases |s|
  {
    assert s != [];
    assert multiset(Flatten(s)) == multiset(s[0]) + multiset(Flatten(s[1..]));
    if multiset(s[0])[x] == 1 {
      assert multiset(Flatten(s[1..]))[x] == 0;
      FlattenMember(s[1..], x);
      forall q | 0 < q < |s| ensures x !in s[q] {
        assert s[q] == s[1..][q - 1];
      }
    } else {
      assert multiset(s[0])[x] == 0;
      FlattenCountOne(s[1..], x);
      var p :| 0 <= p < |s[1..]| && multiset(s[1..][p])[x] == 1 &&
               forall q :: 0 <= q < |s[1..]| && q != p ==> x !in s[1..][q];
      forall q | 0 <= q < |s| && q != p + 1 ensures x !in s[q] {
        if q > 0 {
          assert s[q] == s[1..][q - 1];
        }
      }
    }
  }

  /** The set of elements held by any queue. */
  function Elements<X>(s: seq<seq<X>>): set<X> {
    set p, i | 0 <= p < |s| && 0 <= i < |s[p]| :: s[p][i]
  }

  /** Both lists of queues have the same number of queues, of the same lengths. */
  predicate SameShape<X, Y>(a: seq<seq<X>>, b: seq<seq<Y>>) {
    |a| == |b| && forall p :: 0 <= p < |a| ==> |a[p]| == |b[p]|
  }

  /** Queues of the same shape hold the same number of elements. */
  lemma {:induction false} SameShapeTotalLength<X, Y>(a: seq<seq<X>>, b: seq<seq<Y>>)
    requires SameShape(a, b)
    ensures TotalLength(a) == TotalLength(b)
    decreases |a|
  {
    if a != [] {
      assert SameShape(a[1..], b[1..]) by {
        forall p | 0 <= p < |a[1..]| ensures |a[1..][p]| == |b[1..][p]| {
          assert a[1..][p] == a[p + 1] && b[1..][p] == b[p + 1];
        }
      }
      SameShapeTotalLength(a[1..], b[1..]);
    }
  }

  /** Exchanges the element at (p1, i1) with the one at (p2, i2), writing position
      (p1, i1) first, as two successive indexer assignments do. */
  function Swap<X>(s: seq<seq<X>>, p1: int, i1: int, p2: int, i2: int): (r: seq<seq<X>>)
    requires 0 <= p1 < |s| && 0 <= i1 < |s[p1]| && 0 <= p2 < |s| && 0 <= i2 < |s[p2]|
    ensures SameShape(r, s)
    ensures r[p1][i1] == s[p2][i2] && r[p2][i2] == s[p1][i1]
    ensures forall p, i :: 0 <= p < |s| && 0 <= i < |s[p]| && (p != p1 || i != i1) && (p != p2 || i != i2)
              ==> r[p][i] == s[p][i]
  {
    var x1, x2 := s[p1][i1], s[p2][i2];
    var s1 := s[p1 := s[p1][i1 := x2]];
    s1[p2 := s1[p2][i2 := x1]]
  }

  /** A duplicate-free sequence holds each element at most once. */
  lemma {:induction false} NoDuplicatesCount<X>(s: seq<X>, x: X)
    requires NoDuplicates(s)
    ensures multiset(s)[x] <= 1
    decreases |s|
  {
    if s != [] {
      assert s == [s[0]] + s[1..];
      assert NoDuplicates(s[1..]) by {
        forall i, j | 0 <= i < j < |s[1..]| ensures s[1..][i] != s[1..][j] {
          assert s[1..][i] == s[i + 1] && s[1..][j] == s[j + 1];
        }
      }
      NoDuplicatesCount(s[1..], x);
      if s[0] == x {
        assert x !in s[1..] by {
          forall i | 0 <= i < |s[1..]| ensures s[1..][i] != x {
            assert s[1..][i] == s[i + 1];
          }
        }
      }
    }
  }

  /** Appending x to queue p adds x to the flattened multiset. */
  lemma {:induction false} FlattenAppend<X>(s: seq<seq<X>>, p: int, x: X)
    requires 0 <= p < |s|
    ensures multiset(Flatten(s[p := s[p] + [x]])) == multiset(Flatten(s)) + multiset{x}
    decreases |s|
  {
    var t, rest := s[p := s[p] + [x]], s[1..];
    assert multiset(Flatten(s)) == multiset(s[0]) + multiset(Flatten(rest));
    if p == 0 {
      assert t[1..] == rest;
      assert multiset(Flatten(t)) == multiset(s[0] + [x]) + multiset(Flatten(rest));
    } else {
      FlattenAppend(rest, p - 1, x);
      assert t[1..] == rest[p - 1 := rest[p - 1] + [x]];
      assert multiset(Flatten(t)) == multiset(s[0]) + multiset(Flatten(rest[p - 1 := rest[p - 1] + [x]]));
    }
  }

  /** No element occupies two positions. */
  predicate AllDistinct<X(==)>(s: seq<seq<X>>) {
    forall p, i, p', i' ::
      (0 <= p < |s| && 0 <= i < |s[p]| && 0 <= p' < |s| && 0 <= i' < |s[p']| && (p != p' || i != i'))
      ==> s[p][i] != s[p'][i']
  }

  /** Appending a queue of new, mutually distinct elements keeps the elements distinct. */
  lemma AppendDistinct<X>(s: seq<seq<X>>, q: seq<X>)
    requires AllDistinct(s)
    requires forall j, j' :: 0 <= j < j' < |q| ==> q[j] != q[j']
    requires forall j, p, k :: 0 <= j < |q| && 0 <= p < |s| && 0 <= k < |s[p]| ==> q[j] != s[p][k]
    ensures AllDistinct(s + [q])
  {
    var t := s + [q];
    var n := |s|;
    forall p, i, p', i' |
      0 <= p < |t| && 0 <= i < |t[p]| && 0 <= p' < |t| && 0 <= i' < |t[p']| && (p != p' || i != i')
      ensures t[p][i] != t[p'][i']
    {
      if p < n && p' < n {
        assert t[p] == s[p] && t[p'] == s[p'];
      } else if p < n {
        assert t[p] == s[p] && t[p'] == q;
      } else if p' < n {
        assert t[p'] == s[p'] && t[p] == q;
      } else if i > i' {
        assert q[i'] != q[i];
      }
    }
  }

  /** Swapping two positions keeps the elements distinct. */
  lemma SwapDistinct<X>(s: seq<seq<X>>, p1: int, i1: int, p2: int, i2: int)
    requires 0 <= p1 < |s| && 0 <= i1 < |s[p1]| && 0 <= p2 < |s| && 0 <= i2 < |s[p2]|
    requires AllDistinct(s)
    ensures AllDistinct(Swap(s, p1, i1, p2, i2))
  {
    var r := Swap(s, p1, i1, p2, i2);
    forall p, i, p', i' |
      0 <= p < |r| && 0 <= i < |r[p]| && 0 <= p' < |r| && 0 <= i' < |r[p']| && (p != p' || i != i')
      ensures r[p][i] != r[p'][i']
    {
      var (sp, si) := SwapSource(p, i, p1, i1, p2, i2);
      var (sp', si') := SwapSource(p', i', p1, i1, p2, i2);
      assert r[p][i] == s[sp][si] && r[p'][i'] == s[sp'][si'];
    }
  }

  /** The position of `s` whose element `Swap` places at (p, i). */
  function SwapSource(p: int, i: int, p1: int, i1: int, p2: int, i2: int): (int, int) {
    if p == p2 && i == i2 then (p1, i1)
    else if p == p1 && i == i1 then (p2, i2)
    else (p, i)
  }

  /** Writing the two original elements back undoes a swap. */
  lemma SwapBack<X>(s: seq<seq<X>>, p1: int, i1: int, p2: int, i2: int)
    requires 0 <= p1 < |s| && 0 <= i1 < |s[p1]| && 0 <= p2 < |s| && 0 <= i2 < |s[p2]|
    ensures var t := Swap(s, p1, i1, p2, i2);
            var u := t[p1 := t[p1][i1 := s[p1][i1]]];
            u[p2 := u[p2][i2 := s[p2][i2]]] == s
  {
    var t := Swap(s, p1, i1, p2, i2);
    var u := t[p1 := t[p1][i1 := s[p1][i1]]];
    var w := u[p2 := u[p2][i2 := s[p2][i2]]];
    assert |w| == |s|;
    forall p | 0 <= p < |s| ensures w[p] == s[p] {
      assert |w[p]| == |s[p]|;
      forall i | 0 <= i < |s[p]| ensures w[p][i] == s[p][i] {
        if p == p2 && i == i2 {
        } else if p == p1 && i == i1 {
        } else {
          assert w[p][i] == t[p][i];
        }
      }
    }
  }

  /** The elements of the queues are those of their flattening. */
  lemma ElementsFlatten<X>(s: seq<seq<X>>)
    ensures forall x :: x in Elements(s) <==> x in Flatten(s)
  {
    forall x ensures x in Elements(s) <==> x in Flatten(s) {
      FlattenMember(s, x);
      if x in Flatten(s) {
        var p :| 0 <= p < |s| && x in s[p];
        var i :| 0 <= i < |s[p]| && s[p][i] == x;
      }
    }
  }

  /** An element of the flattening is an element of the queues. */
  lemma FlattenInElements<X>(s: seq<seq<X>>, x: X)
    requires x in Flatten(s)
    ensures x in Elements(s)
  {
    ElementsFlatten(s);
  }

  /** Swapping two positions keeps the set of elements. */
  lemma SwapElements<X>(s: seq<seq<X>>, p1: int, i1: int, p2: int, i2: int)
    requires 0 <= p1 < |s| && 0 <= i1 < |s[p1]| && 0 <= p2 < |s| && 0 <= i2 < |s[p2]|
    ensures Elements(Swap(s, p1, i1, p2, i2)) == Elements(s)
  {
    var r := Swap(s, p1, i1, p2, i2);
    forall x | x in Elements(r) ensures x in Elements(s) {
      var p, i :| 0 <= p < |r| && 0 <= i < |r[p]| && r[p][i] == x;
      var (sp, si) := SwapSource(p, i, p1, i1, p2, i2);
      assert s[sp][si] == x;
    }
    forall x | x in Elements(s) ensures x in Elements(r) {
      var p, i :| 0 <= p < |s| && 0 <= i < |s[p]| && s[p][i] == x;
      var (tp, ti) := SwapSource(p, i, p1, i1, p2, i2);
      assert r[tp][ti] == x;
    }
  }
}
