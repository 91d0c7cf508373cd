/**
 What the table generator needs of the containers it fills: lists that take an
 element once, and maps that are visited in ascending order of their keys.
 */
module KeyOrder {

  /** Append x unless it is there: `if (find(s, x) == end) s.push_back(x)`. */
  function AddOnce<T(==)>(s: seq<T>, x: T): (r: seq<T>) {
    if x in s then s else s + [x]
  }

  /** The elements of s in the order in which they first occur. */
  function Distinct<T(!new, ==)>(s: seq<T>): (r: seq<T>)
    ensures forall x :: x in r <==> x in s
    ensures NoRepeats(r)
    ensures |s| > 0 ==> |r| > 0 && r[0] == s[0]
  {
    if |s| == 0 then []
    else
      assert s == s[..|s| - 1] + [s[|s| - 1]];
      AddOnce(Distinct(s[..|s| - 1]), s[|s| - 1])
  }

  /** An element stands before another one if it occurs before the other's first occurrence. */
  lemma {:induction false} DistinctOrder<T(!new)>(s: seq<T>, i: nat, j: nat) returns (p: nat)
    requires i < j < |Distinct(s)|
    ensures p < |s| && s[p] == Distinct(s)[i]
    ensures forall q | 0 <= q < |s| && s[q] == Distinct(s)[j] :: p < q
  {
    var u, n := s[..|s| - 1], |s| - 1;
    if j < |Distinct(u)| {
      p := DistinctOrder(u, i, j);
    } else {
      var d := Distinct(u)[i];
      assert d in u;
      p :| 0 <= p < |u| && u[p] == d;
      assert Distinct(s)[j] == s[n] && s[n] !in u;
    }
  }

  predicate NoRepeats<T(==)>(s: seq<T>) {
    forall i, j | 0 <= i < j < |s| :: s[i] != s[j]
  }

  lemma DistinctAppend<T(!new)>(s: seq<T>, x: T)
    ensures Distinct(s + [x]) == AddOnce(Distinct(s), x)
  {
    assert (s + [x])[..|s|] == s;
  }

  lemma {:induction false} DistinctConcat<T(!new)>(s: seq<T>, t: seq<T>)
    ensures Distinct(s + t) == Distinct(Distinct(s) + t)
  {
    if |t| == 0 {
      assert s + t == s && Distinct(s) + t == Distinct(s);
      DistinctOfDistinct(Distinct(s));
    } else {
      var u, x := t[..|t| - 1], t[|t| - 1];
      assert s + t == (s + u) + [x] && Distinct(s) + t == (Distinct(s) + u) + [x];
      DistinctConcat(s, u);
      DistinctAppend(s + u, x);
      DistinctAppend(Distinct(s) + u, x);
    }
  }

  lemma {:induction false} DistinctOfDistinct<T(!new)>(s: seq<T>)
    requires NoRepeats(s)
    ensures Distinct(s) == s
  {
    if |s| > 0 {
      var u, x := s[..|s| - 1], s[|s| - 1];
      DistinctOfDistinct(u);
      assert s == u + [x];
    }
  }

  ghost predicate TotalOrder<T(!new)>(leq: (T, T) -> bool) {
    && (forall a, b :: leq(a, b) || leq(b, a))
    && (forall a, b :: leq(a, b) && leq(b, a) ==> a == b)
    && (forall a, b, c :: leq(a, b) && leq(b, c) ==> leq(a, c))
  }

  ghost predicate StrictlyAscending<T(!new)>(s: seq<T>, leq: (T, T) -> bool) {
    forall i, j | 0 <= i < j < |s| :: leq(s[i], s[j]) && s[i] != s[j]
  }

  lemma OrderFacts<T(!new)>(leq: (T, T) -> bool, a: T, b: T, c: T)
    requires TotalOrder(leq)
    ensures leq(a, a) && (leq(a, b) || leq(b, a))
    ensures leq(a, b) && leq(b, c) ==> leq(a, c)
  {
    assert leq(a, a) || leq(a, a);
  }

  lemma {:induction false} Least<T(!new)>(s: set<T>, leq: (T, T) -> bool) returns (m: T)
    requires TotalOrder(leq) && s != {}
    ensures m in s && forall x | x in s :: leq(m, x)
  {
    hide TotalOrder;
    m :| m in s;
    OrderFacts(leq, m, m, m);
    if s != {m} {
      var y := m;
      var rest := s - {y};
      assert rest != {};
      m := Least(rest, leq);
      OrderFacts(leq, y, m, y);
      if leq(y, m) {
        forall x | x in s
          ensures leq(y, x)
        {
          OrderFacts(leq, y, m, x);
        }
        m := y;
      }
    }
  }

  /** The keys in `order` have been visited, those in `rest` come later. */
  ghost predicate Visiting<T(!new)>(order: seq<T>, rest: set<T>, keys: set<T>, leq: (T, T) -> bool) {
    && rest <= keys
    && (forall k :: k in order <==> k in keys && k !in rest)
    && StrictlyAscending(order, leq)
    && (forall k, l | k in order && l in rest :: leq(k, l))
  }

  lemma VisitNext<T(!new)>(order: seq<T>, rest: set<T>, keys: set<T>, leq: (T, T) -> bool, k: T)
    requires Visiting(order, rest, keys, leq) && k in rest && forall l | l in rest :: leq(k, l)
    ensures Visiting(order + [k], rest - {k}, keys, leq)
  {
    forall i | 0 <= i < |order|
      ensures leq(order[i], k) && order[i] != k
    {
      assert order[i] in order;
    }
  }

  lemma VisitEnds<T(!new)>(order: seq<T>, keys: set<T>, leq: (T, T) -> bool)
    ensures Visiting([], keys, keys, leq)
    ensures Visiting(order, {}, keys, leq) ==> StrictlyAscending(order, leq) && forall k :: k in order <==> k in keys
  {
  }

  /** The order in which a `std::map` visits its keys. */
  method KeysInOrder<T(!new, ==)>(keys: set<T>, leq: (T, T) -> bool) returns (order: seq<T>)
    requires TotalOrder(leq)
    ensures StrictlyAscending(order, leq)
    ensures forall k :: k in order <==> k in keys
  {
    hide TotalOrder, StrictlyAscending, Visiting;
    order := [];
    var rest := keys;
    VisitEnds(order, keys, leq);
    while rest != {}
      invariant Visiting(order, rest, keys, leq)
      decreases rest
    {
      ghost var least := Least(rest, leq);
      var k :| k in rest && forall l | l in rest :: leq(k, l);
      VisitNext(order, rest, keys, leq, k);
      order := order + [k];
      rest := rest - {k};
    }
    VisitEnds(order, keys, leq);
  }

  predicate IntLeq(a: int, b: int) {
    a <= b
  }

  /** The order of `std::string`: lexicographic. */
  predicate StringLeq(a: string, b: string) {
    if |a| == 0 then true
    else if |b| == 0 then false
    else a[0] < b[0] || (a[0] == b[0] && StringLeq(a[1..], b[1..]))
  }

  /** At the first place where they differ the smaller character decides; a prefix comes first. */
  lemma {:induction false} StringLeqDecided(a: string, b: string, k: nat)
    requires k <= |a| && k <= |b| && forall i | 0 <= i < k :: a[i] == b[i]
    ensures k == |a| ==> StringLeq(a, b)
    ensures k == |b| < |a| ==> !StringLeq(a, b)
    ensures k < |a| && k < |b| && a[k] != b[k] ==> (StringLeq(a, b) <==> a[k] < b[k])
  {
    if k > 0 {
      StringLeqDecided(a[1..], b[1..], k - 1);
    }
  }

  lemma {:induction false} StringLeqTotal(a: string, b: string)
    ensures StringLeq(a, b) || StringLeq(b, a)
  {
    if |a| > 0 && |b| > 0 {
      StringLeqTotal(a[1..], b[1..]);
    }
  }

  lemma {:induction false} StringLeqAntisymmetric(a: string, b: string)
    requires StringLeq(a, b) && StringLeq(b, a)
    ensures a == b
  {
    if |a| > 0 && |b| > 0 {
      StringLeqAntisymmetric(a[1..], b[1..]);
      assert a == [a[0]] + a[1..] && b == [b[0]] + b[1..];
    }
  }

  lemma {:induction false} StringLeqTransitive(a: string, b: string, c: string)
    requires StringLeq(a, b) && StringLeq(b, c)
    ensures StringLeq(a, c)
  {
    if |a| > 0 && |b| > 0 && |c| > 0 && a[0] == b[0] == c[0] {
      StringLeqTransitive(a[1..], b[1..], c[1..]);
    }
  }

  lemma StringsOrdered()
    ensures TotalOrder(StringLeq)
  {
    forall a, b
      ensures StringLeq(a, b) || StringLeq(b, a)
    {
      StringLeqTotal(a, b);
    }
    forall a, b | StringLeq(a, b) && StringLeq(b, a)
      ensures a == b
    {
      StringLeqAntisymmetric(a, b);
    }
    forall a, b, c | StringLeq(a, b) && StringLeq(b, c)
      ensures StringLeq(a, c)
    {
      StringLeqTransitive(a, b, c);
    }
  }
}
