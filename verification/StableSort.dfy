/** `Array.prototype.toSorted`: a stable sort under a caller-supplied total preorder.

    `leq(a, b)` stands for "the comparator does not put `a` after `b`".  Locale
    collation is such a preorder: distinct strings may tie. */
module StableSort {

  ghost predicate TotalPreorder<T(!new)>(leq: (T, T) -> bool) {
    && (forall a, b :: leq(a, b) || leq(b, a))
    && (forall a, b, c :: leq(a, b) && leq(b, c) ==> leq(a, c))
  }

  ghost predicate SortedBy<T>(leq: (T, T) -> bool, s: seq<T>) {
    forall i, j :: 0 <= i < j < |s| ==> leq(s[i], s[j])
  }

  ghost predicate Distinct<T>(s: seq<T>) {
    forall i, j :: 0 <= i < j < |s| ==> s[i] != s[j]
  }

  ghost predicate Tied<T>(leq: (T, T) -> bool, x: T, t: T) {
    leq(x, t) && leq(t, x)
  }

  /** No two different elements of the list compare equal. */
  ghost predicate NoTies<T>(leq: (T, T) -> bool, s: seq<T>) {
    forall i, j :: 0 <= i < |s| && 0 <= j < |s| && Tied(leq, s[i], s[j]) ==> s[i] == s[j]
  }

  /** The elements that tie with `t`, in order. */
  ghost function Ties<T>(leq: (T, T) -> bool, t: T, s: seq<T>): seq<T> {
    if s == [] then []
    else (if Tied(leq, s[0], t) then [s[0]] else []) + Ties(leq, t, s[1..])
  }

  function Insert<T>(leq: (T, T) -> bool, x: T, s: seq<T>): seq<T> {
    if s == [] || leq(x, s[0]) then [x] + s
    else [s[0]] + Insert(leq, x, s[1..])
  }

  function Sort<T>(leq: (T, T) -> bool, s: seq<T>): seq<T> {
    if s == [] then [] else Insert(leq, s[0], Sort(leq, s[1..]))
  }

  lemma {:induction false} InsertKeepsElements<T>(leq: (T, T) -> bool, x: T, s: seq<T>)
    ensures multiset(Insert(leq, x, s)) == multiset{x} + multiset(s)
    ensures |Insert(leq, x, s)| == |s| + 1
  {
    if s == [] || leq(x, s[0]) {
    } else {
      InsertKeepsElements(leq, x, s[1..]);
      assert s == [s[0]] + s[1..];
    }
  }

  lemma {:induction false} InsertSorted<T(!new)>(leq: (T, T) -> bool, x: T, s: seq<T>)
    requires TotalPreorder(leq) && SortedBy(leq, s)
    ensures SortedBy(leq, Insert(leq, x, s))
  {
    if s == [] || leq(x, s[0]) {
    } else {
      InsertSorted(leq, x, s[1..]);
      InsertKeepsElements(leq, x, s[1..]);
      var r := Insert(leq, x, s[1..]);
      forall y | y in r ensures leq(s[0], y) {
        assert y in multiset(r);
      }
    }
  }

  /** Sorting a sorted list leaves it as it is. */
  lemma {:induction false} SortSorted<T>(leq: (T, T) -> bool, s: seq<T>)
    requires SortedBy(leq, s)
    ensures Sort(leq, s) == s
  {
    if s != [] {
      SortSorted(leq, s[1..]);
    }
  }

  lemma NotBothTied<T(!new)>(leq: (T, T) -> bool, x: T, y: T, t: T)
    requires TotalPreorder(leq) && !leq(x, y)
    ensures !(Tied(leq, x, t) && Tied(leq, y, t))
  {
  }

  lemma TiesCons<T>(leq: (T, T) -> bool, x: T, s: seq<T>, t: T)
    ensures Ties(leq, t, [x] + s) == (if Tied(leq, x, t) then [x] else []) + Ties(leq, t, s)
  {
    assert ([x] + s)[1..] == s;
  }

  lemma {:induction false} InsertTies<T(!new)>(leq: (T, T) -> bool, x: T, s: seq<T>, t: T)
    requires TotalPreorder(leq)
    ensures Ties(leq, t, Insert(leq, x, s)) == Ties(leq, t, [x] + s)
  {
    if s == [] || leq(x, s[0]) {
    } else {
      var rest := s[1..];
      InsertTies(leq, x, rest, t);
      TiesCons(leq, s[0], Insert(leq, x, rest), t);
      TiesCons(leq, x, rest, t);
      TiesCons(leq, x, s, t);
      NotBothTied(leq, x, s[0], t);
    }
  }

  /** The result holds exactly the input's elements, in order. */
  lemma {:induction false} SortCorrect<T(!new)>(leq: (T, T) -> bool, s: seq<T>)
    requires TotalPreorder(leq)
    ensures SortedBy(leq, Sort(leq, s))
    ensures multiset(Sort(leq, s)) == multiset(s)
  {
    if s != [] {
      SortCorrect(leq, s[1..]);
      InsertSorted(leq, s[0], Sort(leq, s[1..]));
      InsertKeepsElements(leq, s[0], Sort(leq, s[1..]));
      assert s == [s[0]] + s[1..];
    }
  }

  /** Elements that tie keep their input order. */
  lemma {:induction false} SortStable<T(!new)>(leq: (T, T) -> bool, s: seq<T>, t: T)
    requires TotalPreorder(leq)
    ensures Ties(leq, t, Sort(leq, s)) == Ties(leq, t, s)
  {
    if s != [] {
      SortStable(leq, s[1..], t);
      InsertTies(leq, s[0], Sort(leq, s[1..]), t);
      TiesCons(leq, s[0], Sort(leq, s[1..]), t);
    }
  }

  lemma SortMembers<T(!new)>(leq: (T, T) -> bool, s: seq<T>)
    requires TotalPreorder(leq)
    ensures forall x :: x in Sort(leq, s) <==> x in s
    ensures |Sort(leq, s)| == |s|
  {
    SortCorrect(leq, s);
    forall x ensures x in Sort(leq, s) <==> x in s {
      assert x in Sort(leq, s) <==> x in multiset(Sort(leq, s));
      assert x in s <==> x in multiset(s);
    }
    assert |multiset(s)| == |s| && |multiset(Sort(leq, s))| == |Sort(leq, s)|;
  }

  lemma {:induction false} DistinctIffOnce<T>(s: seq<T>)
    ensures Distinct(s) <==> forall x :: multiset(s)[x] <= 1
  {
    if s != [] {
      DistinctIffOnce(s[1..]);
      assert s == [s[0]] + s[1..];
      assert multiset(s)[s[0]] == 1 + multiset(s[1..])[s[0]];
      assert forall x :: multiset(s)[x] >= multiset(s[1..])[x];
    }
  }

  lemma SortDistinct<T(!new)>(leq: (T, T) -> bool, s: seq<T>)
    requires TotalPreorder(leq) && Distinct(s)
    ensures Distinct(Sort(leq, s))
  {
    SortCorrect(leq, s);
    DistinctIffOnce(s);
    DistinctIffOnce(Sort(leq, s));
  }

  lemma SameMembers<T>(a: seq<T>, b: seq<T>)
    requires multiset(a) == multiset(b)
    ensures |a| == |b|
    ensures forall x :: x in a ==> x in b
  {
    assert |multiset(a)| == |a| && |multiset(b)| == |b|;
    forall x | x in a ensures x in b {
      assert x in multiset(a);
      assert x in multiset(b);
    }
  }

  lemma HeadsEqual<T(!new)>(leq: (T, T) -> bool, a: seq<T>, b: seq<T>)
    requires TotalPreorder(leq) && SortedBy(leq, a) && SortedBy(leq, b) && NoTies(leq, a)
    requires a != [] && b != [] && a[0] in b && b[0] in a
    ensures a[0] == b[0]
  {
    var i :| 0 <= i < |a| && a[i] == b[0];
    var j :| 0 <= j < |b| && b[j] == a[0];
    assert leq(a[0], a[0]) && leq(b[0], b[0]);
    assert Tied(leq, a[0], a[i]);
  }

  lemma TailsEqual<T>(a: seq<T>, b: seq<T>)
    requires a != [] && b != [] && a[0] == b[0] && multiset(a) == multiset(b)
    ensures multiset(a[1..]) == multiset(b[1..])
  {
    assert a == [a[0]] + a[1..] && b == [b[0]] + b[1..];
    assert multiset(a) == multiset{a[0]} + multiset(a[1..]);
    assert multiset(b) == multiset{a[0]} + multiset(b[1..]);
    assert multiset(a[1..]) == multiset(a) - multiset{a[0]};
    assert multiset(b[1..]) == multiset(b) - multiset{a[0]};
  }

  lemma {:induction false} SameListing<T(!new)>(leq: (T, T) -> bool, a: seq<T>, b: seq<T>)
    requires TotalPreorder(leq) && SortedBy(leq, a) && SortedBy(leq, b) && multiset(a) == multiset(b)
    requires NoTies(leq, a)
    ensures a == b
  {
    SameMembers(a, b);
    SameMembers(b, a);
    if a != [] {
      HeadsEqual(leq, a, b);
      TailsEqual(a, b);
      SameListing(leq, a[1..], b[1..]);
      assert a == [a[0]] + a[1..] && b == [b[0]] + b[1..];
    }
  }

  /** Two elements that compare equal can change places. */
  lemma SwapTied<T(!new)>(leq: (T, T) -> bool, a: seq<T>, i: nat, j: nat)
    requires TotalPreorder(leq) && SortedBy(leq, a) && i < j < |a| && Tied(leq, a[i], a[j])
    ensures SortedBy(leq, a[i := a[j]][j := a[i]]) && multiset(a[i := a[j]][j := a[i]]) == multiset(a)
  {
    var b := a[i := a[j]][j := a[i]];
    forall p, q | 0 <= p < q < |b| ensures leq(b[p], b[q]) {
      assert leq(b[p], a[p]) && leq(a[q], b[q]);
    }
  }

  /** The elements can be listed in only one sorted order exactly when no two different ones
      compare equal; then the result of sorting does not depend on the order of the input. */
  lemma SortCanonical<T(!new)>(leq: (T, T) -> bool, a: seq<T>)
    requires TotalPreorder(leq) && SortedBy(leq, a)
    ensures NoTies(leq, a) <==> forall b :: SortedBy(leq, b) && multiset(b) == multiset(a) ==> b == a
  {
    if NoTies(leq, a) {
      forall b | SortedBy(leq, b) && multiset(b) == multiset(a) ensures b == a {
        SameListing(leq, a, b);
      }
    } else {
      var i, j :| 0 <= i < |a| && 0 <= j < |a| && Tied(leq, a[i], a[j]) && a[i] != a[j];
      var lo, hi := if i < j then i else j, if i < j then j else i;
      SwapTied(leq, a, lo, hi);
      assert a[lo := a[hi]][hi := a[lo]][lo] != a[lo];
    }
  }
}
