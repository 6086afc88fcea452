/** Folds, filters and sorting over sequences, shared by the other modules.
    Every result here is about arbitrary elements, sums and orders. */
module Sequences {

  datatype Option<+T> = None | Some(value: T)

  datatype Result<+T, +E> = Ok(value: T) | Err(error: E) {
    predicate IsFailure() { Err? }

    function PropagateFailure<U>(): Result<U, E>
      requires Err?
    {
      Err(error)
    }

    function Extract(): T
      requires Ok?
    {
      value
    }
  }

  // ----- sums -----

  /** Exact sum of `f` over `s`. */
  function SumOf<T>(s: seq<T>, f: T -> real): real {
    if s == [] then 0.0 else f(s[0]) + SumOf(s[1..], f)
  }

  lemma {:induction false} SumOfConcat<T(!new)>(a: seq<T>, b: seq<T>, f: T -> real)
    ensures SumOf(a + b, f) == SumOf(a, f) + SumOf(b, f)
  {
    if a == [] {
      assert a + b == b;
    } else {
      assert (a + b)[1..] == a[1..] + b;
      SumOfConcat(a[1..], b, f);
    }
  }

  /** Removing position `i` removes exactly its term. */
  lemma SumOfRemove<T(!new)>(s: seq<T>, i: nat, f: T -> real)
    requires i < |s|
    ensures SumOf(s, f) == f(s[i]) + SumOf(s[..i] + s[i + 1..], f)
  {
    assert SumOf([s[i]], f) == f(s[i]);
    hide SumOf;
    assert s == s[..i] + ([s[i]] + s[i + 1..]);
    SumOfConcat(s[..i], [s[i]] + s[i + 1..], f);
    SumOfConcat([s[i]], s[i + 1..], f);
    SumOfConcat(s[..i], s[i + 1..], f);
  }

  lemma MultisetRemove<T(!new)>(s: seq<T>, i: nat)
    requires i < |s|
    ensures multiset(s) == multiset{s[i]} + multiset(s[..i] + s[i + 1..])
  {
    assert s == s[..i] + [s[i]] + s[i + 1..];
  }

  /** Where the first element of a sequence sits in a permutation of it. */
  lemma MatchFirst<T(!new)>(a: seq<T>, b: seq<T>) returns (i: nat)
    requires multiset(a) == multiset(b) && a != []
    ensures i < |b| && b[i] == a[0] && multiset(a[1..]) == multiset(b[..i] + b[i + 1..])
  {
    assert a[0] in multiset(b);
    i :| 0 <= i < |b| && b[i] == a[0];
    assert a == [a[0]] + a[1..];
    MultisetRemove(b, i);
    assert multiset(a[1..]) == multiset(a) - multiset{a[0]};
    assert multiset(b[..i] + b[i + 1..]) == multiset(b) - multiset{a[0]};
  }

  lemma EmptyPermutation<T(!new)>(b: seq<T>)
    requires multiset(b) == multiset{}
    ensures b == []
  {
    assert |multiset(b)| == 0;
  }

  /** A sum does not depend on the order of its terms. */
  lemma {:induction false} SumOfPermutation<T(!new)>(a: seq<T>, b: seq<T>, f: T -> real)
    requires multiset(a) == multiset(b)
    ensures SumOf(a, f) == SumOf(b, f)
  {
    if a == [] {
      EmptyPermutation(b);
    } else {
      var i := MatchFirst(a, b);
      SumOfPermutation(a[1..], b[..i] + b[i + 1..], f);
      SumOfRemove(b, i, f);
    }
  }

  // ----- filters -----

  /** The elements of `s` that satisfy `p`, in order. */
  function Filter<T>(s: seq<T>, p: T -> bool): (r: seq<T>)
    ensures |r| <= |s|
  {
    if s == [] then [] else (if p(s[0]) then [s[0]] else []) + Filter(s[1..], p)
  }

  lemma {:induction false} FilterMembers<T(!new)>(s: seq<T>, p: T -> bool)
    ensures forall x :: x in Filter(s, p) <==> x in s && p(x)
  {
    if s != [] {
      FilterMembers(s[1..], p);
      assert s == [s[0]] + s[1..];
    }
  }

  lemma FilterHead<T(!new)>(s: seq<T>, p: T -> bool)
    requires s != []
    ensures Filter(s, p) == (if p(s[0]) then [s[0]] else []) + Filter(s[1..], p)
  {}

  lemma ConcatAssociative<T(!new)>(a: seq<T>, b: seq<T>, c: seq<T>)
    ensures a + (b + c) == a + b + c
  {}

  lemma FilterEmpty<T(!new)>(p: T -> bool)
    ensures Filter([], p) == []
  {}

  lemma {:induction false} FilterConcat<T(!new)>(a: seq<T>, b: seq<T>, p: T -> bool)
    ensures Filter(a + b, p) == Filter(a, p) + Filter(b, p)
  {
    hide Filter;
    if a == [] {
      FilterEmpty(p);
      assert a + b == b;
    } else {
      assert (a + b)[1..] == a[1..] + b && (a + b)[0] == a[0];
      FilterHead(a + b, p);
      FilterHead(a, p);
      FilterConcat(a[1..], b, p);
      ConcatAssociative(if p(a[0]) then [a[0]] else [], Filter(a[1..], p), Filter(b, p));
    }
  }

  lemma FilterStep<T(!new)>(s: seq<T>, i: nat, p: T -> bool)
    requires i < |s|
    ensures Filter(s[..i + 1], p) == Filter(s[..i], p) + (if p(s[i]) then [s[i]] else [])
  {
    assert s[..i + 1] == s[..i] + [s[i]];
    FilterConcat(s[..i], [s[i]], p);
  }

  lemma {:induction false} FilterNone<T(!new)>(s: seq<T>, p: T -> bool)
    requires forall x | x in s :: !p(x)
    ensures Filter(s, p) == []
  {
    if s != [] {
      assert s[0] in s;
      FilterNone(s[1..], p);
    }
  }

  lemma {:induction false} FilterKeepsAll<T(!new)>(s: seq<T>, p: T -> bool)
    requires forall x | x in s :: p(x)
    ensures Filter(s, p) == s
  {
    if s != [] {
      assert s[0] in s;
      FilterKeepsAll(s[1..], p);
    }
  }

  /** No element that satisfies `p` comes after one that satisfies `q`. */
  ghost predicate Precedes<T>(s: seq<T>, p: T -> bool, q: T -> bool) {
    forall i, j | 0 <= i < j < |s| :: q(s[i]) ==> !p(s[j])
  }

  lemma PrecedesTail<T(!new)>(s: seq<T>, p: T -> bool, q: T -> bool)
    requires s != [] && Precedes(s, p, q)
    ensures Precedes(s[1..], p, q)
    ensures q(s[0]) ==> Filter(s[1..], p) == []
  {
    hide Filter;
    var rest := s[1..];
    forall i, j | 0 <= i < j < |rest|
      ensures q(rest[i]) ==> !p(rest[j])
    {
      assert rest[i] == s[i + 1] && rest[j] == s[j + 1];
    }
    if q(s[0]) {
      forall x | x in rest
        ensures !p(x)
      {
        var j :| 0 <= j < |rest| && rest[j] == x;
        assert s[j + 1] == x;
      }
      FilterNone(rest, p);
    }
  }

  /** If the elements that satisfy `p` all come before those that satisfy `q`, filtering by either is filtering
      by `p` and then by `q`. */
  lemma {:induction false} FilterSplit<T(!new)>(s: seq<T>, p: T -> bool, q: T -> bool, either: T -> bool)
    requires forall x | x in s :: (either(x) <==> p(x) || q(x)) && !(p(x) && q(x))
    requires Precedes(s, p, q)
    ensures Filter(s, either) == Filter(s, p) + Filter(s, q)
  {
    hide Filter;
    if s == [] {
      FilterEmpty(p);
      FilterEmpty(q);
      FilterEmpty(either);
    } else {
      PrecedesTail(s, p, q);
      hide Precedes;
      var rest := s[1..];
      SplitHere(s, p, q, either);
      assert forall x | x in rest :: x in s;
      FilterSplit(rest, p, q, either);
      FilterHead(s, p);
      FilterHead(s, q);
      FilterHead(s, either);
      ConcatAssociative([s[0]], Filter(rest, p), Filter(rest, q));
    }
  }

  lemma SplitHere<T(!new)>(s: seq<T>, p: T -> bool, q: T -> bool, either: T -> bool)
    requires s != [] && forall x | x in s :: (either(x) <==> p(x) || q(x)) && !(p(x) && q(x))
    ensures (either(s[0]) <==> p(s[0]) || q(s[0])) && !(p(s[0]) && q(s[0]))
  {
    assert s[0] in s;
  }

  lemma {:induction false} FilterAgree<T(!new)>(s: seq<T>, p: T -> bool, q: T -> bool)
    requires forall x | x in s :: p(x) == q(x)
    ensures Filter(s, p) == Filter(s, q)
  {
    if s != [] {
      assert s[0] in s;
      FilterAgree(s[1..], p, q);
    }
  }

  /** Multiplicities survive a filter exactly where the predicate holds. */
  lemma {:induction false} FilterCount<T(!new)>(s: seq<T>, p: T -> bool, x: T)
    ensures multiset(Filter(s, p))[x] == if p(x) then multiset(s)[x] else 0
  {
    if s != [] {
      assert s == [s[0]] + s[1..];
      FilterCount(s[1..], p, x);
    }
  }

  lemma FilterPermutation<T(!new)>(a: seq<T>, b: seq<T>, p: T -> bool)
    requires multiset(a) == multiset(b)
    ensures multiset(Filter(a, p)) == multiset(Filter(b, p))
  {
    forall x
      ensures multiset(Filter(a, p))[x] == multiset(Filter(b, p))[x]
    {
      FilterCount(a, p, x);
      FilterCount(b, p, x);
    }
  }

  // ----- images -----

  function Map<T, U>(s: seq<T>, f: T -> U): (r: seq<U>)
    ensures |r| == |s| && forall i | 0 <= i < |s| :: r[i] == f(s[i])
  {
    if s == [] then [] else [f(s[0])] + Map(s[1..], f)
  }

  lemma MapConcat<T(!new), U(!new)>(a: seq<T>, b: seq<T>, f: T -> U)
    ensures Map(a + b, f) == Map(a, f) + Map(b, f)
  {
    hide Map;
  }

  lemma MapLast<T(!new), U(!new)>(s: seq<T>, f: T -> U)
    requires s != []
    ensures Map(s, f) == Map(s[..|s| - 1], f) + [f(s[|s| - 1])]
  {
    hide Map;
  }

  /** Images of a permutation are a permutation of the images. */
  lemma {:induction false} MapPermutation<T(!new), U(!new)>(a: seq<T>, b: seq<T>, f: T -> U)
    requires multiset(a) == multiset(b)
    ensures multiset(Map(a, f)) == multiset(Map(b, f))
  {
    if a == [] {
      EmptyPermutation(b);
    } else {
      var i := MatchFirst(a, b);
      hide Map;
      MapPermutation(a[1..], b[..i] + b[i + 1..], f);
      MapRemove(b, i, f);
      MapRemove(a, 0, f);
      assert a[..0] + a[1..] == a[1..];
    }
  }

  /** A sum over images is a sum over what they are images of. */
  lemma {:induction false} SumOfMap<T(!new), U(!new)>(s: seq<T>, f: T -> U, g: U -> real, h: T -> real)
    requires forall x :: g(f(x)) == h(x)
    ensures SumOf(Map(s, f), g) == SumOf(s, h)
  {
    if s != [] {
      assert Map(s, f)[1..] == Map(s[1..], f) && Map(s, f)[0] == f(s[0]);
      SumOfMap(s[1..], f, g, h);
    }
  }

  lemma MapSlices<T(!new), U(!new)>(s: seq<T>, i: nat, f: T -> U)
    requires i < |s|
    ensures Map(s[..i], f) == Map(s, f)[..i] && Map(s[i + 1..], f) == Map(s, f)[i + 1..]
  {
    hide Map;
  }

  lemma MapRemove<T(!new), U(!new)>(s: seq<T>, i: nat, f: T -> U)
    requires i < |s|
    ensures multiset(Map(s, f)) == multiset{f(s[i])} + multiset(Map(s[..i] + s[i + 1..], f))
  {
    hide Map;
    MapSlices(s, i, f);
    MapConcat(s[..i], s[i + 1..], f);
    MultisetRemove(Map(s, f), i);
  }

  // ----- order and sorting -----

  ghost predicate TotalOn<T>(s: seq<T>, le: (T, T) -> bool) {
    forall x, y | x in s && y in s :: le(x, y) || le(y, x)
  }

  ghost predicate TransitiveOn<T>(s: seq<T>, le: (T, T) -> bool) {
    forall x, y, z | x in s && y in s && z in s :: le(x, y) && le(y, z) ==> le(x, z)
  }

  ghost predicate SortedBy<T>(s: seq<T>, le: (T, T) -> bool) {
    forall i, j | 0 <= i < j < |s| :: le(s[i], s[j])
  }

  function Insert<T>(x: T, s: seq<T>, le: (T, T) -> bool): (r: seq<T>)
    ensures multiset(r) == multiset{x} + multiset(s)
  {
    if s == [] then [x]
    else if le(x, s[0]) then [x] + s
    else
      assert s == [s[0]] + s[1..];
      [s[0]] + Insert(x, s[1..], le)
  }

  /** A stable sort: an element stays before later ones it is `le` to. */
  function Sort<T>(s: seq<T>, le: (T, T) -> bool): (r: seq<T>)
    ensures multiset(r) == multiset(s)
  {
    if s == [] then []
    else
      assert s == [s[0]] + s[1..];
      Insert(s[0], Sort(s[1..], le), le)
  }

  lemma SameElements<T(!new)>(a: seq<T>, b: seq<T>)
    requires multiset(a) == multiset(b)
    ensures |a| == |b|
    ensures forall x :: x in a <==> x in b
  {
    assert |multiset(a)| == |multiset(b)|;
    forall x
      ensures x in a <==> x in b
    {
      assert x in a <==> x in multiset(a);
      assert x in b <==> x in multiset(b);
    }
  }

  /** `x` is in order with everything in `s`. */
  ghost predicate Before<T>(x: T, s: seq<T>, le: (T, T) -> bool) {
    forall y | y in s :: le(x, y)
  }

  lemma SortedCons<T(!new)>(x: T, s: seq<T>, le: (T, T) -> bool)
    requires SortedBy(s, le) && Before(x, s, le)
    ensures SortedBy([x] + s, le)
  {
    var r := [x] + s;
    forall i, j | 0 <= i < j < |r|
      ensures le(r[i], r[j])
    {
      assert r[j] == s[j - 1] && s[j - 1] in s;
      assert i > 0 ==> r[i] == s[i - 1];
    }
  }

  lemma SortedTail<T(!new)>(s: seq<T>, le: (T, T) -> bool)
    requires s != [] && SortedBy(s, le)
    ensures SortedBy(s[1..], le) && Before(s[0], s[1..], le)
  {
    var rest := s[1..];
    assert forall i | 0 <= i < |rest| :: rest[i] == s[i + 1];
    forall y | y in rest
      ensures le(s[0], y)
    {
      var j :| 0 <= j < |rest| && rest[j] == y;
      assert s[j + 1] == y;
    }
  }

  lemma OrderSubset<T(!new)>(s: seq<T>, t: seq<T>, le: (T, T) -> bool)
    requires forall x | x in t :: x in s
    requires TotalOn(s, le) && TransitiveOn(s, le)
    ensures TotalOn(t, le) && TransitiveOn(t, le)
  {}

  lemma BeforeTransitive<T(!new)>(x: T, s: seq<T>, le: (T, T) -> bool)
    requires s != [] && le(x, s[0]) && Before(s[0], s[1..], le) && TransitiveOn([x] + s, le)
    ensures Before(x, s, le)
  {
    forall y | y in s
      ensures le(x, y)
    {
      assert s == [s[0]] + s[1..];
      assert x in [x] + s && s[0] in [x] + s && y in [x] + s;
    }
  }

  lemma InsertMembers<T(!new)>(x: T, s: seq<T>, le: (T, T) -> bool)
    ensures forall y :: y in Insert(x, s, le) <==> y == x || y in s
  {
    hide Insert;
    assert multiset([x] + s) == multiset{x} + multiset(s);
    SameElements(Insert(x, s, le), [x] + s);
  }

  lemma {:induction false} InsertSorted<T(!new)>(x: T, s: seq<T>, le: (T, T) -> bool)
    requires SortedBy(s, le)
    requires TotalOn([x] + s, le) && TransitiveOn([x] + s, le)
    ensures SortedBy(Insert(x, s, le), le)
  {
    if s != [] {
      SortedTail(s, le);
      if le(x, s[0]) {
        BeforeTransitive(x, s, le);
        SortedCons(x, s, le);
      } else {
        assert x in [x] + s && s[0] in [x] + s;
        assert le(s[0], x);
        OrderSubset([x] + s, [x] + s[1..], le);
        hide TotalOn, TransitiveOn, SortedBy;
        InsertSorted(x, s[1..], le);
        InsertMembers(x, s[1..], le);
        SortedCons(s[0], Insert(x, s[1..], le), le);
      }
    }
  }

  /** On any input whose elements the comparator orders consistently, the result is sorted. */
  lemma {:induction false} SortSorted<T(!new)>(s: seq<T>, le: (T, T) -> bool)
    requires TotalOn(s, le) && TransitiveOn(s, le)
    ensures SortedBy(Sort(s, le), le)
  {
    if s != [] {
      assert forall y | y in s[1..] :: y in s;
      SortSorted(s[1..], le);
      var r := Sort(s[1..], le);
      SameElements(r, s[1..]);
      assert forall y | y in [s[0]] + r :: y in s;
      InsertSorted(s[0], r, le);
    }
  }

  /** Where `key` is what the comparator looks at first, sorting orders by `key`, however the comparator decides among
      elements of one key. */
  ghost predicate KeyFirst<T(!new)>(le: (T, T) -> bool, key: T -> int) {
    forall x, y :: if le(x, y) then key(x) <= key(y) else key(y) <= key(x)
  }

  ghost predicate OrderedByKey<T>(s: seq<T>, key: T -> int) {
    forall i, j | 0 <= i < j < |s| :: key(s[i]) <= key(s[j])
  }

  lemma OrderedCons<T(!new)>(x: T, s: seq<T>, key: T -> int)
    requires OrderedByKey(s, key) && forall y | y in s :: key(x) <= key(y)
    ensures OrderedByKey([x] + s, key)
  {
    var r := [x] + s;
    forall i, j | 0 <= i < j < |r|
      ensures key(r[i]) <= key(r[j])
    {
      assert r[j] == s[j - 1] && s[j - 1] in s;
      assert i > 0 ==> r[i] == s[i - 1];
    }
  }

  lemma OrderedTail<T(!new)>(s: seq<T>, key: T -> int)
    requires s != [] && OrderedByKey(s, key)
    ensures OrderedByKey(s[1..], key) && forall y | y in s :: key(s[0]) <= key(y)
  {
    var rest := s[1..];
    assert forall i | 0 <= i < |rest| :: rest[i] == s[i + 1];
  }

  lemma {:induction false} InsertOrdered<T(!new)>(x: T, s: seq<T>, le: (T, T) -> bool, key: T -> int)
    requires KeyFirst(le, key) && OrderedByKey(s, key)
    ensures OrderedByKey(Insert(x, s, le), key)
  {
    if s != [] {
      OrderedTail(s, key);
      hide OrderedByKey;
      if le(x, s[0]) {
        OrderedCons(x, s, key);
      } else {
        InsertOrdered(x, s[1..], le, key);
        InsertMembers(x, s[1..], le);
        assert s == [s[0]] + s[1..];
        OrderedCons(s[0], Insert(x, s[1..], le), key);
      }
    }
  }

  lemma {:induction false} SortOrdered<T(!new)>(s: seq<T>, le: (T, T) -> bool, key: T -> int)
    requires KeyFirst(le, key)
    ensures OrderedByKey(Sort(s, le), key)
  {
    if s != [] {
      SortOrdered(s[1..], le, key);
      hide OrderedByKey, KeyFirst;
      InsertOrdered(s[0], Sort(s[1..], le), le, key);
    }
  }

  /** Three elements in a cycle keep whichever order they come in. */
  lemma SortCycle<T(!new)>(a: T, b: T, c: T, le: (T, T) -> bool)
    requires le(a, b) && le(b, c)
    ensures Sort([a, b, c], le) == [a, b, c]
  {
    assert [a, b, c][1..] == [b, c] && [b, c][1..] == [c] && [c][1..] == [];
    assert Sort([c], le) == [c];
    assert Sort([b, c], le) == [b, c];
  }

  /** What was inserted into can be read off the result, if every element is in order with itself. */
  lemma {:induction false} InsertExact<T(!new)>(x: T, s: seq<T>, t: seq<T>, le: (T, T) -> bool)
    requires le(x, x) && Insert(x, s, le) == Insert(x, t, le)
    ensures s == t
  {
    hide Insert;
    InsertLength(x, s, le);
    InsertLength(x, t, le);
    if s != [] {
      InsertHead(x, s, le);
      InsertHead(x, t, le);
      if !le(x, s[0]) && !le(x, t[0]) {
        InsertExact(x, s[1..], t[1..], le);
        assert s == [s[0]] + s[1..] && t == [t[0]] + t[1..];
      }
    }
  }

  lemma InsertLength<T(!new)>(x: T, s: seq<T>, le: (T, T) -> bool)
    ensures |Insert(x, s, le)| == |s| + 1
  {
    hide Insert;
    assert multiset([x] + s) == multiset{x} + multiset(s);
    SameElements(Insert(x, s, le), [x] + s);
  }

  lemma InsertHead<T(!new)>(x: T, s: seq<T>, le: (T, T) -> bool)
    requires s != []
    ensures var r := Insert(x, s, le);
            r != [] && r[0] == (if le(x, s[0]) then x else s[0])
            && r[1..] == if le(x, s[0]) then s else Insert(x, s[1..], le)
  {}

  lemma SortFront<T(!new)>(front: seq<T>, p: seq<T>, le: (T, T) -> bool)
    requires front != []
    ensures Sort(front + p, le) == Insert(front[0], Sort(front[1..] + p, le), le)
  {
    assert (front + p)[1..] == front[1..] + p;
  }

  /** Inputs that sort differently still do with other elements before them. */
  lemma {:induction false} SortTellsApart<T(!new)>(front: seq<T>, p: seq<T>, q: seq<T>, le: (T, T) -> bool)
    requires Sort(p, le) != Sort(q, le) && forall x | x in front :: le(x, x)
    ensures Sort(front + p, le) != Sort(front + q, le)
  {
    hide Sort, Insert;
    if front == [] {
      assert front + p == p && front + q == q;
    } else {
      assert front[0] in front && forall x | x in front[1..] :: x in front;
      SortFront(front, p, le);
      SortFront(front, q, le);
      SortTellsApart(front[1..], p, q, le);
      if Sort(front + p, le) == Sort(front + q, le) {
        InsertExact(front[0], Sort(front[1..] + p, le), Sort(front[1..] + q, le), le);
      }
    }
  }

  /** A sequence with one occurrence of `x` taken out. */
  lemma TakeOut<T(!new)>(s: seq<T>, x: T) returns (rest: seq<T>)
    requires x in s
    ensures multiset(s) == multiset(rest) + multiset{x} && forall y | y in rest :: y in s
    ensures forall y | y in s && y != x :: y in rest
  {
    var i :| 0 <= i < |s| && s[i] == x;
    rest := s[..i] + s[i + 1..];
    MultisetRemove(s, i);
    assert s == s[..i] + [s[i]] + s[i + 1..];
  }

  /** Three members of a sequence can be put last, in either of two orders. */
  lemma ThreeLast<T(!new)>(s: seq<T>, a: T, b: T, c: T) returns (front: seq<T>)
    requires a in s && b in s && c in s && a != b && b != c && c != a
    ensures multiset(front + [a, b, c]) == multiset(s) && multiset(front + [b, c, a]) == multiset(s)
    ensures forall x | x in front :: x in s
  {
    var r := TakeOut(s, a);
    var t := TakeOut(r, b);
    front := TakeOut(t, c);
    assert multiset([a, b, c]) == multiset{a} + multiset{b} + multiset{c};
    assert multiset([b, c, a]) == multiset([a, b, c]);
  }

  lemma {:induction false} InsertMap<T(!new), U(!new)>(
      x: T, s: seq<T>, le: (T, T) -> bool, f: T -> U, le': (U, U) -> bool)
    requires forall x, y :: le'(f(x), f(y)) == le(x, y)
    ensures Map(Insert(x, s, le), f) == Insert(f(x), Map(s, f), le')
  {
    hide Map;
    if s == [] {
      assert Map(s, f) == [];
    } else {
      assert Map(s, f)[1..] == Map(s[1..], f) && Map(s, f)[0] == f(s[0]);
      if !le(x, s[0]) {
        InsertMap(x, s[1..], le, f, le');
        MapConcat([s[0]], Insert(x, s[1..], le), f);
        assert Map([s[0]], f) == [f(s[0])];
      } else {
        MapConcat([x], s, f);
        assert Map([x], f) == [f(x)];
      }
    }
  }

  /** Sorting commutes with images that the comparator does not see through. */
  lemma {:induction false} SortMap<T(!new), U(!new)>(s: seq<T>, le: (T, T) -> bool, f: T -> U, le': (U, U) -> bool)
    requires forall x, y :: le'(f(x), f(y)) == le(x, y)
    ensures Map(Sort(s, le), f) == Sort(Map(s, f), le')
  {
    hide Map;
    if s == [] {
      assert Map(s, f) == [];
    } else {
      assert Map(s, f)[1..] == Map(s[1..], f) && Map(s, f)[0] == f(s[0]);
      hide Insert;
      SortMap(s[1..], le, f, le');
      InsertMap(s[0], Sort(s[1..], le), le, f, le');
    }
  }

  /** Elements that the comparator ties are the same element. */
  ghost predicate TiesEqual<T>(s: seq<T>, le: (T, T) -> bool) {
    forall x, y | x in s && y in s :: le(x, y) && le(y, x) ==> x == y
  }

  lemma SortedHead<T(!new)>(a: seq<T>, b: seq<T>, le: (T, T) -> bool)
    requires a != [] && b != []
    requires forall x :: x in a <==> x in b
    requires SortedBy(a, le) && SortedBy(b, le) && TiesEqual(a, le)
    ensures a[0] == b[0]
  {
    var x, y := a[0], b[0];
    assert x in a && y in b;
    var i :| 0 <= i < |b| && b[i] == x;
    var j :| 0 <= j < |a| && a[j] == y;
    assert i == 0 || le(b[0], b[i]);
    assert j == 0 || le(a[0], a[j]);
  }

  lemma MultisetTail<T(!new)>(a: seq<T>, b: seq<T>)
    requires multiset(a) == multiset(b) && a != [] && b != [] && a[0] == b[0]
    ensures multiset(a[1..]) == multiset(b[1..])
  {
    assert a == [a[0]] + a[1..] && b == [b[0]] + b[1..];
    assert multiset(a[1..]) == multiset(a) - multiset{a[0]};
    assert multiset(b[1..]) == multiset(b) - multiset{b[0]};
  }

  /** If elements tied by the comparator are equal, one multiset has only one sorted arrangement. */
  lemma {:induction false} SortedUnique<T(!new)>(a: seq<T>, b: seq<T>, le: (T, T) -> bool)
    requires multiset(a) == multiset(b)
    requires SortedBy(a, le) && SortedBy(b, le)
    requires TiesEqual(a, le)
    ensures a == b
  {
    SameElements(a, b);
    if a != [] {
      SortedHead(a, b, le);
      MultisetTail(a, b);
      assert TiesEqual(a[1..], le) by {
        assert forall z | z in a[1..] :: z in a;
      }
      SortedUnique(a[1..], b[1..], le);
      assert a == [a[0]] + a[1..] && b == [b[0]] + b[1..];
    }
  }

  /** Sorting forgets the input order whenever ties are harmless. */
  lemma SortPermutation<T(!new)>(a: seq<T>, b: seq<T>, le: (T, T) -> bool)
    requires multiset(a) == multiset(b)
    requires TotalOn(a, le) && TransitiveOn(a, le)
    requires TiesEqual(a, le)
    ensures Sort(a, le) == Sort(b, le)
  {
    SameElements(a, b);
    SortSorted(a, le);
    SortSorted(b, le);
    SameElements(Sort(a, le), a);
    SortedUnique(Sort(a, le), Sort(b, le), le);
  }

  // ----- sequences without repetition -----

  ghost predicate Distinct<T>(s: seq<T>) {
    forall i, j | 0 <= i < j < |s| :: s[i] != s[j]
  }

  lemma DistinctCount<T(!new)>(s: seq<T>)
    requires Distinct(s)
    ensures forall x :: multiset(s)[x] == if x in s then 1 else 0
    decreases |s|
  {
    if s != [] {
      var init, last := s[..|s| - 1], s[|s| - 1];
      DistinctCount(init);
      assert s == init + [last];
      assert last !in init;
    }
  }

  lemma DistinctFromCount<T(!new)>(s: seq<T>)
    requires forall x :: multiset(s)[x] <= 1
    ensures Distinct(s)
  {
    forall i, j | 0 <= i < j < |s|
      ensures s[i] != s[j]
    {
      MultisetRemove(s, j);
      var rest := s[..j] + s[j + 1..];
      assert rest[i] == s[i];
      assert rest[i] in multiset(rest);
      assert multiset(s)[s[i]] == multiset{s[j]}[s[i]] + multiset(rest)[s[i]];
    }
  }

  lemma DistinctPermutes<T(!new)>(a: seq<T>, b: seq<T>)
    requires Distinct(a) && multiset(a) == multiset(b)
    ensures Distinct(b)
  {
    DistinctCount(a);
    DistinctFromCount(b);
  }

  /** Sequences without repetition that hold the same elements are permutations of each other. */
  lemma DistinctSameElements<T(!new)>(a: seq<T>, b: seq<T>)
    requires Distinct(a) && Distinct(b) && forall x :: x in a <==> x in b
    ensures multiset(a) == multiset(b)
  {
    DistinctCount(a);
    DistinctCount(b);
    hide Distinct;
    forall x
      ensures multiset(a)[x] == multiset(b)[x]
    {
      assert x in a <==> x in b;
    }
  }

  lemma {:induction false} DistinctFilter<T(!new)>(s: seq<T>, p: T -> bool)
    requires Distinct(s)
    ensures Distinct(Filter(s, p))
  {
    if s != [] {
      var rest := s[1..];
      assert forall i | 0 <= i < |rest| :: rest[i] == s[i + 1];
      DistinctFilter(rest, p);
      FilterMembers(rest, p);
      assert s[0] !in rest;
      assert forall i | 0 <= i < |Filter(rest, p)| :: Filter(rest, p)[i] in Filter(rest, p);
    }
  }

  /** At most one element passes the filter. */
  ghost predicate AtMostOne<T(!new)>(s: seq<T>, p: T -> bool) {
    forall i, j | 0 <= i < j < |s| :: !(p(s[i]) && p(s[j]))
  }

  lemma {:induction false} FilterAtMostOne<T(!new)>(s: seq<T>, p: T -> bool)
    ensures |Filter(s, p)| <= 1 <==> AtMostOne(s, p)
    ensures |Filter(s, p)| == 0 <==> forall x | x in s :: !p(x)
  {
    if s != [] {
      var rest := s[1..];
      FilterAtMostOne(rest, p);
      assert forall i | 0 <= i < |rest| :: rest[i] == s[i + 1];
      AtMostOneTail(s, p);
      FilterHead(s, p);
      hide Filter, AtMostOne;
      assert s == [s[0]] + rest;
      assert s[0] in s;
    }
  }

  lemma AtMostOneTail<T(!new)>(s: seq<T>, p: T -> bool)
    requires s != []
    ensures AtMostOne(s, p) <==> AtMostOne(s[1..], p) && (p(s[0]) ==> forall x | x in s[1..] :: !p(x))
  {
    var rest := s[1..];
    assert forall i | 0 <= i < |rest| :: rest[i] == s[i + 1];
    if AtMostOne(s, p) {
      forall i, j | 0 <= i < j < |rest|
        ensures !(p(rest[i]) && p(rest[j]))
      {
        assert rest[i] == s[i + 1] && rest[j] == s[j + 1];
      }
    }
    if AtMostOne(rest, p) && (p(s[0]) ==> forall x | x in rest :: !p(x)) {
      forall i, j | 0 <= i < j < |s|
        ensures !(p(s[i]) && p(s[j]))
      {
        assert s[j] == rest[j - 1] && s[j] in rest;
        assert i > 0 ==> s[i] == rest[i - 1];
      }
    }
  }

  lemma FilterSingle<T(!new)>(s: seq<T>, p: T -> bool, x: T)
    requires Distinct(s) && x in s && p(x) && forall y | y in s && p(y) :: y == x
    ensures |Filter(s, p)| == 1
  {
    hide Filter;
    FilterAtMostOne(s, p);
    assert AtMostOne(s, p);
  }

  lemma {:induction false} FilterTwice<T(!new)>(s: seq<T>, p: T -> bool, q: T -> bool, both: T -> bool)
    requires forall x | x in s :: both(x) <==> p(x) && q(x)
    ensures Filter(Filter(s, p), q) == Filter(s, both)
  {
    hide Filter;
    if s == [] {
      FilterEmpty(p);
      FilterEmpty(q);
      FilterEmpty(both);
    } else {
      assert s[0] in s && forall x | x in s[1..] :: x in s;
      FilterTwice(s[1..], p, q, both);
      FilterHead(s, p);
      FilterHead(s, both);
      FilterPrepend(s[0], Filter(s[1..], p), q);
    }
  }

  lemma FilterPrepend<T(!new)>(x: T, s: seq<T>, p: T -> bool)
    ensures Filter([x] + s, p) == (if p(x) then [x] else []) + Filter(s, p)
    ensures [] + s == s
  {
    assert ([x] + s)[1..] == s;
  }

  lemma NoMembers<T(!new)>(s: seq<T>)
    ensures (forall x :: x !in s) <==> s == []
  {
    assert s != [] ==> s[0] in s;
  }

  /** The elements of `s` without repetition, in the order they first occur. */
  function FirstSeen<T(==)>(s: seq<T>): seq<T> {
    if s == [] then []
    else
      var before := FirstSeen(s[..|s| - 1]);
      if s[|s| - 1] in before then before else before + [s[|s| - 1]]
  }

  lemma {:induction false} FirstSeenExact<T(!new)>(s: seq<T>)
    ensures Distinct(FirstSeen(s)) && forall x :: x in FirstSeen(s) <==> x in s
  {
    if s != [] {
      var init := s[..|s| - 1];
      assert s == init + [s[|s| - 1]];
      FirstSeenExact(init);
    }
  }

  lemma FirstSeenStep<T(!new)>(s: seq<T>, x: T)
    ensures FirstSeen(s + [x]) == if x in FirstSeen(s) then FirstSeen(s) else FirstSeen(s) + [x]
  {
    assert (s + [x])[..|s|] == s;
  }

  lemma DistinctLast<T(!new)>(s: seq<T>)
    requires s != [] && Distinct(s)
    ensures var init, last := s[..|s| - 1], s[|s| - 1];
            Distinct(init) && last !in init && forall x :: x in s <==> x in init || x == last
  {
    assert s == s[..|s| - 1] + [s[|s| - 1]];
  }

  lemma DistinctAppend<T(!new)>(s: seq<T>, x: T)
    requires Distinct(s) && x !in s
    ensures Distinct(s + [x])
  {}

  lemma DistinctConcat<T(!new)>(a: seq<T>, b: seq<T>)
    requires forall x, y | x in a && y in b :: x != y
    ensures Distinct(a + b) <==> Distinct(a) && Distinct(b)
  {
    var c := a + b;
    if Distinct(c) {
      forall i, j | 0 <= i < j < |b|
        ensures b[i] != b[j]
      {
        assert c[|a| + i] == b[i] && c[|a| + j] == b[j];
      }
      forall i, j | 0 <= i < j < |a|
        ensures a[i] != a[j]
      {
        assert c[i] == a[i] && c[j] == a[j];
      }
    }
    if Distinct(a) && Distinct(b) {
      forall i, j | 0 <= i < j < |c|
        ensures c[i] != c[j]
      {
        assert i < |a| ==> c[i] in a;
        assert j >= |a| ==> c[j] in b && c[j] == b[j - |a|];
      }
    }
  }

  /** Images that tell the elements apart do not repeat either. */
  lemma DistinctMap<T(!new), U(!new)>(s: seq<T>, f: T -> U)
    requires Distinct(s) && forall x, y | x in s && y in s && f(x) == f(y) :: x == y
    ensures Distinct(Map(s, f))
  {
    hide Map;
    forall i, j | 0 <= i < j < |s|
      ensures Map(s, f)[i] != Map(s, f)[j]
    {
      assert s[i] in s && s[j] in s && s[i] != s[j];
    }
  }

  lemma MapMembers<T(!new), U(!new)>(s: seq<T>, f: T -> U)
    ensures forall y :: y in Map(s, f) <==> exists x | x in s :: f(x) == y
  {
    hide Map;
    forall y
      ensures y in Map(s, f) <==> exists x | x in s :: f(x) == y
    {
      if y in Map(s, f) {
        var i :| 0 <= i < |s| && Map(s, f)[i] == y;
        assert s[i] in s;
      }
      if exists x | x in s :: f(x) == y {
        var x :| x in s && f(x) == y;
        var i :| 0 <= i < |s| && s[i] == x;
        assert Map(s, f)[i] == y;
      }
    }
  }

  /** One more loop iteration that keeps and converts an element. */
  lemma MapFilterStep<T(!new), U(!new)>(s: seq<T>, i: nat, p: T -> bool, f: T -> U)
    requires i < |s|
    ensures Map(Filter(s[..i + 1], p), f) == Map(Filter(s[..i], p), f) + (if p(s[i]) then [f(s[i])] else [])
  {
    hide Filter, Map;
    FilterStep(s, i, p);
    if p(s[i]) {
      MapConcat(Filter(s[..i], p), [s[i]], f);
    } else {
      assert Filter(s[..i], p) + [] == Filter(s[..i], p);
    }
  }

  lemma TwoMembers<T(!new)>(s: seq<T>, x: T, y: T)
    requires x in s && y in s && x != y
    ensures |s| > 1
  {}

  // ----- sequences of sequences -----

  ghost function Flatten<T>(s: seq<seq<T>>): seq<T> {
    if s == [] then [] else s[0] + Flatten(s[1..])
  }

  lemma {:induction false} FlattenConcat<T(!new)>(a: seq<seq<T>>, b: seq<seq<T>>)
    ensures Flatten(a + b) == Flatten(a) + Flatten(b)
  {
    if a == [] {
      assert a + b == b;
    } else {
      assert (a + b)[1..] == a[1..] + b;
      FlattenConcat(a[1..], b);
      assert a[0] + (Flatten(a[1..]) + Flatten(b)) == Flatten(a) + Flatten(b);
    }
  }

  lemma FlattenOne<T(!new)>(s: seq<T>)
    ensures Flatten([s]) == s
  {
    assert [s][1..] == [];
  }

  /** One more loop iteration that appends what an element stands for. */
  lemma FlattenMapStep<T(!new), U(!new)>(s: seq<T>, i: nat, f: T -> seq<U>)
    requires i < |s|
    ensures Flatten(Map(s[..i + 1], f)) == Flatten(Map(s[..i], f)) + f(s[i])
  {
    hide Map, Flatten;
    assert s[..i + 1][..i] == s[..i];
    MapLast(s[..i + 1], f);
    FlattenConcat(Map(s[..i], f), [f(s[i])]);
    FlattenOne(f(s[i]));
  }

  lemma {:induction false} FlattenMapMembers<T(!new), U(!new)>(s: seq<T>, f: T -> seq<U>)
    ensures forall y :: y in Flatten(Map(s, f)) <==> exists x | x in s :: y in f(x)
  {
    if s == [] {
      assert Map(s, f) == [];
    } else {
      var n := |s| - 1;
      FlattenMapMembers(s[..n], f);
      FlattenMapStep(s, n, f);
      assert s[..n + 1] == s && s == s[..n] + [s[n]];
      hide Map, Flatten;
      forall y
        ensures y in Flatten(Map(s, f)) <==> exists x | x in s :: y in f(x)
      {
        assert y in f(s[n]) ==> s[n] in s;
      }
    }
  }

  /** Blocks without repetition that share no element make a sequence without repetition. */
  lemma {:induction false} FlattenMapDistinct<T(!new), U(!new)>(s: seq<T>, f: T -> seq<U>)
    requires Distinct(s) && forall x | x in s :: Distinct(f(x))
    requires forall x, y, u | x in s && y in s && u in f(x) && u in f(y) :: x == y
    ensures Distinct(Flatten(Map(s, f)))
  {
    if s == [] {
      assert Map(s, f) == [];
    } else {
      var n := |s| - 1;
      var init, last := s[..n], s[n];
      DistinctLast(s);
      assert s == init + [last] && s[..n + 1] == s;
      FlattenMapDistinct(init, f);
      FlattenMapMembers(init, f);
      FlattenMapStep(s, n, f);
      hide Map, Flatten;
      forall u, v | u in Flatten(Map(init, f)) && v in f(last)
        ensures u != v
      {
        var x :| x in init && u in f(x);
        assert x in s && last in s;
      }
      DistinctConcat(Flatten(Map(init, f)), f(last));
    }
  }
}
