/**
 * A stable sort parameterised by an ordering relation: the model of
 * JavaScript's `Array.prototype.sort` (stable since ES2019) called with a
 * comparator `cmp`, where `le(a, b)` stands for `cmp(a, b) <= 0`.
 *
 * The sort is insertion sort: each element is inserted in front of the first
 * element it may precede, so elements the relation ties keep their order.
 */
module Sorting {

  ghost predicate Total<T(!new)>(le: (T, T) -> bool) {
    forall a, b :: le(a, b) || le(b, a)
  }

  ghost predicate Transitive<T(!new)>(le: (T, T) -> bool) {
    forall a, b, c :: le(a, b) && le(b, c) ==> le(a, c)
  }

  ghost predicate TotalPreorder<T(!new)>(le: (T, T) -> bool) {
    Total(le) && Transitive(le)
  }

  /** Every element may precede every later one. */
  predicate SortedBy<T>(le: (T, T) -> bool, s: seq<T>) {
    forall i, j :: 0 <= i < j < |s| ==> le(s[i], s[j])
  }

  /** Places `x` in front of the first element of `s` that it may precede. */
  function Insert<T>(le: (T, T) -> bool, x: T, s: seq<T>): (r: seq<T>)
    ensures |r| == |s| + 1
    ensures multiset(r) == multiset(s) + multiset{x}
  {
    if s == [] then [x]
    else if le(x, s[0]) then [x] + s
    else
      assert s == [s[0]] + s[1..];
      [s[0]] + Insert(le, x, s[1..])
  }

  /** Sorting a copy of `s`: a new sequence, `s` itself is untouched. */
  function Sort<T>(le: (T, T) -> bool, s: seq<T>): (r: seq<T>)
    ensures |r| == |s|
    ensures multiset(r) == multiset(s)
  {
    if s == [] then []
    else
      assert s == [s[0]] + s[1..];
      Insert(le, s[0], Sort(le, s[1..]))
  }

  lemma {:induction false} InsertSorted<T(!new)>(le: (T, T) -> bool, x: T, s: seq<T>)
    requires TotalPreorder(le)
    requires SortedBy(le, s)
    ensures SortedBy(le, Insert(le, x, s))
  {
    if s == [] {
    } else if le(x, s[0]) {
      forall i | 0 <= i < |s| ensures le(x, s[i]) {
        if i > 0 {
          assert le(s[0], s[i]);
        }
      }
      ConsSorted(le, x, s);
    } else {
      assert le(s[0], x);
      InsertSorted(le, x, s[1..]);
      PrecedesEachInsert(le, s[0], x, s[1..]);
      ConsSorted(le, s[0], Insert(le, x, s[1..]));
    }
  }

  /** `a` may precede every element of `s`. */
  ghost predicate PrecedesEach<T>(le: (T, T) -> bool, a: T, s: seq<T>) {
    forall i :: 0 <= i < |s| ==> le(a, s[i])
  }

  lemma ConsSorted<T>(le: (T, T) -> bool, a: T, s: seq<T>)
    requires SortedBy(le, s) && PrecedesEach(le, a, s)
    ensures SortedBy(le, [a] + s)
  {
    var r := [a] + s;
    forall i, j | 0 <= i < j < |r| ensures le(r[i], r[j]) {
      if i == 0 {
        assert r[j] == s[j - 1];
      } else {
        assert r[i] == s[i - 1] && r[j] == s[j - 1];
      }
    }
  }

  lemma {:induction false} PrecedesEachInsert<T>(le: (T, T) -> bool, a: T, x: T, s: seq<T>)
    requires PrecedesEach(le, a, s) && le(a, x)
    ensures PrecedesEach(le, a, Insert(le, x, s))
  {
    if s != [] && !le(x, s[0]) {
      assert PrecedesEach(le, a, s[1..]) by {
        forall i | 0 <= i < |s| - 1 ensures le(a, s[1..][i]) {
          assert s[1..][i] == s[i + 1];
        }
      }
      PrecedesEachInsert(le, a, x, s[1..]);
      var t := Insert(le, x, s[1..]);
      var r := [s[0]] + t;
      assert Insert(le, x, s) == r;
      forall i | 0 <= i < |r| ensures le(a, r[i]) {
        if i > 0 {
          assert r[i] == t[i - 1];
        }
      }
    }
  }

  /** The sort orders its output under any total preorder. */
  lemma {:induction false} SortSorted<T(!new)>(le: (T, T) -> bool, s: seq<T>)
    requires TotalPreorder(le)
    ensures SortedBy(le, Sort(le, s))
  {
    if s != [] {
      SortSorted(le, s[1..]);
      InsertSorted(le, s[0], Sort(le, s[1..]));
    }
  }

  /** The elements of `s` that the relation ties with `z`, in their order in `s`. */
  function Ties<T>(le: (T, T) -> bool, z: T, s: seq<T>): (r: seq<T>)
    ensures |r| <= |s|
  {
    if s == [] then []
    else (if le(s[0], z) && le(z, s[0]) then [s[0]] else []) + Ties(le, z, s[1..])
  }

  /**
   * Inserting `x` adds it to the front of the elements tied with `z`; the one
   * fact used of the relation is that an `x` tied with `z` may precede
   * whatever `z` may precede.
   */
  lemma {:induction false} InsertTies<T(!new)>(le: (T, T) -> bool, z: T, x: T, s: seq<T>)
    requires le(x, z) && le(z, x) ==> forall y :: le(z, y) ==> le(x, y)
    ensures Ties(le, z, Insert(le, x, s))
         == (if le(x, z) && le(z, x) then [x] else []) + Ties(le, z, s)
  {
    if s == [] {
    } else if le(x, s[0]) {
      TiesCons(le, z, x, s);
    } else {
      var t := Insert(le, x, s[1..]);
      assert Insert(le, x, s) == [s[0]] + t;
      var rest := Ties(le, z, s[1..]);
      var h0 := if le(s[0], z) && le(z, s[0]) then [s[0]] else [];
      var hx := if le(x, z) && le(z, x) then [x] else [];
      assert Ties(le, z, s) == h0 + rest;
      InsertTies(le, z, x, s[1..]);
      TiesCons(le, z, s[0], t);
      assert Ties(le, z, [s[0]] + t) == h0 + (hx + rest);
      if le(x, z) && le(z, x) {
        // x passed s[0] by, so s[0] cannot tie with z: x would then precede it
        assert !le(z, s[0]);
      }
      SwapEmpty(h0, hx, rest);
    }
  }

  lemma SwapEmpty<T>(a: seq<T>, b: seq<T>, c: seq<T>)
    requires a == [] || b == []
    ensures a + (b + c) == b + (a + c)
  {
    if a == [] {
      assert a + (b + c) == b + c == b + (a + c);
    } else {
      assert a + (b + c) == a + c == b + (a + c);
    }
  }

  lemma TiesCons<T>(le: (T, T) -> bool, z: T, x: T, s: seq<T>)
    ensures Ties(le, z, [x] + s) == (if le(x, z) && le(z, x) then [x] else []) + Ties(le, z, s)
  {
    assert ([x] + s)[1..] == s;
  }

  /** Stability: tied elements leave the sort in the order they entered it. */
  lemma {:induction false} SortStable<T(!new)>(le: (T, T) -> bool, z: T, s: seq<T>)
    requires Transitive(le)
    ensures Ties(le, z, Sort(le, s)) == Ties(le, z, s)
  {
    if s != [] {
      SortStable(le, z, s[1..]);
      InsertTies(le, z, s[0], Sort(le, s[1..]));
    }
  }

  /** No two distinct elements of `m` are tied by the relation. */
  ghost predicate AntisymmetricOn<T>(le: (T, T) -> bool, m: multiset<T>) {
    forall a, b :: a in m && b in m && le(a, b) && le(b, a) ==> a == b
  }

  /** Two sorted arrangements of the same elements coincide when no two of them tie. */
  lemma {:induction false} SortedUnique<T(!new)>(le: (T, T) -> bool, r1: seq<T>, r2: seq<T>)
    requires Total(le)
    requires SortedBy(le, r1) && SortedBy(le, r2)
    requires multiset(r1) == multiset(r2)
    requires AntisymmetricOn(le, multiset(r1))
    ensures r1 == r2
  {
    if r1 == [] {
      assert |multiset(r2)| == 0;
    } else {
      assert |multiset(r2)| == |r1|;
      var a, b := r1[0], r2[0];
      HeadPrecedesAll(le, r1, b);
      HeadPrecedesAll(le, r2, a);
      assert a == b;
      SplitHead(r1);
      SplitHead(r2);
      SortedUnique(le, r1[1..], r2[1..]);
    }
  }

  /** The head of a sorted sequence may precede each of its elements. */
  lemma HeadPrecedesAll<T(!new)>(le: (T, T) -> bool, r: seq<T>, y: T)
    requires Total(le) && SortedBy(le, r)
    requires y in multiset(r)
    ensures le(r[0], y)
  {
    var k :| 0 <= k < |r| && r[k] == y;
    if k == 0 {
      assert le(y, y) || le(y, y);
    }
  }

  /** Dropping the head keeps a sequence sorted and removes one copy of it from its elements. */
  lemma SplitHead<T>(r: seq<T>)
    requires r != []
    ensures multiset(r[1..]) == multiset(r) - multiset{r[0]}
  {
    assert r == [r[0]] + r[1..];
  }

  /** Sorting two permutations of each other gives the same result when no two elements tie. */
  lemma SortDeterminedByElements<T(!new)>(le: (T, T) -> bool, s: seq<T>, t: seq<T>)
    requires TotalPreorder(le)
    requires multiset(s) == multiset(t)
    requires AntisymmetricOn(le, multiset(s))
    ensures Sort(le, s) == Sort(le, t)
  {
    SortSorted(le, s);
    SortSorted(le, t);
    SortedUnique(le, Sort(le, s), Sort(le, t));
  }
}
