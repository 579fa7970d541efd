/** A stable sort driven by a three-way comparator, as `Array.prototype.sort(compareFn)`
    behaves since section 22.1.3.27 of ECMA-262 (10th edition, 2019) made it stable:
    `cmp(a, b) < 0` puts `a` first, `cmp(a, b) > 0` puts `b` first, and `0` keeps
    the input order. */
module StableSort {
  import opened Seqs

  /** Swapping the arguments flips the sign. */
  ghost predicate FlipsAt<T>(cmp: (T, T) -> int, a: T, b: T) {
    cmp(a, b) < 0 <==> cmp(b, a) > 0
  }

  /** "Not after" is transitive through `b`. */
  ghost predicate TransitiveAt<T>(cmp: (T, T) -> int, a: T, b: T, c: T) {
    cmp(a, b) <= 0 && cmp(b, c) <= 0 ==> cmp(a, c) <= 0
  }

  /** A consistent comparator, ECMA-262's requirement on `compareFn`. The two facts are
      stated through named predicates so that proofs instantiate them on purpose. */
  ghost predicate IsConsistent<T(!new)>(cmp: (T, T) -> int) {
    && (forall a, b :: FlipsAt(cmp, a, b))
    && (forall a, b, c :: TransitiveAt(cmp, a, b, c))
  }

  /** No element is strictly after one that follows it. */
  ghost predicate Sorted<T>(s: seq<T>, cmp: (T, T) -> int) {
    forall i, j :: 0 <= i < j < |s| ==> cmp(s[i], s[j]) <= 0
  }

  /** The elements that compare equal to `x`: the class whose order stability preserves. */
  function TiesWith<T>(cmp: (T, T) -> int, x: T): T -> bool {
    e => cmp(e, x) == 0
  }

  /** Puts `x` before the first element that is strictly after it. */
  function Insert<T>(x: T, s: seq<T>, cmp: (T, T) -> int): seq<T>
  {
    if s == [] then [x]
    else if cmp(x, s[0]) < 0 then [x] + s
    else [s[0]] + Insert(x, s[1..], cmp)
  }

  /** Stable insertion sort: each element, from left to right, goes after every
      element already placed that it does not precede. */
  function Sort<T>(s: seq<T>, cmp: (T, T) -> int): seq<T>
  {
    if s == [] then []
    else Insert(s[|s| - 1], Sort(s[..|s| - 1], cmp), cmp)
  }

  lemma {:induction false} InsertPermutes<T>(x: T, s: seq<T>, cmp: (T, T) -> int)
    ensures multiset(Insert(x, s, cmp)) == multiset(s) + multiset{x}
  {
    if s != [] && cmp(x, s[0]) >= 0 {
      InsertPermutes(x, s[1..], cmp);
      assert s == [s[0]] + s[1..];
    }
  }

  /** The result of `Sort` is a permutation of its input. */
  lemma {:induction false} SortPermutes<T>(s: seq<T>, cmp: (T, T) -> int)
    ensures multiset(Sort(s, cmp)) == multiset(s)
  {
    if s != [] {
      SortPermutes(s[..|s| - 1], cmp);
      InsertPermutes(s[|s| - 1], Sort(s[..|s| - 1], cmp), cmp);
      assert s == s[..|s| - 1] + [s[|s| - 1]];
    }
  }

  /** An element that precedes the head of a sorted sequence precedes all of it. */
  lemma PrecedesAll<T(!new)>(x: T, s: seq<T>, cmp: (T, T) -> int)
    requires IsConsistent(cmp) && Sorted(s, cmp)
    requires s != [] && cmp(x, s[0]) < 0
    ensures forall k :: 0 <= k < |s| ==> cmp(x, s[k]) < 0
  {
    forall k | 0 <= k < |s| ensures cmp(x, s[k]) < 0 {
      assert FlipsAt(cmp, x, s[k]) && FlipsAt(cmp, x, s[0]);
      assert TransitiveAt(cmp, s[0], s[k], x);
    }
  }

  /** Putting in front an element that precedes every element keeps a sequence sorted. */
  lemma PrependSorted<T>(x: T, s: seq<T>, cmp: (T, T) -> int)
    requires Sorted(s, cmp)
    requires forall k :: 0 <= k < |s| ==> cmp(x, s[k]) <= 0
    ensures Sorted([x] + s, cmp)
  {
    var r := [x] + s;
    forall i, j | 0 <= i < j < |r| ensures cmp(r[i], r[j]) <= 0 {
      assert r[j] == s[j - 1];
      if i > 0 {
        assert r[i] == s[i - 1];
      }
    }
  }

  /** The head of a sorted sequence, when `x` does not precede it, precedes everything in the
      insertion of `x` into the tail. */
  lemma HeadPrecedesInsert<T(!new)>(x: T, s: seq<T>, cmp: (T, T) -> int)
    requires IsConsistent(cmp) && Sorted(s, cmp)
    requires s != [] && cmp(x, s[0]) >= 0
    ensures forall k :: 0 <= k < |Insert(x, s[1..], cmp)| ==> cmp(s[0], Insert(x, s[1..], cmp)[k]) <= 0
  {
    var rest := Insert(x, s[1..], cmp);
    InsertPermutes(x, s[1..], cmp);
    assert FlipsAt(cmp, x, s[0]);
    forall k | 0 <= k < |rest| ensures cmp(s[0], rest[k]) <= 0 {
      assert rest[k] in multiset(rest);
      assert rest[k] in multiset(s[1..]) + multiset{x};
      if rest[k] != x {
        assert rest[k] in s[1..];
      }
    }
  }

  lemma {:induction false} InsertSorted<T(!new)>(x: T, s: seq<T>, cmp: (T, T) -> int)
    requires IsConsistent(cmp) && Sorted(s, cmp)
    ensures Sorted(Insert(x, s, cmp), cmp)
  {
    if s == [] {
    } else if cmp(x, s[0]) < 0 {
      PrecedesAll(x, s, cmp);
      PrependSorted(x, s, cmp);
    } else {
      assert Sorted(s[1..], cmp) by {
        forall i, j | 0 <= i < j < |s[1..]| ensures cmp(s[1..][i], s[1..][j]) <= 0 {
          assert s[1..][i] == s[i + 1] && s[1..][j] == s[j + 1];
        }
      }
      InsertSorted(x, s[1..], cmp);
      HeadPrecedesInsert(x, s, cmp);
      PrependSorted(s[0], Insert(x, s[1..], cmp), cmp);
    }
  }

  /** The result of `Sort` is ordered by `cmp`. */
  lemma {:induction false} SortSorted<T(!new)>(s: seq<T>, cmp: (T, T) -> int)
    requires IsConsistent(cmp)
    ensures Sorted(Sort(s, cmp), cmp)
  {
    if s != [] {
      SortSorted(s[..|s| - 1], cmp);
      InsertSorted(s[|s| - 1], Sort(s[..|s| - 1], cmp), cmp);
    }
  }

  /** Nothing after the insertion point of `y` ties with `y`'s class. */
  lemma NoTiesBeyond<T(!new)>(y: T, s: seq<T>, cmp: (T, T) -> int, x: T)
    requires IsConsistent(cmp) && Sorted(s, cmp)
    requires s != [] && cmp(y, s[0]) < 0 && cmp(y, x) == 0
    ensures Filter(s, TiesWith(cmp, x)) == []
  {
    var p := TiesWith(cmp, x);
    PrecedesAll(y, s, cmp);
    forall k | 0 <= k < |s| ensures !p(s[k]) {
      assert FlipsAt(cmp, s[k], x) && FlipsAt(cmp, x, s[k]);
      assert FlipsAt(cmp, y, x) && FlipsAt(cmp, x, y) && FlipsAt(cmp, y, s[k]);
      assert TransitiveAt(cmp, s[k], x, y);
    }
    FilterKeepsNone(s, p);
  }

  lemma InsertTiesAtFront<T(!new)>(y: T, s: seq<T>, cmp: (T, T) -> int, x: T)
    requires IsConsistent(cmp) && Sorted(s, cmp)
    requires s != [] && cmp(y, s[0]) < 0
    ensures Filter(Insert(y, s, cmp), TiesWith(cmp, x))
         == Filter(s, TiesWith(cmp, x)) + (if cmp(y, x) == 0 then [y] else [])
  {
    var p := TiesWith(cmp, x);
    assert Insert(y, s, cmp) == [y] + s;
    FilterConcat([y], s, p);
    assert Filter([y], p) == if p(y) then [y] else [];
    if cmp(y, x) == 0 {
      NoTiesBeyond(y, s, cmp, x);
    }
  }

  /** Putting the same head in front of two sequences keeps a relation between their filters. */
  lemma FilterUnderSameHead<T>(h: T, t: seq<T>, u: seq<T>, p: T -> bool, extra: seq<T>)
    requires Filter(u, p) == Filter(t, p) + extra
    ensures Filter([h] + u, p) == Filter([h] + t, p) + extra
  {
    FilterCons(h, u, p);
    FilterCons(h, t, p);
    ConcatAssoc(if p(h) then [h] else [], Filter(t, p), extra);
  }

  lemma InsertTiesPastHead<T>(y: T, s: seq<T>, cmp: (T, T) -> int, x: T)
    requires s != [] && cmp(y, s[0]) >= 0
    requires Filter(Insert(y, s[1..], cmp), TiesWith(cmp, x))
          == Filter(s[1..], TiesWith(cmp, x)) + (if cmp(y, x) == 0 then [y] else [])
    ensures Filter(Insert(y, s, cmp), TiesWith(cmp, x))
         == Filter(s, TiesWith(cmp, x)) + (if cmp(y, x) == 0 then [y] else [])
  {
    var t := s[1..];
    var extra := if cmp(y, x) == 0 then [y] else [];
    FilterUnderSameHead(s[0], t, Insert(y, t, cmp), TiesWith(cmp, x), extra);
    assert Insert(y, s, cmp) == [s[0]] + Insert(y, t, cmp);
    assert s == [s[0]] + t;
  }

  /** Inserting `y` adds it at the end of its own tie class and leaves every other class alone. */
  lemma {:induction false} InsertTies<T(!new)>(y: T, s: seq<T>, cmp: (T, T) -> int, x: T)
    requires IsConsistent(cmp) && Sorted(s, cmp)
    ensures Filter(Insert(y, s, cmp), TiesWith(cmp, x))
         == Filter(s, TiesWith(cmp, x)) + (if cmp(y, x) == 0 then [y] else [])
  {
    if s == [] {
    } else if cmp(y, s[0]) < 0 {
      InsertTiesAtFront(y, s, cmp, x);
    } else {
      InsertTies(y, s[1..], cmp, x);
      InsertTiesPastHead(y, s, cmp, x);
    }
  }

  /** Stability: within every tie class the output keeps the input order. */
  lemma {:induction false} SortStable<T(!new)>(s: seq<T>, cmp: (T, T) -> int, x: T)
    requires IsConsistent(cmp)
    ensures Filter(Sort(s, cmp), TiesWith(cmp, x)) == Filter(s, TiesWith(cmp, x))
  {
    if s != [] {
      var init, last := s[..|s| - 1], s[|s| - 1];
      var p := TiesWith(cmp, x);
      var extra := if cmp(last, x) == 0 then [last] else [];
      SortStable(init, cmp, x);
      SortSorted(init, cmp);
      InsertTies(last, Sort(init, cmp), cmp, x);
      assert Filter(s, p) == Filter(init, p) + extra by {
        assert s == init + [last];
        FilterConcat(init, [last], p);
        assert Filter([last], p) == extra by {
          assert [last][1..] == [];
        }
      }
    }
  }
}
