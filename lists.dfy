/** Sequence operations that several components of the planner share:
    counting occurrences, removing every occurrence of a value (the
    `filter(x => x !== v)` idiom), order-preserving subsequences and
    `Array.prototype.join`. */
module Lists {

  /** Number of occurrences of `x` in `s`. */
  function Count<T(==)>(s: seq<T>, x: T): (n: nat)
    ensures n <= |s|
    ensures n == 0 <==> x !in s
  {
    if s == [] then 0 else (if s[0] == x then 1 else 0) + Count(s[1..], x)
  }

  lemma {:induction false} CountAppend<T>(a: seq<T>, b: seq<T>, x: T)
    ensures Count(a + b, x) == Count(a, x) + Count(b, x)
  {
    if a == [] {
      assert a + b == b;
    } else {
      assert (a + b)[1..] == a[1..] + b;
      CountAppend(a[1..], b, x);
    }
  }

  /** Number of elements of `s` that are not in the set `done`. */
  function CountNotIn<T>(s: seq<T>, done: set<T>): (n: nat)
    ensures n <= |s|
    ensures n == 0 <==> forall i :: 0 <= i < |s| ==> s[i] in done
  {
    if s == [] then 0
    else
      var rest := CountNotIn(s[1..], done);
      assert forall i :: 1 <= i < |s| ==> s[i] == s[1..][i - 1];
      (if s[0] in done then 0 else 1) + rest
  }

  /** Adding one more value to `done` removes exactly its occurrences from the count. */
  lemma {:induction false} CountNotInInsert<T>(s: seq<T>, done: set<T>, c: T)
    requires c !in done
    ensures CountNotIn(s, done + {c}) == CountNotIn(s, done) - Count(s, c)
    ensures Count(s, c) <= CountNotIn(s, done)
  {
    if s != [] {
      CountNotInInsert(s[1..], done, c);
    }
  }

  /** The sequence without any occurrence of `x`, the rest in order. */
  function RemoveAll<T(==,!new)>(s: seq<T>, x: T): (r: seq<T>)
    ensures x !in r
    ensures |r| == |s| - Count(s, x)
    ensures forall y :: y != x ==> Count(r, y) == Count(s, y)
    ensures IsSubsequence(r, s)
  {
    if s == [] then []
    else
      var rest := RemoveAll(s[1..], x);
      assert [s[0]] + s[1..] == s;
      if s[0] == x then
        SubsequenceCons(rest, s[0], s[1..]);
        rest
      else
        assert ([s[0]] + rest)[1..] == rest;
        [s[0]] + rest
  }

  /** `r` is obtained from `s` by deleting elements, keeping the order of the rest. */
  predicate IsSubsequence<T(==)>(r: seq<T>, s: seq<T>)
    decreases |s|
  {
    if r == [] then true
    else if s == [] then false
    else if r[0] == s[0] then IsSubsequence(r[1..], s[1..])
    else IsSubsequence(r, s[1..])
  }

  lemma {:induction false} SubsequenceCons<T>(r: seq<T>, a: T, s: seq<T>)
    requires IsSubsequence(r, s)
    ensures IsSubsequence(r, [a] + s)
    decreases |s|, 1
  {
    assert ([a] + s)[1..] == s;
    if r != [] && r[0] == a {
      SubsequenceTail(r, s);
    }
  }

  lemma {:induction false} SubsequenceTail<T>(r: seq<T>, s: seq<T>)
    requires r != [] && IsSubsequence(r, s)
    ensures IsSubsequence(r[1..], s)
    decreases |s|, 0
  {
    assert s != [];
    assert [s[0]] + s[1..] == s;
    if r[0] == s[0] {
      SubsequenceCons(r[1..], s[0], s[1..]);
    } else {
      SubsequenceTail(r, s[1..]);
      SubsequenceCons(r[1..], s[0], s[1..]);
    }
  }

  lemma {:induction false} RemoveAllAppend<T(!new)>(a: seq<T>, b: seq<T>, x: T)
    ensures RemoveAll(a + b, x) == RemoveAll(a, x) + RemoveAll(b, x)
  {
    if a == [] {
      assert a + b == b;
    } else {
      assert (a + b)[1..] == a[1..] + b;
      RemoveAllAppend(a[1..], b, x);
    }
  }

  /** Removing a value that does not occur changes nothing. */
  lemma {:induction false} RemoveAllAbsent<T(!new)>(s: seq<T>, x: T)
    requires x !in s
    ensures RemoveAll(s, x) == s
  {
    if s != [] {
      assert x !in s[1..];
      RemoveAllAbsent(s[1..], x);
      assert [s[0]] + s[1..] == s;
    }
  }

  /** `parts.join(sep)`: no separator for zero or one part. */
  function Join(parts: seq<string>, sep: string): (r: string)
    ensures |parts| == 1 ==> r == parts[0]
  {
    if parts == [] then ""
    else if |parts| == 1 then parts[0]
    else parts[0] + sep + Join(parts[1..], sep)
  }

  /** The joined string is as long as the parts plus one separator between each pair. */
  lemma {:induction false} JoinLength(parts: seq<string>, sep: string)
    requires |parts| > 0
    ensures |Join(parts, sep)| == TotalLength(parts) + (|parts| - 1) * |sep|
  {
    if |parts| > 1 {
      JoinLength(parts[1..], sep);
    }
  }

  function TotalLength(parts: seq<string>): nat
  {
    if parts == [] then 0 else |parts[0]| + TotalLength(parts[1..])
  }

  /** The elements of a sequence, as a set. */
  function Elems<T>(s: seq<T>): set<T>
  {
    set x | x in s
  }

  /** A sequence is empty exactly when nothing is in it. */
  lemma ElemsEmpty<T>(s: seq<T>)
    ensures (forall x :: x !in s) <==> s == []
  {
    if s != [] {
      assert s[0] in s;
    }
  }

  /** No value occurs twice. */
  predicate NoDup<T(==)>(s: seq<T>)
  {
    forall i, j :: 0 <= i < j < |s| ==> s[i] != s[j]
  }

  /** A prefix one longer is the prefix and the next element. */
  lemma PrefixSnoc<T>(s: seq<T>, j: int)
    requires 0 <= j < |s|
    ensures s[..j + 1] == s[..j] + [s[j]]
  {
  }

  lemma PrefixAll<T>(s: seq<T>)
    ensures s[..|s|] == s
  {
  }

  /** A non-empty set of numbers has a member. */
  lemma Member(s: set<int>)
    requires s != {}
    ensures exists x :: x in s
  {
    if !exists x :: x in s {
      assert false;
    }
  }

  /** A subset is no larger than its superset. */
  lemma SubsetCard<T>(a: set<T>, b: set<T>)
    requires a <= b
    ensures |a| <= |b|
  {
    assert b == a + (b - a);
    assert a * (b - a) == {};
  }

  lemma NoDupSnoc<T>(s: seq<T>, x: T)
    requires NoDup(s) && x !in s
    ensures NoDup(s + [x])
  {
  }

  lemma CountSnoc<T>(s: seq<T>, x: T, y: T)
    ensures Count(s + [x], y) == Count(s, y) + (if x == y then 1 else 0)
  {
    CountAppend(s, [x], y);
  }

  /** Counting over a growing prefix. */
  lemma CountPrefix<T>(s: seq<T>, j: int, y: T)
    requires 0 <= j < |s|
    ensures Count(s[..j + 1], y) == Count(s[..j], y) + (if s[j] == y then 1 else 0)
    ensures Count(s[..j + 1], y) <= Count(s, y)
  {
    var p, q := s[..j], s[..j + 1];
    assert q == p + [s[j]];
    CountSnoc(p, s[j], y);
    var r := s[j + 1..];
    assert s == q + r;
    CountAppend(q, r, y);
  }

  lemma {:induction false} CountNotInNone<T>(s: seq<T>)
    ensures CountNotIn(s, {}) == |s|
  {
    if s != [] {
      CountNotInNone(s[1..]);
    }
  }

  /** The largest element of a non-empty sequence (`Math.max(...xs)`). */
  function MaxOf(xs: seq<int>): (m: int)
    requires |xs| > 0
    ensures m in xs
    ensures forall i :: 0 <= i < |xs| ==> xs[i] <= m
  {
    if |xs| == 1 then xs[0]
    else
      var rest := MaxOf(xs[1..]);
      if xs[0] >= rest then xs[0] else rest
  }

  /** The position of the first occurrence of `x` in `s`. */
  function IndexOf(s: seq<int>, x: int): int
  {
    if s == [] then 0 else if s[0] == x then 0 else 1 + IndexOf(s[1..], x)
  }

  /** In a list without repeats the position of an element is where it stands. */
  lemma {:induction false} IndexOfFound(s: seq<int>, p: int)
    requires NoDup(s) && 0 <= p < |s|
    ensures IndexOf(s, s[p]) == p
  {
    if p > 0 {
      assert s[1..][p - 1] == s[p];
      IndexOfFound(s[1..], p - 1);
    }
  }

  /** A list without repeats has as many distinct elements as entries. */
  lemma {:induction false} NoDupCard<T>(s: seq<T>)
    requires NoDup(s)
    ensures |Elems(s)| == |s|
  {
    if s != [] {
      var t := s[1..];
      NoDupCard(t);
      assert Elems(s) == {s[0]} + Elems(t);
      assert s[0] !in Elems(t);
    }
  }

  /** Along a path that must stay inside `S` once it enters it and along which
      `f` strictly decreases inside `S`, position `b` lies `b - a` below `a`. */
  lemma {:induction false} DescendingWalk(c: seq<int>, S: set<int>, f: int -> int, a: int, b: int)
    requires forall j :: 0 <= j < |c| - 1 && c[j] in S ==> c[j + 1] in S && f(c[j + 1]) < f(c[j])
    requires 0 <= a <= b < |c| && c[a] in S
    ensures c[b] in S && f(c[b]) <= f(c[a]) - (b - a)
    decreases b - a
  {
    if a < b {
      DescendingWalk(c, S, f, a, b - 1);
    }
  }

  /** No member of a closed path (first element equal to the last) can lie in
      `S` when `f` strictly decreases along the path inside `S`. */
  lemma CycleAvoids(c: seq<int>, S: set<int>, f: int -> int)
    requires |c| >= 2 && c[0] == c[|c| - 1]
    requires forall j :: 0 <= j < |c| - 1 && c[j] in S ==> c[j + 1] in S && f(c[j + 1]) < f(c[j])
    ensures forall j :: 0 <= j < |c| ==> c[j] !in S
  {
    forall j | 0 <= j < |c| && c[j] in S
      ensures false
    {
      DescendingWalk(c, S, f, j, |c| - 1);
      DescendingWalk(c, S, f, 0, j);
    }
  }
}
