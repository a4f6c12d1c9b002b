/** The collection behaviour the provider leans on: `Collections.sort` with a
    comparator (a stable sort), a `HashSet` used to keep only the first entry
    per key, and the ascending iteration of a `TreeMap`/`TreeSet` of strings. */
module Collections {
  import opened Util
  import opened JavaStrings

  function Identity<T>(x: T): T
  {
    x
  }

  /** A comparator that obeys the `Comparator` contract: sgn(compare(a, b)) ==
      -sgn(compare(b, a)), and "not greater" is transitive. */
  ghost predicate IsComparator<T(!new)>(cmp: (T, T) -> Ordering)
  {
    && (forall a, b :: cmp(a, b) == Flip(cmp(b, a)))
    && (forall a, b, c :: cmp(a, b) != GT && cmp(b, c) != GT ==> cmp(a, c) != GT)
  }

  /** No element is greater than an element after it. */
  ghost predicate SortedBy<T>(cmp: (T, T) -> Ordering, s: seq<T>)
  {
    forall i, j :: 0 <= i < j < |s| ==> cmp(s[i], s[j]) != GT
  }

  /** Inserts `x` before the first element it is not greater than. */
  function Insert<T>(cmp: (T, T) -> Ordering, x: T, s: seq<T>): (r: seq<T>)
    ensures multiset(r) == multiset(s) + multiset{x}
  {
    if s == [] then [x]
    else if cmp(x, s[0]) != GT then [x] + s
    else
      assert s == [s[0]] + s[1..];
      [s[0]] + Insert(cmp, x, s[1..])
  }

  /** `Collections.sort(list, cmp)`: a stable sort (an element is inserted
      ahead of the equal elements that follow it in the input). */
  function SortBy<T>(cmp: (T, T) -> Ordering, s: seq<T>): (r: seq<T>)
    ensures multiset(r) == multiset(s)
  {
    if s == [] then []
    else
      assert s == [s[0]] + s[1..];
      Insert(cmp, s[0], SortBy(cmp, s[1..]))
  }

  /** An element of `Insert(cmp, x, s)` is `x` or an element of `s`. */
  lemma InsertElement<T>(cmp: (T, T) -> Ordering, x: T, s: seq<T>, i: nat)
    requires i < |Insert(cmp, x, s)|
    ensures Insert(cmp, x, s)[i] == x || Insert(cmp, x, s)[i] in s
  {
    var r := Insert(cmp, x, s);
    assert r[i] in multiset(r);
  }

  lemma {:induction false} InsertSorted<T(!new)>(cmp: (T, T) -> Ordering, x: T, s: seq<T>)
    requires IsComparator(cmp) && SortedBy(cmp, s)
    ensures SortedBy(cmp, Insert(cmp, x, s))
  {
    if s == [] {
    } else if cmp(x, s[0]) != GT {
      var r := [x] + s;
      forall i, j | 0 <= i < j < |r|
        ensures cmp(r[i], r[j]) != GT
      {
        if i == 0 && j > 1 {
          assert cmp(s[0], s[j - 1]) != GT;
        } else if i > 0 {
          assert r[i] == s[i - 1] && r[j] == s[j - 1];
        }
      }
    } else {
      var t := Insert(cmp, x, s[1..]);
      InsertSorted(cmp, x, s[1..]);
      var r := [s[0]] + t;
      forall i, j | 0 <= i < j < |r|
        ensures cmp(r[i], r[j]) != GT
      {
        if i == 0 {
          InsertElement(cmp, x, s[1..], j - 1);
          if t[j - 1] == x {
            assert cmp(s[0], x) == Flip(cmp(x, s[0]));
          } else {
            var k :| 0 <= k < |s[1..]| && s[1..][k] == t[j - 1];
            assert s[k + 1] == t[j - 1];
          }
        } else {
          assert r[i] == t[i - 1] && r[j] == t[j - 1];
        }
      }
    }
  }

  lemma {:induction false} SortBySorted<T(!new)>(cmp: (T, T) -> Ordering, s: seq<T>)
    requires IsComparator(cmp)
    ensures SortedBy(cmp, SortBy(cmp, s))
  {
    if s != [] {
      SortBySorted(cmp, s[1..]);
      InsertSorted(cmp, s[0], SortBy(cmp, s[1..]));
    }
  }

  /** The keys of the elements of `s`. */
  function KeySet<T(==), K(==)>(key: T -> K, s: seq<T>): set<K>
  {
    set x | x in s :: key(x)
  }

  /** Keeps, in order, the first element of `s` for each key: the effect of
      `if (seen.add(key(x))) out.add(x)` over `s`. */
  function DistinctBy<T(==), K(==)>(key: T -> K, s: seq<T>): (r: seq<T>)
    ensures KeySet(key, r) == KeySet(key, s)
    ensures forall i, j :: 0 <= i < j < |r| ==> key(r[i]) != key(r[j])
    ensures forall x :: x in r ==> x in s
  {
    if s == [] then []
    else
      var d := DistinctBy(key, s[..|s| - 1]);
      var x := s[|s| - 1];
      assert s == s[..|s| - 1] + [x];
      KeySetAppend(key, s[..|s| - 1], x);
      if key(x) in KeySet(key, d) then d
      else
        var r := d + [x];
        KeySetAppend(key, d, x);
        assert forall i :: 0 <= i < |d| ==> key(r[i]) in KeySet(key, d);
        r
  }

  lemma KeySetAppend<T, K>(key: T -> K, s: seq<T>, x: T)
    ensures KeySet(key, s + [x]) == KeySet(key, s) + {key(x)}
  {
    assert forall y | y in s + [x] :: y in s || y == x;
  }

  lemma KeySetIdentity<T>(s: seq<T>)
    ensures forall x :: x in KeySet(Identity, s) <==> x in s
  {
    assert forall x :: x in s ==> Identity(x) in KeySet(Identity, s);
  }

  lemma DistinctByAppend<T, K>(key: T -> K, s: seq<T>, x: T)
    ensures DistinctBy(key, s + [x])
         == if key(x) in KeySet(key, DistinctBy(key, s)) then DistinctBy(key, s)
            else DistinctBy(key, s) + [x]
  {
    assert (s + [x])[..|s|] == s;
  }

  /** Keeping each element once: an element is appended exactly when it is new. */
  lemma DistinctAppend<T>(s: seq<T>, x: T)
    ensures DistinctBy(Identity, s + [x]) == DistinctBy(Identity, s) + (if x in s then [] else [x])
  {
    DistinctByAppend(Identity, s, x);
    KeySetIdentity(DistinctBy(Identity, s));
    KeySetIdentity(s);
  }

  /** Every kept element is the first element of `s` with its key. */
  lemma {:induction false} DistinctByFirst<T, K>(key: T -> K, s: seq<T>, i: nat)
    requires i < |DistinctBy(key, s)|
    ensures exists j :: 0 <= j < |s| && s[j] == DistinctBy(key, s)[i]
                        && forall k :: 0 <= k < j ==> key(s[k]) != key(s[j])
  {
    var p := s[..|s| - 1];
    var d := DistinctBy(key, p);
    var x := s[|s| - 1];
    assert s == p + [x];
    DistinctByAppend(key, p, x);
    if i < |d| {
      DistinctByFirst(key, p, i);
      var j :| 0 <= j < |p| && p[j] == d[i] && forall k :: 0 <= k < j ==> key(p[k]) != key(p[j]);
      assert DistinctBy(key, s)[i] == d[i];
      assert forall k :: 0 <= k < j ==> key(s[k]) != key(s[j]);
    } else {
      assert DistinctBy(key, s)[i] == x && key(x) !in KeySet(key, d);
      KeySetAppend(key, p, x);
      forall k | 0 <= k < |s| - 1
        ensures key(s[k]) != key(x)
      {
        assert s[k] == p[k] && p[k] in p;
        assert key(p[k]) in KeySet(key, p);
      }
      assert s[|s| - 1] == x;
    }
  }


  // Order: a result read off its input at increasing positions.

  /** `r` is the elements of `s` that satisfy `keep`, in order, repeats kept:
      `idx` lists, increasing, exactly the positions of `s` where `keep` holds,
      and `r` holds the elements at those positions. */
  ghost predicate FilterAt<T>(s: seq<T>, r: seq<T>, keep: T -> bool, idx: seq<nat>)
  {
    && |idx| == |r|
    && (forall k | 0 <= k < |idx| :: idx[k] < |s| && r[k] == s[idx[k]] && keep(s[idx[k]]))
    && (forall k, l | 0 <= k < l < |idx| :: idx[k] < idx[l])
    && (forall i | 0 <= i < |s| && keep(s[i]) :: i in idx)
  }

  /** The positions of `s` where `keep` holds, in order. */
  function Positions<T>(keep: T -> bool, s: seq<T>): seq<nat>
  {
    if s == [] then []
    else Positions(keep, s[..|s| - 1]) + (if keep(s[|s| - 1]) then [|s| - 1] else [])
  }

  /** One more element extends a filter at its position when `keep` holds. */
  lemma FilterAtAppend<T>(s: seq<T>, r: seq<T>, keep: T -> bool, idx: seq<nat>)
    requires s != [] && FilterAt(s[..|s| - 1], r, keep, idx)
    ensures keep(s[|s| - 1]) ==> FilterAt(s, r + [s[|s| - 1]], keep, idx + [|s| - 1])
    ensures !keep(s[|s| - 1]) ==> FilterAt(s, r, keep, idx)
  {
    var p := s[..|s| - 1];
    if keep(s[|s| - 1]) {
      var idx': seq<nat> := idx + [|p|];
      var r' := r + [s[|p|]];
      forall k | 0 <= k < |idx'|
        ensures idx'[k] < |s| && r'[k] == s[idx'[k]] && keep(s[idx'[k]])
      {
        if k < |idx| {
          assert idx'[k] == idx[k] && r'[k] == r[k] && s[idx[k]] == p[idx[k]];
        }
      }
      forall i | 0 <= i < |s| && keep(s[i])
        ensures i in idx'
      {
        if i < |p| {
          assert p[i] == s[i];
        } else {
          assert idx'[|idx|] == i;
        }
      }
    } else {
      forall k | 0 <= k < |idx|
        ensures s[idx[k]] == p[idx[k]]
      {
      }
      forall i | 0 <= i < |s| && keep(s[i])
        ensures i in idx
      {
        assert p[i] == s[i];
      }
    }
  }

  /** `r` is read off `s` at the increasing positions `idx`, and each of them
      is the first position of `s` with its key. */
  ghost predicate FirstsAt<T, K>(key: T -> K, s: seq<T>, r: seq<T>, idx: seq<nat>)
  {
    && |idx| == |r|
    && (forall k | 0 <= k < |idx| :: idx[k] < |s| && r[k] == s[idx[k]])
    && (forall k, l | 0 <= k < l < |idx| :: idx[k] < idx[l])
    && (forall k, m | 0 <= k < |idx| && 0 <= m < idx[k] :: key(s[m]) != key(r[k]))
  }

  /** The positions of the first element of each key in `s`, in order. */
  function FirstPositions<T(==), K(==)>(key: T -> K, s: seq<T>): seq<nat>
  {
    if s == [] then []
    else
      var p := s[..|s| - 1];
      FirstPositions(key, p) + (if key(s[|s| - 1]) in KeySet(key, p) then [] else [|p|])
  }

  /** `DistinctBy` keeps the input order: it reads its result off the input at
      increasing first positions. With its key set equal to the input's and
      its keys distinct, this fixes the result. */
  lemma {:induction false} DistinctByInOrder<T, K>(key: T -> K, s: seq<T>)
    ensures FirstsAt(key, s, DistinctBy(key, s), FirstPositions(key, s))
  {
    if s != [] {
      var p := s[..|s| - 1];
      var x := s[|s| - 1];
      DistinctByInOrder(key, p);
      assert s == p + [x];
      DistinctByAppend(key, p, x);
      FirstsAtAppend(key, s, DistinctBy(key, p), FirstPositions(key, p));
    }
  }

  lemma FirstsAtAppend<T, K>(key: T -> K, s: seq<T>, r: seq<T>, idx: seq<nat>)
    requires s != [] && FirstsAt(key, s[..|s| - 1], r, idx)
    requires KeySet(key, r) == KeySet(key, s[..|s| - 1])
    ensures key(s[|s| - 1]) !in KeySet(key, s[..|s| - 1]) ==> FirstsAt(key, s, r + [s[|s| - 1]], idx + [|s| - 1])
    ensures key(s[|s| - 1]) in KeySet(key, s[..|s| - 1]) ==> FirstsAt(key, s, r, idx)
  {
    var p := s[..|s| - 1];
    var x := s[|s| - 1];
    forall k | 0 <= k < |idx|
      ensures s[idx[k]] == p[idx[k]]
    {
    }
    forall k, m | 0 <= k < |idx| && 0 <= m < idx[k]
      ensures key(s[m]) != key(r[k])
    {
      assert s[m] == p[m];
    }
    if key(x) !in KeySet(key, p) {
      var idx': seq<nat> := idx + [|p|];
      var r' := r + [x];
      forall k | 0 <= k < |idx'|
        ensures idx'[k] < |s| && r'[k] == s[idx'[k]]
      {
        if k < |idx| {
          assert idx'[k] == idx[k] && r'[k] == r[k];
        }
      }
      forall k, m | 0 <= k < |idx'| && 0 <= m < idx'[k]
        ensures key(s[m]) != key(r'[k])
      {
        if k < |idx| {
          assert idx'[k] == idx[k] && r'[k] == r[k];
        } else {
          assert s[m] == p[m] && p[m] in p;
          assert key(p[m]) in KeySet(key, p);
        }
      }
    }
  }

  /** `a` is met in `s` before `b` is: at some position of `a`, `b` has not
      appeared yet. */
  ghost predicate MetBefore<T>(s: seq<T>, a: T, b: T)
  {
    exists p | 0 <= p < |s| :: s[p] == a && b !in s[..p]
  }

  /** In a list without repeats, an earlier element is met before a later one. */
  lemma MetBeforeDistinct<T>(s: seq<T>, i: nat, j: nat)
    requires i < j < |s|
    requires forall k, l :: 0 <= k < l < |s| ==> s[k] != s[l]
    ensures MetBefore(s, s[i], s[j])
  {
    assert s[j] !in s[..i];
  }

  /** In an increasing index list, a smaller value sits at an earlier place. */
  lemma IncreasingBefore(idx: seq<nat>, t: nat, p: nat)
    requires forall k, l | 0 <= k < l < |idx| :: idx[k] < idx[l]
    requires t < |idx| && p < |idx| && idx[t] < idx[p]
    ensures t < p
  {
  }

  /** A filter keeps the order in which its kept elements are met. */
  lemma FilterMetBefore<T>(s: seq<T>, r: seq<T>, keep: T -> bool, idx: seq<nat>, a: T, b: T)
    requires FilterAt(s, r, keep, idx) && keep(b)
    requires MetBefore(r, a, b)
    ensures MetBefore(s, a, b)
  {
    var p :| 0 <= p < |r| && r[p] == a && b !in r[..p];
    var q := idx[p];
    forall m | 0 <= m < q
      ensures s[m] != b
    {
      if keep(s[m]) {
        assert m in idx;
        var t :| 0 <= t < |idx| && idx[t] == m;
        IncreasingBefore(idx, t, p);
        assert r[t] in r[..p];
      }
    }
    assert s[q] == a && b !in s[..q];
  }

  /** Keeping the first of each key keeps the order in which elements are met. */
  lemma DistinctMetBefore<T>(s: seq<T>, a: T, b: T)
    requires MetBefore(DistinctBy(Identity, s), a, b)
    ensures MetBefore(s, a, b)
  {
    var d := DistinctBy(Identity, s);
    var idx := FirstPositions(Identity, s);
    DistinctByInOrder(Identity, s);
    KeySetIdentity(s);
    KeySetIdentity(d);
    var p :| 0 <= p < |d| && d[p] == a && b !in d[..p];
    var q := idx[p];
    forall m | 0 <= m < q
      ensures s[m] != b
    {
      assert s[m] in s;
      var t :| 0 <= t < |d| && d[t] == s[m];
      assert idx[t] <= m;
      IncreasingBefore(idx, t, p);
      assert d[t] in d[..p];
    }
    assert s[q] == a && b !in s[..q];
  }

  lemma SnocSlice<T>(s: seq<T>, j: nat)
    requires j < |s|
    ensures s[..j + 1] == s[..j] + [s[j]]
  {
  }

  /** `SnocSlice` behind a fixed prefix. */
  lemma SnocSliceAfter<T>(p: seq<T>, s: seq<T>, j: nat)
    requires j < |s|
    ensures s[..j + 1] == s[..j] + [s[j]]
    ensures p + s[..j + 1] == (p + s[..j]) + [s[j]]
  {
    SnocSlice(s, j);
  }

  /** Every element appears at most once. */
  ghost predicate AtMostOnce<T>(s: seq<T>)
  {
    forall x | x in s :: multiset(s)[x] == 1
  }

  lemma AppendAbsent<T>(s: seq<T>, x: T)
    requires AtMostOnce(s) && x !in s
    ensures AtMostOnce(s + [x])
  {
    assert multiset(s + [x]) == multiset(s) + multiset{x};
  }

  lemma RepeatedElement<T>(s: seq<T>, i: nat, j: nat)
    requires i < j < |s| && s[i] == s[j]
    ensures !AtMostOnce(s)
  {
    assert s == s[..j] + s[j..];
    assert s[i] in s[..j];
    assert s[j] in s[j..];
    assert multiset(s)[s[i]] == multiset(s[..j])[s[i]] + multiset(s[j..])[s[i]];
  }

  // Ascending iteration over a set of strings (TreeMap keys, TreeSet).

  ghost predicate StrictlyIncreasing(s: seq<string>)
  {
    forall i, j :: 0 <= i < j < |s| ==> Less(s[i], s[j])
  }

  predicate IsLeast(m: string, s: set<string>)
  {
    m in s && forall y :: y in s ==> !Less(y, m)
  }

  lemma LeastExists(s: set<string>)
    requires s != {}
    ensures exists m :: IsLeast(m, s)
    decreases |s|
  {
    var x :| x in s;
    if s != {x} {
      LeastExists(s - {x});
      var m :| IsLeast(m, s - {x});
      LessTotal(m, x);
      if Less(x, m) {
        forall y | y in s
          ensures !Less(y, x)
        {
          if y == x {
            LessIrreflexive(x);
          } else if Less(y, x) {
            LessTransitive(y, x, m);
          }
        }
        assert IsLeast(x, s);
      } else {
        if m != x { LessAsymmetric(m, x); }
        assert IsLeast(m, s);
      }
    } else {
      LessIrreflexive(x);
      assert IsLeast(x, s);
    }
  }

  lemma LeastUnique(m1: string, m2: string, s: set<string>)
    requires IsLeast(m1, s) && IsLeast(m2, s)
    ensures m1 == m2
  {
    LessTotal(m1, m2);
  }

  /** The elements of `s` in ascending `compareTo` order. */
  ghost function Ordered(s: set<string>): (r: seq<string>)
    ensures StrictlyIncreasing(r)
    ensures forall x :: x in r <==> x in s
    ensures |r| == |s|
    decreases |s|
  {
    if s == {} then []
    else
      LeastExists(s);
      var m :| IsLeast(m, s);
      var t := Ordered(s - {m});
      assert forall y :: y in t ==> Less(m, y) by {
        forall y | y in t
          ensures Less(m, y)
        {
          LessTotal(m, y);
        }
      }
      [m] + t
  }

  lemma OrderedUnfold(s: set<string>, m: string)
    requires IsLeast(m, s)
    ensures Ordered(s) == [m] + Ordered(s - {m})
  {
    var o := Ordered(s);
    assert IsLeast(o[0], s);
    LeastUnique(m, o[0], s);
  }

  lemma OrderedStep(r: seq<string>, rest: set<string>, s: set<string>, m: string)
    requires r + Ordered(rest) == Ordered(s) && IsLeast(m, rest)
    ensures (r + [m]) + Ordered(rest - {m}) == Ordered(s)
  {
    OrderedUnfold(rest, m);
    assert (r + [m]) + Ordered(rest - {m}) == r + ([m] + Ordered(rest - {m}));
  }

  /** Iterating a TreeSet or the key set of a TreeMap: the least remaining
      element is taken until none is left. */
  method SortedElements(s: set<string>) returns (r: seq<string>)
    ensures r == Ordered(s)
  {
    r := [];
    var rest := s;
    while rest != {}
      invariant r + Ordered(rest) == Ordered(s)
      decreases rest
    {
      LeastExists(rest);
      var m :| IsLeast(m, rest);
      OrderedStep(r, rest, s, m);
      r := r + [m];
      rest := rest - {m};
    }
  }
}
