/** Sequence operations the handlers are built from: LINQ's `Where` (and the
    client's `Array.filter`), `FirstOrDefault`, and `OrderByDescending`. */
module Seqs {
  import opened Results

  /** The elements of `s` that satisfy `keep`, in their original order. */
  function Filter<T>(s: seq<T>, keep: T -> bool): (r: seq<T>)
    ensures |r| <= |s|
    decreases |s|
  {
    if |s| == 0 then []
    else if keep(s[0]) then [s[0]] + Filter(s[1..], keep)
    else Filter(s[1..], keep)
  }

  /** The filtered sequence holds each kept value as often as `s` does, and
      nothing else. */
  lemma {:induction false} FilterMultiset<T(!new)>(s: seq<T>, keep: T -> bool)
    ensures forall x :: multiset(Filter(s, keep))[x] == if keep(x) then multiset(s)[x] else 0
    decreases |s|
  {
    if |s| > 0 {
      FilterMultiset(s[1..], keep);
      assert s == [s[0]] + s[1..];
    }
  }

  /** Filtering distributes over concatenation: the kept elements keep their
      relative order. */
  lemma {:induction false} FilterConcat<T(!new)>(a: seq<T>, b: seq<T>, keep: T -> bool)
    ensures Filter(a + b, keep) == Filter(a, keep) + Filter(b, keep)
    decreases |a|
  {
    if |a| == 0 {
      assert a + b == b;
    } else {
      assert (a + b)[0] == a[0];
      assert (a + b)[1..] == a[1..] + b;
      FilterConcat(a[1..], b, keep);
    }
  }

  /** Filtering a sequence all of whose elements are kept changes nothing. */
  lemma {:induction false} FilterKeepsAll<T(!new)>(s: seq<T>, keep: T -> bool)
    requires forall i :: 0 <= i < |s| ==> keep(s[i])
    ensures Filter(s, keep) == s
    decreases |s|
  {
    if |s| > 0 {
      FilterKeepsAll(s[1..], keep);
    }
  }

  /** Two filters can be applied in either order. */
  lemma {:induction false} FilterCommutes<T(!new)>(s: seq<T>, a: T -> bool, b: T -> bool)
    ensures Filter(Filter(s, a), b) == Filter(Filter(s, b), a)
    decreases |s|
  {
    if |s| > 0 {
      FilterCommutes(s[1..], a, b);
      var x := s[0];
      var t := s[1..];
      var fa := Filter(t, a);
      var fb := Filter(t, b);
      if a(x) {
        assert Filter(s, a) == [x] + fa;
        assert ([x] + fa)[0] == x && ([x] + fa)[1..] == fa;
      } else {
        assert Filter(s, a) == fa;
      }
      if b(x) {
        assert Filter(s, b) == [x] + fb;
        assert ([x] + fb)[0] == x && ([x] + fb)[1..] == fb;
      } else {
        assert Filter(s, b) == fb;
      }
    }
  }

  /** `s` without its element at index `k`, the others in order. */
  function RemoveAt<T>(s: seq<T>, k: nat): (r: seq<T>)
    requires k < |s|
    ensures |r| == |s| - 1
    ensures forall i :: 0 <= i < k ==> r[i] == s[i]
    ensures forall i :: k <= i < |r| ==> r[i] == s[i + 1]
  {
    s[..k] + s[k + 1..]
  }

  /** Appending an element the filter drops does not change the filtered
      sequence. */
  lemma FilterAppendDropped<T(!new)>(a: seq<T>, x: T, keep: T -> bool)
    requires !keep(x)
    ensures Filter(a + [x], keep) == Filter(a, keep)
  {
    FilterConcat(a, [x], keep);
    assert [x][1..] == [];
  }

  /** Removing an element the filter drops anyway does not change the
      filtered sequence. */
  lemma FilterRemoveAt<T(!new)>(s: seq<T>, k: nat, keep: T -> bool)
    requires k < |s| && !keep(s[k])
    ensures Filter(RemoveAt(s, k), keep) == Filter(s, keep)
  {
    var a, b := s[..k], s[k + 1..];
    assert s[k..] == [s[k]] + b;
    assert s == a + s[k..];
    FilterSkipsDropped(a, s[k], b, keep);
  }

  /** `FilterRemoveAt` with the sequence given in pieces. */
  lemma FilterSkipsDropped<T(!new)>(a: seq<T>, x: T, b: seq<T>, keep: T -> bool)
    requires !keep(x)
    ensures Filter(a + ([x] + b), keep) == Filter(a + b, keep)
  {
    FilterConcat(a, [x] + b, keep);
    FilterCons(x, b, keep);
    FilterConcat(a, b, keep);
  }

  /** When the filter drops exactly the element at `k`, filtering is removing
      that element. */
  lemma {:induction false} FilterDropsOnly<T(!new)>(s: seq<T>, k: nat, keep: T -> bool)
    requires k < |s| && !keep(s[k])
    requires forall j :: 0 <= j < |s| && j != k ==> keep(s[j])
    ensures Filter(s, keep) == RemoveAt(s, k)
  {
    var a, b := s[..k], s[k + 1..];
    assert s == (a + [s[k]]) + b;
    assert forall j :: 0 <= j < |a| ==> a[j] == s[j];
    assert forall j :: 0 <= j < |b| ==> b[j] == s[k + 1 + j];
    FilterKeepsAll(a, keep);
    FilterKeepsAll(b, keep);
    FilterConcat(a + [s[k]], b, keep);
    FilterAppendDropped(a, s[k], keep);
  }

  /** The index of the first element satisfying `p`, if there is one. */
  function FindIndex<T>(s: seq<T>, p: T -> bool): (r: Option<nat>)
    ensures r.Some? ==> r.value < |s| && p(s[r.value])
    ensures r.Some? ==> forall j :: 0 <= j < r.value ==> !p(s[j])
    ensures r.None? <==> forall j :: 0 <= j < |s| ==> !p(s[j])
    decreases |s|
  {
    if |s| == 0 then None
    else if p(s[0]) then Some(0)
    else
      match FindIndex(s[1..], p)
      case None => None
      case Some(i) => Some(i + 1)
  }

  /** The first element satisfying `p` (`FirstOrDefault`), if there is one. */
  function First<T>(s: seq<T>, p: T -> bool): (r: Option<T>)
    ensures r.Some? ==> r.value in s && p(r.value)
    ensures r.None? <==> forall j :: 0 <= j < |s| ==> !p(s[j])
  {
    match FindIndex(s, p)
    case None => None
    case Some(i) => Some(s[i])
  }

  /** The search looks at the head first, then at the tail. */
  lemma FirstCons<T>(s: seq<T>, p: T -> bool)
    requires |s| > 0
    ensures First(s, p) == if p(s[0]) then Some(s[0]) else First(s[1..], p)
  {
  }

  /** Looking for a `p`-element through a filter that keeps every `p`-element
      finds the same element. */
  lemma {:induction false} FirstThroughFilter<T(!new)>(s: seq<T>, p: T -> bool, keep: T -> bool)
    requires forall x :: p(x) ==> keep(x)
    ensures First(Filter(s, keep), p) == First(s, p)
    decreases |s|
  {
    if |s| > 0 {
      FirstThroughFilter(s[1..], p, keep);
      FirstCons(s, p);
      var f := Filter(s, keep);
      if keep(s[0]) {
        assert f == [s[0]] + Filter(s[1..], keep);
        assert f[0] == s[0] && f[1..] == Filter(s[1..], keep);
        FirstCons(f, p);
      }
    }
  }

  /** `s` is ordered by `key`, largest first. */
  predicate Descending<T>(s: seq<T>, key: T -> int) {
    forall i, j :: 0 <= i < j < |s| ==> key(s[i]) >= key(s[j])
  }

  /** Inserts `x` into a descending sequence in front of the first element
      whose key does not exceed its own. */
  function InsertDesc<T(==,!new)>(x: T, s: seq<T>, key: T -> int): (r: seq<T>)
    requires Descending(s, key)
    ensures Descending(r, key)
    ensures multiset(r) == multiset(s) + multiset{x}
    decreases |s|
  {
    if |s| == 0 then [x]
    else if key(x) >= key(s[0]) then [x] + s
    else
      var rest := InsertDesc(x, s[1..], key);
      assert s == [s[0]] + s[1..];
      assert forall k :: 0 <= k < |rest| ==> key(rest[k]) <= key(s[0]) by {
        forall k | 0 <= k < |rest| ensures key(rest[k]) <= key(s[0]) {
          assert rest[k] in multiset(rest);
          if rest[k] != x {
            assert rest[k] in multiset(s[1..]);
            HeadIsLargest(s, key, rest[k]);
          }
        }
      }
      [s[0]] + rest
  }

  /** A stable sort, largest key first: elements with equal keys keep their
      relative order (the LINQ `OrderByDescending` contract). */
  function SortDesc<T(==,!new)>(s: seq<T>, key: T -> int): (r: seq<T>)
    ensures Descending(r, key)
    ensures multiset(r) == multiset(s)
    decreases |s|
  {
    if |s| == 0 then []
    else
      assert s == [s[0]] + s[1..];
      InsertDesc(s[0], SortDesc(s[1..], key), key)
  }

  /** Filtering keeps a descending sequence descending. */
  lemma {:induction false} FilterDescending<T(!new)>(s: seq<T>, key: T -> int, keep: T -> bool)
    requires Descending(s, key)
    ensures Descending(Filter(s, keep), key)
    decreases |s|
  {
    if |s| > 0 {
      FilterDescending(s[1..], key, keep);
      var rest := Filter(s[1..], keep);
      if keep(s[0]) {
        FilterMultiset(s[1..], keep);
        forall y | y in rest ensures key(y) <= key(s[0]) {
          assert y in multiset(rest);
          var j :| 0 <= j < |s[1..]| && s[1..][j] == y;
          assert s[j + 1] == y;
        }
      }
    }
  }

  /** Every element of a descending sequence has a key no larger than the head's. */
  lemma HeadIsLargest<T(!new)>(s: seq<T>, key: T -> int, y: T)
    requires Descending(s, key) && |s| > 0 && y in s
    ensures key(y) <= key(s[0])
  {
  }

  /** `FilterInsert` when `x` goes in front of `s`. */
  lemma FilterInsertFront<T(!new)>(x: T, s: seq<T>, key: T -> int, keep: T -> bool)
    requires Descending(s, key) && |s| > 0 && key(x) >= key(s[0])
    ensures Descending(Filter(s, keep), key)
    ensures Filter(InsertDesc(x, s, key), keep)
         == if keep(x) then InsertDesc(x, Filter(s, keep), key) else Filter(s, keep)
  {
    FilterDescending(s, key, keep);
    var r := [x] + s;
    assert InsertDesc(x, s, key) == r;
    assert r[0] == x && r[1..] == s;
    var fs := Filter(s, keep);
    if keep(x) && |fs| > 0 {
      FilterMultiset(s, keep);
      assert fs[0] in multiset(fs);
      HeadIsLargest(s, key, fs[0]);
    }
  }

  /** Filtering a sequence with a known head. */
  lemma FilterCons<T>(x: T, s: seq<T>, keep: T -> bool)
    ensures Filter([x] + s, keep) == if keep(x) then [x] + Filter(s, keep) else Filter(s, keep)
  {
  }

  /** Inserting behind the head leaves the head in front. */
  lemma InsertDescCons<T(!new)>(x: T, h: T, t: seq<T>, key: T -> int)
    requires Descending([h] + t, key) && key(x) < key(h)
    ensures Descending(t, key)
    ensures InsertDesc(x, [h] + t, key) == [h] + InsertDesc(x, t, key)
  {
    assert ([h] + t)[0] == h && ([h] + t)[1..] == t;
  }

  /** `FilterInsertBehind` when the head and `x` are both kept. */
  lemma FilterInsertBehindKept<T(!new)>(x: T, s: seq<T>, key: T -> int, keep: T -> bool)
    requires Descending(s, key) && |s| > 0 && Descending(s[1..], key) && key(x) < key(s[0])
    requires keep(s[0]) && keep(x)
    requires Descending(Filter(s, keep), key) && Descending(Filter(s[1..], keep), key)
    requires Filter(InsertDesc(x, s[1..], key), keep) == InsertDesc(x, Filter(s[1..], keep), key)
    ensures Filter(InsertDesc(x, s, key), keep) == InsertDesc(x, Filter(s, keep), key)
  {
  }

  /** `FilterInsertBehind` when `x` is dropped. */
  lemma FilterInsertBehindDropped<T(!new)>(x: T, s: seq<T>, key: T -> int, keep: T -> bool)
    requires Descending(s, key) && |s| > 0 && Descending(s[1..], key) && key(x) < key(s[0]) && !keep(x)
    requires Filter(InsertDesc(x, s[1..], key), keep) == Filter(s[1..], keep)
    ensures Filter(InsertDesc(x, s, key), keep) == Filter(s, keep)
  {
  }

  /** `FilterInsertBehind` when `x` is kept and the head is dropped. */
  lemma FilterInsertBehindHeadDropped<T(!new)>(x: T, s: seq<T>, key: T -> int, keep: T -> bool)
    requires Descending(s, key) && |s| > 0 && Descending(s[1..], key) && key(x) < key(s[0]) && !keep(s[0])
    requires Descending(Filter(s[1..], keep), key)
    requires Filter(InsertDesc(x, s[1..], key), keep) == InsertDesc(x, Filter(s[1..], keep), key)
    ensures Filter(s, keep) == Filter(s[1..], keep)
    ensures Filter(InsertDesc(x, s, key), keep) == InsertDesc(x, Filter(s[1..], keep), key)
  {
  }

  /** `FilterInsert` when `x` goes behind the head of `s`, given the result for
      the tail. */
  lemma FilterInsertBehind<T(!new)>(x: T, s: seq<T>, key: T -> int, keep: T -> bool)
    requires Descending(s, key) && |s| > 0 && Descending(s[1..], key) && key(x) < key(s[0])
    requires Descending(Filter(s[1..], keep), key)
    requires Filter(InsertDesc(x, s[1..], key), keep)
          == if keep(x) then InsertDesc(x, Filter(s[1..], keep), key) else Filter(s[1..], keep)
    ensures Descending(Filter(s, keep), key)
    ensures Filter(InsertDesc(x, s, key), keep)
         == if keep(x) then InsertDesc(x, Filter(s, keep), key) else Filter(s, keep)
  {
    FilterDescending(s, key, keep);
    if !keep(x) {
      FilterInsertBehindDropped(x, s, key, keep);
    } else if keep(s[0]) {
      FilterInsertBehindKept(x, s, key, keep);
    } else {
      FilterInsertBehindHeadDropped(x, s, key, keep);
    }
  }

  /** Filtering commutes with insertion into a descending sequence. */
  lemma {:induction false} FilterInsert<T(!new)>(x: T, s: seq<T>, key: T -> int, keep: T -> bool)
    requires Descending(s, key)
    ensures Descending(Filter(s, keep), key)
    ensures Filter(InsertDesc(x, s, key), keep)
         == if keep(x) then InsertDesc(x, Filter(s, keep), key) else Filter(s, keep)
    decreases |s|
  {
    FilterDescending(s, key, keep);
    if |s| == 0 {
      assert Filter([x], keep) == (if keep(x) then [x] else []) by {
        assert [x][1..] == [];
      }
    } else if key(x) >= key(s[0]) {
      FilterInsertFront(x, s, key, keep);
    } else {
      FilterInsert(x, s[1..], key, keep);
      FilterDescending(s[1..], key, keep);
      FilterInsertBehind(x, s, key, keep);
    }
  }

  /** Sorting and filtering commute: removing elements from a sorted listing
      gives the listing of what remains. */
  lemma {:induction false} FilterSortDesc<T(!new)>(s: seq<T>, key: T -> int, keep: T -> bool)
    ensures Filter(SortDesc(s, key), keep) == SortDesc(Filter(s, keep), key)
    decreases |s|
  {
    if |s| > 0 {
      FilterSortDesc(s[1..], key, keep);
      FilterInsert(s[0], SortDesc(s[1..], key), key, keep);
    }
  }
}
