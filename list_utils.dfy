/** The list helpers of ListUtils over sequences. Every helper there first
    asks isEmpty, which treats a null list exactly like an empty one, so a
    null list is represented by the empty sequence. */
module ListUtils {
  import opened Wrappers

  /** The contract of a Java Comparator, read as "a <= b": every two values
      are comparable and the order is transitive. */
  ghost predicate TotalPreorder<T(!new)>(le: (T, T) -> bool) {
    && (forall x, y :: le(x, y) || le(y, x))
    && (forall x, y, z :: le(x, y) && le(y, z) ==> le(x, z))
  }

  ghost predicate SortedBy<T>(s: seq<T>, le: (T, T) -> bool) {
    forall i, j :: 0 <= i < j < |s| ==> le(s[i], s[j])
  }

  predicate NoDuplicates<T(==)>(s: seq<T>) {
    forall i, j :: 0 <= i < j < |s| ==> s[i] != s[j]
  }

  function Min(a: int, b: int): int {
    if a <= b then a else b
  }

  /** isEmpty: true exactly for the empty (or null) list. */
  predicate IsEmpty<T>(list: seq<T>)
    ensures IsEmpty(list) <==> list == []
  {
    |list| == 0
  }

  /** getFirst: element 0, or null for an empty list. */
  function GetFirst<T>(list: seq<T>): (r: Option<T>)
    ensures r.None? <==> list == []
    ensures r.Some? ==> r.value == list[0]
  {
    if IsEmpty(list) then None else Some(list[0])
  }

  /** getLast: element size-1, or null for an empty list. */
  function GetLast<T>(list: seq<T>): (r: Option<T>)
    ensures r.None? <==> list == []
    ensures r.Some? ==> r.value == list[|list| - 1]
  {
    if IsEmpty(list) then None else Some(list[|list| - 1])
  }

  /** toSet: the set of the list's elements. */
  function ToSet<T(==,!new)>(list: seq<T>): (r: set<T>)
    ensures forall x :: x in r <==> x in list
  {
    set x | x in list
  }

  /** filter: the elements that satisfy `p`, in their original order. */
  function Filter<T(!new)>(list: seq<T>, p: T -> bool): (r: seq<T>)
    ensures |r| <= |list|
    ensures forall i :: 0 <= i < |r| ==> p(r[i])
    ensures forall x :: x in r <==> x in list && p(x)
  {
    if |list| == 0 then []
    else (if p(list[0]) then [list[0]] else []) + Filter(list[1..], p)
  }

  /** Filtering distributes over concatenation: relative order is kept and
      no element is moved across another. */
  lemma {:induction false} FilterAppend<T(!new)>(a: seq<T>, b: seq<T>, p: T -> bool)
    ensures Filter(a + b, p) == Filter(a, p) + Filter(b, p)
  {
    if |a| == 0 {
      assert a + b == b;
    } else {
      assert (a + b)[0] == a[0];
      assert (a + b)[1..] == a[1..] + b;
      FilterAppend(a[1..], b, p);
    }
  }

  /** Filtering one more element at the end. */
  lemma FilterSnoc<T(!new)>(a: seq<T>, x: T, p: T -> bool)
    ensures Filter(a + [x], p) == Filter(a, p) + (if p(x) then [x] else [])
  {
    FilterAppend(a, [x], p);
    assert Filter([x], p) == (if p(x) then [x] else []) + Filter([x][1..], p);
  }

  /** Nothing survives a filter that no element satisfies. */
  lemma {:induction false} FilterNone<T(!new)>(list: seq<T>, p: T -> bool)
    requires forall i :: 0 <= i < |list| ==> !p(list[i])
    ensures Filter(list, p) == []
  {
    if |list| > 0 {
      FilterNone(list[1..], p);
    }
  }

  /** The number of elements that satisfy `p`. */
  function Count<T(!new)>(list: seq<T>, p: T -> bool): (n: nat)
  {
    |Filter(list, p)|
  }

  /** map: the list of `f` applied to each element, position by position. */
  function Map<T, U>(list: seq<T>, f: T -> U): (r: seq<U>)
    ensures |r| == |list|
    ensures forall i :: 0 <= i < |list| ==> r[i] == f(list[i])
  {
    if |list| == 0 then [] else [f(list[0])] + Map(list[1..], f)
  }

  /** The predicate "classified as `k`", named so that every use of it is
      the same function value. */
  function HasClass<T(!new), K(==)>(classify: T -> K, k: K): T -> bool {
    x => classify(x) == k
  }

  /** groupBy: one entry per class that occurs, holding the members of
      that class in encounter order (see GroupByIsFilter). */
  function GroupBy<T(!new), K(==)>(list: seq<T>, classify: T -> K): (r: map<K, seq<T>>)
    ensures forall i :: 0 <= i < |list| ==> classify(list[i]) in r
  {
    if |list| == 0 then map[]
    else
      var init, x := list[..|list| - 1], list[|list| - 1];
      var m := GroupBy(init, classify);
      assert forall i :: 0 <= i < |init| ==> init[i] == list[i];
      var k := classify(x);
      m[k := (if k in m then m[k] else []) + [x]]
  }

  /** Each group of groupBy is exactly the filter of the list by its class,
      and no group is empty. */
  lemma {:induction false} GroupByIsFilter<T(!new), K>(list: seq<T>, classify: T -> K)
    ensures forall k :: k in GroupBy(list, classify) ==>
              GroupBy(list, classify)[k] == Filter(list, HasClass(classify, k)) && GroupBy(list, classify)[k] != []
  {
    if |list| > 0 {
      var init, x := list[..|list| - 1], list[|list| - 1];
      assert list == init + [x];
      GroupByIsFilter(init, classify);
      var m := GroupBy(init, classify);
      var r := GroupBy(list, classify);
      forall k | k in r
        ensures r[k] == Filter(list, HasClass(classify, k)) && r[k] != []
      {
        FilterSnoc(init, x, HasClass(classify, k));
        if k !in m {
          FilterNone(init, HasClass(classify, k));
        }
      }
    }
  }

  /** toMap with merge function (v1, v2) -> v1: one entry per key that
      occurs; the value is the one from the FIRST element with that key. */
  function ToMap<T, K(==), V>(list: seq<T>, keyOf: T -> K, valueOf: T -> V): (r: map<K, V>)
    ensures forall i :: 0 <= i < |list| ==> keyOf(list[i]) in r
    ensures forall k :: k in r ==> exists i :: 0 <= i < |list| && keyOf(list[i]) == k
    ensures forall i :: 0 <= i < |list| && (forall j :: 0 <= j < i ==> keyOf(list[j]) != keyOf(list[i])) ==>
              r[keyOf(list[i])] == valueOf(list[i])
  {
    if |list| == 0 then map[]
    else
      var init, x := list[..|list| - 1], list[|list| - 1];
      var m := ToMap(init, keyOf, valueOf);
      assert forall i :: 0 <= i < |init| ==> init[i] == list[i];
      if keyOf(x) in m then m else m[keyOf(x) := valueOf(x)]
  }

  /** sort: copies the list into a fresh array and sorts the copy in
      place; the caller's list is a value and cannot change. The result is
      ordered by the comparator and is a permutation of the input. */
  method Sort<T(!new)>(list: seq<T>, le: (T, T) -> bool) returns (result: seq<T>)
    requires TotalPreorder(le)
    ensures SortedBy(result, le)
    ensures multiset(result) == multiset(list)
  {
    if IsEmpty(list) {
      return [];
    }
    var a := new T[|list|](i requires 0 <= i < |list| => list[i]);
    assert a[..] == list;
    var i := 1;
    while i < a.Length
      invariant 1 <= i <= a.Length
      invariant SortedBy(a[..i], le)
      invariant multiset(a[..]) == multiset(list)
    {
      InsertLast(a, i, le);
      i := i + 1;
    }
    result := a[..];
  }

  /** One insertion step: a[..i] is sorted; move a[i] left past every
      element that compares strictly greater, leaving a[..i+1] sorted. */
  method InsertLast<T(!new)>(a: array<T>, i: nat, le: (T, T) -> bool)
    requires TotalPreorder(le)
    requires i < a.Length
    requires SortedBy(a[..i], le)
    modifies a
    ensures SortedBy(a[..i + 1], le)
    ensures multiset(a[..]) == multiset(old(a[..]))
  {
    var j := i;
    while j > 0 && !le(a[j - 1], a[j])
      invariant 0 <= j <= i
      invariant forall p, q :: 0 <= p < q <= i && p != j && q != j ==> le(a[p], a[q])
      invariant forall q :: j < q <= i ==> le(a[j], a[q])
      invariant multiset(a[..]) == multiset(old(a[..]))
    {
      a[j - 1], a[j] := a[j], a[j - 1];
      j := j - 1;
    }
  }

  /** Collections.max: scan from the first element, replacing the
      candidate whenever the next element compares strictly greater. */
  function MaxFrom<T(!new)>(candidate: T, rest: seq<T>, le: (T, T) -> bool): (r: T)
    requires TotalPreorder(le)
    ensures r == candidate || r in rest
    ensures le(candidate, r)
    ensures forall i :: 0 <= i < |rest| ==> le(rest[i], r)
  {
    if |rest| == 0 then candidate
    else MaxFrom(if !le(rest[0], candidate) then rest[0] else candidate, rest[1..], le)
  }

  /** Collections.min: replace the candidate whenever the next element
      compares strictly smaller. */
  function MinFrom<T(!new)>(candidate: T, rest: seq<T>, le: (T, T) -> bool): (r: T)
    requires TotalPreorder(le)
    ensures r == candidate || r in rest
    ensures le(r, candidate)
    ensures forall i :: 0 <= i < |rest| ==> le(r, rest[i])
  {
    if |rest| == 0 then candidate
    else MinFrom(if !le(candidate, rest[0]) then rest[0] else candidate, rest[1..], le)
  }

  /** max: null for an empty list, otherwise an element of the list that
      no element exceeds. */
  function Max<T(!new)>(list: seq<T>, le: (T, T) -> bool): (r: Option<T>)
    requires TotalPreorder(le)
    ensures r.None? <==> list == []
    ensures r.Some? ==> r.value in list && forall i :: 0 <= i < |list| ==> le(list[i], r.value)
  {
    if IsEmpty(list) then None else Some(MaxFrom(list[0], list[1..], le))
  }

  /** min: null for an empty list, otherwise an element of the list that
      no element undercuts. */
  function MinOf<T(!new)>(list: seq<T>, le: (T, T) -> bool): (r: Option<T>)
    requires TotalPreorder(le)
    ensures r.None? <==> list == []
    ensures r.Some? ==> r.value in list && forall i :: 0 <= i < |list| ==> le(r.value, list[i])
  {
    if IsEmpty(list) then None else Some(MinFrom(list[0], list[1..], le))
  }

  /** The rows a query returns with setFirstResult(offset) and
      setMaxResults(limit), and the shape of page's subList: nothing when
      the offset is past the end, otherwise list[offset .. min(offset+limit, size)]. */
  function Window<T>(list: seq<T>, offset: nat, limit: nat): (r: seq<T>)
    ensures |r| <= limit
    ensures offset >= |list| ==> r == []
    ensures offset < |list| ==> r == list[offset .. Min(offset + limit, |list|)]
  {
    if offset >= |list| then [] else list[offset .. Min(offset + limit, |list|)]
  }

  /** page: page `pageNum` (counted from 1) of `pageSize` elements, for a
      page number of at least 1 and a non-negative page size; an empty list
      and an offset past the end give an empty page. */
  function Page<T>(list: seq<T>, pageSize: int, pageNum: int): (r: seq<T>)
    requires pageNum >= 1 && pageSize >= 0
    ensures |r| <= pageSize
    ensures (pageNum - 1) * pageSize >= |list| ==> r == []
    ensures (pageNum - 1) * pageSize < |list| ==>
              r == list[(pageNum - 1) * pageSize .. Min(pageNum * pageSize, |list|)]
  {
    var from: nat := (pageNum - 1) * pageSize;
    if IsEmpty(list) then [] else Window(list, from, pageSize)
  }

  /** The concatenation of pages 1..n. */
  ghost function FirstPages<T>(list: seq<T>, pageSize: nat, n: nat): seq<T>
  {
    if n == 0 then [] else FirstPages(list, pageSize, n - 1) + Page(list, pageSize, n)
  }

  /** Pages are adjacent and do not overlap: pages 1..n together are
      exactly the first n*pageSize elements (or the whole list). */
  lemma {:induction false} FirstPagesArePrefix<T>(list: seq<T>, pageSize: nat, n: nat)
    ensures FirstPages(list, pageSize, n) == list[..Min(n * pageSize, |list|)]
  {
    if n > 0 {
      FirstPagesArePrefix(list, pageSize, n - 1);
      var from := (n - 1) * pageSize;
      assert n * pageSize == from + pageSize;
      if from >= |list| {
        assert Min(n * pageSize, |list|) == |list| == Min(from, |list|);
      } else {
        assert list[..from] + list[from .. Min(n * pageSize, |list|)] == list[..Min(n * pageSize, |list|)];
      }
    }
  }

  /** Enough pages cover the whole list. */
  lemma PagesCoverList<T>(list: seq<T>, pageSize: nat, n: nat)
    requires n * pageSize >= |list|
    ensures FirstPages(list, pageSize, n) == list
  {
    FirstPagesArePrefix(list, pageSize, n);
  }

  /** distinct, scanning left to right with the set of values already
      emitted. */
  function DistinctFrom<T(==,!new)>(list: seq<T>, seen: set<T>): (r: seq<T>)
    ensures NoDuplicates(r)
    ensures forall i :: 0 <= i < |r| ==> r[i] in list && r[i] !in seen
    ensures forall i :: 0 <= i < |list| ==> list[i] in seen || list[i] in r
  {
    if |list| == 0 then []
    else if list[0] in seen then DistinctFrom(list[1..], seen)
    else
      var rest := DistinctFrom(list[1..], seen + {list[0]});
      assert forall i :: 0 <= i < |rest| ==> rest[i] != list[0];
      [list[0]] + rest
  }

  /** distinct: first occurrences, in order, without duplicates; it holds
      exactly the elements of the input. */
  function Distinct<T(==,!new)>(list: seq<T>): (r: seq<T>)
    ensures NoDuplicates(r)
    ensures forall x :: x in r <==> x in list
  {
    DistinctFrom(list, {})
  }

  /** Appending an element: distinct keeps it at the end if it is new and
      ignores it otherwise, so the result lists first occurrences in order. */
  lemma {:induction false} DistinctFromSnoc<T(!new)>(list: seq<T>, x: T, seen: set<T>)
    ensures DistinctFrom(list + [x], seen) ==
            if x in seen || x in list then DistinctFrom(list, seen) else DistinctFrom(list, seen) + [x]
  {
    if |list| == 0 {
      assert [x][1..] == [];
    } else {
      assert (list + [x])[0] == list[0];
      assert (list + [x])[1..] == list[1..] + [x];
      if list[0] in seen {
        DistinctFromSnoc(list[1..], x, seen);
      } else {
        DistinctFromSnoc(list[1..], x, seen + {list[0]});
      }
    }
  }

  lemma DistinctSnoc<T(!new)>(list: seq<T>, x: T)
    ensures Distinct(list + [x]) == if x in list then Distinct(list) else Distinct(list) + [x]
  {
    DistinctFromSnoc(list, x, {});
  }

  /** Collectors.joining(separator): the parts with the separator between
      neighbours; "" for no parts. */
  function JoinStrings(parts: seq<string>, separator: string): (r: string)
  {
    if |parts| == 0 then ""
    else if |parts| == 1 then parts[0]
    else parts[0] + separator + JoinStrings(parts[1..], separator)
  }

  /** Joining two non-empty runs of parts puts one separator between them. */
  lemma {:induction false} JoinAppend(a: seq<string>, b: seq<string>, separator: string)
    requires |a| > 0 && |b| > 0
    ensures JoinStrings(a + b, separator) == JoinStrings(a, separator) + separator + JoinStrings(b, separator)
  {
    assert (a + b)[0] == a[0];
    if |a| > 1 {
      assert (a + b)[1..] == a[1..] + b;
      JoinAppend(a[1..], b, separator);
    } else {
      assert (a + b)[1..] == b;
    }
  }

  /** The length of a join: the parts plus one separator per gap. */
  lemma {:induction false} JoinLength(parts: seq<string>, separator: string)
    requires |parts| > 0
    ensures |JoinStrings(parts, separator)| == SumLengths(parts) + (|parts| - 1) * |separator|
  {
    if |parts| > 1 {
      JoinLength(parts[1..], separator);
    }
  }

  function SumLengths(parts: seq<string>): nat {
    if |parts| == 0 then 0 else |parts[0]| + SumLengths(parts[1..])
  }

  /** join: "" for an empty list, otherwise String.valueOf of each element,
      with the separator between neighbours. */
  function Join<T>(list: seq<T>, show: T -> string, separator: string): (r: string)
    ensures r == JoinStrings(Map(list, show), separator)
    ensures list == [] ==> r == ""
    ensures |list| == 1 ==> r == show(list[0])
    ensures |list| > 0 ==> |r| == SumLengths(Map(list, show)) + (|list| - 1) * |separator|
  {
    if IsEmpty(list) then ""
    else
      JoinLength(Map(list, show), separator);
      JoinStrings(Map(list, show), separator)
  }

  /** A list without duplicates has as many distinct elements as entries. */
  lemma {:induction false} NoDuplicatesCard<T(!new)>(s: seq<T>)
    requires NoDuplicates(s)
    ensures |ToSet(s)| == |s|
  {
    if |s| > 0 {
      var rest := s[1..];
      assert NoDuplicates(rest) by {
        forall i, j | 0 <= i < j < |rest| ensures rest[i] != rest[j] {
          assert rest[i] == s[i + 1] && rest[j] == s[j + 1];
        }
      }
      NoDuplicatesCard(rest);
      assert ToSet(s) == ToSet(rest) + {s[0]};
      assert s[0] !in ToSet(rest);
    }
  }

  /** A sorted sequence stays sorted when an element that does not exceed
      any of its entries is put in front. */
  lemma ConsSorted<T>(a: T, s: seq<T>, le: (T, T) -> bool)
    requires SortedBy(s, le)
    requires forall i :: 0 <= i < |s| ==> le(a, s[i])
    ensures SortedBy([a] + s, le)
  {
  }

  /** Inserting one element into a sorted sequence in front of the first
      element it does not exceed, so it stays ahead of the elements that
      compare equal to it. */
  function Insert<T(!new)>(x: T, s: seq<T>, le: (T, T) -> bool): (r: seq<T>)
    requires TotalPreorder(le) && SortedBy(s, le)
    ensures SortedBy(r, le)
    ensures forall i :: 0 <= i < |r| ==> r[i] == x || r[i] in s
    ensures multiset(r) == multiset(s) + multiset{x}
  {
    if |s| == 0 then [x]
    else if le(x, s[0]) then
      assert s == [s[0]] + s[1..];
      ConsSorted(x, s, le);
      [x] + s
    else
      var rest := Insert(x, s[1..], le);
      assert s == [s[0]] + s[1..];
      ConsSorted(s[0], rest, le);
      [s[0]] + rest
  }

  /** The elements that compare equal to `k` under `le`. */
  function EquivalentTo<T>(le: (T, T) -> bool, k: T): T -> bool {
    (y: T) => le(k, y) && le(y, k)
  }

  /** Filtering a sequence with one more element in front. */
  lemma FilterCons<T(!new)>(a: T, s: seq<T>, p: T -> bool)
    ensures Filter([a] + s, p) == (if p(a) then [a] else []) + Filter(s, p)
  {
    assert ([a] + s)[1..] == s;
  }

  /** An element that `x` does not reach is not equivalent to anything
      `x` is equivalent to. */
  lemma BeyondEquivalence<T(!new)>(le: (T, T) -> bool, k: T, x: T, y: T)
    requires TotalPreorder(le)
    requires EquivalentTo(le, k)(x) && !le(x, y)
    ensures !EquivalentTo(le, k)(y)
  {
  }

  /** Inserting `x` puts it ahead of every element equivalent to it and
      moves no other element across another. */
  lemma {:induction false} InsertKeepsOrder<T(!new)>(x: T, s: seq<T>, le: (T, T) -> bool, k: T)
    requires TotalPreorder(le) && SortedBy(s, le)
    ensures EquivalentTo(le, k)(x) ==>
              Filter(Insert(x, s, le), EquivalentTo(le, k)) == [x] + Filter(s, EquivalentTo(le, k))
    ensures !EquivalentTo(le, k)(x) ==>
              Filter(Insert(x, s, le), EquivalentTo(le, k)) == Filter(s, EquivalentTo(le, k))
  {
    var p := EquivalentTo(le, k);
    if |s| == 0 || le(x, s[0]) {
      assert Insert(x, s, le) == [x] + s;
      FilterCons(x, s, p);
    } else {
      var rest := Insert(x, s[1..], le);
      assert Insert(x, s, le) == [s[0]] + rest;
      InsertKeepsOrder(x, s[1..], le, k);
      FilterCons(s[0], rest, p);
      assert s == [s[0]] + s[1..];
      FilterCons(s[0], s[1..], p);
      var tail := Filter(s[1..], p);
      if p(x) {
        BeyondEquivalence(le, k, x, s[0]);
        assert Filter(Insert(x, s, le), p) == [] + ([x] + tail) == [x] + tail;
        assert Filter(s, p) == [] + tail == tail;
      }
    }
  }

  /** Stream.sorted is stable: the elements equivalent to any `k` come out
      in the order they went in. */
  lemma {:induction false} SortSeqStable<T(!new)>(s: seq<T>, le: (T, T) -> bool, k: T)
    requires TotalPreorder(le)
    ensures Filter(SortSeq(s, le), EquivalentTo(le, k)) == Filter(s, EquivalentTo(le, k))
  {
    if |s| > 0 {
      SortSeqStable(s[1..], le, k);
      InsertKeepsOrder(s[0], SortSeq(s[1..], le), le, k);
      assert s == [s[0]] + s[1..];
      FilterCons(s[0], s[1..], EquivalentTo(le, k));
    }
  }

  /** Stream.sorted(comparator): the same elements, in comparator order. */
  function SortSeq<T(!new)>(s: seq<T>, le: (T, T) -> bool): (r: seq<T>)
    requires TotalPreorder(le)
    ensures SortedBy(r, le)
    ensures multiset(r) == multiset(s)
  {
    if |s| == 0 then []
    else
      assert s == [s[0]] + s[1..];
      Insert(s[0], SortSeq(s[1..], le), le)
  }
}
