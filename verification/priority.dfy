/**
  The priority scorer and the stable descending sort the dispatcher uses to
  order exception actions and exception handlers (Dispatch/Dispatcher.cs,
  `SortByPriority` and `PriorityScore`).
 */
module Priority {
  import opened DispatchTypes

  /** Ordinal `s.StartsWith(p)`: `p` is a prefix of `s`. */
  predicate StartsWith(s: string, p: string)
  {
    |p| <= |s| && s[..|p|] == p
  }

  /** Ordinal `s.Contains(sub)`: `sub` occurs in `s` at some position. */
  predicate Contains(s: string, sub: string)
  {
    exists i | 0 <= i <= |s| - |sub| :: OccursAt(s, sub, i)
  }

  /** `sub` occurs in `s` starting at position `i`. */
  predicate OccursAt(s: string, sub: string, i: int)
    requires 0 <= i <= |s| - |sub|
  {
    s[i..i + |sub|] == sub
  }

  /**
    The affinity of a registered component's origin `item` to a request whose
    type lives in assembly `reqAsm` and namespace `reqNs`: 4 for the same
    assembly, plus 2 when the item's namespace starts with the request's,
    plus 1 when the request's namespace contains the item's.
   */
  function PriorityScore(reqAsm: AssemblyId, reqNs: string, item: Origin): (r: int)
    ensures 0 <= r <= 7
    ensures r >= 4 <==> item.assembly == reqAsm
    ensures r % 4 >= 2 <==> StartsWith(NamespaceOf(item), reqNs)
    ensures r % 2 == 1 <==> Contains(reqNs, NamespaceOf(item))
  {
    var itemNs := NamespaceOf(item);
    (if item.assembly == reqAsm then 4 else 0)
    + (if StartsWith(itemNs, reqNs) then 2 else 0)
    + (if Contains(reqNs, itemNs) then 1 else 0)
  }

  /** The score of `item` against the origin of a request type. */
  function ScoreFor(request: Origin, item: Origin): int
  {
    PriorityScore(request.assembly, NamespaceOf(request), item)
  }

  /** Both namespace bonuses apply exactly when the two namespaces are equal. */
  lemma NamespaceBonusesIffEqual(reqNs: string, itemNs: string)
    ensures StartsWith(itemNs, reqNs) && Contains(reqNs, itemNs) <==> itemNs == reqNs
  {
    if itemNs == reqNs {
      assert OccursAt(reqNs, itemNs, 0);
    }
    if StartsWith(itemNs, reqNs) && Contains(reqNs, itemNs) {
      var i :| 0 <= i <= |reqNs| - |itemNs| && OccursAt(reqNs, itemNs, i);
      assert |itemNs| == |reqNs|;
      assert itemNs[..|reqNs|] == itemNs;
    }
  }

  /**
    The top score 7 is reached exactly by a component of the request's own
    assembly and namespace.
   */
  lemma ScoreSevenIffSameOrigin(reqAsm: AssemblyId, reqNs: string, item: Origin)
    ensures PriorityScore(reqAsm, reqNs, item) == 7
        <==> item.assembly == reqAsm && NamespaceOf(item) == reqNs
  {
    NamespaceBonusesIffEqual(reqNs, NamespaceOf(item));
  }

  /**
    A request type without a namespace gives every component the prefix
    bonus, and the containment bonus only to components without a namespace.
   */
  lemma EmptyRequestNamespace(reqAsm: AssemblyId, item: Origin)
    ensures PriorityScore(reqAsm, "", item) % 4 >= 2
    ensures PriorityScore(reqAsm, "", item) % 2 == 1 <==> NamespaceOf(item) == ""
  {
    var itemNs := NamespaceOf(item);
    assert itemNs[..0] == "";
    if itemNs == "" {
      assert OccursAt("", itemNs, 0);
    }
  }

  // ---------------------------------------------------------------------
  // Stable descending sort by score (LINQ `OrderByDescending`)
  // ---------------------------------------------------------------------

  /** Scores never increase from left to right. */
  ghost predicate NonIncreasing<T>(xs: seq<T>, score: T -> int)
  {
    forall i, j | 0 <= i < j < |xs| :: score(xs[i]) >= score(xs[j])
  }

  /** The elements of `xs` whose score is `k`, in their order in `xs`. */
  function WithScore<T>(xs: seq<T>, score: T -> int, k: int): seq<T>
  {
    if |xs| == 0 then []
    else (if score(xs[0]) == k then [xs[0]] else []) + WithScore(xs[1..], score, k)
  }

  /**
    `j` is the position of the earliest element of `xs` whose score is
    maximal: no element scores higher, and every element before it scores lower.
   */
  ghost predicate EarliestMaximum<T>(xs: seq<T>, score: T -> int, j: int)
  {
    && 0 <= j < |xs|
    && (forall i | 0 <= i < |xs| :: score(xs[i]) <= score(xs[j]))
    && (forall i | 0 <= i < j :: score(xs[i]) < score(xs[j]))
  }

  /** Places `x` before the first element of `ys` that does not outscore it. */
  function Insert<T>(x: T, ys: seq<T>, score: T -> int): (r: seq<T>)
    requires NonIncreasing(ys, score)
    ensures NonIncreasing(r, score)
    ensures multiset(r) == multiset(ys) + multiset{x}
    ensures |r| > 0 && (score(r[0]) == score(x) || (|ys| > 0 && r[0] == ys[0]))
  {
    if |ys| == 0 || score(ys[0]) <= score(x) then [x] + ys
    else
      var rest := Insert(x, ys[1..], score);
      assert ys == [ys[0]] + ys[1..];
      [ys[0]] + rest
  }

  lemma {:induction false} InsertKeepsTies<T>(x: T, ys: seq<T>, score: T -> int, k: int)
    requires NonIncreasing(ys, score)
    ensures WithScore(Insert(x, ys, score), score, k) == WithScore([x] + ys, score, k)
  {
    if |ys| == 0 || score(ys[0]) <= score(x) {
    } else {
      var rest := Insert(x, ys[1..], score);
      assert Insert(x, ys, score) == [ys[0]] + rest;
      assert ([ys[0]] + rest)[1..] == rest;
      InsertKeepsTies(x, ys[1..], score, k);
      assert ([x] + ys)[1..] == ys;
      assert ([x] + ys[1..])[1..] == ys[1..];
      if score(x) == k {
        assert score(ys[0]) != k;
      }
    }
  }

  /**
    Stable sort by descending score: an insertion sort, so elements with
    equal scores keep their relative order.
   */
  function SortDescending<T>(xs: seq<T>, score: T -> int): (r: seq<T>)
    ensures NonIncreasing(r, score)
    ensures multiset(r) == multiset(xs)
    ensures |r| == |xs|
  {
    if |xs| == 0 then []
    else
      assert xs == [xs[0]] + xs[1..];
      Insert(xs[0], SortDescending(xs[1..], score), score)
  }

  /** The sort is stable: for every score, the elements with that score keep their order. */
  lemma {:induction false} SortIsStable<T>(xs: seq<T>, score: T -> int, k: int)
    ensures WithScore(SortDescending(xs, score), score, k) == WithScore(xs, score, k)
  {
    if |xs| > 0 {
      var sortedTail := SortDescending(xs[1..], score);
      InsertKeepsTies(xs[0], sortedTail, score, k);
      SortIsStable(xs[1..], score, k);
      assert ([xs[0]] + sortedTail)[1..] == sortedTail;
    }
  }

  /** The first element of `WithScore(xs, score, k)` is the earliest element of `xs` scoring `k`. */
  lemma {:induction false} WithScoreHead<T>(xs: seq<T>, score: T -> int, k: int)
    requires |WithScore(xs, score, k)| > 0
    ensures exists j | 0 <= j < |xs| ::
      && WithScore(xs, score, k)[0] == xs[j]
      && score(xs[j]) == k
      && (forall i | 0 <= i < j :: score(xs[i]) != k)
  {
    if score(xs[0]) == k {
      assert WithScore(xs, score, k)[0] == xs[0];
    } else {
      assert WithScore(xs, score, k) == WithScore(xs[1..], score, k);
      WithScoreHead(xs[1..], score, k);
      var j :| 0 <= j < |xs| - 1
        && WithScore(xs[1..], score, k)[0] == xs[1..][j]
        && score(xs[1..][j]) == k
        && (forall i | 0 <= i < j :: score(xs[1..][i]) != k);
      assert forall i | 0 < i < j + 1 :: score(xs[i]) != k by {
        forall i | 0 < i < j + 1 ensures score(xs[i]) != k {
          assert xs[i] == xs[1..][i - 1];
        }
      }
    }
  }

  /** The head of a sequence is retained by the filter for its own score. */
  lemma HeadWithOwnScore<T>(xs: seq<T>, score: T -> int)
    requires |xs| > 0
    ensures |WithScore(xs, score, score(xs[0]))| > 0
    ensures WithScore(xs, score, score(xs[0]))[0] == xs[0]
  {
  }

  /** The head of a non-increasing permutation of `xs` scores at least as high as every element of `xs`. */
  lemma PermutationHeadIsMaximum<T>(xs: seq<T>, r: seq<T>, score: T -> int)
    requires |r| > 0 && NonIncreasing(r, score) && multiset(r) == multiset(xs)
    ensures forall i | 0 <= i < |xs| :: score(xs[i]) <= score(r[0])
  {
    forall i | 0 <= i < |xs| ensures score(xs[i]) <= score(r[0]) {
      assert xs[i] in multiset(xs);
      assert xs[i] in multiset(r);
      var p :| 0 <= p < |r| && r[p] == xs[i];
    }
  }

  /**
    The element the sort puts first is the earliest element of the input
    among those with the maximum score.
   */
  lemma SortHeadIsEarliestMaximum<T>(xs: seq<T>, score: T -> int)
    requires |xs| > 0
    ensures exists j :: EarliestMaximum(xs, score, j) && SortDescending(xs, score)[0] == xs[j]
  {
    var r := SortDescending(xs, score);
    var m := score(r[0]);
    PermutationHeadIsMaximum(xs, r, score);
    HeadWithOwnScore(r, score);
    SortIsStable(xs, score, m);
    WithScoreHead(xs, score, m);
    var j :| 0 <= j < |xs|
      && WithScore(xs, score, m)[0] == xs[j]
      && score(xs[j]) == m
      && (forall i | 0 <= i < j :: score(xs[i]) != m);
    assert EarliestMaximum(xs, score, j);
  }

  /**
    `j` is the position of the earliest registered item among those that
    score highest against the request type's origin.
   */
  ghost predicate TopPriority<T>(request: Origin, items: seq<T>, originOf: T -> Origin, j: int)
  {
    && 0 <= j < |items|
    && (forall i | 0 <= i < |items| :: ScoreFor(request, originOf(items[i])) <= ScoreFor(request, originOf(items[j])))
    && (forall i | 0 <= i < j :: ScoreFor(request, originOf(items[i])) < ScoreFor(request, originOf(items[j])))
  }

  /** `TopPriority` is `EarliestMaximum` for the score against the request type's origin. */
  lemma TopPriorityIsEarliestMaximum<T>(request: Origin, items: seq<T>, originOf: T -> Origin, j: int)
    ensures TopPriority(request, items, originOf, j)
        <==> EarliestMaximum(items, (x: T) => ScoreFor(request, originOf(x)), j)
  {
  }

  /**
    `SortByPriority`: the items in descending order of their score against
    the request type's origin, ties kept in registration order.
   */
  function SortByPriority<T>(request: Origin, items: seq<T>, originOf: T -> Origin): (r: seq<T>)
    ensures |r| == |items|
    ensures multiset(r) == multiset(items)
    ensures forall i, j | 0 <= i < j < |r| ::
      ScoreFor(request, originOf(r[i])) >= ScoreFor(request, originOf(r[j]))
    ensures |r| > 0 ==> exists j :: TopPriority(request, items, originOf, j) && r[0] == items[j]
  {
    SortedHeadIsTopPriority(request, items, originOf);
    SortDescending(items, (x: T) => ScoreFor(request, originOf(x)))
  }

  lemma SortedHeadIsTopPriority<T>(request: Origin, items: seq<T>, originOf: T -> Origin)
    ensures var r := SortDescending(items, (x: T) => ScoreFor(request, originOf(x)));
      |r| > 0 ==> exists j :: TopPriority(request, items, originOf, j) && r[0] == items[j]
  {
    var score := (x: T) => ScoreFor(request, originOf(x));
    if |items| > 0 {
      SortHeadIsEarliestMaximum(items, score);
      var j :| EarliestMaximum(items, score, j) && SortDescending(items, score)[0] == items[j];
      TopPriorityIsEarliestMaximum(request, items, originOf, j);
    }
  }

  /** `SortByPriority` is stable: items with equal scores keep their registration order. */
  lemma SortByPriorityIsStable<T>(request: Origin, items: seq<T>, originOf: T -> Origin, k: int)
    ensures var score := (x: T) => ScoreFor(request, originOf(x));
      WithScore(SortByPriority(request, items, originOf), score, k) == WithScore(items, score, k)
  {
    SortIsStable(items, (x: T) => ScoreFor(request, originOf(x)), k);
  }
}
