/** list_sort: a quicksort with a random pivot, and selection sort below 25 elements. Both move data
    between nodes that stay where they are. Positions count from the first element. */
module ListSort {
  import opened ListNodes

  const MINQUICKSORTELS := 24

  type Cmp = (Elem, Elem) -> int

  ghost predicate TotalPreorder(cmp: Cmp) {
    && (forall a, b :: cmp(a, b) > 0 <==> cmp(b, a) < 0)
    && (forall a, b, c :: cmp(a, b) >= 0 && cmp(b, c) >= 0 ==> cmp(a, c) >= 0)
  }

  /** a may stand before b in the direction of versus. */
  predicate Le(cmp: Cmp, versus: int, a: Elem, b: Elem) {
    cmp(a, b) * -versus <= 0
  }

  /** a may stand behind b. */
  predicate Ge(cmp: Cmp, versus: int, a: Elem, b: Elem) {
    cmp(a, b) * -versus >= 0
  }

  /** The ready-made comparators for numbers, on data that are the numbers themselves. */
  function NumberComparator(a: Elem, b: Elem): int {
    (if a < b then 1 else 0) - (if a > b then 1 else 0)
  }

  /** They are total preorders, and a positive versus means ascending. */
  lemma NumbersAscend(versus: int, a: Elem, b: Elem)
    ensures TotalPreorder(NumberComparator)
    ensures versus > 0 ==> (Le(NumberComparator, versus, a, b) <==> a <= b)
    ensures versus < 0 ==> (Le(NumberComparator, versus, a, b) <==> a >= b)
  {
  }

  /** The positions lo..end are in order. */
  ghost predicate SortedIn(cmp: Cmp, versus: int, es: seq<Elem>, lo: nat, end: nat)
    requires end <= |es|
  {
    forall i, j :: lo <= i < j < end ==> Le(cmp, versus, es[i], es[j])
  }

  /** b has the data of a, in another order in lo..end. */
  ghost predicate PermutedIn(a: seq<Elem>, b: seq<Elem>, lo: nat, end: nat) {
    && lo <= end <= |a| == |b|
    && a[..lo] == b[..lo] && a[end..] == b[end..]
    && multiset(a[lo..end]) == multiset(b[lo..end])
  }

  ghost predicate LowSide(cmp: Cmp, versus: int, es: seq<Elem>, lo: nat, a: nat, v: Elem)
    requires a <= |es|
  {
    forall k :: lo <= k < a ==> Le(cmp, versus, es[k], v)
  }

  ghost predicate HighSide(cmp: Cmp, versus: int, es: seq<Elem>, b: nat, end: nat, v: Elem)
    requires end <= |es|
  {
    forall k :: b <= k < end ==> Ge(cmp, versus, es[k], v)
  }

  ghost predicate Partitioned(cmp: Cmp, versus: int, es: seq<Elem>, lo: nat, p: nat, end: nat)
    requires lo <= p < end <= |es|
  {
    LowSide(cmp, versus, es, lo, p, es[p]) && HighSide(cmp, versus, es, p + 1, end, es[p])
  }

  function Swapped(es: seq<Elem>, i: nat, j: nat): (r: seq<Elem>)
    requires i < |es| && j < |es|
    ensures |r| == |es|
  {
    es[i := es[j]][j := es[i]]
  }

  /** k goes to i, p to k and i to p. */
  function Rotated(es: seq<Elem>, i: nat, k: nat, p: nat): (r: seq<Elem>)
    requires i < |es| && k < |es| && p < |es|
    ensures |r| == |es|
  {
    es[i := es[k]][k := es[p]][p := es[i]]
  }

  lemma Flip(cmp: Cmp, versus: int, a: Elem, b: Elem)
    requires TotalPreorder(cmp)
    ensures Ge(cmp, versus, a, b) <==> Le(cmp, versus, b, a)
    ensures Le(cmp, versus, a, b) || Le(cmp, versus, b, a)
    ensures Le(cmp, versus, a, a)
  {
  }

  lemma LeTrans(cmp: Cmp, versus: int, a: Elem, b: Elem, c: Elem)
    requires TotalPreorder(cmp) && Le(cmp, versus, a, b) && Le(cmp, versus, b, c)
    ensures Le(cmp, versus, a, c)
  {
  }

  lemma SwapPermutes(es: seq<Elem>, i: nat, j: nat, lo: nat, end: nat)
    requires lo <= i < end <= |es| && lo <= j < end
    ensures PermutedIn(es, Swapped(es, i, j), lo, end)
  {
    var s, r := es[lo..end], Swapped(es, i, j)[lo..end];
    var t := s[i - lo := s[j - lo]][j - lo := s[i - lo]];
    assert forall k {:trigger r[k]} :: 0 <= k < |r| ==> r[k] == Swapped(es, i, j)[lo + k] == t[k];
    assert r == t;
  }

  lemma SwappedAt(es: seq<Elem>, i: nat, j: nat)
    requires i < |es| && j < |es|
    ensures var r := Swapped(es, i, j);
            && r[i] == es[j] && r[j] == es[i]
            && forall k {:trigger r[k]} :: 0 <= k < |r| && k != i && k != j ==> r[k] == es[k]
  {
  }

  lemma RotatePermutes(es: seq<Elem>, i: nat, k: nat, p: nat, lo: nat, end: nat)
    requires lo <= i < end <= |es| && lo <= k < end && lo <= p < end && p != i && p != k
    ensures PermutedIn(es, Rotated(es, i, k, p), lo, end)
  {
    hide Swapped, Rotated, PermutedIn;
    SwapPermutes(es, i, k, lo, end);
    SwapPermutes(Swapped(es, i, k), k, p, lo, end);
    PermutedTrans(es, Swapped(es, i, k), Swapped(Swapped(es, i, k), k, p), lo, end);
    TwoSwaps(es, i, k, p);
  }

  lemma TwoSwaps(es: seq<Elem>, i: nat, k: nat, p: nat)
    requires i < |es| && k < |es| && p < |es| && p != i && p != k
    ensures Rotated(es, i, k, p) == Swapped(Swapped(es, i, k), k, p)
  {
  }

  lemma RotateKeeps(es0: seq<Elem>, es: seq<Elem>, i: nat, k: nat, p: nat, lo: nat, end: nat)
    requires PermutedIn(es0, es, lo, end)
    requires lo <= i < end <= |es| && lo <= k < end && lo <= p < end && p != i && p != k
    ensures var r := Rotated(es, i, k, p);
            && PermutedIn(es0, r, lo, end) && r[p] == es[i] && r[k] == es[p] && (i != k ==> r[i] == es[k])
            && forall j {:trigger r[j]} :: 0 <= j < |es| && j != i && j != k && j != p ==> r[j] == es[j]
  {
    RotatePermutes(es, i, k, p, lo, end);
    PermutedTrans(es0, es, Rotated(es, i, k, p), lo, end);
  }

  /** A permutation of a part of a range permutes the range. */
  lemma Widen(a: seq<Elem>, b: seq<Elem>, lo: nat, end: nat, lo': nat, end': nat)
    requires PermutedIn(a, b, lo, end) && lo' <= lo && end <= end' <= |a|
    ensures PermutedIn(a, b, lo', end')
  {
    SamePart(a[..lo], b[..lo], lo');
    SamePart(a[end..], b[end..], end' - end);
    InThree(a, lo', lo, end, end');
    InThree(b, lo', lo, end, end');
  }

  lemma SamePart(a: seq<Elem>, b: seq<Elem>, k: nat)
    requires a == b && k <= |a|
    ensures a[..k] == b[..k] && a[k..] == b[k..]
  {
  }

  lemma InThree(a: seq<Elem>, lo': nat, lo: nat, end: nat, end': nat)
    requires lo' <= lo <= end <= end' <= |a|
    ensures a[lo'..end'] == a[..lo][lo'..] + a[lo..end] + a[end..][..end' - end]
    ensures a[..lo'] == a[..lo][..lo'] && a[end'..] == a[end..][end' - end..]
  {
  }

  lemma PermutedLength(a: seq<Elem>, b: seq<Elem>, lo: nat, end: nat)
    requires PermutedIn(a, b, lo, end)
    ensures |a| == |b|
  {
  }

  lemma ComesFrom(a: seq<Elem>, b: seq<Elem>, lo: nat, end: nat, k: nat) returns (i: nat)
    requires PermutedIn(a, b, lo, end) && lo <= k < end
    ensures lo <= i < end && a[i] == b[k]
  {
    assert b[lo..end][k - lo] in multiset(b[lo..end]);
    assert b[k] in multiset(a[lo..end]);
    assert b[k] in a[lo..end];
    var j :| 0 <= j < |a[lo..end]| && a[lo..end][j] == b[k];
    i := lo + j;
  }

  lemma Untouched(a: seq<Elem>, b: seq<Elem>, lo: nat, end: nat, k: nat)
    requires PermutedIn(a, b, lo, end) && k < |a| && !(lo <= k < end)
    ensures a[k] == b[k]
  {
  }

  /** Both sides of the pivot sorted make the whole sorted. */
  lemma JoinSorted(cmp: Cmp, versus: int, es: seq<Elem>, es1: seq<Elem>, es2: seq<Elem>, lo: nat, p: nat, end: nat)
    requires lo <= p < end <= |es| && Partitioned(cmp, versus, es, lo, p, end)
    requires PermutedIn(es, es1, lo, p) && PermutedIn(es1, es2, p + 1, end)
    requires TotalPreorder(cmp) && SortedIn(cmp, versus, es1, lo, p) && SortedIn(cmp, versus, es2, p + 1, end)
    ensures SortedIn(cmp, versus, es2, lo, end)
  {
    hide PermutedIn, Partitioned, Le;
    PermutedLength(es, es1, lo, p);
    PermutedLength(es1, es2, p + 1, end);
    forall i, j | lo <= i < j < end
      ensures Le(cmp, versus, es2[i], es2[j])
    {
      HighPart(cmp, versus, es, es1, es2, lo, p, end, j);
      if i <= p {
        LowPart(cmp, versus, es, es1, es2, lo, p, end, i);
        if j <= p {
          LowPart(cmp, versus, es, es1, es2, lo, p, end, j);
        } else {
          LeTrans(cmp, versus, es2[i], es[p], es2[j]);
        }
      }
    }
  }

  lemma LowPart(cmp: Cmp, versus: int, es: seq<Elem>, es1: seq<Elem>, es2: seq<Elem>, lo: nat, p: nat, end: nat, i: nat)
    requires lo <= p < end <= |es| && Partitioned(cmp, versus, es, lo, p, end) && lo <= i <= p
    requires PermutedIn(es, es1, lo, p) && PermutedIn(es1, es2, p + 1, end) && TotalPreorder(cmp)
    ensures es2[i] == es1[i] && Le(cmp, versus, es2[i], es[p])
    ensures i == p ==> es2[i] == es[p]
  {
    Untouched(es1, es2, p + 1, end, i);
    if i < p {
      var k := ComesFrom(es, es1, lo, p, i);
    } else {
      Untouched(es, es1, lo, p, i);
      Flip(cmp, versus, es[p], es[p]);
    }
  }

  lemma HighPart(cmp: Cmp, versus: int, es: seq<Elem>, es1: seq<Elem>, es2: seq<Elem>, lo: nat, p: nat,
                 end: nat, j: nat)
    requires lo <= p < end <= |es| && Partitioned(cmp, versus, es, lo, p, end) && lo <= j < end
    requires PermutedIn(es, es1, lo, p) && PermutedIn(es1, es2, p + 1, end) && TotalPreorder(cmp)
    ensures p < j ==> Le(cmp, versus, es[p], es2[j])
  {
    if p < j {
      var k := ComesFrom(es1, es2, p + 1, end, j);
      Untouched(es, es1, lo, p, k);
      Flip(cmp, versus, es[k], es[p]);
    }
  }

  lemma PermutedTrans(a: seq<Elem>, b: seq<Elem>, c: seq<Elem>, lo: nat, end: nat)
    requires PermutedIn(a, b, lo, end) && PermutedIn(b, c, lo, end)
    ensures PermutedIn(a, c, lo, end)
  {
  }

  method SwapData(x: Node, y: Node, ghost ns: seq<Node>, ghost es: seq<Elem>, ghost i: nat, ghost j: nat)
    requires Linked(ns) && Holds(ns, es) && i < |es| && j < |es| && x == ns[i + 1] && y == ns[j + 1]
    modifies x`data, y`data
    ensures Holds(ns, Swapped(es, i, j))
  {
    var tmpdata := x.data;
    x.data := y.data;
    y.data := tmpdata;
  }

  /** The three-way rotation: the datum of left goes to the pivot's node, the pivot to the node
      beside it, and what was there to left. */
  method RotateData(left: Node, beside: Node, pivot: Node, ghost ns: seq<Node>, ghost es: seq<Elem>,
                    ghost i: nat, ghost k: nat, ghost p: nat)
    requires Linked(ns) && Holds(ns, es) && i < |es| && k < |es| && p < |es| && p != i && p != k
    requires left == ns[i + 1] && beside == ns[k + 1] && pivot == ns[p + 1]
    modifies left`data, beside`data, pivot`data
    ensures Holds(ns, Rotated(es, i, k, p))
  {
    var tmpdata := left.data;
    left.data := beside.data;
    beside.data := pivot.data;
    pivot.data := tmpdata;
  }

  /** list_sort_selectionsort: the positions first..f are in order, and no later datum belongs
      before them. */
  ghost predicate Selected(cmp: Cmp, versus: int, es: seq<Elem>, first: nat, f: nat, end: nat)
    requires f <= end <= |es|
  {
    forall i, j :: first <= i < f && i < j < end ==> Le(cmp, versus, es[i], es[j])
  }

  /** No datum of f..c belongs before that of t. */
  ghost predicate Least(cmp: Cmp, versus: int, es: seq<Elem>, f: nat, c: nat, t: nat)
    requires f <= t < c <= |es|
  {
    forall k :: f <= k < c ==> Le(cmp, versus, es[t], es[k])
  }

  lemma SelectedNext(cmp: Cmp, versus: int, es: seq<Elem>, first: nat, f: nat, end: nat, t: nat)
    requires first <= f <= t < end <= |es|
    requires Selected(cmp, versus, es, first, f, end) && Least(cmp, versus, es, f, end, t)
    ensures Selected(cmp, versus, Swapped(es, f, t), first, f + 1, end)
  {
    hide Le;
  }

  lemma LeastNext(cmp: Cmp, versus: int, es: seq<Elem>, f: nat, c: nat, t: nat)
    requires f <= t < c < |es| && TotalPreorder(cmp) && Least(cmp, versus, es, f, c, t)
    ensures if Le(cmp, versus, es[t], es[c]) then Least(cmp, versus, es, f, c + 1, t)
            else Least(cmp, versus, es, f, c + 1, c)
  {
  }

  /** The inner loop: the first datum of the remainder that no other belongs before. */
  method FindLeast(cmp: Cmp, versus: int, firstunsorted: Node, lel: Node, ghost ns: seq<Node>, ghost es: seq<Elem>,
                   ghost f: nat, ghost last: nat) returns (toswap: Node, ghost t: nat)
    requires Linked(ns) && Holds(ns, es) && f < last < |es| && firstunsorted == ns[f + 1] && lel == ns[last + 1]
    ensures f <= t <= last && toswap == ns[t + 1]
    ensures TotalPreorder(cmp) ==> Least(cmp, versus, es, f, last + 1, t)
  {
    hide Linked, Holds, TotalPreorder, Least;
    HeldLength(ns, es);
    toswap, t := firstunsorted, f;
    LeastStart(cmp, versus, es, f);
    NextOf(ns, f + 1);
    NextOf(ns, last + 1);
    var cursor := firstunsorted.next;
    ghost var c := f + 1;
    while cursor != lel.next
      invariant f < c <= last + 1 && cursor == ns[c + 1] && f <= t < c && toswap == ns[t + 1]
      invariant TotalPreorder(cmp) ==> Least(cmp, versus, es, f, c, t)
      decreases last - c
    {
      SameNode(ns, c + 1, last + 2);
      HeldAt(ns, es, t);
      HeldAt(ns, es, c);
      if TotalPreorder(cmp) { LeastNext(cmp, versus, es, f, c, t); }
      if cmp(toswap.data, cursor.data) * -versus > 0 {
        toswap, t := cursor, c;
      }
      NextOf(ns, c + 1);
      cursor := cursor.next;
      c := c + 1;
    }
    SameNode(ns, c + 1, last + 2);
  }

  lemma LeastStart(cmp: Cmp, versus: int, es: seq<Elem>, f: nat)
    requires f < |es|
    ensures TotalPreorder(cmp) ==> Least(cmp, versus, es, f, f + 1, f)
  {
  }

  method SelectionSort(cmp: Cmp, versus: int, first: nat, fel: Node, last: nat, lel: Node,
                       ghost ns: seq<Node>, ghost es: seq<Elem>) returns (ghost out: seq<Elem>)
    requires Linked(ns) && Holds(ns, es) && first <= last < |es| && fel == ns[first + 1] && lel == ns[last + 1]
    modifies ns`data
    ensures Holds(ns, out) && PermutedIn(es, out, first, last + 1)
    ensures TotalPreorder(cmp) ==> SortedIn(cmp, versus, out, first, last + 1)
  {
    hide Linked, Holds, TotalPreorder, Least, Selected, PermutedIn, Swapped;
    HeldLength(ns, es);
    out := es;
    SelectedStart(cmp, versus, es, first, last + 1);
    if last <= first { return; }
    var firstunsorted := fel;
    ghost var f := first;
    while firstunsorted != lel
      invariant first <= f <= last && firstunsorted == ns[f + 1] && |out| == |es|
      invariant Holds(ns, out) && PermutedIn(es, out, first, last + 1)
      invariant TotalPreorder(cmp) ==> Selected(cmp, versus, out, first, f, last + 1)
      decreases last - f
    {
      SameNode(ns, f + 1, last + 1);
      out := SelectNext(cmp, versus, firstunsorted, lel, ns, es, out, first, f, last);
      NextOf(ns, f + 1);
      firstunsorted := firstunsorted.next;
      f := f + 1;
    }
    SameNode(ns, f + 1, last + 1);
    SelectedEnd(cmp, versus, out, first, last + 1);
  }

  /** A turn of the outer loop: the least of the remainder comes to its front. */
  method SelectNext(cmp: Cmp, versus: int, firstunsorted: Node, lel: Node, ghost ns: seq<Node>, ghost es0: seq<Elem>,
                    ghost es: seq<Elem>, ghost first: nat, ghost f: nat, ghost last: nat) returns (ghost out: seq<Elem>)
    requires Linked(ns) && Holds(ns, es) && first <= f < last < |es| && PermutedIn(es0, es, first, last + 1)
    requires firstunsorted == ns[f + 1] && lel == ns[last + 1]
    requires TotalPreorder(cmp) ==> Selected(cmp, versus, es, first, f, last + 1)
    modifies ns`data
    ensures Holds(ns, out) && |out| == |es| && PermutedIn(es0, out, first, last + 1)
    ensures TotalPreorder(cmp) ==> Selected(cmp, versus, out, first, f + 1, last + 1)
  {
    hide Linked, Holds, TotalPreorder, Least, Selected, PermutedIn, Swapped;
    HeldLength(ns, es);
    var toswap; ghost var t;
    toswap, t := FindLeast(cmp, versus, firstunsorted, lel, ns, es, f, last);
    SelectedSwap(cmp, versus, es0, es, first, f, last + 1, t);
    out := Swapped(es, f, t);
    SameNode(ns, f + 1, t + 1);
    if toswap != firstunsorted {
      SwapData(firstunsorted, toswap, ns, es, f, t);
    } else {
      SwapSelf(es, f);
    }
  }

  lemma SelectedSwap(cmp: Cmp, versus: int, es0: seq<Elem>, es: seq<Elem>, first: nat, f: nat, end: nat, t: nat)
    requires first <= f <= t < end <= |es| && PermutedIn(es0, es, first, end)
    ensures PermutedIn(es0, Swapped(es, f, t), first, end)
    ensures Selected(cmp, versus, es, first, f, end) && Least(cmp, versus, es, f, end, t) ==>
              Selected(cmp, versus, Swapped(es, f, t), first, f + 1, end)
  {
    hide PermutedIn, Selected, Least, Swapped;
    if Selected(cmp, versus, es, first, f, end) && Least(cmp, versus, es, f, end, t) {
      SelectedNext(cmp, versus, es, first, f, end, t);
    }
    SwapPermutes(es, f, t, first, end);
    PermutedTrans(es0, es, Swapped(es, f, t), first, end);
  }

  lemma SwapSelf(es: seq<Elem>, i: nat)
    requires i < |es|
    ensures Swapped(es, i, i) == es
  {
  }

  lemma SelectedStart(cmp: Cmp, versus: int, es: seq<Elem>, first: nat, end: nat)
    requires first < end <= |es|
    ensures Selected(cmp, versus, es, first, first, end) && PermutedIn(es, es, first, end)
    ensures first + 1 == end ==> SortedIn(cmp, versus, es, first, end)
  {
  }

  lemma SelectedEnd(cmp: Cmp, versus: int, es: seq<Elem>, first: nat, end: nat)
    requires first < end <= |es|
    ensures Selected(cmp, versus, es, first, end - 1, end) ==> SortedIn(cmp, versus, es, first, end)
  {
  }

  /** While left and right approach the pivot at p, what they have passed is on its right side. */
  ghost predicate Approaching(cmp: Cmp, versus: int, es0: seq<Elem>, es: seq<Elem>,
                              lo: nat, a: nat, p: nat, b: nat, end: nat)
  {
    && lo <= a <= p <= b < end <= |es| && PermutedIn(es0, es, lo, end) && es[p] == es0[p]
    && LowSide(cmp, versus, es, lo, a, es[p]) && HighSide(cmp, versus, es, b + 1, end, es[p])
  }

  lemma ApproachStart(cmp: Cmp, versus: int, es: seq<Elem>, lo: nat, p: nat, end: nat)
    requires lo <= p < end <= |es|
    ensures Approaching(cmp, versus, es, es, lo, lo, p, end - 1, end)
  {
  }

  lemma ApproachLeft(cmp: Cmp, versus: int, es0: seq<Elem>, es: seq<Elem>, lo: nat, a: nat, p: nat, b: nat, end: nat)
    requires Approaching(cmp, versus, es0, es, lo, a, p, b, end) && a < p && Le(cmp, versus, es[a], es[p])
    ensures Approaching(cmp, versus, es0, es, lo, a + 1, p, b, end)
  {
    hide PermutedIn, Le, Ge;
  }

  lemma ApproachRight(cmp: Cmp, versus: int, es0: seq<Elem>, es: seq<Elem>, lo: nat, a: nat, p: nat, b: nat, end: nat)
    requires Approaching(cmp, versus, es0, es, lo, a, p, b, end) && p < b && Ge(cmp, versus, es[b], es[p])
    ensures Approaching(cmp, versus, es0, es, lo, a, p, b - 1, end)
  {
    hide PermutedIn, Le, Ge;
  }

  lemma ApproachSwap(cmp: Cmp, versus: int, es0: seq<Elem>, es: seq<Elem>, lo: nat, a: nat, p: nat, b: nat, end: nat)
    requires Approaching(cmp, versus, es0, es, lo, a, p, b, end) && a < p < b
    requires !Le(cmp, versus, es[a], es[p]) && !Ge(cmp, versus, es[b], es[p])
    ensures Approaching(cmp, versus, es0, Swapped(es, a, b), lo, a + 1, p, b - 1, end)
  {
    hide PermutedIn, Le, Ge, Swapped;
    SwappedAt(es, a, b);
    SwapPermutes(es, a, b, lo, end);
    PermutedTrans(es0, es, Swapped(es, a, b), lo, end);
    EitherSide(cmp, versus, es[a], es[p]);
    EitherSide(cmp, versus, es[b], es[p]);
  }

  lemma EitherSide(cmp: Cmp, versus: int, a: Elem, b: Elem)
    ensures Le(cmp, versus, a, b) || Ge(cmp, versus, a, b)
  {
  }

  /** The left part is longer: a datum there that belongs behind the pivot moves behind it. */
  lemma ShiftDown(cmp: Cmp, versus: int, es0: seq<Elem>, es: seq<Elem>, lo: nat, a: nat, p: nat, end: nat)
    requires Shifting(cmp, versus, es0, es, lo, a, p, p, end) && a < p && !Le(cmp, versus, es[a], es[p])
    ensures Shifting(cmp, versus, es0, Rotated(es, a, p - 1, p), lo, a, p - 1, p - 1, end)
  {
    hide PermutedIn, Le, Ge, Rotated;
    EitherSide(cmp, versus, es[a], es[p]);
    RotateKeeps(es0, es, a, p - 1, p, lo, end);
    var r := Rotated(es, a, p - 1, p);
    forall k | lo <= k < a
      ensures Le(cmp, versus, r[k], es[p])
    {
      assert r[k] == es[k];
    }
    forall k | p < k < end
      ensures Ge(cmp, versus, r[k], es[p])
    {
      assert r[k] == es[k];
    }
  }

  lemma ShiftUp(cmp: Cmp, versus: int, es0: seq<Elem>, es: seq<Elem>, lo: nat, p: nat, b: nat, end: nat)
    requires Shifting(cmp, versus, es0, es, lo, p, p, b, end) && p < b && !Ge(cmp, versus, es[b], es[p])
    ensures Shifting(cmp, versus, es0, Rotated(es, b, p + 1, p), lo, p + 1, p + 1, b, end)
  {
    hide PermutedIn, Le, Ge, Rotated;
    EitherSide(cmp, versus, es[b], es[p]);
    RotateKeeps(es0, es, b, p + 1, p, lo, end);
    var r := Rotated(es, b, p + 1, p);
    forall k | lo <= k < p
      ensures Le(cmp, versus, r[k], es[p])
    {
      assert r[k] == es[k];
    }
    forall k | b < k < end
      ensures Ge(cmp, versus, r[k], es[p])
    {
      assert r[k] == es[k];
    }
  }

  lemma ShiftLeft(cmp: Cmp, versus: int, es0: seq<Elem>, es: seq<Elem>, lo: nat, a: nat, p: nat, b: nat, end: nat)
    requires Shifting(cmp, versus, es0, es, lo, a, p, b, end) && a < p && Le(cmp, versus, es[a], es[p])
    ensures Shifting(cmp, versus, es0, es, lo, a + 1, p, b, end)
  {
    hide PermutedIn, Le, Ge;
  }

  lemma ShiftRight(cmp: Cmp, versus: int, es0: seq<Elem>, es: seq<Elem>, lo: nat, a: nat, p: nat, b: nat, end: nat)
    requires Shifting(cmp, versus, es0, es, lo, a, p, b, end) && p < b && Ge(cmp, versus, es[b], es[p])
    ensures Shifting(cmp, versus, es0, es, lo, a, p, b - 1, end)
  {
    hide PermutedIn, Le, Ge;
  }

  /** The same with a pivot that moves. */
  ghost predicate Shifting(cmp: Cmp, versus: int, es0: seq<Elem>, es: seq<Elem>,
                           lo: nat, a: nat, p: nat, b: nat, end: nat)
  {
    && lo <= a <= p <= b < end <= |es| && PermutedIn(es0, es, lo, end)
    && LowSide(cmp, versus, es, lo, a, es[p]) && HighSide(cmp, versus, es, b + 1, end, es[p])
  }

  lemma ShiftStart(cmp: Cmp, versus: int, es0: seq<Elem>, es: seq<Elem>, lo: nat, a: nat, p: nat, b: nat, end: nat)
    requires Approaching(cmp, versus, es0, es, lo, a, p, b, end)
    ensures Shifting(cmp, versus, es0, es, lo, a, p, b, end)
  {
    hide PermutedIn, Le, Ge;
  }

  lemma ShiftEnd(cmp: Cmp, versus: int, es0: seq<Elem>, es: seq<Elem>, lo: nat, p: nat, end: nat)
    requires Shifting(cmp, versus, es0, es, lo, p, p, p, end)
    ensures PermutedIn(es0, es, lo, end) && Partitioned(cmp, versus, es, lo, p, end)
  {
  }

  /** The loop in which left and right approach the pivot, exchanging data that are on the wrong
      side of it. */
  method Approach(cmp: Cmp, versus: int, fel: Node, lel: Node, pivot: Node, ghost ns: seq<Node>, ghost es: seq<Elem>,
                  ghost lo: nat, ghost p: nat, ghost last: nat)
    returns (left: Node, right: Node, ghost out: seq<Elem>, ghost a: nat, ghost b: nat)
    requires Linked(ns) && Holds(ns, es) && lo <= p <= last < |es|
    requires fel == ns[lo + 1] && lel == ns[last + 1] && pivot == ns[p + 1]
    modifies ns`data
    ensures Holds(ns, out) && Approaching(cmp, versus, es, out, lo, a, p, b, last + 1)
    ensures |out| == |es| && lo <= a <= p <= b <= last && (a == p || b == p)
    ensures left == ns[a + 1] && right == ns[b + 1]
  {
    hide Linked, Holds, PermutedIn, Approaching, Le, Ge;
    HeldLength(ns, es);
    left, right, out, a, b := fel, lel, es, lo, last;
    ApproachStart(cmp, versus, es, lo, p, last + 1);
    SameNode(ns, a + 1, p + 1);
    SameNode(ns, b + 1, p + 1);
    while left != pivot && right != pivot
      invariant Holds(ns, out) && |out| == |es| && lo <= a <= p <= b <= last
      invariant Approaching(cmp, versus, es, out, lo, a, p, b, last + 1)
      invariant left == ns[a + 1] && right == ns[b + 1] && (left == pivot <==> a == p) && (right == pivot <==> b == p)
      decreases b - a
    {
      left, a := PassLeft(cmp, versus, left, pivot, ns, es, out, lo, a, p, b, last + 1);
      right, b := PassRight(cmp, versus, right, pivot, ns, es, out, lo, a, p, b, last + 1);
      if left != pivot && right != pivot {
        out := SwapStep(cmp, versus, left, right, ns, es, out, lo, a, p, b, last + 1);
        NextOf(ns, a + 1);
        NextOf(ns, b + 1);
        left, a := left.next, a + 1;
        right, b := right.prev, b - 1;
        SameNode(ns, a + 1, p + 1);
        SameNode(ns, b + 1, p + 1);
      }
    }
  }

  method SwapStep(cmp: Cmp, versus: int, left: Node, right: Node, ghost ns: seq<Node>, ghost es0: seq<Elem>,
                  ghost es: seq<Elem>, ghost lo: nat, ghost a: nat, ghost p: nat, ghost b: nat, ghost end: nat)
    returns (ghost out: seq<Elem>)
    requires Linked(ns) && Holds(ns, es) && Approaching(cmp, versus, es0, es, lo, a, p, b, end) && a < p < b
    requires left == ns[a + 1] && right == ns[b + 1]
    requires !Le(cmp, versus, es[a], es[p]) && !Ge(cmp, versus, es[b], es[p])
    modifies ns`data
    ensures Holds(ns, out) && |out| == |es| && Approaching(cmp, versus, es0, out, lo, a + 1, p, b - 1, end)
  {
    hide Linked, PermutedIn, LowSide, HighSide, Swapped, Le, Ge;
    ApproachSwap(cmp, versus, es0, es, lo, a, p, b, end);
    SwapData(left, right, ns, es, a, b);
    out := Swapped(es, a, b);
  }

  /** The inner loop on the left stops at the pivot or at a datum that belongs behind it. */
  method PassLeft(cmp: Cmp, versus: int, from: Node, pivot: Node, ghost ns: seq<Node>, ghost es0: seq<Elem>,
                  ghost es: seq<Elem>, ghost lo: nat, ghost a0: nat, ghost p: nat, ghost b: nat, ghost end: nat)
    returns (left: Node, ghost a: nat)
    requires Linked(ns) && Holds(ns, es) && Approaching(cmp, versus, es0, es, lo, a0, p, b, end)
    requires from == ns[a0 + 1] && pivot == ns[p + 1]
    ensures Approaching(cmp, versus, es0, es, lo, a, p, b, end) && a0 <= a <= p && left == ns[a + 1]
    ensures if left == pivot then a == p else a < p && !Le(cmp, versus, es[a], es[p])
  {
    hide Linked, Holds, PermutedIn, LowSide, HighSide;
    HeldLength(ns, es);
    left, a := from, a0;
    SameNode(ns, a + 1, p + 1);
    HeldAt(ns, es, p);
    HeldAt(ns, es, a);
    while left != pivot && cmp(left.data, pivot.data) * -versus <= 0
      invariant Approaching(cmp, versus, es0, es, lo, a, p, b, end) && a0 <= a && left == ns[a + 1]
      invariant (left == pivot <==> a == p) && left.data == es[a]
      decreases p - a
    {
      ApproachLeft(cmp, versus, es0, es, lo, a, p, b, end);
      NextOf(ns, a + 1);
      left, a := left.next, a + 1;
      SameNode(ns, a + 1, p + 1);
      HeldAt(ns, es, a);
    }
  }

  method PassRight(cmp: Cmp, versus: int, from: Node, pivot: Node, ghost ns: seq<Node>, ghost es0: seq<Elem>,
                   ghost es: seq<Elem>, ghost lo: nat, ghost a: nat, ghost p: nat, ghost b0: nat, ghost end: nat)
    returns (right: Node, ghost b: nat)
    requires Linked(ns) && Holds(ns, es) && Approaching(cmp, versus, es0, es, lo, a, p, b0, end)
    requires from == ns[b0 + 1] && pivot == ns[p + 1]
    ensures Approaching(cmp, versus, es0, es, lo, a, p, b, end) && p <= b <= b0 && right == ns[b + 1]
    ensures if right == pivot then b == p else p < b && !Ge(cmp, versus, es[b], es[p])
  {
    hide Linked, Holds, PermutedIn, LowSide, HighSide;
    HeldLength(ns, es);
    right, b := from, b0;
    SameNode(ns, b + 1, p + 1);
    HeldAt(ns, es, p);
    HeldAt(ns, es, b);
    while right != pivot && cmp(right.data, pivot.data) * -versus >= 0
      invariant Approaching(cmp, versus, es0, es, lo, a, p, b, end) && b <= b0 && right == ns[b + 1]
      invariant (right == pivot <==> b == p) && right.data == es[b]
      decreases b - p
    {
      ApproachRight(cmp, versus, es0, es, lo, a, p, b, end);
      NextOf(ns, b + 1);
      right, b := right.prev, b - 1;
      SameNode(ns, b + 1, p + 1);
      HeldAt(ns, es, b);
    }
  }

  /** The loop over a longer left part. */
  method FinishLeft(cmp: Cmp, versus: int, from: Node, pivot0: Node, pivotid0: nat, ghost ns: seq<Node>,
                    ghost es0: seq<Elem>, ghost es: seq<Elem>, ghost lo: nat, ghost a0: nat, ghost end: nat)
    returns (pivot: Node, pivotid: nat, ghost out: seq<Elem>)
    requires Linked(ns) && Holds(ns, es) && lo <= a0 <= lo + pivotid0 < end <= |es|
    requires Shifting(cmp, versus, es0, es, lo, a0, lo + pivotid0, lo + pivotid0, end)
    requires from == ns[a0 + 1] && pivot0 == ns[lo + pivotid0 + 1]
    modifies ns`data
    ensures Holds(ns, out) && lo + pivotid < end && |out| == |es| && pivot == ns[lo + pivotid + 1]
    ensures Shifting(cmp, versus, es0, out, lo, lo + pivotid, lo + pivotid, lo + pivotid, end)
  {
    hide Linked, Holds, PermutedIn, Shifting;
    HeldLength(ns, es);
    var left := from;
    ghost var a := a0;
    pivot, pivotid, out := pivot0, pivotid0, es;
    SameNode(ns, a + 1, lo + pivotid + 1);
    while left != pivot
      invariant Holds(ns, out) && |out| == |es| && lo <= a <= lo + pivotid < end
      invariant Shifting(cmp, versus, es0, out, lo, a, lo + pivotid, lo + pivotid, end)
      invariant left == ns[a + 1] && pivot == ns[lo + pivotid + 1] && (left == pivot <==> a == lo + pivotid)
      decreases lo + pivotid - a
    {
      HeldAt(ns, out, a);
      HeldAt(ns, out, lo + pivotid);
      if cmp(left.data, pivot.data) * -versus > 0 {
        out := RotateDown(cmp, versus, left, pivot, ns, es0, out, lo, a, lo + pivotid, end);
        NextOf(ns, lo + pivotid + 1);
        pivot := pivot.prev;
        pivotid := pivotid - 1;
        SameNode(ns, a + 1, lo + pivotid + 1);
        if pivot == left { break; }
      } else {
        ShiftLeft(cmp, versus, es0, out, lo, a, lo + pivotid, lo + pivotid, end);
        NextOf(ns, a + 1);
        left, a := left.next, a + 1;
        SameNode(ns, a + 1, lo + pivotid + 1);
      }
    }
  }

  method RotateDown(cmp: Cmp, versus: int, left: Node, pivot: Node, ghost ns: seq<Node>, ghost es0: seq<Elem>,
                    ghost es: seq<Elem>, ghost lo: nat, ghost a: nat, ghost p: nat, ghost end: nat)
    returns (ghost out: seq<Elem>)
    requires Linked(ns) && Holds(ns, es) && Shifting(cmp, versus, es0, es, lo, a, p, p, end) && a < p
    requires left == ns[a + 1] && pivot == ns[p + 1] && !Le(cmp, versus, es[a], es[p])
    modifies ns`data
    ensures Holds(ns, out) && |out| == |es| && Shifting(cmp, versus, es0, out, lo, a, p - 1, p - 1, end)
  {
    hide Linked, Holds, PermutedIn, LowSide, HighSide, Rotated, Le, Ge;
    HeldLength(ns, es);
    NextOf(ns, p + 1);
    ShiftDown(cmp, versus, es0, es, lo, a, p, end);
    RotateData(left, pivot.prev, pivot, ns, es, a, p - 1, p);
    out := Rotated(es, a, p - 1, p);
  }

  method RotateUp(cmp: Cmp, versus: int, right: Node, pivot: Node, ghost ns: seq<Node>, ghost es0: seq<Elem>,
                  ghost es: seq<Elem>, ghost lo: nat, ghost p: nat, ghost b: nat, ghost end: nat)
    returns (ghost out: seq<Elem>)
    requires Linked(ns) && Holds(ns, es) && Shifting(cmp, versus, es0, es, lo, p, p, b, end) && p < b
    requires right == ns[b + 1] && pivot == ns[p + 1] && !Ge(cmp, versus, es[b], es[p])
    modifies ns`data
    ensures Holds(ns, out) && |out| == |es| && Shifting(cmp, versus, es0, out, lo, p + 1, p + 1, b, end)
  {
    hide Linked, Holds, PermutedIn, LowSide, HighSide, Rotated, Le, Ge;
    HeldLength(ns, es);
    NextOf(ns, p + 1);
    ShiftUp(cmp, versus, es0, es, lo, p, b, end);
    RotateData(right, pivot.next, pivot, ns, es, b, p + 1, p);
    out := Rotated(es, b, p + 1, p);
  }

  /** The loop over a longer right part. */
  method FinishRight(cmp: Cmp, versus: int, from: Node, pivot0: Node, pivotid0: nat, ghost ns: seq<Node>,
                     ghost es0: seq<Elem>, ghost es: seq<Elem>, ghost lo: nat, ghost b0: nat, ghost end: nat)
    returns (pivot: Node, pivotid: nat, ghost out: seq<Elem>)
    requires Linked(ns) && Holds(ns, es) && lo + pivotid0 <= b0 < end <= |es|
    requires Shifting(cmp, versus, es0, es, lo, lo + pivotid0, lo + pivotid0, b0, end)
    requires from == ns[b0 + 1] && pivot0 == ns[lo + pivotid0 + 1]
    modifies ns`data
    ensures Holds(ns, out) && lo + pivotid < end && |out| == |es| && pivot == ns[lo + pivotid + 1]
    ensures Shifting(cmp, versus, es0, out, lo, lo + pivotid, lo + pivotid, lo + pivotid, end)
  {
    hide Linked, Holds, PermutedIn, Shifting;
    HeldLength(ns, es);
    var right := from;
    ghost var b := b0;
    pivot, pivotid, out := pivot0, pivotid0, es;
    SameNode(ns, b + 1, lo + pivotid + 1);
    while right != pivot
      invariant Holds(ns, out) && |out| == |es| && lo + pivotid <= b < end
      invariant Shifting(cmp, versus, es0, out, lo, lo + pivotid, lo + pivotid, b, end)
      invariant right == ns[b + 1] && pivot == ns[lo + pivotid + 1] && (right == pivot <==> b == lo + pivotid)
      decreases b - (lo + pivotid)
    {
      HeldAt(ns, out, b);
      HeldAt(ns, out, lo + pivotid);
      if cmp(right.data, pivot.data) * -versus < 0 {
        out := RotateUp(cmp, versus, right, pivot, ns, es0, out, lo, lo + pivotid, b, end);
        NextOf(ns, lo + pivotid + 1);
        pivot := pivot.next;
        pivotid := pivotid + 1;
        SameNode(ns, b + 1, lo + pivotid + 1);
        if pivot == right { break; }
      } else {
        ShiftRight(cmp, versus, es0, out, lo, lo + pivotid, lo + pivotid, b, end);
        NextOf(ns, b + 1);
        right, b := right.prev, b - 1;
        SameNode(ns, b + 1, lo + pivotid + 1);
      }
    }
  }

  /** A random position, and its node, from the nearer end. */
  method Pick(first: nat, fel: Node, last: nat, lel: Node, ghost ns: seq<Node>) returns (pivot: Node, pivotid: nat)
    requires Linked(ns) && first <= last < |ns| - 2 && fel == ns[first + 1] && lel == ns[last + 1]
    ensures pivotid <= last - first && pivot == ns[first + pivotid + 1]
  {
    hide Linked;
    pivotid :| 0 <= pivotid < last - first + 1;
    if pivotid < (last - first + 1) / 2 {
      pivot := Rightward(fel, first, first + pivotid, ns);
    } else {
      pivot := Leftward(lel, last, first + pivotid, ns);
    }
  }

  /** Both partition phases. */
  method Partition(cmp: Cmp, versus: int, first: nat, fel: Node, last: nat, lel: Node, ghost ns: seq<Node>,
                   ghost es: seq<Elem>)
    returns (pivot: Node, pivotid: nat, ghost out: seq<Elem>)
    requires Linked(ns) && Holds(ns, es) && first <= last < |es| && fel == ns[first + 1] && lel == ns[last + 1]
    modifies ns`data
    ensures first + pivotid <= last && |out| == |es| && pivot == ns[first + pivotid + 1] && Holds(ns, out)
    ensures PermutedIn(es, out, first, last + 1) && Partitioned(cmp, versus, out, first, first + pivotid, last + 1)
  {
    hide Linked, Holds, PermutedIn, Partitioned, Approaching, Shifting;
    HeldLength(ns, es);
    pivot, pivotid := Pick(first, fel, last, lel, ns);
    var left, right; ghost var a, b;
    left, right, out, a, b := Approach(cmp, versus, fel, lel, pivot, ns, es, first, first + pivotid, last);
    ShiftStart(cmp, versus, es, out, first, a, first + pivotid, b, last + 1);
    pivot, pivotid, out := Finish(cmp, versus, left, right, pivot, pivotid, ns, es, out, first, a, b, last);
    ShiftEnd(cmp, versus, es, out, first, first + pivotid, last + 1);
  }

  /** The second phase, on the side that is longer. */
  method Finish(cmp: Cmp, versus: int, left: Node, right: Node, pivot0: Node, pivotid0: nat, ghost ns: seq<Node>,
                ghost es0: seq<Elem>, ghost es: seq<Elem>, ghost lo: nat, ghost a: nat, ghost b: nat, ghost last: nat)
    returns (pivot: Node, pivotid: nat, ghost out: seq<Elem>)
    requires Linked(ns) && Holds(ns, es) && lo <= a <= lo + pivotid0 <= b <= last < |es|
    requires (a == lo + pivotid0 || b == lo + pivotid0) && left == ns[a + 1] && right == ns[b + 1] &&
             pivot0 == ns[lo + pivotid0 + 1]
    requires Shifting(cmp, versus, es0, es, lo, a, lo + pivotid0, b, last + 1)
    modifies ns`data
    ensures Holds(ns, out) && lo + pivotid <= last && |out| == |es| && pivot == ns[lo + pivotid + 1]
    ensures Shifting(cmp, versus, es0, out, lo, lo + pivotid, lo + pivotid, lo + pivotid, last + 1)
  {
    hide Linked, Holds, Shifting;
    HeldLength(ns, es);
    SameNode(ns, b + 1, lo + pivotid0 + 1);
    if right == pivot0 {
      pivot, pivotid, out := FinishLeft(cmp, versus, left, pivot0, pivotid0, ns, es0, es, lo, a, last + 1);
    } else {
      pivot, pivotid, out := FinishRight(cmp, versus, right, pivot0, pivotid0, ns, es0, es, lo, b, last + 1);
    }
  }

  /** list_sort_quicksort: whatever the pivots, a permutation, and in order if the comparator is
      a total preorder. */
  method Quicksort(cmp: Cmp, versus: int, first: nat, fel: Node, last: nat, lel: Node,
                   ghost ns: seq<Node>, ghost es: seq<Elem>) returns (ghost out: seq<Elem>)
    requires Linked(ns) && Holds(ns, es) && first <= last < |es| && fel == ns[first + 1] && lel == ns[last + 1]
    modifies ns`data
    ensures Holds(ns, out) && PermutedIn(es, out, first, last + 1)
    ensures TotalPreorder(cmp) ==> SortedIn(cmp, versus, out, first, last + 1)
    decreases last - first, 2
  {
    hide Linked, Holds, PermutedIn, Partitioned, TotalPreorder, SortedIn;
    HeldLength(ns, es);
    if last <= first {
      Singleton(cmp, versus, es, first);
      return es;
    }
    if last - first + 1 <= MINQUICKSORTELS {
      out := SelectionSort(cmp, versus, first, fel, last, lel, ns, es);
      return;
    }
    var pivot, pivotid;
    ghost var es0;
    pivot, pivotid, es0 := Partition(cmp, versus, first, fel, last, lel, ns, es);
    out := SortSides(cmp, versus, first, fel, last, lel, pivot, pivotid, ns, es0);
    PermutedTrans(es, es0, out, first, last + 1);
  }

  /** The two recursive calls. */
  method SortSides(cmp: Cmp, versus: int, first: nat, fel: Node, last: nat, lel: Node, pivot: Node, pivotid: nat,
                   ghost ns: seq<Node>, ghost es: seq<Elem>) returns (ghost out: seq<Elem>)
    requires Linked(ns) && Holds(ns, es) && first < last < |es| && fel == ns[first + 1] && lel == ns[last + 1]
    requires first + pivotid <= last && pivot == ns[first + pivotid + 1]
    requires Partitioned(cmp, versus, es, first, first + pivotid, last + 1)
    modifies ns`data
    ensures Holds(ns, out) && PermutedIn(es, out, first, last + 1)
    ensures TotalPreorder(cmp) ==> SortedIn(cmp, versus, out, first, last + 1)
    decreases last - first, 1
  {
    hide Linked, Holds, PermutedIn, Partitioned, TotalPreorder, SortedIn;
    ghost var es1 := SortLeft(cmp, versus, first, fel, last, pivot, pivotid, ns, es);
    out := SortRight(cmp, versus, first, last, lel, pivot, pivotid, ns, es1);
    BothSides(cmp, versus, es, es1, out, first, first + pivotid, last + 1);
  }

  method SortLeft(cmp: Cmp, versus: int, first: nat, fel: Node, ghost last: nat, pivot: Node, pivotid: nat,
                  ghost ns: seq<Node>, ghost es: seq<Elem>) returns (ghost out: seq<Elem>)
    requires Linked(ns) && Holds(ns, es) && first < last < |es| && fel == ns[first + 1]
    requires first + pivotid <= last && pivot == ns[first + pivotid + 1]
    modifies ns`data
    ensures Holds(ns, out) && |out| == |es| && PermutedIn(es, out, first, first + pivotid)
    ensures TotalPreorder(cmp) ==> SortedIn(cmp, versus, out, first, first + pivotid)
    decreases last - first, 0
  {
    hide Linked, Holds, TotalPreorder, SortedIn;
    HeldLength(ns, es);
    NothingToSort(cmp, versus, es, first);
    NextOf(ns, first + pivotid + 1);
    out := es;
    if pivotid > 0 {
      out := Quicksort(cmp, versus, first, fel, first + pivotid - 1, pivot.prev, ns, es);
    }
  }

  method SortRight(cmp: Cmp, versus: int, first: nat, last: nat, lel: Node, pivot: Node, pivotid: nat,
                   ghost ns: seq<Node>, ghost es: seq<Elem>) returns (ghost out: seq<Elem>)
    requires Linked(ns) && Holds(ns, es) && first < last < |es| && lel == ns[last + 1]
    requires first + pivotid <= last && pivot == ns[first + pivotid + 1]
    modifies ns`data
    ensures Holds(ns, out) && |out| == |es| && PermutedIn(es, out, first + pivotid + 1, last + 1)
    ensures TotalPreorder(cmp) ==> SortedIn(cmp, versus, out, first + pivotid + 1, last + 1)
    decreases last - first, 0
  {
    hide Linked, Holds, TotalPreorder, SortedIn;
    HeldLength(ns, es);
    NothingToSort(cmp, versus, es, last + 1);
    NextOf(ns, first + pivotid + 1);
    out := es;
    if first + pivotid < last {
      out := Quicksort(cmp, versus, first + pivotid + 1, pivot.next, last, lel, ns, es);
    }
  }

  lemma Singleton(cmp: Cmp, versus: int, es: seq<Elem>, k: nat)
    requires k < |es|
    ensures PermutedIn(es, es, k, k + 1) && SortedIn(cmp, versus, es, k, k + 1)
  {
  }

  lemma NothingToSort(cmp: Cmp, versus: int, es: seq<Elem>, k: nat)
    requires k <= |es|
    ensures PermutedIn(es, es, k, k) && SortedIn(cmp, versus, es, k, k)
  {
  }

  lemma BothSides(cmp: Cmp, versus: int, es: seq<Elem>, es1: seq<Elem>, es2: seq<Elem>, lo: nat, p: nat, end: nat)
    requires lo <= p < end <= |es| && Partitioned(cmp, versus, es, lo, p, end)
    requires PermutedIn(es, es1, lo, p) && PermutedIn(es1, es2, p + 1, end)
    ensures PermutedIn(es, es2, lo, end)
    ensures TotalPreorder(cmp) && SortedIn(cmp, versus, es1, lo, p) && SortedIn(cmp, versus, es2, p + 1, end) ==>
              SortedIn(cmp, versus, es2, lo, end)
  {
    hide PermutedIn, Partitioned, SortedIn, TotalPreorder;
    PermutedLength(es, es1, lo, p);
    PermutedLength(es1, es2, p + 1, end);
    Widen(es, es1, lo, p, lo, end);
    Widen(es1, es2, p + 1, end, lo, end);
    PermutedTrans(es, es1, es2, lo, end);
    if TotalPreorder(cmp) && SortedIn(cmp, versus, es1, lo, p) && SortedIn(cmp, versus, es2, p + 1, end) {
      JoinSorted(cmp, versus, es, es1, es2, lo, p, end);
    }
  }
}
