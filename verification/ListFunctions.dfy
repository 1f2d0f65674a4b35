/**
 ListItr_Splice of ListFunction/ListFunctionGen.c: move a range of elements in front of another position,
 in the same list or in another one.

 The loop compares iterators by data, so the range it moves ends at the first element that carries the same data
 as the end iterator, which may come before the end iterator itself.

 Items are counted from 0; the iterator at item i stands at position i + 1 of the node sequence.
 */
module ListFunctions {
  import opened Options
  import opened LinkedList
  import opened ListItr

  /** Where a data comparison with item e stops, walking up from b; e == |s| is the end of the list. */
  function StopAt<T(==)>(s: seq<T>, b: nat, e: nat): (k: nat)
    requires b <= e <= |s|
    ensures b <= k <= e
    ensures k == e || (e < |s| && s[k] == s[e])
    ensures forall i :: b <= i < k ==> e == |s| || s[i] != s[e]
    decreases e - b
  {
    if b == e || (e < |s| && s[b] == s[e]) then b else StopAt(s, b + 1, e)
  }

  /** s after its items b .. b + m have been moved in front of item d, for a d outside that range. */
  ghost function Spliced<T>(s: seq<T>, d: nat, b: nat, m: nat): (r: seq<T>)
    requires b + m <= |s| && d <= |s| && (m == 0 || d < b || b + m <= d)
    ensures |r| == |s|
  {
    if m == 0 then s
    else if d < b then s[..d] + s[b..b + m] + s[d..b] + s[b + m..]
    else s[..b] + s[b + m..d] + s[b..b + m] + s[d..]
  }

  lemma SplicedIs<T>(s: seq<T>, d: nat, b: nat, k: nat)
    requires b <= k <= |s| && d <= |s| && (k == b || d < b || k <= d)
    ensures k == b ==> Spliced(s, d, b, k - b) == s
    ensures d < b ==> Spliced(s, d, b, k - b) == s[..d] + s[b..k] + s[d..b] + s[k..]
    ensures b < k <= d ==> Spliced(s, d, b, k - b) == s[..b] + s[k..d] + s[b..k] + s[d..]
  {
    if k == b && d < b {
      assert s == s[..d] + s[b..k] + s[d..b] + s[k..];
    }
  }

  /** Where the loop's iterator stands after m of the moves in one list. */
  ghost function Cursor(d: nat, b: nat, m: nat): (p: nat) {
    if m == 0 then b else if d < b then b + m else if d == b + m then d else b
  }

  /** Where dest stands by then. */
  ghost function Target(d: nat, b: nat, m: nat): (q: nat) {
    if d < b then d + m else d
  }

  lemma CursorItem<T>(s: seq<T>, d: nat, b: nat, m: nat)
    requires b + m <= |s| && d <= |s| && (m == 0 || d < b || b + m <= d)
    ensures b + m == |s| ==> Cursor(d, b, m) == |s|
    ensures b + m < |s| ==> Cursor(d, b, m) < |s| && Spliced(s, d, b, m)[Cursor(d, b, m)] == s[b + m]
  {
  }

  /** One more item, the one at b + m, can be moved in front of d. */
  ghost predicate Outside(d: nat, b: nat, m: nat) {
    d < b || b + m + 1 < d || (m == 0 && d == b + 1)
  }

  /** Where the item at p arrives when it is moved in front of the item at q. */
  ghost function Landing(p: nat, q: nat): (to: nat) {
    if p < q then q - 1 else q
  }

  /** Where the item behind it is by then. */
  ghost function Following(p: nat, to: nat): (k: nat) {
    if p < to then p else p + 1
  }

  ghost function Moved<T>(s: seq<T>, p: nat, to: nat): (r: seq<T>)
    requires p < |s| && to < |s|
    ensures |r| == |s|
  {
    InsertAt(RemoveAt(s, p), to, s[p])
  }

  /** The items b .. k can all be moved in front of d. */
  ghost predicate Clear(d: nat, b: nat, k: nat) {
    d < b || k < d || k == b || (d == k && k == b + 1)
  }

  /** Carrying the item under the cursor over to dest is one more item of the splice. */
  lemma SplicedStep<T>(s: seq<T>, d: nat, b: nat, m: nat)
    requires b + m < |s| && d <= |s| && Outside(d, b, m)
    ensures var p, q := Cursor(d, b, m), Target(d, b, m); var to := Landing(p, q);
            && p < |s| && p != q && q <= |s| && to < |s|
            && Moved(Spliced(s, d, b, m), p, to) == Spliced(s, d, b, m + 1)
            && Following(p, to) == Cursor(d, b, m + 1) && to + 1 == Target(d, b, m + 1)
  {
    CursorItem(s, d, b, m);
    if d < b {
      SplicedStepDown(s, d, b, m);
    } else {
      SplicedStepUp(s, d, b, m);
    }
  }

  lemma SplicedStepDown<T>(s: seq<T>, d: nat, b: nat, m: nat)
    requires d < b && b + m < |s|
    ensures InsertAt(RemoveAt(Spliced(s, d, b, m), b + m), d + m, s[b + m]) == Spliced(s, d, b, m + 1)
  {
    var front, rest := s[..d] + s[b..b + m], s[d..b];
    var removed := RemoveAt(Spliced(s, d, b, m), b + m);
    assert removed == front + (rest + s[b + m + 1..]);
    assert s[b..b + m + 1] == s[b..b + m] + [s[b + m]];
    assert removed[..d + m] == front && removed[d + m..] == rest + s[b + m + 1..];
  }

  lemma SplicedStepUp<T>(s: seq<T>, d: nat, b: nat, m: nat)
    requires b + m < d <= |s|
    ensures InsertAt(RemoveAt(Spliced(s, d, b, m), b), d - 1, s[b + m]) == Spliced(s, d, b, m + 1)
  {
    var front := s[..b] + s[b + m + 1..d] + s[b..b + m];
    var removed := RemoveAt(Spliced(s, d, b, m), b);
    assert s[b + m..d] == [s[b + m]] + s[b + m + 1..d];
    assert removed == front + s[d..];
    assert s[b..b + m + 1] == s[b..b + m] + [s[b + m]];
    assert removed[..d - 1] == front && removed[d - 1..] == s[d..];
  }

  /** The loop body of a splice inside one list, after the iterator itr has moved on from item p. */
  method MoveWithin<T(==)>(ghost l: List<T>, ghost p: nat, ghost q: nat, itr: Node<T>, dest: Node<T>)
    requires l.Valid() && p < |l.items| && l.At(p + 2, itr)
    requires q <= |l.items| && p != q && l.At(q + 1, dest)
    modifies l, l.nodes`next, l.nodes`prev
    ensures l.Valid() && fresh(l.Repr - old(l.Repr))
    ensures var to := Landing(p, q);
            l.items == Moved(old(l.items), p, to) && l.At(Following(p, to) + 1, itr) && l.At(to + 2, dest)
  {
    hide List.Valid;
    var data := Remove(l, p + 1, Prev(l, p + 2, itr));
    ghost var to := Landing(p, q);
    assert l.At(p + 1, itr) && l.At(to + 1, dest);
    var inserted := InsertBefore(l, to + 1, dest, data);
  }

  /** The loop body of a splice from src to another list dst. */
  method MoveAcross<T(==)>(ghost src: List<T>, ghost dst: List<T>, ghost p: nat, ghost q: nat,
                           itr: Node<T>, dest: Node<T>)
    requires src.Valid() && dst.Valid() && src.Repr !! dst.Repr
    requires p < |src.items| && src.At(p + 2, itr) && q <= |dst.items| && dst.At(q + 1, dest)
    modifies src, dst, src.nodes`next, src.nodes`prev, dst.nodes`next, dst.nodes`prev
    ensures src.Valid() && dst.Valid() && src.Repr == old(src.Repr) && fresh(dst.Repr - old(dst.Repr))
    ensures src.items == RemoveAt(old(src.items), p) && src.At(p + 1, itr)
    ensures dst.items == InsertAt(old(dst.items), q, old(src.items)[p]) && dst.At(q + 2, dest)
  {
    hide List.Valid;
    var data := Remove(src, p + 1, Prev(src, p + 2, itr));
    assert dst.Valid();
    var inserted := InsertBefore(dst, q + 1, dest, data);
    assert src.Valid();
  }

  /** What ties the list to the moment when m items have been moved: where the loop's iterator and dest stand. */
  ghost predicate Splicing<T>(l: List<T>, s: seq<T>, d: nat, b: nat, m: nat, cur: Node<T>, dest: Node<T>)
    requires b + m <= |s| && d <= |s| && (m == 0 || d < b || b + m <= d)
    reads l, l.Repr
  {
    && l.Valid() && l.items == Spliced(s, d, b, m)
    && l.At(Cursor(d, b, m) + 1, cur) && l.At(Target(d, b, m) + 1, dest)
  }

  method StepWithin<T(==)>(ghost l: List<T>, ghost s: seq<T>, ghost d: nat, ghost b: nat, ghost m: nat,
                           cur: Node<T>, dest: Node<T>) returns (next: Node<T>)
    requires b + m < |s| && d <= |s| && Outside(d, b, m) && Splicing(l, s, d, b, m, cur, dest)
    modifies l, l.nodes`next, l.nodes`prev
    ensures Splicing(l, s, d, b, m + 1, next, dest) && fresh(l.Repr - old(l.Repr))
  {
    hide Spliced, Cursor, Target, Landing, Following, Moved;
    SplicedStep(s, d, b, m);
    ghost var p, q := Cursor(d, b, m), Target(d, b, m);
    next := Next(l, p + 1, cur);
    MoveWithin(l, p, q, next, dest);
  }

  /** Comparing data, the loop goes on exactly until the cursor has reached the stop item. */
  lemma GuardExact<T>(l: List<T>, s: seq<T>, d: nat, b: nat, e: nat, m: nat, cur: Node<T>, dest: Node<T>, end: Node<T>)
    requires b <= e <= |s| && d <= |s| && m <= StopAt(s, b, e) - b
    requires Clear(d, b, StopAt(s, b, e)) && Splicing(l, s, d, b, m, cur, dest)
    requires end.data == if e < |s| then Some(s[e]) else None
    ensures Equals(cur, end) <==> m == StopAt(s, b, e) - b
    ensures !Equals(cur, end) ==> Outside(d, b, m)
  {
    CursorItem(s, d, b, m);
    assert cur.data == if b + m < |s| then Some(s[b + m]) else None;
  }

  lemma SplicingAtFirst<T>(l: List<T>, d: nat, b: nat, e: nat, dest: Node<T>, begin: Node<T>, end: Node<T>)
    requires l.Valid() && b <= |l.items| && d <= |l.items| && e <= |l.items|
    requires l.At(b + 1, begin) && l.At(d + 1, dest) && l.At(e + 1, end)
    ensures Splicing(l, l.items, d, b, 0, begin, dest)
    ensures end.data == if e < |l.items| then Some(l.items[e]) else None
  {
  }

  /** The loop of a splice within one list, which began with the items s. */
  method SpliceLoop<T(==)>(ghost l: List<T>, ghost s: seq<T>, ghost d: nat, ghost b: nat, ghost e: nat,
                           dest: Node<T>, begin: Node<T>, end: Node<T>) returns (ghost cur: Node<T>, ghost m: nat)
    requires b <= e <= |s| && d <= |s| && Clear(d, b, StopAt(s, b, e))
    requires Splicing(l, s, d, b, 0, begin, dest)
    requires end.data == if e < |s| then Some(s[e]) else None
    modifies l.Repr
    ensures m == StopAt(s, b, e) - b && Splicing(l, s, d, b, m, cur, dest) && fresh(l.Repr - old(l.Repr))
  {
    hide Spliced, Cursor, Target, StopAt;
    ghost var k := StopAt(s, b, e);
    m := 0;
    var itr := begin;
    while !Equals(itr, end)
      invariant m <= k - b && Splicing(l, s, d, b, m, itr, dest) && fresh(l.Repr - old(l.Repr))
      invariant end.data == if e < |s| then Some(s[e]) else None
      decreases k - b - m
    {
      GuardExact(l, s, d, b, e, m, itr, dest, end);
      itr := StepWithin(l, s, d, b, m, itr, dest);
      m := m + 1;
    }
    GuardExact(l, s, d, b, e, m, itr, dest, end);
    cur := itr;
  }

  /**
   Splice within one list. It works when the destination lies outside the moved range: before its first item or
   behind the item where the loop stops, or when nothing, or the single item in front of dest, is to be moved.
   */
  method SpliceWithin<T(==)>(ghost l: List<T>, ghost d: nat, ghost b: nat, ghost e: nat,
                             dest: Node<T>, begin: Node<T>, end: Node<T>) returns (r: Node<T>)
    requires l.Valid() && b <= e <= |l.items| && d <= |l.items|
    requires l.At(d + 1, dest) && l.At(b + 1, begin) && l.At(e + 1, end)
    requires Clear(d, b, StopAt(l.items, b, e))
    modifies l.Repr
    ensures l.Valid() && fresh(l.Repr - old(l.Repr)) && r == dest
    ensures var s := old(l.items); var k := StopAt(s, b, e);
            && (k == b ==> l.items == s)
            && (d < b ==> l.items == s[..d] + s[b..k] + s[d..b] + s[k..])
            && (b < k <= d ==> l.items == s[..b] + s[k..d] + s[b..k] + s[d..])
  {
    hide Spliced, StopAt, Cursor, Target, List.Valid;
    SplicingAtFirst(l, d, b, e, dest, begin, end);
    SplicedIs(l.items, d, b, StopAt(l.items, b, e));
    ghost var cur, m := SpliceLoop(l, l.items, d, b, e, dest, begin, end);
    r := dest;
  }

  /** src without its items b .. b + m. */
  ghost function Cut<T>(s: seq<T>, b: nat, m: nat): (r: seq<T>)
    requires b + m <= |s|
    ensures |r| == |s| - m
  {
    s[..b] + s[b + m..]
  }

  /** t with the items b .. b + m of s placed before position d. */
  ghost function Pasted<T>(t: seq<T>, d: nat, s: seq<T>, b: nat, m: nat): (r: seq<T>)
    requires b + m <= |s| && d <= |t|
    ensures |r| == |t| + m
  {
    t[..d] + s[b..b + m] + t[d..]
  }

  lemma CutPastedStep<T>(s: seq<T>, b: nat, t: seq<T>, d: nat, m: nat)
    requires b + m < |s| && d <= |t|
    ensures Cut(s, b, m)[b] == s[b + m] && RemoveAt(Cut(s, b, m), b) == Cut(s, b, m + 1)
    ensures InsertAt(Pasted(t, d, s, b, m), d + m, s[b + m]) == Pasted(t, d, s, b, m + 1)
  {
    assert s[b..b + m + 1] == s[b..b + m] + [s[b + m]];
    var before := t[..d] + s[b..b + m];
    assert Pasted(t, d, s, b, m)[..d + m] == before && Pasted(t, d, s, b, m)[d + m..] == t[d..];
  }

  /** What ties the two lists to the moment when m items have crossed over. */
  ghost predicate Crossing<T>(src: List<T>, s: seq<T>, b: nat, dst: List<T>, t: seq<T>, d: nat, m: nat,
                                  cur: Node<T>, dest: Node<T>)
    requires b + m <= |s| && d <= |t|
    reads src, src.Repr, dst, dst.Repr
  {
    && src.Valid() && dst.Valid() && src.Repr !! dst.Repr
    && src.items == Cut(s, b, m) && dst.items == Pasted(t, d, s, b, m)
    && src.At(b + 1, cur) && dst.At(d + m + 1, dest)
  }

  method StepAcross<T(==)>(ghost src: List<T>, ghost s: seq<T>, ghost b: nat,
                           ghost dst: List<T>, ghost t: seq<T>, ghost d: nat,
                           ghost m: nat, cur: Node<T>, dest: Node<T>) returns (next: Node<T>)
    requires b + m < |s| && d <= |t| && Crossing(src, s, b, dst, t, d, m, cur, dest)
    modifies src, dst, src.nodes`next, src.nodes`prev, dst.nodes`next, dst.nodes`prev
    ensures Crossing(src, s, b, dst, t, d, m + 1, next, dest)
    ensures src.Repr == old(src.Repr) && fresh(dst.Repr - old(dst.Repr))
  {
    CutPastedStep(s, b, t, d, m);
    next := Next(src, b + 1, cur);
    MoveAcross(src, dst, b, d + m, next, dest);
  }

  lemma GuardExactAcross<T>(src: List<T>, s: seq<T>, b: nat, e: nat, m: nat, cur: Node<T>, end: Node<T>)
    requires src.Valid() && b <= e <= |s| && m <= StopAt(s, b, e) - b
    requires src.items == Cut(s, b, m) && src.At(b + 1, cur)
    requires end.data == if e < |s| then Some(s[e]) else None
    ensures Equals(cur, end) <==> m == StopAt(s, b, e) - b
  {
    assert cur.data == if b + m < |s| then Some(s[b + m]) else None;
  }

  /** The loop of a splice across, which began with the items s and t. */
  method CrossLoop<T(==)>(ghost src: List<T>, ghost s: seq<T>, ghost b: nat, ghost e: nat,
                          ghost dst: List<T>, ghost t: seq<T>, ghost d: nat,
                          dest: Node<T>, begin: Node<T>, end: Node<T>) returns (ghost cur: Node<T>, ghost m: nat)
    requires b <= e <= |s| && d <= |t| && Crossing(src, s, b, dst, t, d, 0, begin, dest)
    requires end.data == if e < |s| then Some(s[e]) else None
    modifies src.Repr, dst.Repr
    ensures m == StopAt(s, b, e) - b && Crossing(src, s, b, dst, t, d, m, cur, dest)
    ensures src.Repr == old(src.Repr) && fresh(dst.Repr - old(dst.Repr))
  {
    hide Cut, Pasted, StopAt;
    ghost var k := StopAt(s, b, e);
    m := 0;
    var itr := begin;
    while !Equals(itr, end)
      invariant m <= k - b && Crossing(src, s, b, dst, t, d, m, itr, dest)
      invariant src.Repr == old(src.Repr) && fresh(dst.Repr - old(dst.Repr))
      invariant end.data == if e < |s| then Some(s[e]) else None
      decreases k - b - m
    {
      GuardExactAcross(src, s, b, e, m, itr, end);
      itr := StepAcross(src, s, b, dst, t, d, m, itr, dest);
      m := m + 1;
    }
    GuardExactAcross(src, s, b, e, m, itr, end);
    cur := itr;
  }

  /** Splice from one list to another: the range leaves src and appears before dest, in order. */
  method SpliceAcross<T(==)>(ghost src: List<T>, ghost dst: List<T>, ghost d: nat, ghost b: nat, ghost e: nat,
                             dest: Node<T>, begin: Node<T>, end: Node<T>) returns (r: Node<T>)
    requires src.Valid() && dst.Valid() && src.Repr !! dst.Repr
    requires b <= e <= |src.items| && d <= |dst.items|
    requires dst.At(d + 1, dest) && src.At(b + 1, begin) && src.At(e + 1, end)
    modifies src.Repr, dst.Repr
    ensures src.Valid() && dst.Valid() && src.Repr !! dst.Repr && r == dest
    ensures src.Repr == old(src.Repr) && fresh(dst.Repr - old(dst.Repr))
    ensures var s, t, k := old(src.items), old(dst.items), StopAt(old(src.items), b, e);
            src.items == s[..b] + s[k..] && dst.items == t[..d] + s[b..k] + t[d..]
  {
    ghost var s, t := src.items, dst.items;
    assert Cut(s, b, 0) == s && Pasted(t, d, s, b, 0) == t;
    ghost var cur, m := CrossLoop(src, s, b, e, dst, t, d, dest, begin, end);
    r := dest;
  }

  // ------------------------------------------------------------------------------------------------
  // What the splice amounts to, and where it fails

  /** The whole range up to the end iterator moves exactly when none of its items repeats the end item. */
  lemma WholeRangeMoves<T>(s: seq<T>, b: nat, e: nat)
    requires b <= e <= |s|
    ensures StopAt(s, b, e) == e <==> (e < |s| ==> s[e] !in s[b..e])
  {
    var k := StopAt(s, b, e);
    if k < e {
      assert s[b..e][k - b] == s[e];
    }
  }

  /** A splice within one list loses nothing and duplicates nothing. */
  lemma SplicedIsPermutation<T>(s: seq<T>, d: nat, b: nat, m: nat)
    requires b + m <= |s| && d <= |s| && (m == 0 || d < b || b + m <= d)
    ensures multiset(Spliced(s, d, b, m)) == multiset(s)
  {
    if m > 0 {
      var a, x, y, z := SplicedBlocks(s, d, b, m);
      BlocksSwapped(a, x, y, z);
    }
  }

  lemma SplicedBlocks<T>(s: seq<T>, d: nat, b: nat, m: nat) returns (a: seq<T>, x: seq<T>, y: seq<T>, z: seq<T>)
    requires b + m <= |s| && d <= |s| && m > 0 && (d < b || b + m <= d)
    ensures s == a + x + y + z && Spliced(s, d, b, m) == a + y + x + z
  {
    if d < b {
      a, x, y, z := s[..d], s[d..b], s[b..b + m], s[b + m..];
      FourBlocks(s, d, b, b + m);
    } else {
      a, x, y, z := s[..b], s[b..b + m], s[b + m..d], s[d..];
      FourBlocks(s, b, b + m, d);
    }
  }

  lemma FourBlocks<T>(s: seq<T>, i: nat, j: nat, k: nat)
    requires i <= j <= k <= |s|
    ensures s == s[..i] + s[i..j] + s[j..k] + s[k..]
  {
  }

  lemma BlocksSwapped<T>(a: seq<T>, b: seq<T>, c: seq<T>, d: seq<T>)
    ensures multiset(a + c + b + d) == multiset(a + b + c + d)
  {
  }

  /** The items b .. d after n turns of the loop when dest lies inside the range: the first goes last, over and over. */
  ghost function Rotated<T>(s: seq<T>, b: nat, d: nat, n: nat): (r: seq<T>)
    requires b < d <= |s|
    ensures |r| == |s|
  {
    if n == 0 then s
    else
      var r := Rotated(s, b, d, n - 1);
      Moved(r, b, d - 1)
  }

  lemma RotateOnce<T>(r: seq<T>, b: nat, d: nat)
    requires b < d <= |r|
    ensures multiset(Moved(r, b, d - 1)[b..d]) == multiset(r[b..d])
  {
    FirstGoesLast(r, b, d);
    BlocksSwapped([], [r[b]], r[b + 1..d], []);
    assert r[b..d] == [] + [r[b]] + r[b + 1..d] + [];
    assert r[b + 1..d] + [r[b]] == [] + r[b + 1..d] + [r[b]] + [];
  }

  lemma FirstGoesLast<T>(r: seq<T>, b: nat, d: nat)
    requires b < d <= |r|
    ensures Moved(r, b, d - 1)[b..d] == r[b + 1..d] + [r[b]]
  {
    var w := RemoveAt(r, b);
    assert w[b..d - 1] == r[b + 1..d];
    var x := w[..d - 1] + [r[b]];
    assert (x + w[d - 1..])[b..d] == x[b..];
  }

  /**
   With dest inside the range and at least two items before it, the cursor never leaves item b, and no item it
   meets there ends the loop: the splice runs forever.
   */
  lemma SpliceNeverEnds<T>(s: seq<T>, b: nat, e: nat, d: nat, n: nat)
    requires b <= e <= |s| && b + 1 < d <= StopAt(s, b, e)
    ensures multiset(Rotated(s, b, d, n)[b..d]) == multiset(s[b..d])
    ensures e < |s| ==> Rotated(s, b, d, n)[b] != s[e]
  {
    hide StopAt;
    RotatedPermutes(s, b, d, n);
    var x, was := Rotated(s, b, d, n)[b], s[b..d];
    assert x == Rotated(s, b, d, n)[b..d][0];
    assert x in multiset(was);
    var i :| 0 <= i < |was| && was[i] == x;
    assert s[b + i] == x;
  }

  lemma {:induction false} RotatedPermutes<T>(s: seq<T>, b: nat, d: nat, n: nat)
    requires b < d <= |s|
    ensures multiset(Rotated(s, b, d, n)[b..d]) == multiset(s[b..d])
  {
    if n > 0 {
      RotatedPermutes(s, b, d, n - 1);
      RotateOnce(Rotated(s, b, d, n - 1), b, d);
    }
  }

  /** The destinations for which the splice fails, where k is the item at which its loop should stop. */
  lemma ClearIff(d: nat, b: nat, k: nat)
    requires b <= k
    ensures !Clear(d, b, k) <==> d == b < k || d == b + 1 < k || b + 1 < d <= k
  {
  }

  /** One turn of the loop, with the iterator at item p and dest at item q; freed says that the turn frees dest. */
  method SpliceTurn<T(==)>(ghost l: List<T>, ghost p: nat, ghost q: nat, itr: Node<T>, dest: Node<T>)
    returns (next: Node<T>, freed: bool)
    requires l.Valid() && p < |l.items| && l.At(p + 1, itr) && q <= |l.items| && l.At(q + 1, dest)
    modifies l, l.nodes`next, l.nodes`prev
    ensures fresh(l.Repr - old(l.Repr)) && (freed <==> p == q)
    ensures freed ==> dest !in l.nodes
    ensures !freed ==>
              var to := Landing(p, q);
              && l.Valid() && l.items == Moved(old(l.items), p, to)
              && l.At(Following(p, to) + 1, next) && l.At(to + 2, dest)
  {
    next := Next(l, p + 1, itr);
    freed := itr == dest;
    if freed {
      var data := Remove(l, p + 1, Prev(l, p + 2, next));
    } else {
      MoveWithin(l, p, q, next, dest);
    }
  }

  /** The items after m turns of a splice that fails. */
  ghost function StuckItems<T>(s: seq<T>, d: nat, b: nat, m: nat): (r: seq<T>)
    requires d <= |s|
    ensures |r| == |s|
  {
    if b + 1 < d then Rotated(s, b, d, m) else s
  }

  /** Where the iterator of such a splice stands. */
  ghost function StuckCursor(d: nat, b: nat, m: nat): (p: nat) {
    if b + 1 < d then b else b + m
  }

  lemma StuckStep<T>(s: seq<T>, d: nat, b: nat, m: nat)
    requires b < d <= |s| && (d == b + 1 ==> m == 0)
    ensures var p := StuckCursor(d, b, m); var to := Landing(p, d);
            && p < d && to + 1 == d && Following(p, to) == StuckCursor(d, b, m + 1)
            && Moved(StuckItems(s, d, b, m), p, to) == StuckItems(s, d, b, m + 1)
  {
  }

  /** What ties the list to the moment after m turns of a splice that fails. */
  ghost predicate Stuck<T>(l: List<T>, s: seq<T>, d: nat, b: nat, m: nat, cur: Node<T>, dest: Node<T>)
    reads l, l.Repr
  {
    && b <= d <= |s| && (d <= b + 1 ==> m <= d - b)
    && l.Valid() && l.items == StuckItems(s, d, b, m)
    && l.At(StuckCursor(d, b, m) + 1, cur) && l.At(d + 1, dest)
  }

  /** None of these moments ends the loop. */
  lemma StuckGuard<T>(l: List<T>, s: seq<T>, d: nat, b: nat, e: nat, m: nat, cur: Node<T>, dest: Node<T>, end: Node<T>)
    requires b <= e <= |s| && Stuck(l, s, d, b, m, cur, dest) && !Clear(d, b, StopAt(s, b, e))
    requires end.data == if e < |s| then Some(s[e]) else None
    ensures StuckCursor(d, b, m) < |s| && !Equals(cur, end)
    ensures b <= d && (d <= b + 1 ==> m <= d - b)
    ensures l in l.Repr && forall n :: n in l.nodes ==> n in l.Repr
  {
    if b + 1 < d {
      SpliceNeverEnds(s, b, e, d, m);
    }
    assert cur.data == Some(l.items[StuckCursor(d, b, m)]);
  }

  /** A turn of such a splice, from one moment to the next. */
  method StuckTurn<T(==)>(ghost l: List<T>, ghost s: seq<T>, ghost d: nat, ghost b: nat, ghost m: nat,
                          itr: Node<T>, dest: Node<T>) returns (next: Node<T>, freed: bool)
    requires Stuck(l, s, d, b, m, itr, dest) && StuckCursor(d, b, m) < |s|
    modifies l, l.nodes`next, l.nodes`prev
    ensures fresh(l.Repr - old(l.Repr)) && (freed <==> m == d - b <= 1)
    ensures freed ==> dest !in l.nodes
    ensures !freed ==> Stuck(l, s, d, b, m + 1, next, dest)
  {
    if StuckCursor(d, b, m) != d {
      StuckStep(s, d, b, m);
    }
    next, freed := SpliceTurn(l, StuckCursor(d, b, m), d, itr, dest);
  }

  /** The loop of such a splice, up to n turns. */
  method StuckLoop<T(==)>(ghost l: List<T>, ghost s: seq<T>, ghost d: nat, ghost b: nat, ghost e: nat,
                          dest: Node<T>, begin: Node<T>, end: Node<T>, n: nat) returns (itr: Node<T>, freed: bool)
    requires b <= e <= |s| && !Clear(d, b, StopAt(s, b, e)) && Stuck(l, s, d, b, 0, begin, dest)
    requires end.data == if e < |s| then Some(s[e]) else None
    modifies l.Repr
    ensures fresh(l.Repr - old(l.Repr))
    ensures end.data == old(end.data)
    ensures freed <==> (d == b && n >= 1) || (d == b + 1 && n >= 2)
    ensures freed ==> dest !in l.nodes
    ensures !freed ==> Stuck(l, s, d, b, n, itr, dest)
  {
    hide Stuck, StopAt, Clear;
    StuckGuard(l, s, d, b, e, 0, begin, dest, end);
    var turns := 0;
    itr, freed := begin, false;
    while turns < n && !freed && !Equals(itr, end)
      invariant turns <= n && fresh(l.Repr - old(l.Repr))
      invariant end.data == if e < |s| then Some(s[e]) else None
      invariant freed ==> dest !in l.nodes && turns == d - b + 1 <= 2
      invariant !freed ==> Stuck(l, s, d, b, turns, itr, dest)
    {
      StuckGuard(l, s, d, b, e, turns, itr, dest, end);
      itr, freed := StuckTurn(l, s, d, b, turns, itr, dest);
      turns := turns + 1;
    }
    if !freed {
      StuckGuard(l, s, d, b, e, turns, itr, dest, end);
    }
  }

  /**
   A splice for which the destination is not clear, up to n turns of its loop. At the first item, the first turn frees
   the node of dest; directly behind it, the second turn does. Everywhere else the loop is still running.
   */
  method SpliceTurns<T(==)>(ghost l: List<T>, ghost d: nat, ghost b: nat, ghost e: nat,
                            dest: Node<T>, begin: Node<T>, end: Node<T>, n: nat) returns (itr: Node<T>, freed: bool)
    requires l.Valid() && b <= e <= |l.items| && d <= |l.items|
    requires l.At(d + 1, dest) && l.At(b + 1, begin) && l.At(e + 1, end)
    requires !Clear(d, b, StopAt(l.items, b, e))
    modifies l.Repr
    ensures freed <==> (d == b && n >= 1) || (d == b + 1 && n >= 2)
    ensures freed ==> dest !in l.nodes
    ensures !freed ==> l.Valid() && !Equals(itr, end) && l.items == StuckItems(old(l.items), d, b, n)
  {
    ghost var s := l.items;
    itr, freed := StuckLoop(l, s, d, b, e, dest, begin, end, n);
    if !freed {
      StuckGuard(l, s, d, b, e, n, itr, dest, end);
    }
  }
}
