// The intrusive free list (src/kernel/kmap.c): what it means for next_free to thread a sequence of
// pages, the order init_pages builds it in, and its partition by check_page_list.
module PageList {
  const NULL: int := -1

  // The pages of the list in order, following next_free from head.
  ghost predicate Linked(next: seq<int>, head: int, free: seq<nat>) {
    && head == At(free, 0)
    && forall i :: 0 <= i < |free| ==> free[i] < |next| && next[free[i]] == At(free, i + 1)
  }

  function At(free: seq<nat>, i: nat): int {
    if i < |free| then free[i] else NULL
  }

  lemma PopLinked(next: seq<int>, head: int, free: seq<nat>)
    requires Linked(next, head, free) && free != []
    requires forall i, j :: 0 <= i < j < |free| ==> free[i] != free[j]
    ensures var p := free[0];
            && p < |next| && Linked(next[p := NULL], next[p], free[1..])
            && (forall q :: q in free && q != p ==> q in free[1..])
  {
    var p, rest := free[0], free[1..];
    assert next[p] == if rest == [] then NULL else rest[0];
    assert free == [p] + rest;
    forall i | 0 <= i < |rest|
      ensures rest[i] < |next| && next[p := NULL][rest[i]] == At(rest, i + 1)
    {
      assert rest[i] == free[i + 1];
    }
  }

  lemma PushLinked(next: seq<int>, head: int, free: seq<nat>, p: nat)
    requires Linked(next, head, free) && p < |next| && p !in free
    ensures Linked(next[p := head], p, [p] + free)
  {
    var next', longer := next[p := head], [p] + free;
    forall i | 0 <= i < |longer|
      ensures longer[i] < |next'| && next'[longer[i]] == At(longer, i + 1)
    {
      if i > 0 {
        assert longer[i] == free[i - 1];
      }
    }
  }

  lemma NothingLinked(next: seq<int>)
    ensures Linked(next, NULL, [])
  {
  }

  lemma LinkOutside(next: seq<int>, head: int, free: seq<nat>, p: nat)
    requires Linked(next, head, free) && p < |next| && p !in free
    ensures Linked(next[p := NULL], head, free)
  {
  }

  // A linked page that is not the tail has a successor.
  lemma LinkedBeforeTail(next: seq<int>, head: int, free: seq<nat>, p: nat)
    requires Linked(next, head, free) && p in free && p != free[|free| - 1]
    ensures p < |next| && next[p] != NULL
  {
    var i :| 0 <= i < |free| && free[i] == p;
  }

  predicate IsTail(free: seq<nat>, p: nat) {
    free != [] && p == free[|free| - 1]
  }

  lemma LinkedTail(next: seq<int>, head: int, free: seq<nat>)
    requires Linked(next, head, free) && free != []
    ensures free[|free| - 1] < |next| && next[free[|free| - 1]] == NULL
  {
  }

  ghost predicate IsList(next: seq<int>, head: int) {
    exists s :: Linked(next, head, s)
  }

  // Making a page without successor the head leaves a list exactly when the page was not on it: from
  // the tail, the links never end.
  lemma PushLinkedIff(next: seq<int>, head: int, free: seq<nat>, p: nat)
    requires Linked(next, head, free) && p < |next| && (p in free ==> IsTail(free, p))
    ensures IsList(next[p := head], p) <==> p !in free
  {
    if p !in free {
      PushLinked(next, head, free, p);
    } else {
      var next' := next[p := head];
      forall q | q in free
        ensures q < |next'| && next'[q] in free
      {
        var i :| 0 <= i < |free| && free[i] == q;
      }
      forall s: seq<nat> | Linked(next', p, s)
        ensures false
      {
        NeverNull(next', p, free, s, |s| - 1);
      }
    }
  }

  // From a set of pages that the links do not leave, every page of a list is in it.
  lemma {:induction false} NeverNull(next: seq<int>, p: nat, free: seq<nat>, s: seq<nat>, i: nat)
    requires Linked(next, p, s) && p in free && i < |s|
    requires forall q :: q in free ==> q < |next| && next[q] in free
    ensures s[i] in free
    decreases i
  {
    if i > 0 {
      NeverNull(next, p, free, s, i - 1);
      assert next[s[i - 1]] == At(s, i);
    }
  }

  ghost predicate Distinct(s: seq<nat>) {
    forall i, j :: 0 <= i < j < |s| ==> s[i] != s[j]
  }

  // ----- the order init_pages builds

  // hi - 1 down to lo
  function Down(lo: nat, hi: nat): seq<nat>
    decreases hi
  {
    if hi <= lo then [] else [hi - 1] + Down(lo, hi - 1)
  }

  lemma {:induction false} DownPages(lo: nat, hi: nat)
    ensures |Down(lo, hi)| == (if lo <= hi then hi - lo else 0)
    ensures forall i :: 0 <= i < |Down(lo, hi)| ==> Down(lo, hi)[i] == hi - 1 - i
    ensures forall p :: p in Down(lo, hi) <==> lo <= p < hi
    decreases hi
  {
    if lo < hi {
      DownPages(lo, hi - 1);
    }
  }

  // ----- the partition by address

  // The pages of s below 4MB, or the others, in order.
  function Select(s: seq<nat>, low: bool): seq<nat> {
    if s == [] then []
    else
      var p := s[|s| - 1];
      Select(s[..|s| - 1], low) + if (p < 1024) == low then [p] else []
  }

  function Partitioned(s: seq<nat>): seq<nat> {
    Select(s, true) + Select(s, false)
  }

  // The partition keeps every page and their number, puts the low ones first, and keeps the order
  // of any two on the same side.
  lemma {:induction false} SelectMembers(s: seq<nat>, low: bool)
    ensures forall p :: p in Select(s, low) <==> p in s && (p < 1024) == low
    ensures Distinct(s) ==> Distinct(Select(s, low))
  {
    if s != [] {
      var n := |s| - 1;
      SelectMembers(s[..n], low);
      assert s == s[..n] + [s[n]];
      if Distinct(s) {
        var t := Select(s[..n], low);
        assert forall j :: 0 <= j < |t| ==> t[j] in s[..n];
        assert Distinct(s[..n]) && s[n] !in s[..n];
      }
    }
  }

  lemma {:induction false} SelectCounts(s: seq<nat>)
    ensures |Select(s, true)| + |Select(s, false)| == |s|
  {
    if s != [] {
      SelectCounts(s[..|s| - 1]);
    }
  }

  // The j-th selected page comes from a place in s, and later ones from later places.
  ghost predicate Embedded(s: seq<nat>, t: seq<nat>, at: seq<nat>) {
    && |at| == |t|
    && (forall j :: 0 <= j < |at| ==> at[j] < |s| && s[at[j]] == t[j])
    && (forall j, k :: 0 <= j < k < |at| ==> at[j] < at[k])
  }

  lemma {:induction false} SelectKeepsOrder(s: seq<nat>, low: bool) returns (at: seq<nat>)
    ensures Embedded(s, Select(s, low), at)
  {
    at := [];
    if s != [] {
      var n := |s| - 1;
      at := SelectKeepsOrder(s[..n], low);
      if (s[n] < 1024) == low {
        at := at + [n];
      }
    }
  }

  lemma {:induction false} SelectAppend(s: seq<nat>, t: seq<nat>, low: bool)
    ensures Select(s + t, low) == Select(s, low) + Select(t, low)
    decreases |t|
  {
    if t == [] {
      assert s + t == s;
    } else {
      var n := |t| - 1;
      SelectAppend(s, t[..n], low);
      assert (s + t)[..|s + t| - 1] == s + t[..n];
    }
  }

  // How many pages from lo up to hi lie below 4MB.
  function LowPages(lo: nat, hi: nat): nat {
    var top := if hi < 1024 then hi else 1024;
    if lo < top then top - lo else 0
  }

  lemma {:induction false} DownLow(lo: nat, hi: nat)
    ensures |Select(Down(lo, hi), true)| == LowPages(lo, hi)
    decreases hi
  {
    if lo < hi {
      DownLow(lo, hi - 1);
      SelectAppend([hi - 1], Down(lo, hi - 1), true);
      assert Select([], true) == [];
      assert [hi - 1][..0] == [];
    }
  }

  lemma PartitionedPages(s: seq<nat>)
    requires Distinct(s)
    ensures Distinct(Partitioned(s)) && |Partitioned(s)| == |s|
    ensures forall p :: p in Partitioned(s) <==> p in s
    ensures forall i :: 0 <= i < |Partitioned(s)| ==> (Partitioned(s)[i] < 1024 <==> i < |Select(s, true)|)
  {
    SelectMembers(s, true);
    SelectMembers(s, false);
    SelectCounts(s);
    hide Select;
    var a, b := Select(s, true), Select(s, false);
    assert forall i :: 0 <= i < |a| ==> a[i] in a;
    assert forall i :: 0 <= i < |b| ==> b[i] in b;
  }

  // ----- the chains grown through a tail pointer

  // first heads the chain and tail is its last page, whose own link is not yet written.
  ghost predicate OpenChain(next: seq<int>, first: int, chain: seq<nat>, tail: int) {
    && (chain != [] ==> first == chain[0])
    && tail == (if chain == [] then NULL else chain[|chain| - 1])
    && (forall j :: 0 <= j < |chain| ==> chain[j] < |next|)
    && (forall j :: 0 <= j < |chain| - 1 ==> next[chain[j]] == At(chain, j + 1))
  }

  lemma ExtendChain(next: seq<int>, first: int, chain: seq<nat>, tail: int, p: nat)
    requires OpenChain(next, first, chain, tail) && p < |next| && Distinct(chain)
    ensures tail != NULL ==> 0 <= tail < |next|
    ensures if tail == NULL then OpenChain(next, p, chain + [p], p)
            else OpenChain(next[tail := p], first, chain + [p], p)
  {
    var longer := chain + [p];
    assert forall j :: 0 <= j < |chain| ==> longer[j] == chain[j];
    if tail != NULL {
      var next' := next[tail := p];
      forall j | 0 <= j < |longer| - 1
        ensures next'[longer[j]] == At(longer, j + 1)
      {
        if j < |chain| - 1 {
          assert next[chain[j]] == At(chain, j + 1) && chain[j] != tail;
        }
      }
    }
  }

  // Writing a link outside the chain leaves it alone.
  lemma OtherChain(next: seq<int>, first: int, chain: seq<nat>, tail: int, q: nat, x: int)
    requires OpenChain(next, first, chain, tail) && q < |next| && q !in chain
    ensures OpenChain(next[q := x], first, chain, tail)
  {
  }

  // Closing a chain with what comes after it.
  lemma CloseChain(next: seq<int>, first: int, chain: seq<nat>, tail: int, rest: seq<nat>)
    requires OpenChain(next, first, chain, tail) && Distinct(chain + rest)
    requires Linked(next, At(rest, 0), rest)
    ensures tail != NULL ==> 0 <= tail < |next|
    ensures if tail == NULL then chain + rest == rest
            else Linked(next[tail := At(rest, 0)], first, chain + rest)
  {
    var all := chain + rest;
    if tail == NULL {
      assert all == rest;
    } else {
      var next' := next[tail := At(rest, 0)];
      forall i | 0 <= i < |all|
        ensures all[i] < |next'| && next'[all[i]] == At(all, i + 1)
      {
        if i < |chain| - 1 {
          assert all[i] == chain[i] && next[chain[i]] == At(chain, i + 1) && all[|chain| - 1] == tail;
        } else if i >= |chain| {
          var j := i - |chain|;
          assert all[i] == rest[j] && next[rest[j]] == At(rest, j + 1) && all[|chain| - 1] == tail;
        }
      }
    }
  }

  // ----- one step of the partition

  // The part of the list not yet visited is still linked.
  ghost predicate Rest(next: seq<int>, s: seq<nat>, i: nat) {
    forall j :: i <= j < |s| ==> s[j] < |next| && next[s[j]] == At(s, j + 1)
  }

  lemma RestKept(next: seq<int>, s: seq<nat>, i: nat, tail: nat, p: int)
    requires Distinct(s) && i <= |s| && Rest(next, s, i) && tail in s[..i] && tail < |next|
    ensures Rest(next[tail := p], s, i)
  {
    var k :| 0 <= k < i && s[k] == tail;
  }

  lemma RestAt(next: seq<int>, s: seq<nat>, i: nat)
    requires Rest(next, s, i) && i < |s|
    ensures s[i] < |next| && next[s[i]] == At(s, i + 1) && Rest(next, s, i + 1)
  {
  }

  lemma StartChains(next: seq<int>, s: seq<nat>)
    ensures OpenChain(next, NULL, Select(s[..0], true), NULL) && OpenChain(next, NULL, Select(s[..0], false), NULL)
  {
  }

  lemma TailOf(next: seq<int>, first: int, chain: seq<nat>, tail: int)
    requires OpenChain(next, first, chain, tail)
    ensures if chain == [] then tail == NULL else tail >= 0 && tail in chain && tail < |next|
  {
  }

  lemma SelectNext(s: seq<nat>, i: nat, low: bool)
    requires i < |s|
    ensures Select(s[..i + 1], low) == Select(s[..i], low) + if (s[i] < 1024) == low then [s[i]] else []
  {
    assert s[..i + 1][..i] == s[..i];
  }

  // One page moves from the list to its chain: writing through the tail of that chain disturbs
  // neither the rest of the list nor the other chain.
  lemma NextChain(next: seq<int>, s: seq<nat>, i: nat, low: bool, first: int, tail: int, other: int, otherTail: int)
    requires Distinct(s) && i < |s| && low == (s[i] < 1024) && Rest(next, s, i)
    requires OpenChain(next, first, Select(s[..i], low), tail)
    requires OpenChain(next, other, Select(s[..i], !low), otherTail)
    ensures tail != NULL ==> 0 <= tail < |next| && tail in s
    ensures var next' := if tail == NULL then next else next[tail := s[i]];
            && Rest(next', s, i)
            && OpenChain(next', if tail == NULL then s[i] else first, Select(s[..i + 1], low), s[i])
            && OpenChain(next', other, Select(s[..i + 1], !low), otherTail)
  {
    var p, a, b := s[i], Select(s[..i], low), Select(s[..i], !low);
    SelectNext(s, i, low);
    SelectNext(s, i, !low);
    SelectMembers(s[..i], low);
    SelectMembers(s[..i], !low);
    assert Distinct(s[..i]);
    assert p < |next|;
    TailOf(next, first, a, tail);
    hide Select, OpenChain, Rest, Distinct;
    ExtendChain(next, first, a, tail, p);
    if a != [] {
      assert tail in s[..i];
      RestKept(next, s, i, tail, p);
      OtherChain(next, other, b, otherTail, tail, p);
    }
    assert b + [] == b;
  }

  // ----- the loop of the partition

  // next[tail := x], or no change for the tail pointer that is still the local head.
  function Written(next: seq<int>, tail: int, x: int): (r: seq<int>)
    requires tail != NULL ==> 0 <= tail < |next|
  {
    if tail == NULL then next else next[tail := x]
  }

  // With i pages of s moved: what is left is linked, and the two chains hold what was moved.
  ghost predicate Partitioning(next: seq<int>, s: seq<nat>, i: nat, ps1: int, t0: int, ps2: int, t1: int) {
    && i <= |s| && Distinct(s) && Rest(next, s, i)
    && OpenChain(next, ps1, Select(s[..i], true), t0)
    && OpenChain(next, ps2, Select(s[..i], false), t1)
    && Unlinked(next, s)
  }

  // Pages outside s have no successor.
  ghost predicate Unlinked(next: seq<int>, s: seq<nat>) {
    forall p :: 0 <= p < |next| && p !in s ==> next[p] == NULL
  }

  lemma UnlinkedKept(next: seq<int>, s: seq<nat>, tail: int, x: int)
    requires Unlinked(next, s) && (tail != NULL ==> 0 <= tail < |next| && tail in s)
    ensures Unlinked(Written(next, tail, x), s)
  {
  }

  lemma UnlinkedSame(next: seq<int>, s: seq<nat>, t: seq<nat>)
    requires Unlinked(next, s) && forall p :: p in t <==> p in s
    ensures Unlinked(next, t)
  {
  }

  lemma StartPartition(next: seq<int>, head: int, s: seq<nat>)
    requires Linked(next, head, s) && Distinct(s) && Unlinked(next, s)
    ensures Partitioning(next, s, 0, NULL, NULL, NULL, NULL) && head == At(s, 0)
  {
    StartChains(next, s);
  }

  lemma StepPartition(next: seq<int>, s: seq<nat>, i: nat, ps1: int, t0: int, ps2: int, t1: int)
    requires Partitioning(next, s, i, ps1, t0, ps2, t1) && i < |s|
    ensures var p, low := s[i], s[i] < 1024;
            var tail := if low then t0 else t1;
            && p < |next| && (tail != NULL ==> 0 <= tail < |next|)
            && Written(next, tail, p)[p] == At(s, i + 1)
            && Partitioning(Written(next, tail, p), s, i + 1,
                 if low && t0 == NULL then p else ps1, if low then p else t0,
                 if !low && t1 == NULL then p else ps2, if low then t1 else p)
  {
    hide OpenChain, Select, Distinct, Rest, At, Unlinked;
    var p, low := s[i], s[i] < 1024;
    var tail := if low then t0 else t1;
    if low {
      NextChain(next, s, i, true, ps1, t0, ps2, t1);
    } else {
      NextChain(next, s, i, false, ps2, t1, ps1, t0);
    }
    UnlinkedKept(next, s, tail, p);
    RestAt(Written(next, tail, p), s, i);
  }

  lemma FinishPartition(next: seq<int>, s: seq<nat>, ps1: int, t0: int, ps2: int, t1: int)
    requires Partitioning(next, s, |s|, ps1, t0, ps2, t1)
    ensures (t0 != NULL ==> 0 <= t0 < |next|) && (t1 != NULL ==> 0 <= t1 < |next|)
    ensures var high := if t1 == NULL then NULL else ps2;
            var next' := Written(Written(next, t1, NULL), t0, high);
            && Linked(next', if t0 == NULL then high else ps1, Partitioned(s))
            && Unlinked(next', Partitioned(s))
  {
    assert s[..|s|] == s;
    SelectMembers(s, true);
    SelectMembers(s, false);
    PartitionedPages(s);
    JoinChains(next, Select(s, true), Select(s, false), ps1, t0, ps2, t1);
    hide Select, OpenChain, Linked, Rest, Distinct, Unlinked;
    UnlinkedKept(next, s, t1, NULL);
    var high := if t1 == NULL then NULL else ps2;
    UnlinkedKept(Written(next, t1, NULL), s, t0, high);
    UnlinkedSame(Written(Written(next, t1, NULL), t0, high), s, Partitioned(s));
  }

  lemma JoinChains(next: seq<int>, a: seq<nat>, b: seq<nat>, ps1: int, t0: int, ps2: int, t1: int)
    requires OpenChain(next, ps1, a, t0) && OpenChain(next, ps2, b, t1) && Distinct(a + b)
    ensures (t0 != NULL ==> 0 <= t0 < |next| && t0 in a) && (t1 != NULL ==> 0 <= t1 < |next| && t1 in b)
    ensures var high := if t1 == NULL then NULL else ps2;
            Linked(Written(Written(next, t1, NULL), t0, high), if t0 == NULL then high else ps1, a + b)
  {
    assert b + [] == b;
    NothingLinked(next);
    TailOf(next, ps1, a, t0);
    TailOf(next, ps2, b, t1);
    DistinctParts(a, b);
    hide OpenChain, Linked, Distinct;
    CloseChain(next, ps2, b, t1, []);
    if t1 != NULL {
      OtherChain(next, ps1, a, t0, t1, NULL);
    }
    var next1, high := Written(next, t1, NULL), if t1 == NULL then NULL else ps2;
    HeadOf(next1, high, b);
    CloseChain(next1, ps1, a, t0, b);
  }

  lemma DistinctUnion(a: seq<nat>, b: seq<nat>)
    requires Distinct(a) && Distinct(b) && forall p :: p in b ==> p !in a
    ensures Distinct(a + b)
  {
    var s := a + b;
    assert forall i :: 0 <= i < |a| ==> s[i] == a[i] && a[i] in a;
    assert forall i :: |a| <= i < |s| ==> s[i] == b[i - |a|] && b[i - |a|] in b;
  }

  lemma DistinctParts(a: seq<nat>, b: seq<nat>)
    requires Distinct(a + b)
    ensures Distinct(b) && forall p :: p in b ==> p !in a
  {
    var all := a + b;
    assert forall i :: 0 <= i < |a| ==> all[i] == a[i];
    assert forall i :: 0 <= i < |b| ==> all[|a| + i] == b[i];
  }

  lemma HeadOf(next: seq<int>, head: int, s: seq<nat>)
    requires Linked(next, head, s)
    ensures head == At(s, 0) && Rest(next, s, 0)
  {
  }
}
