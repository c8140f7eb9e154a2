/** Counting marked positions of a list: ranks, and the position with a given rank. */
module Ranks {
  /** Marked positions among the first `n`. */
  function Count(fs: seq<bool>, n: nat): (c: nat)
    requires n <= |fs|
    ensures c <= n
  {
    if n == 0 then 0 else Count(fs, n - 1) + if fs[n - 1] then 1 else 0
  }

  function Total(fs: seq<bool>): nat { Count(fs, |fs|) }

  lemma {:induction false} CountMonotone(fs: seq<bool>, m: nat, n: nat)
    requires m <= n <= |fs|
    ensures Count(fs, m) <= Count(fs, n) <= Count(fs, m) + (n - m)
    ensures m < n && fs[m] ==> Count(fs, m) < Count(fs, n)
    decreases n - m
  {
    if m < n {
      CountMonotone(fs, m, n - 1);
    }
  }

  /** Among marked positions, rank order is position order. */
  lemma CountOrder(fs: seq<bool>, i: nat, j: nat)
    requires i < |fs| && j < |fs| && fs[i] && fs[j]
    ensures Count(fs, i) < Count(fs, j) <==> i < j
    ensures Count(fs, i) == Count(fs, j) <==> i == j
  {
    if i <= j {
      CountMonotone(fs, i, j);
    } else {
      CountMonotone(fs, j, i);
    }
  }

  /** The marked position of rank `k`, from `i` on; the length of the list if there is none. */
  function NthFrom(fs: seq<bool>, k: nat, i: nat): (r: nat)
    requires i <= |fs|
    ensures i <= r <= |fs|
    decreases |fs| - i
  {
    if i == |fs| then i
    else if fs[i] then (if k == 0 then i else NthFrom(fs, k - 1, i + 1))
    else NthFrom(fs, k, i + 1)
  }

  function Nth(fs: seq<bool>, k: nat): (r: nat)
    ensures r <= |fs|
  {
    NthFrom(fs, k, 0)
  }

  lemma {:induction false} NthFromCounts(fs: seq<bool>, k: nat, i: nat)
    requires i <= |fs|
    ensures var r := NthFrom(fs, k, i);
            if r < |fs| then fs[r] && Count(fs, r) == Count(fs, i) + k else Total(fs) <= Count(fs, i) + k
    decreases |fs| - i
  {
    if i < |fs| {
      if fs[i] {
        if k > 0 {
          NthFromCounts(fs, k - 1, i + 1);
        }
      } else {
        NthFromCounts(fs, k, i + 1);
      }
    }
  }

  /** `Nth` inverts `Count`: ranks below the total have a marked position, and it has that rank. */
  lemma NthCount(fs: seq<bool>, k: nat)
    ensures k < Total(fs) <==> Nth(fs, k) < |fs|
    ensures Nth(fs, k) < |fs| ==> fs[Nth(fs, k)] && Count(fs, Nth(fs, k)) == k
  {
    NthFromCounts(fs, k, 0);
    var r := Nth(fs, k);
    if r < |fs| {
      CountMonotone(fs, r, |fs|);
    }
  }

  lemma CountNth(fs: seq<bool>, i: nat)
    requires i < |fs| && fs[i]
    ensures Count(fs, i) < Total(fs) && Nth(fs, Count(fs, i)) == i
  {
    CountMonotone(fs, i, |fs|);
    NthCount(fs, Count(fs, i));
    CountOrder(fs, i, Nth(fs, Count(fs, i)));
  }

  /** Counts depend only on the marks counted. */
  lemma {:induction false} CountSame(fs: seq<bool>, gs: seq<bool>, n: nat)
    requires n <= |fs| && n <= |gs| && forall i | 0 <= i < n :: fs[i] == gs[i]
    ensures Count(fs, n) == Count(gs, n)
  {
    if n > 0 {
      CountSame(fs, gs, n - 1);
    }
  }
}
