/** Fresh column names: `base` if it is free, else `base_1`, `base_2`, ...
    up to the first free one (the counter loop in `get_unique_col_name`
    and the identical loops in the splitting and grouping operations). */
module ColumnNames {
  import opened PyStr
  import opened Tables

  /** `f"{base}_{k}"`. */
  function Suffixed(base: string, k: nat): string
  {
    base + "_" + NatToString(k)
  }

  lemma SuffixedInjective(base: string, i: nat, j: nat)
    requires Suffixed(base, i) == Suffixed(base, j)
    ensures i == j
  {
    var p := |base| + 1;
    assert NatToString(i) == Suffixed(base, i)[p..];
    assert NatToString(j) == Suffixed(base, j)[p..];
    NatToStringInjective(i, j);
  }

  /** All of `base_1 .. base_{k-1}` are taken. */
  predicate TakenUpTo(base: string, taken: set<string>, k: nat)
  {
    forall i: nat :: 1 <= i < k ==> Suffixed(base, i) in taken
  }

  /** Pigeonhole: the names `base_1 .. base_n` are pairwise different, so a
      set holding all of them has at least n elements. */
  lemma {:induction false} TakenBound(base: string, taken: set<string>, n: nat)
    requires TakenUpTo(base, taken, n + 1)
    ensures n <= |taken|
  {
    if n > 0 {
      var last := Suffixed(base, n);
      var rest := taken - {last};
      forall i: nat | 1 <= i < n ensures Suffixed(base, i) in rest {
        if Suffixed(base, i) == last { SuffixedInjective(base, i, n); }
      }
      TakenBound(base, rest, n - 1);
    }
  }

  /** The least k at or after `k` with `base_k` free. */
  function LeastFree(base: string, taken: set<string>, k: nat): (m: nat)
    requires 1 <= k && TakenUpTo(base, taken, k)
    ensures k <= m && Suffixed(base, m) !in taken && TakenUpTo(base, taken, m)
    decreases |taken| + 1 - k
  {
    TakenBound(base, taken, k - 1);
    if Suffixed(base, k) in taken then
      TakenBound(base, taken, k);
      LeastFree(base, taken, k + 1)
    else k
  }

  /** The name the counter loop settles on. */
  function UniqueName(base: string, taken: set<string>): string
  {
    if base !in taken then base else Suffixed(base, LeastFree(base, taken, 1))
  }

  /** The name is free; it is `base` when `base` is free, and otherwise
      `base_k` for the least k >= 1 that is free. */
  lemma UniqueNameSpec(base: string, taken: set<string>)
    ensures UniqueName(base, taken) !in taken
    ensures base !in taken ==> UniqueName(base, taken) == base
    ensures base in taken ==> exists k: nat :: 1 <= k && UniqueName(base, taken) == Suffixed(base, k)
                                          && TakenUpTo(base, taken, k)
  {
    if base in taken {
      var k := LeastFree(base, taken, 1);
      assert UniqueName(base, taken) == Suffixed(base, k);
    }
  }

  /** `LeastFree` finds the one k from which on nothing before is free. */
  lemma {:induction false} LeastFreeIsLeast(base: string, taken: set<string>, j: nat, k: nat)
    requires 1 <= j <= k && TakenUpTo(base, taken, k) && Suffixed(base, k) !in taken
    ensures LeastFree(base, taken, j) == k
    decreases k - j
  {
    if j < k {
      LeastFreeIsLeast(base, taken, j + 1, k);
    }
  }

  /** The counter loop itself: starts at `base`, then tries `base_1`,
      `base_2`, ... while the candidate is among `existing`. */
  method FreshName(base: string, existing: seq<string>) returns (name: string)
    ensures name == UniqueName(base, NameSet(existing))
    ensures name !in existing
  {
    ghost var taken := NameSet(existing);
    name := base;
    var counter: nat := 1;
    while name in existing
      invariant 1 <= counter <= |taken| + 2
      invariant counter == 1 ==> name == base
      invariant counter > 1 ==> base in taken && name == Suffixed(base, counter - 1)
                                && TakenUpTo(base, taken, counter - 1)
      decreases |taken| + 2 - counter
    {
      if counter > 1 {
        assert TakenUpTo(base, taken, counter);
        TakenBound(base, taken, counter - 1);
      }
      name := Suffixed(base, counter);
      counter := counter + 1;
    }
    if counter > 1 {
      LeastFreeIsLeast(base, taken, 1, counter - 1);
    }
  }
}
