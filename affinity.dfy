/**
 * `thread_set_affinity_cpus`: the CPUs a worker thread is pinned to. The
 * online CPUs are cut into groups of `affinity_cpus` consecutive ids and a
 * worker goes to group `thrid % groups`. The number of online CPUs, which
 * the source asks the system for, is a parameter here.
 */
module Affinity {
  import opened CTypes
  import opened PoolTypes

  /** The group width after clamping: -1 or anything above the highest CPU id means 256. */
  function Width(affinityCpus: int): (w: int)
    ensures affinityCpus == -1 || affinityCpus > POOL_CPU_ID_MAX ==> w == POOL_CPU_ID_MAX + 1
    ensures affinityCpus != -1 && affinityCpus <= POOL_CPU_ID_MAX ==> w == affinityCpus
  {
    if affinityCpus == -1 || affinityCpus > POOL_CPU_ID_MAX then POOL_CPU_ID_MAX + 1 else affinityCpus
  }

  /** How many groups the online CPUs form; never fewer than one. */
  function Groups(width: int, onlnCpus: nat): (g: int)
    ensures g >= 1
    ensures width > 0 && onlnCpus >= width ==> g == onlnCpus / width && g * width <= onlnCpus
    ensures width <= 0 || onlnCpus < width ==> g == 1
  {
    var g := if width > 0 then CDiv(onlnCpus, width) else 1;
    if g < 1 then 1 else g
  }

  /** The group a worker falls in (C remainder: negative for a negative id). */
  function GroupOf(thrid: int, width: int, onlnCpus: nat): int {
    CRem(thrid, Groups(width, onlnCpus))
  }

  predicate Between(lo: int, c: int, hi: int) {
    lo <= c < hi
  }

  /** The ids from `lo` up to, not including, `hi`. */
  function Ids(lo: int, hi: int): set<int> {
    set c | lo <= c < hi && Between(lo, c, hi)
  }

  /** The CPU ids of one group: `width` consecutive ids starting at `width * grp`. */
  function GroupCpus(width: int, grp: int): set<int> {
    Ids(width * grp, width * (grp + 1))
  }

  /** The set the source builds for worker `thrid`. */
  function CpuSet(thrid: int, affinityCpus: int, onlnCpus: nat): set<int> {
    var w := Width(affinityCpus);
    GroupCpus(w, GroupOf(thrid, w, onlnCpus))
  }

  /**
   * Builds the set with the source's loop and returns the number of online
   * CPUs, as the source does.
   */
  method SetAffinityCpus(thrid: int, affinityCpus: int, onlnCpus: nat) returns (cpuset: set<int>, onln: int)
    ensures cpuset == CpuSet(thrid, affinityCpus, onlnCpus)
    ensures onln == onlnCpus
  {
    cpuset := {};
    onln := onlnCpus;
    var width := affinityCpus;
    if width == -1 {
      width := POOL_CPU_ID_MAX + 1;
    } else if width > POOL_CPU_ID_MAX {
      width := POOL_CPU_ID_MAX + 1;
    }
    var groups := 1;
    if width > 0 {
      groups := CDiv(onln, width);
    }
    if groups < 1 {
      groups := 1;
    }
    var grp := CRem(thrid, groups);
    var lo := width * grp;
    var cpu := lo;
    while cpu < width * (grp + 1)
      invariant lo <= cpu && (cpu <= width * (grp + 1) || cpu == lo)
      invariant cpuset == Ids(lo, cpu)
    {
      cpuset := cpuset + {cpu};
      cpu := cpu + 1;
    }
  }

  lemma GroupCpusSize(width: nat, grp: int)
    ensures |GroupCpus(width, grp)| == width
    decreases width
  {
    if width > 0 {
      var lo := width * grp;
      RangeSize(lo, width);
    }
  }

  lemma {:induction false} RangeSize(lo: int, k: nat)
    ensures |Ids(lo, lo + k)| == k
    decreases k
  {
    if k > 0 {
      RangeSize(lo, k - 1);
      assert Ids(lo, lo + k) == Ids(lo, lo + k - 1) + {lo + k - 1};
    }
  }

  /**
   * With a width between 1 and the number of online CPUs, a worker with a
   * non-negative id is pinned to exactly `width` online CPUs, all in its
   * own group.
   */
  lemma PinnedToOnlineCpus(thrid: nat, affinityCpus: int, onlnCpus: nat)
    requires 0 < affinityCpus <= POOL_CPU_ID_MAX && affinityCpus <= onlnCpus
    ensures |CpuSet(thrid, affinityCpus, onlnCpus)| == affinityCpus
    ensures forall c :: c in CpuSet(thrid, affinityCpus, onlnCpus) ==> 0 <= c < onlnCpus
  {
    var w := affinityCpus;
    var g := Groups(w, onlnCpus);
    var grp := GroupOf(thrid, w, onlnCpus);
    assert 0 <= grp < g;
    GroupCpusSize(w, grp);
    assert w * (grp + 1) <= w * g by {
      MulMonotone(w, grp + 1, g);
    }
  }

  lemma MulMonotone(w: nat, a: int, b: int)
    requires a <= b
    ensures w * a <= w * b
  {
  }

  /** Workers in different groups share no CPU. */
  lemma GroupsDisjoint(width: nat, g1: int, g2: int)
    requires g1 != g2
    ensures GroupCpus(width, g1) !! GroupCpus(width, g2)
  {
    if g1 < g2 {
      MulMonotone(width, g1 + 1, g2);
    } else {
      MulMonotone(width, g2 + 1, g1);
    }
  }

  /** No positive width (0, or a negative value other than -1) gives an empty set. */
  lemma NonPositiveWidthPinsNothing(thrid: int, affinityCpus: int, onlnCpus: nat)
    requires affinityCpus <= 0 && affinityCpus != -1
    ensures CpuSet(thrid, affinityCpus, onlnCpus) == {}
  {
  }

  /** Eight online CPUs in pairs: worker 5 falls in group 1 and gets CPUs 2 and 3. */
  lemma EightCpusInPairs()
    ensures CpuSet(5, 2, 8) == {2, 3}
  {
    assert GroupOf(5, 2, 8) == 1;
  }
}
