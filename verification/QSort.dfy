/** The in-place Bentley-McIlroy quicksort of hxlib/qsort.c, on an array of elements and any comparator. */
module QSort {

  /** What the C standard asks of a comparator: a consistent total order up to equality. */
  ghost predicate TotalPreorder<T(!new)>(cmp: (T, T) -> int)
  {
    && (forall x, y :: cmp(x, y) < 0 <==> cmp(y, x) > 0)
    && (forall x, y, z :: cmp(x, y) <= 0 && cmp(y, z) <= 0 ==> cmp(x, z) <= 0)
  }

  ghost predicate Sorted<T>(s: seq<T>, lo: int, hi: int, cmp: (T, T) -> int)
    requires 0 <= lo <= hi <= |s|
  {
    forall i, j | lo <= i < j < hi :: cmp(s[i], s[j]) <= 0
  }

  /** t rearranges s inside [lo, hi) and agrees with it elsewhere. */
  ghost predicate Rearranged<T>(s: seq<T>, t: seq<T>, lo: int, hi: int)
    requires 0 <= lo <= hi <= |s|
  {
    |s| == |t| && s[..lo] == t[..lo] && s[hi..] == t[hi..] && multiset(s[lo..hi]) == multiset(t[lo..hi])
  }

  function Sign(x: int): int { if x < 0 then -1 else if x > 0 then 1 else 0 }

  /** Every element of [lo, hi) compares with the pivot v as sign says. */
  ghost predicate Zone<T>(s: seq<T>, lo: int, hi: int, v: T, cmp: (T, T) -> int, sign: int)
    requires 0 <= lo && hi <= |s|
  {
    forall k | lo <= k < hi :: Sign(cmp(s[k], v)) == sign
  }

  // ---------------------------------------------------------------- rearrangements

  lemma RearrangedTransitive<T>(s: seq<T>, t: seq<T>, u: seq<T>, lo: int, hi: int)
    requires 0 <= lo <= hi <= |s| && Rearranged(s, t, lo, hi) && Rearranged(t, u, lo, hi)
    ensures Rearranged(s, u, lo, hi)
  {
  }

  lemma RearrangedWidens<T>(s: seq<T>, t: seq<T>, lo: int, hi: int, lo': int, hi': int)
    requires 0 <= lo' <= lo <= hi <= hi' <= |s| && Rearranged(s, t, lo, hi)
    ensures Rearranged(s, t, lo', hi')
  {
    assert s[..lo'] == s[..lo][..lo'] == t[..lo'];
    assert s[hi'..] == s[hi..][hi' - hi..] == t[hi'..];
    assert s[lo'..hi'] == s[..lo][lo'..] + s[lo..hi] + s[hi..][..hi' - hi];
    assert t[lo'..hi'] == t[..lo][lo'..] + t[lo..hi] + t[hi..][..hi' - hi];
  }

  /** Elements at the same place outside the rearranged range. */
  lemma RearrangedOutside<T>(s: seq<T>, t: seq<T>, lo: int, hi: int, k: int)
    requires 0 <= lo <= hi <= |s| && Rearranged(s, t, lo, hi) && 0 <= k < |s| && (k < lo || k >= hi)
    ensures t[k] == s[k]
  {
    if k < lo {
      assert s[..lo][k] == t[..lo][k];
    } else {
      assert s[hi..][k - hi] == t[hi..][k - hi];
    }
  }

  /** An element of the rearranged range was somewhere in that range before. */
  lemma RearrangedSource<T>(s: seq<T>, t: seq<T>, lo: int, hi: int, k: int) returns (j: int)
    requires 0 <= lo <= hi <= |s| && Rearranged(s, t, lo, hi) && lo <= k < hi
    ensures lo <= j < hi && s[j] == t[k]
  {
    assert t[lo..hi][k - lo] in multiset(t[lo..hi]);
    assert t[k] in multiset(s[lo..hi]);
    var i :| 0 <= i < |s[lo..hi]| && s[lo..hi][i] == t[k];
    j := lo + i;
  }

  /** A zone that the rearranged range covers, or misses, survives. */
  lemma ZoneSurvives<T>(s: seq<T>, t: seq<T>, lo: int, hi: int, zlo: int, zhi: int, v: T, cmp: (T, T) -> int, sign: int)
    requires 0 <= lo <= hi <= |s| && Rearranged(s, t, lo, hi)
    requires 0 <= zlo <= zhi <= |s| && ((zlo <= lo && hi <= zhi) || zhi <= lo || hi <= zlo)
    requires Zone(s, zlo, zhi, v, cmp, sign)
    ensures Zone(t, zlo, zhi, v, cmp, sign)
  {
    forall k | zlo <= k < zhi
      ensures Sign(cmp(t[k], v)) == sign
    {
      if lo <= k < hi {
        var j := RearrangedSource(s, t, lo, hi, k);
      } else {
        RearrangedOutside(s, t, lo, hi, k);
      }
    }
  }

  // ---------------------------------------------------------------- swaps

  function Swapped<T>(s: seq<T>, i: int, j: int): seq<T>
    requires 0 <= i < |s| && 0 <= j < |s|
  {
    s[i := s[j]][j := s[i]]
  }

  lemma SwappedRearranges<T>(s: seq<T>, i: int, j: int, lo: int, hi: int)
    requires 0 <= lo <= i < hi <= |s| && lo <= j < hi
    ensures Rearranged(s, Swapped(s, i, j), lo, hi)
  {
    var t := Swapped(s, i, j);
    var p, q := s[lo..hi], t[lo..hi];
    assert q == p[i - lo := p[j - lo]][j - lo := p[i - lo]];
  }

  lemma SwapOnTop<T>(s: seq<T>, t: seq<T>, i: int, j: int, lo: int, hi: int)
    requires 0 <= lo <= i < hi <= |s| && lo <= j < hi && Rearranged(s, t, lo, hi)
    ensures Rearranged(s, Swapped(t, i, j), lo, hi)
  {
    SwappedRearranges(t, i, j, lo, hi);
    RearrangedTransitive(s, t, Swapped(t, i, j), lo, hi);
  }

  method Swap<T>(a: array<T>, i: int, j: int)
    requires 0 <= i < a.Length && 0 <= j < a.Length
    modifies a
    ensures a[..] == Swapped(old(a[..]), i, j)
  {
    a[i], a[j] := a[j], a[i];
  }

  /** The block swap: [i, i + r) and [j, j + r) change places, element by element. */
  function VecSwapped<T>(s: seq<T>, i: int, j: int, r: nat): (t: seq<T>)
    requires 0 <= i && i + r <= j && j + r <= |s|
    ensures |t| == |s|
  {
    if r == 0 then s else Swapped(VecSwapped(s, i, j, r - 1), i + r - 1, j + r - 1)
  }

  lemma {:induction false} VecSwappedAt<T>(s: seq<T>, i: int, j: int, r: nat, k: int)
    requires 0 <= i && i + r <= j && j + r <= |s| && 0 <= k < |s|
    ensures VecSwapped(s, i, j, r)[k] ==
      if i <= k < i + r then s[k - i + j] else if j <= k < j + r then s[k - j + i] else s[k]
  {
    if r > 0 {
      VecSwappedAt(s, i, j, r - 1, k);
      VecSwappedAt(s, i, j, r - 1, i + r - 1);
      VecSwappedAt(s, i, j, r - 1, j + r - 1);
    }
  }

  lemma SwapAs<T>(s: seq<T>, t: seq<T>, u: seq<T>, i: int, j: int, lo: int, hi: int)
    requires 0 <= lo <= i < hi <= |s| && lo <= j < hi && Rearranged(s, t, lo, hi) && u == Swapped(t, i, j)
    ensures Rearranged(s, u, lo, hi)
  {
    SwapOnTop(s, t, i, j, lo, hi);
  }

  lemma {:induction false} VecSwappedRearranges<T>(s: seq<T>, i: int, j: int, r: nat, lo: int, hi: int)
    requires 0 <= lo <= i && i + r <= j && j + r <= hi <= |s|
    ensures Rearranged(s, VecSwapped(s, i, j, r), lo, hi)
  {
    var u := VecSwapped(s, i, j, r);
    if r > 0 {
      var t := VecSwapped(s, i, j, r - 1);
      VecSwappedRearranges(s, i, j, r - 1, lo, hi);
      SwapAs(s, t, u, i + r - 1, j + r - 1, lo, hi);
    }
  }

  method VecSwap<T>(a: array<T>, i: int, j: int, r: nat)
    requires 0 <= i && i + r <= j && j + r <= a.Length
    modifies a
    ensures a[..] == VecSwapped(old(a[..]), i, j, r)
  {
    var m := 0;
    while m < r
      invariant 0 <= m <= r
      invariant a[..] == VecSwapped(old(a[..]), i, j, m)
    {
      Swap(a, i + m, j + m);
      m := m + 1;
    }
  }

  // ---------------------------------------------------------------- insertion sort

  /** The prefix [lo, pm] is sorted except that the element at pl may still have to move left. */
  ghost predicate Inserting<T>(s: seq<T>, lo: int, pl: int, pm: int, cmp: (T, T) -> int)
    requires 0 <= lo <= pl <= pm < |s|
  {
    && (forall i, j | lo <= i < j <= pm && i != pl && j != pl :: cmp(s[i], s[j]) <= 0)
    && (forall j | pl < j <= pm :: cmp(s[pl], s[j]) <= 0)
  }

  /** What one round of the inner loop keeps, relative to the array s it started from. */
  ghost predicate InsertState<T(!new)>(s: seq<T>, t: seq<T>, lo: int, pl: int, pm: int, cmp: (T, T) -> int)
  {
    && 0 <= lo <= pl <= pm < |s|
    && Rearranged(s, t, lo, pm + 1)
    && (TotalPreorder(cmp) && Sorted(s, lo, pm, cmp) ==> Inserting(t, lo, pl, pm, cmp))
  }

  lemma InsertStarts<T(!new)>(s: seq<T>, lo: int, pm: int, cmp: (T, T) -> int)
    requires 0 <= lo <= pm < |s|
    ensures InsertState(s, s, lo, pm, pm, cmp)
  {
  }

  lemma InsertRound<T(!new)>(s: seq<T>, t: seq<T>, lo: int, pl: int, pm: int, cmp: (T, T) -> int)
    requires InsertState(s, t, lo, pl, pm, cmp) && pl > lo && cmp(t[pl - 1], t[pl]) > 0
    ensures InsertState(s, Swapped(t, pl, pl - 1), lo, pl - 1, pm, cmp)
  {
    SwapOnTop(s, t, pl, pl - 1, lo, pm + 1);
    if TotalPreorder(cmp) && Sorted(s, lo, pm, cmp) {
      InsertStep(t, lo, pl, pm, cmp);
    }
  }

  lemma InsertStep<T(!new)>(s: seq<T>, lo: int, pl: int, pm: int, cmp: (T, T) -> int)
    requires TotalPreorder(cmp) && 0 <= lo < pl <= pm < |s| && Inserting(s, lo, pl, pm, cmp) && cmp(s[pl - 1], s[pl]) > 0
    ensures Inserting(Swapped(s, pl, pl - 1), lo, pl - 1, pm, cmp)
  {
    assert cmp(s[pl], s[pl - 1]) < 0;
  }

  lemma InsertDone<T(!new)>(s: seq<T>, lo: int, pl: int, pm: int, cmp: (T, T) -> int)
    requires TotalPreorder(cmp) && 0 <= lo <= pl <= pm < |s| && Inserting(s, lo, pl, pm, cmp)
    requires pl == lo || cmp(s[pl - 1], s[pl]) <= 0
    ensures Sorted(s, lo, pm + 1, cmp)
  {
    forall i | lo <= i < pl
      ensures cmp(s[i], s[pl]) <= 0
    {
      assert i < pl - 1 ==> cmp(s[i], s[pl - 1]) <= 0;
    }
  }

  lemma InsertEnds<T(!new)>(s: seq<T>, t: seq<T>, lo: int, pl: int, pm: int, cmp: (T, T) -> int)
    requires InsertState(s, t, lo, pl, pm, cmp) && (pl == lo || cmp(t[pl - 1], t[pl]) <= 0)
    ensures TotalPreorder(cmp) && Sorted(s, lo, pm, cmp) ==> Sorted(t, lo, pm + 1, cmp)
  {
    if TotalPreorder(cmp) && Sorted(s, lo, pm, cmp) {
      InsertDone(t, lo, pl, pm, cmp);
    }
  }

  /** The inner loop: moves the element at pm to the left until its left neighbour is not greater. */
  method Sink<T(!new)>(a: array<T>, lo: int, pm: int, cmp: (T, T) -> int) returns (ghost pl: int)
    requires 0 <= lo <= pm < a.Length
    modifies a
    ensures InsertState(old(a[..]), a[..], lo, pl, pm, cmp)
    ensures pl == lo || cmp(a[pl - 1], a[pl]) <= 0
  {
    var p := pm;
    ghost var s, t := a[..], a[..];
    InsertStarts(s, lo, pm, cmp);
    while p > lo && cmp(a[p - 1], a[p]) > 0
      invariant InsertState(s, t, lo, p, pm, cmp) && a[..] == t
      decreases p
    {
      assert a[p - 1] == t[p - 1] && a[p] == t[p];
      InsertRound(s, t, lo, p, pm, cmp);
      Swap(a, p, p - 1);
      t := Swapped(t, p, p - 1);
      p := p - 1;
    }
    pl := p;
  }

  method Insert<T(!new)>(a: array<T>, lo: int, pm: int, cmp: (T, T) -> int)
    requires 0 <= lo <= pm < a.Length
    modifies a
    ensures Rearranged(old(a[..]), a[..], lo, pm + 1)
    ensures TotalPreorder(cmp) && Sorted(old(a[..]), lo, pm, cmp) ==> Sorted(a[..], lo, pm + 1, cmp)
  {
    ghost var s := a[..];
    ghost var pl := Sink(a, lo, pm, cmp);
    InsertEnds(s, a[..], lo, pl, pm, cmp);
  }

  method InsertionSort<T(!new)>(a: array<T>, lo: int, hi: int, cmp: (T, T) -> int)
    requires 0 <= lo <= hi <= a.Length
    modifies a
    ensures Rearranged(old(a[..]), a[..], lo, hi)
    ensures TotalPreorder(cmp) ==> Sorted(a[..], lo, hi, cmp)
  {
    var pm := lo + 1;
    ghost var s := a[..];
    while pm < hi
      invariant lo < pm && (pm <= hi || hi == lo)
      invariant Rearranged(s, a[..], lo, hi)
      invariant TotalPreorder(cmp) && pm <= hi ==> Sorted(a[..], lo, pm, cmp)
    {
      ghost var t := a[..];
      Insert(a, lo, pm, cmp);
      RearrangedWidens(t, a[..], lo, pm + 1, lo, hi);
      RearrangedTransitive(s, t, a[..], lo, hi);
      pm := pm + 1;
    }
  }

  // ---------------------------------------------------------------- choosing the pivot

  /** The index among i, j, k of the element the comparisons single out. */
  function Med3<T>(s: seq<T>, i: int, j: int, k: int, cmp: (T, T) -> int): (m: int)
    requires 0 <= i < |s| && 0 <= j < |s| && 0 <= k < |s|
    ensures m == i || m == j || m == k
  {
    if cmp(s[i], s[j]) < 0 then
      if cmp(s[j], s[k]) < 0 then j else if cmp(s[i], s[k]) < 0 then k else i
    else
      if cmp(s[j], s[k]) > 0 then j else if cmp(s[i], s[k]) < 0 then i else k
  }

  /** y lies between x and z. */
  ghost predicate Between<T>(x: T, y: T, z: T, cmp: (T, T) -> int)
  {
    (cmp(x, y) <= 0 && cmp(y, z) <= 0) || (cmp(z, y) <= 0 && cmp(y, x) <= 0)
  }

  lemma Med3IsMedian<T(!new)>(s: seq<T>, i: int, j: int, k: int, cmp: (T, T) -> int)
    requires 0 <= i < |s| && 0 <= j < |s| && 0 <= k < |s| && TotalPreorder(cmp)
    ensures var m := Med3(s, i, j, k, cmp);
      && (m == i ==>
        || Between(s[j], s[i], s[k], cmp)
        || (i == j && Between(s[i], s[j], s[k], cmp))
        || (i == k && Between(s[i], s[k], s[j], cmp)))
      && (m == j ==>
        || Between(s[i], s[j], s[k], cmp)
        || (j == i && Between(s[j], s[i], s[k], cmp))
        || (j == k && Between(s[i], s[k], s[j], cmp)))
      && (m == k ==>
        || Between(s[i], s[k], s[j], cmp)
        || (k == i && Between(s[j], s[i], s[k], cmp))
        || (k == j && Between(s[i], s[j], s[k], cmp)))
  {
  }

  method ChoosePivot<T>(a: array<T>, lo: int, n: int, cmp: (T, T) -> int) returns (pm: int)
    requires 0 <= lo && 7 <= n && lo + n <= a.Length
    ensures lo <= pm < lo + n
  {
    pm := lo + n / 2;
    if n > 7 {
      var pl, pn := lo, lo + (n - 1);
      if n > 40 {
        var d := n / 8;
        pl := Med3(a[..], pl, pl + d, pl + 2 * d, cmp);
        pm := Med3(a[..], pm - d, pm, pm + d, cmp);
        pn := Med3(a[..], pn - 2 * d, pn - d, pn, cmp);
      }
      pm := Med3(a[..], pl, pm, pn, cmp);
    }
  }

  // ---------------------------------------------------------------- partition

  /** The four zones around the unknown elements [pb, pc]: equal, less, unknown, greater, equal. The pivot is at lo. */
  ghost predicate Zones<T>(s: seq<T>, lo: int, pa: int, pb: int, pc: int, pd: int, hi: int, cmp: (T, T) -> int)
  {
    && 0 <= lo < pa <= pb <= pc + 1 <= pd + 1 <= hi <= |s|
    && Zone(s, lo + 1, pa, s[lo], cmp, 0)
    && Zone(s, pa, pb, s[lo], cmp, -1)
    && Zone(s, pc + 1, pd + 1, s[lo], cmp, 1)
    && Zone(s, pd + 1, hi, s[lo], cmp, 0)
  }

  lemma EqualFromLeft<T>(s: seq<T>, lo: int, pa: int, pb: int, pc: int, pd: int, hi: int, cmp: (T, T) -> int)
    requires Zones(s, lo, pa, pb, pc, pd, hi, cmp) && pb <= pc && cmp(s[pb], s[lo]) == 0
    ensures Zones(Swapped(s, pa, pb), lo, pa + 1, pb + 1, pc, pd, hi, cmp)
  {
  }

  lemma EqualFromRight<T>(s: seq<T>, lo: int, pa: int, pb: int, pc: int, pd: int, hi: int, cmp: (T, T) -> int)
    requires Zones(s, lo, pa, pb, pc, pd, hi, cmp) && pb <= pc && cmp(s[pc], s[lo]) == 0
    ensures Zones(Swapped(s, pc, pd), lo, pa, pb, pc - 1, pd - 1, hi, cmp)
  {
  }

  lemma Exchange<T>(s: seq<T>, lo: int, pa: int, pb: int, pc: int, pd: int, hi: int, cmp: (T, T) -> int)
    requires Zones(s, lo, pa, pb, pc, pd, hi, cmp) && pb < pc && cmp(s[pb], s[lo]) > 0 && cmp(s[pc], s[lo]) < 0
    ensures Zones(Swapped(s, pb, pc), lo, pa, pb + 1, pc - 1, pd, hi, cmp)
  {
  }

  method ScanLeft<T>(a: array<T>, lo: int, hi: int, cmp: (T, T) -> int, pa0: int, pb0: int, pc: int, pd: int)
    returns (pa: int, pb: int, swapped: bool)
    requires hi <= a.Length && Zones(a[..], lo, pa0, pb0, pc, pd, hi, cmp)
    modifies a
    ensures Zones(a[..], lo, pa, pb, pc, pd, hi, cmp) && pb0 <= pb
    ensures Rearranged(old(a[..]), a[..], lo, hi)
    ensures pb <= pc ==> cmp(a[pb], a[lo]) > 0
  {
    pa, pb, swapped := pa0, pb0, false;
    while pb <= pc && cmp(a[pb], a[lo]) <= 0
      invariant Zones(a[..], lo, pa, pb, pc, pd, hi, cmp) && pb0 <= pb
      invariant Rearranged(old(a[..]), a[..], lo, hi)
      decreases pc - pb
    {
      if cmp(a[pb], a[lo]) == 0 {
        swapped := true;
        EqualFromLeft(a[..], lo, pa, pb, pc, pd, hi, cmp);
        SwapOnTop(old(a[..]), a[..], pa, pb, lo, hi);
        Swap(a, pa, pb);
        pa := pa + 1;
      }
      pb := pb + 1;
    }
  }

  method ScanRight<T>(a: array<T>, lo: int, hi: int, cmp: (T, T) -> int, pa: int, pb: int, pc0: int, pd0: int)
    returns (pc: int, pd: int, swapped: bool)
    requires hi <= a.Length && Zones(a[..], lo, pa, pb, pc0, pd0, hi, cmp)
    modifies a
    ensures Zones(a[..], lo, pa, pb, pc, pd, hi, cmp) && pc <= pc0
    ensures Rearranged(old(a[..]), a[..], lo, hi)
    ensures pb <= pc ==> cmp(a[pc], a[lo]) < 0
    ensures a[lo] == old(a[lo]) && (pb <= pc ==> a[pb] == old(a[pb]))
  {
    pc, pd, swapped := pc0, pd0, false;
    while pb <= pc && cmp(a[pc], a[lo]) >= 0
      invariant Zones(a[..], lo, pa, pb, pc, pd, hi, cmp) && pc <= pc0
      invariant Rearranged(old(a[..]), a[..], lo, hi)
      invariant a[lo] == old(a[lo]) && (pb <= pc ==> a[pb] == old(a[pb]))
      decreases pc - pb
    {
      if cmp(a[pc], a[lo]) == 0 {
        swapped := true;
        EqualFromRight(a[..], lo, pa, pb, pc, pd, hi, cmp);
        SwapOnTop(old(a[..]), a[..], pc, pd, lo, hi);
        Swap(a, pc, pd);
        pd := pd - 1;
      }
      pc := pc - 1;
    }
  }

  method Partition<T>(a: array<T>, lo: int, hi: int, cmp: (T, T) -> int)
    returns (pa: int, pb: int, pc: int, pd: int, swapped: bool)
    requires 0 <= lo && lo + 1 < hi <= a.Length
    modifies a
    ensures Zones(a[..], lo, pa, pb, pc, pd, hi, cmp) && pb == pc + 1
    ensures Rearranged(old(a[..]), a[..], lo, hi)
  {
    pa, pb, pc, pd, swapped := lo + 1, lo + 1, hi - 1, hi - 1, false;
    ghost var s := a[..];
    while true
      invariant Zones(a[..], lo, pa, pb, pc, pd, hi, cmp)
      invariant Rearranged(s, a[..], lo, hi)
      decreases pc - pb + 1
    {
      ghost var t := a[..];
      var left, right;
      pa, pb, left := ScanLeft(a, lo, hi, cmp, pa, pb, pc, pd);
      RearrangedTransitive(s, t, a[..], lo, hi);
      t := a[..];
      pc, pd, right := ScanRight(a, lo, hi, cmp, pa, pb, pc, pd);
      RearrangedTransitive(s, t, a[..], lo, hi);
      swapped := swapped || left || right;
      if pb > pc {
        break;
      }
      Exchange(a[..], lo, pa, pb, pc, pd, hi, cmp);
      SwapOnTop(s, a[..], pb, pc, lo, hi);
      Swap(a, pb, pc);
      swapped := true;
      pb := pb + 1;
      pc := pc - 1;
    }
  }

  // ---------------------------------------------------------------- gathering the equal elements

  /** Swapping the ends of two adjacent blocks exchanges the blocks' places. */
  lemma BlocksExchanged<T>(s: seq<T>, i: int, m: int, j: int, r: nat, v: T, cmp: (T, T) -> int, p: int, q: int)
    requires 0 <= i <= m <= j <= |s| && Zone(s, i, m, v, cmp, p) && Zone(s, m, j, v, cmp, q)
    requires r == if m - i < j - m then m - i else j - m
    ensures Zone(VecSwapped(s, i, j - r, r), i, i + (j - m), v, cmp, q)
    ensures Zone(VecSwapped(s, i, j - r, r), i + (j - m), j, v, cmp, p)
  {
    var t := VecSwapped(s, i, j - r, r);
    forall k | i <= k < j
      ensures Sign(cmp(t[k], v)) == if k < i + (j - m) then q else p
    {
      VecSwappedAt(s, i, j - r, r, k);
    }
  }

  lemma ZoneElsewhere<T>(s: seq<T>, i: int, j: int, r: nat, lo: int, hi: int, v: T, cmp: (T, T) -> int, sign: int)
    requires 0 <= i && i + r <= j && j + r <= |s| && 0 <= lo <= hi <= |s| && (hi <= i || j + r <= lo)
    requires Zone(s, lo, hi, v, cmp, sign)
    ensures Zone(VecSwapped(s, i, j, r), lo, hi, v, cmp, sign)
  {
    forall k | lo <= k < hi
      ensures Sign(cmp(VecSwapped(s, i, j, r)[k], v)) == sign
    {
      VecSwappedAt(s, i, j, r, k);
    }
  }

  /** Less, equal, greater: the three-way partition. */
  ghost predicate Parts<T>(s: seq<T>, lo: int, m: int, g: int, hi: int, v: T, cmp: (T, T) -> int)
  {
    && 0 <= lo <= m < g <= hi <= |s|
    && Zone(s, lo, m, v, cmp, -1) && Zone(s, m, g, v, cmp, 0) && Zone(s, g, hi, v, cmp, 1)
  }

  lemma GatheredLeft<T(!new)>(s: seq<T>, t: seq<T>, lo: int, pa: int, pb: int, pd: int, hi: int, cmp: (T, T) -> int, r: nat)
    requires TotalPreorder(cmp) && Zones(s, lo, pa, pb, pb - 1, pd, hi, cmp)
    requires r == if pa - lo < pb - pa then pa - lo else pb - pa
    requires t == VecSwapped(s, lo, pb - r, r)
    ensures Zone(t, lo, lo + (pb - pa), s[lo], cmp, -1) && Zone(t, lo + (pb - pa), pb, s[lo], cmp, 0)
    ensures Zone(t, pb, pd + 1, s[lo], cmp, 1) && Zone(t, pd + 1, hi, s[lo], cmp, 0)
  {
    var v := s[lo];
    BlocksExchanged(s, lo, pa, pb, r, v, cmp, 0, -1);
    ZoneElsewhere(s, lo, pb - r, r, pb, pd + 1, v, cmp, 1);
    ZoneElsewhere(s, lo, pb - r, r, pd + 1, hi, v, cmp, 0);
  }

  lemma GatheredRight<T(!new)>(t: seq<T>, u: seq<T>, lo: int, m: int, pb: int, pd: int, hi: int, v: T, cmp: (T, T) -> int, r: nat)
    requires 0 <= lo <= m < pb <= pd + 1 <= hi <= |t|
    requires Zone(t, lo, m, v, cmp, -1) && Zone(t, m, pb, v, cmp, 0)
    requires Zone(t, pb, pd + 1, v, cmp, 1) && Zone(t, pd + 1, hi, v, cmp, 0)
    requires r == if pd + 1 - pb < hi - (pd + 1) then pd + 1 - pb else hi - (pd + 1)
    requires u == VecSwapped(t, pb, hi - r, r)
    ensures Parts(u, lo, m, hi - (pd + 1 - pb), hi, v, cmp)
  {
    BlocksExchanged(t, pb, pd + 1, hi, r, v, cmp, 1, 0);
    ZoneElsewhere(t, pb, hi - r, r, lo, m, v, cmp, -1);
    ZoneElsewhere(t, pb, hi - r, r, m, pb, v, cmp, 0);
  }

  lemma BlockSwapRearranges<T>(s: seq<T>, t: seq<T>, i: int, j: int, r: nat, lo: int, hi: int)
    requires 0 <= lo <= i && i + r <= j && j + r <= hi <= |s| && t == VecSwapped(s, i, j, r)
    ensures Rearranged(s, t, lo, hi)
  {
    VecSwappedRearranges(s, i, j, r, lo, hi);
  }

  lemma Gathered<T(!new)>(s: seq<T>, t: seq<T>, u: seq<T>, lo: int, pa: int, pb: int, pd: int, hi: int, cmp: (T, T) -> int, r: nat, r': nat)
    requires Zones(s, lo, pa, pb, pb - 1, pd, hi, cmp)
    requires r == if pa - lo < pb - pa then pa - lo else pb - pa
    requires r' == if pd + 1 - pb < hi - (pd + 1) then pd + 1 - pb else hi - (pd + 1)
    requires t == VecSwapped(s, lo, pb - r, r) && u == VecSwapped(t, pb, hi - r', r')
    ensures Rearranged(s, u, lo, hi)
    ensures TotalPreorder(cmp) ==> Parts(u, lo, lo + (pb - pa), hi - (pd + 1 - pb), hi, s[lo], cmp)
  {
    BlockSwapRearranges(s, t, lo, pb - r, r, lo, hi);
    BlockSwapRearranges(t, u, pb, hi - r', r', lo, hi);
    RearrangedTransitive(s, t, u, lo, hi);
    if TotalPreorder(cmp) {
      GatheredLeft(s, t, lo, pa, pb, pd, hi, cmp, r);
      GatheredRight(t, u, lo, lo + (pb - pa), pb, pd, hi, s[lo], cmp, r');
    }
  }

  method Gather<T(!new)>(a: array<T>, lo: int, pa: int, pb: int, pc: int, pd: int, hi: int, cmp: (T, T) -> int)
    requires hi <= a.Length && Zones(a[..], lo, pa, pb, pc, pd, hi, cmp) && pb == pc + 1
    modifies a
    ensures Rearranged(old(a[..]), a[..], lo, hi)
    ensures TotalPreorder(cmp) ==> Parts(a[..], lo, lo + (pb - pa), hi - (pd - pc), hi, old(a[lo]), cmp)
  {
    ghost var s := a[..];
    var r := if pa - lo < pb - pa then pa - lo else pb - pa;
    VecSwap(a, lo, pb - r, r);
    ghost var t := a[..];
    var r' := if pd - pc < hi - pd - 1 then pd - pc else hi - pd - 1;
    VecSwap(a, pb, hi - r', r');
    Gathered(s, t, a[..], lo, pa, pb, pd, hi, cmp, r, r');
  }

  // ---------------------------------------------------------------- the sort

  /** Everything in [lo, m) is at most everything in [m, hi). */
  ghost predicate Below<T>(s: seq<T>, lo: int, m: int, hi: int, cmp: (T, T) -> int)
    requires 0 <= lo <= m <= hi <= |s|
  {
    forall i, j | lo <= i < m <= j < hi :: cmp(s[i], s[j]) <= 0
  }

  /** The loop works on [lo, hi); what lies before it, from lo0 on, is finished. */
  ghost predicate Finished<T>(s: seq<T>, lo0: int, lo: int, hi: int, cmp: (T, T) -> int)
    requires 0 <= lo0 <= lo <= hi <= |s|
  {
    Sorted(s, lo0, lo, cmp) && Below(s, lo0, lo, hi, cmp)
  }

  /** Rearranging the unfinished part keeps the finished part finished. */
  lemma FinishedSurvives<T>(s: seq<T>, t: seq<T>, lo0: int, lo: int, hi: int, cmp: (T, T) -> int)
    requires 0 <= lo0 <= lo <= hi <= |s| && Finished(s, lo0, lo, hi, cmp) && Rearranged(s, t, lo, hi)
    ensures Finished(t, lo0, lo, hi, cmp)
  {
    forall i | lo0 <= i < lo ensures t[i] == s[i] {
      RearrangedOutside(s, t, lo, hi, i);
    }
    forall i, j | lo0 <= i < lo <= j < hi ensures cmp(t[i], t[j]) <= 0 {
      var k := RearrangedSource(s, t, lo, hi, j);
    }
  }

  /** A sorted less-part extends the finished part up to the greater-part. */
  lemma FinishedExtends<T(!new)>(s: seq<T>, lo0: int, lo: int, m: int, g: int, hi: int, v: T, cmp: (T, T) -> int)
    requires TotalPreorder(cmp) && 0 <= lo0 <= lo && Parts(s, lo, m, g, hi, v, cmp)
    requires Finished(s, lo0, lo, hi, cmp) && Sorted(s, lo, m, cmp)
    ensures Finished(s, lo0, g, hi, cmp)
  {
    forall i, j | lo <= i < j < hi && i < g && m <= j
      ensures cmp(s[i], s[j]) <= 0
    {
      assert Sign(cmp(s[i], v)) <= 0 && Sign(cmp(s[j], v)) >= 0;
      assert cmp(v, s[j]) <= 0;
    }
  }

  lemma PartsSurvive<T>(s: seq<T>, t: seq<T>, lo: int, m: int, g: int, hi: int, v: T, cmp: (T, T) -> int)
    requires Parts(s, lo, m, g, hi, v, cmp) && Rearranged(s, t, lo, m)
    ensures Parts(t, lo, m, g, hi, v, cmp)
  {
    ZoneSurvives(s, t, lo, m, lo, m, v, cmp, -1);
    ZoneSurvives(s, t, lo, m, m, g, v, cmp, 0);
    ZoneSurvives(s, t, lo, m, g, hi, v, cmp, 1);
  }

  /** One round: the three-way partition of [lo, hi), or the whole range sorted by insertion. */
  method Round<T(!new)>(a: array<T>, lo: int, hi: int, cmp: (T, T) -> int) returns (m: int, g: int, done: bool, ghost v: T)
    requires 0 <= lo && lo + 7 <= hi <= a.Length
    modifies a
    ensures Rearranged(old(a[..]), a[..], lo, hi)
    ensures done && TotalPreorder(cmp) ==> Sorted(a[..], lo, hi, cmp)
    ensures !done ==> lo <= m < g <= hi
    ensures !done && TotalPreorder(cmp) ==> Parts(a[..], lo, m, g, hi, v, cmp)
  {
    ghost var s := a[..];
    var pm := ChoosePivot(a, lo, hi - lo, cmp);
    SwappedRearranges(a[..], lo, pm, lo, hi);
    Swap(a, lo, pm);
    ghost var t := a[..];
    var pa, pb, pc, pd, swapped := Partition(a, lo, hi, cmp);
    RearrangedTransitive(s, t, a[..], lo, hi);
    t, v := a[..], a[lo];
    if !swapped {
      InsertionSort(a, lo, hi, cmp);
      m, g, done := lo, hi, true;
    } else {
      Gather(a, lo, pa, pb, pc, pd, hi, cmp);
      m, g, done := lo + (pb - pa), hi - (pd - pc), false;
    }
    RearrangedTransitive(s, t, a[..], lo, hi);
  }

  /** What every pass of the loop keeps, relative to the array s at entry. */
  ghost predicate LoopState<T(!new)>(s: seq<T>, t: seq<T>, lo0: int, lo: int, hi: int, cmp: (T, T) -> int)
  {
    && 0 <= lo0 <= lo <= hi <= |s|
    && Rearranged(s, t, lo0, hi)
    && (TotalPreorder(cmp) ==> Finished(t, lo0, lo, hi, cmp))
  }

  lemma AfterRound<T(!new)>(s: seq<T>, t: seq<T>, u: seq<T>, lo0: int, lo: int, hi: int, cmp: (T, T) -> int)
    requires LoopState(s, t, lo0, lo, hi, cmp) && Rearranged(t, u, lo, hi)
    ensures LoopState(s, u, lo0, lo, hi, cmp)
  {
    RearrangedWidens(t, u, lo, hi, lo0, hi);
    RearrangedTransitive(s, t, u, lo0, hi);
    if TotalPreorder(cmp) {
      FinishedSurvives(t, u, lo0, lo, hi, cmp);
    }
  }

  lemma AfterLess<T(!new)>(s: seq<T>, t: seq<T>, u: seq<T>, lo0: int, lo: int, m: int, g: int, hi: int, v: T, cmp: (T, T) -> int)
    requires LoopState(s, t, lo0, lo, hi, cmp) && lo <= m < g <= hi && Rearranged(t, u, lo, m)
    requires TotalPreorder(cmp) ==> Parts(t, lo, m, g, hi, v, cmp) && Sorted(u, lo, m, cmp)
    ensures LoopState(s, u, lo0, g, hi, cmp)
  {
    RearrangedWidens(t, u, lo, m, lo, hi);
    AfterRound(s, t, u, lo0, lo, hi, cmp);
    if TotalPreorder(cmp) {
      PartsSurvive(t, u, lo, m, g, hi, v, cmp);
      FinishedExtends(u, lo0, lo, m, g, hi, v, cmp);
    }
  }

  /** A finished prefix and a last part that is sorted make a sorted whole. */
  lemma LoopEnds<T(!new)>(s: seq<T>, t: seq<T>, lo0: int, lo: int, hi: int, cmp: (T, T) -> int)
    requires LoopState(s, t, lo0, lo, hi, cmp) && (TotalPreorder(cmp) ==> Sorted(t, lo, hi, cmp))
    ensures LoopState(s, t, lo0, hi, hi, cmp)
  {
  }

  /** One pass of the loop: the part that is left for the next pass is strictly smaller. */
  method Pass<T(!new)>(a: array<T>, ghost s: seq<T>, ghost lo0: int, lo: int, n: nat, cmp: (T, T) -> int)
    returns (lo': int, n': nat)
    requires n >= 7 && lo + n <= a.Length && LoopState(s, a[..], lo0, lo, lo + n, cmp)
    modifies a
    ensures n' < n && lo' + n' == lo + n && LoopState(s, a[..], lo0, lo', lo + n, cmp)
    decreases n, 0
  {
    ghost var hi, t := lo + n, a[..];
    var pn := lo + n;
    var m, g, done, v := Round(a, lo, pn, cmp);
    AfterRound(s, t, a[..], lo0, lo, hi, cmp);
    if done {
      LoopEnds(s, a[..], lo0, lo, hi, cmp);
      return pn, 0;
    }
    t := a[..];
    if m - lo > 1 {
      QSort(a, lo, m - lo, cmp);
    }
    AfterLess(s, t, a[..], lo0, lo, m, g, hi, v, cmp);
    if pn - g > 1 {
      lo', n' := g, pn - g;
    } else {
      LoopEnds(s, a[..], lo0, g, hi, cmp);
      lo', n' := pn, 0;
    }
  }

  /** qsort: sorts a[lo0 .. lo0 + n0) in place; the larger elements are handled by the loop, the smaller by recursion. */
  method QSort<T(!new)>(a: array<T>, lo0: int, n0: nat, cmp: (T, T) -> int)
    requires 0 <= lo0 && lo0 + n0 <= a.Length
    modifies a
    ensures Rearranged(old(a[..]), a[..], lo0, lo0 + n0)
    ensures TotalPreorder(cmp) ==> Sorted(a[..], lo0, lo0 + n0, cmp)
    decreases n0, 1
  {
    var lo, n := lo0, n0;
    ghost var hi, s := lo0 + n0, a[..];
    while n >= 7
      invariant 0 <= n <= n0 && lo + n == hi
      invariant LoopState(s, a[..], lo0, lo, hi, cmp)
      decreases n
    {
      lo, n := Pass(a, s, lo0, lo, n, cmp);
    }
    ghost var t := a[..];
    InsertionSort(a, lo, lo + n, cmp);
    AfterRound(s, t, a[..], lo0, lo, hi, cmp);
    LoopEnds(s, a[..], lo0, lo, hi, cmp);
  }
}
