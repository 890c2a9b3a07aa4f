/** Erasure lists, and which device stands in for which lost one. */
module Erasures {
  import opened Options

  ghost predicate NoRepeats<T(!new)>(s: seq<T>) {
    forall i, j | 0 <= i < j < |s| :: s[i] != s[j]
  }

  ghost function Elements<T(!new)>(s: seq<T>): set<T> { set x | x in s }

  lemma ElementsSnoc<T(!new)>(s: seq<T>, x: T)
    ensures Elements(s + [x]) == Elements(s) + {x}
  {
  }

  lemma ElementCount<T(!new)>(s: seq<T>)
    ensures |Elements(s)| <= |s|
    ensures NoRepeats(s) ==> |Elements(s)| == |s|
  {
    if |s| > 0 {
      var rest, x := s[..|s| - 1], s[|s| - 1];
      assert s == rest + [x];
      ElementsSnoc(rest, x);
      ElementCount(rest);
    }
  }

  // The positions in [lo, hi) where the flag is v, in order.
  function Where(erased: seq<bool>, lo: nat, hi: nat, v: bool): (r: seq<nat>)
    requires lo <= hi <= |erased|
    ensures forall x | 0 <= x < |r| :: lo <= r[x] < hi && erased[r[x]] == v
  {
    if lo == hi then [] else
      Where(erased, lo, hi - 1, v) + if erased[hi - 1] == v then [hi - 1] else []
  }

  lemma WhereLast(erased: seq<bool>, lo: nat, hi: nat, v: bool)
    requires lo < hi <= |erased|
    ensures Where(erased, lo, hi, v) == Where(erased, lo, hi - 1, v) + if erased[hi - 1] == v then [hi - 1] else []
  {
  }

  lemma WhereEmpty(erased: seq<bool>, lo: nat, v: bool)
    requires lo <= |erased|
    ensures Where(erased, lo, lo, v) == []
  {
  }

  ghost predicate Increasing(s: seq<nat>) {
    forall x, y | 0 <= x < y < |s| :: s[x] < s[y]
  }

  lemma {:induction false} WhereOrdered(erased: seq<bool>, lo: nat, hi: nat, v: bool)
    requires lo <= hi <= |erased|
    ensures Increasing(Where(erased, lo, hi, v))
    ensures forall i | lo <= i < hi && erased[i] == v :: i in Where(erased, lo, hi, v)
  {
    hide Where;
    if lo == hi {
      WhereEmpty(erased, lo, v);
    } else {
      WhereOrdered(erased, lo, hi - 1, v);
      WhereLast(erased, lo, hi, v);
    }
  }

  lemma WhereAppend(erased: seq<bool>, lo: nat, mid: nat, hi: nat, v: bool)
    requires lo <= mid <= hi <= |erased|
    ensures Where(erased, lo, hi, v) == Where(erased, lo, mid, v) + Where(erased, mid, hi, v)
  {
  }

  lemma WhereCounts(erased: seq<bool>, lo: nat, hi: nat)
    requires lo <= hi <= |erased|
    ensures |Where(erased, lo, hi, true)| + |Where(erased, lo, hi, false)| == hi - lo
  {
  }

  // erased flags exactly the listed devices.
  ghost predicate Flags(erased: seq<bool>, erasures: seq<nat>) {
    && (forall i | 0 <= i < |erasures| :: erasures[i] < |erased|)
    && forall d | 0 <= d < |erased| :: erased[d] <==> d in erasures
  }

  lemma LostCount(erased: seq<bool>, erasures: seq<nat>)
    requires Flags(erased, erasures)
    ensures |Where(erased, 0, |erased|, true)| == |Elements(erasures)|
  {
    var lost := Where(erased, 0, |erased|, true);
    WhereOrdered(erased, 0, |erased|, true);
    ElementCount(lost);
    assert Elements(lost) == Elements(erasures);
  }

  /** jerasure_erasures_to_erased: a flag for every device, or null when fewer than k devices survive. */
  method ErasuresToErased(k: nat, m: nat, erasures: seq<nat>) returns (erased: array?<bool>)
    requires forall i | 0 <= i < |erasures| :: erasures[i] < k + m
    ensures erased == null <==> |Elements(erasures)| > m
    ensures erased != null ==> fresh(erased) && erased.Length == k + m && Flags(erased[..], erasures)
  {
    hide Elements;
    var td := k + m;
    var tNonErased := td;
    var flags := new bool[td](i => false);
    NoElements(erasures);
    for i := 0 to |erasures|
      invariant forall d | 0 <= d < td :: flags[d] <==> d in erasures[..i]
      invariant tNonErased == td - |Elements(erasures[..i])| >= k
    {
      NextElement(erasures, i);
      if !flags[erasures[i]] {
        flags[erasures[i]] := true;
        tNonErased := tNonErased - 1;
        if tNonErased < k {
          MoreElements(erasures[..i + 1], erasures);
          return null;
        }
      }
    }
    assert erasures[..|erasures|] == erasures;
    return flags;
  }

  lemma NoElements(s: seq<nat>)
    ensures |Elements(s[..0])| == 0
  {
  }

  lemma NextElement(s: seq<nat>, i: nat)
    requires i < |s|
    ensures |Elements(s[..i + 1])| == |Elements(s[..i])| + if s[i] in s[..i] then 0 else 1
    ensures forall d :: d in s[..i + 1] <==> d in s[..i] || d == s[i]
    ensures s[..i + 1] <= s
  {
    assert s[..i + 1] == s[..i] + [s[i]];
    ElementsSnoc(s[..i], s[i]);
    assert s[i] in s[..i] ==> Elements(s[..i]) + {s[i]} == Elements(s[..i]);
  }

  lemma MoreElements(a: seq<nat>, b: seq<nat>)
    requires a <= b
    ensures |Elements(a)| <= |Elements(b)|
  {
    assert Elements(a) <= Elements(b);
    SubsetCount(Elements(a), Elements(b));
  }

  lemma SubsetCount(a: set<nat>, b: set<nat>)
    requires a <= b
    ensures |a| <= |b|
  {
    assert b == a + (b - a);
    assert |b| == |a| + |b - a|;
  }

  // ---- Which device each pointer names (set_up_ids_for_scheduled_decoding).

  lemma {:induction false} FirstWhere(erased: seq<bool>, lo: nat, hi: nat, v: bool)
    requires lo < hi <= |erased| && erased[lo] == v
    ensures |Where(erased, lo, hi, v)| > 0 && Where(erased, lo, hi, v)[0] == lo
  {
    if lo + 1 < hi {
      FirstWhere(erased, lo, hi - 1, v);
    } else {
      assert Where(erased, lo, lo, v) == [];
    }
  }

  ghost predicate Recoverable(erased: seq<bool>, k: nat) {
    k <= |erased| && |Where(erased, 0, k, true)| <= |Where(erased, k, |erased|, false)|
  }

  // A surviving data device stands for itself; the lost ones take the surviving coding devices in order.
  ghost function StandIn(erased: seq<bool>, k: nat, i: nat): (d: nat)
    requires Recoverable(erased, k) && i < k
    ensures d < |erased| && !erased[d]
    ensures if erased[i] then d >= k else d == i
  {
    if !erased[i] then i else
      WhereAppend(erased, 0, i, k, true);
      FirstWhere(erased, i, k, true);
      Where(erased, k, |erased|, false)[|Where(erased, 0, i, true)|]
  }

  /** The device behind each pointer: stand-ins for the data, then lost data, then lost coding devices. */
  ghost function RowIds(erased: seq<bool>, k: nat): (ids: seq<nat>)
    requires Recoverable(erased, k)
    ensures |ids| == k + |Where(erased, 0, k, true)| + |Where(erased, k, |erased|, true)|
    ensures forall x | 0 <= x < |ids| :: ids[x] < |erased|
  {
    seq(k, i requires 0 <= i < k => StandIn(erased, k, i)) +
    Where(erased, 0, k, true) + Where(erased, k, |erased|, true)
  }

  lemma StandInsDiffer(erased: seq<bool>, k: nat, i: nat, j: nat)
    requires Recoverable(erased, k) && i < j < k
    ensures StandIn(erased, k, i) != StandIn(erased, k, j)
  {
    if erased[i] && erased[j] {
      WhereOrdered(erased, k, |erased|, false);
      WhereAppend(erased, 0, i, j, true);
      FirstWhere(erased, i, j, true);
      WhereAppend(erased, 0, j, k, true);
      FirstWhere(erased, j, k, true);
    }
  }

  lemma RowIdAt(erased: seq<bool>, k: nat, x: nat)
    requires Recoverable(erased, k) && x < |RowIds(erased, k)|
    ensures var lost, more := Where(erased, 0, k, true), Where(erased, k, |erased|, true);
      RowIds(erased, k)[x] ==
        if x < k then StandIn(erased, k, x) else if x < k + |lost| then lost[x - k] else more[x - k - |lost|]
  {
    hide StandIn, Where;
  }

  lemma RowIdsDiffer(erased: seq<bool>, k: nat, i: nat, j: nat)
    requires Recoverable(erased, k) && i < j < |RowIds(erased, k)|
    ensures RowIds(erased, k)[i] != RowIds(erased, k)[j]
  {
    hide RowIds, StandIn, Where;
    RowIdAt(erased, k, i);
    RowIdAt(erased, k, j);
    if j < k {
      StandInsDiffer(erased, k, i, j);
    } else if i >= k {
      WhereOrdered(erased, 0, k, true);
      WhereOrdered(erased, k, |erased|, true);
    }
  }

  lemma RowIdsDistinct(erased: seq<bool>, k: nat)
    requires Recoverable(erased, k)
    ensures NoRepeats(RowIds(erased, k))
    ensures forall d | 0 <= d < |erased| && erased[d] :: d in RowIds(erased, k)[k..]
  {
    hide StandIn, Where;
    var ids := RowIds(erased, k);
    WhereOrdered(erased, 0, k, true);
    WhereOrdered(erased, k, |erased|, true);
    forall i, j | 0 <= i < j < |ids|
      ensures ids[i] != ids[j]
    {
      RowIdsDiffer(erased, k, i, j);
    }
    assert ids[k..] == Where(erased, 0, k, true) + Where(erased, k, |erased|, true);
  }

  /** The order of the pointers: a surviving data device stands in its own place, the lost ones take the surviving
      coding devices in increasing order and leave none out, and the lost devices follow in increasing order. */
  lemma RowIdsInOrder(erased: seq<bool>, k: nat)
    requires Recoverable(erased, k)
    ensures forall i | 0 <= i < k && !erased[i] :: RowIds(erased, k)[i] == i
    ensures forall i, j | 0 <= i < j < k && erased[i] && erased[j] :: RowIds(erased, k)[i] < RowIds(erased, k)[j]
    ensures forall i, d | 0 <= i < k && erased[i] && k <= d < RowIds(erased, k)[i] && !erased[d] ::
      exists j | 0 <= j < i :: erased[j] && RowIds(erased, k)[j] == d
    ensures Increasing(RowIds(erased, k)[k..])
  {
    hide RowIds, StandIn, Where;
    var ids := RowIds(erased, k);
    forall i | 0 <= i < k
      ensures ids[i] == StandIn(erased, k, i) && (!erased[i] ==> ids[i] == i)
    {
      StandInFirst(erased, k, i);
    }
    forall i, j | 0 <= i < j < k && erased[i] && erased[j]
      ensures ids[i] < ids[j]
    {
      StandInsAscend(erased, k, i, j);
    }
    forall i, d | 0 <= i < k && erased[i] && k <= d < ids[i] && !erased[d]
      ensures exists j | 0 <= j < i :: erased[j] && ids[j] == d
    {
      var j := EarlierLost'(erased, k, i, d);
    }
    LaterIds(erased, k);
  }

  lemma StandInsAscend(erased: seq<bool>, k: nat, i: nat, j: nat)
    requires Recoverable(erased, k) && i < j < k && erased[i] && erased[j]
    ensures StandIn(erased, k, i) < StandIn(erased, k, j)
  {
    WhereOrdered(erased, k, |erased|, false);
    WhereAppend(erased, 0, i, j, true);
    FirstWhere(erased, i, j, true);
    WhereAppend(erased, 0, j, k, true);
    FirstWhere(erased, j, k, true);
  }

  // A surviving coding device before the stand-in for i stands in for an earlier lost device.
  lemma EarlierLost'(erased: seq<bool>, k: nat, i: nat, d: nat) returns (j: nat)
    requires Recoverable(erased, k) && i < k && erased[i] && k <= d < StandIn(erased, k, i) && !erased[d]
    ensures j < i && erased[j] && StandIn(erased, k, j) == d
  {
    var lost, coding := Where(erased, 0, i, true), Where(erased, k, |erased|, false);
    WhereAppend(erased, 0, i, k, true);
    FirstWhere(erased, i, k, true);
    WhereOrdered(erased, k, |erased|, false);
    var x :| 0 <= x < |coding| && coding[x] == d;
    assert x < |lost| by { assert coding[|lost|] == StandIn(erased, k, i); }
    j := lost[x];
    CountBefore(erased, 0, i, true, x);
  }

  // The x-th position with flag v has x of them before it.
  lemma {:induction false} CountBefore(erased: seq<bool>, lo: nat, hi: nat, v: bool, x: nat)
    requires lo <= hi <= |erased| && x < |Where(erased, lo, hi, v)|
    ensures |Where(erased, lo, Where(erased, lo, hi, v)[x], v)| == x
  {
    if lo < hi && x < |Where(erased, lo, hi - 1, v)| {
      CountBefore(erased, lo, hi - 1, v, x);
    }
  }

  lemma LaterIds(erased: seq<bool>, k: nat)
    requires Recoverable(erased, k)
    ensures Increasing(RowIds(erased, k)[k..])
  {
    hide Where, StandIn;
    var lost, more := Where(erased, 0, k, true), Where(erased, k, |erased|, true);
    WhereOrdered(erased, 0, k, true);
    WhereOrdered(erased, k, |erased|, true);
    assert RowIds(erased, k)[k..] == lost + more;
  }

  // The next surviving coding device at or after j is the stand-in for the lost data device i.
  lemma StandInNext(erased: seq<bool>, k: nat, i: nat, j: nat)
    requires Recoverable(erased, k) && i < k <= j < |erased| && erased[i] && !erased[j]
    requires |Where(erased, k, j, false)| == |Where(erased, 0, i, true)|
    ensures StandIn(erased, k, i) == j
    ensures |Where(erased, k, j + 1, false)| == |Where(erased, 0, i + 1, true)|
  {
    WhereAppend(erased, k, j, |erased|, false);
    FirstWhere(erased, j, |erased|, false);
  }

  // There is one.
  lemma StandInAhead(erased: seq<bool>, k: nat, i: nat, j: nat)
    requires Recoverable(erased, k) && i < k <= j <= |erased| && erased[i]
    requires |Where(erased, k, j, false)| == |Where(erased, 0, i, true)|
    ensures StandIn(erased, k, i) >= j
  {
    WhereAppend(erased, 0, i, k, true);
    FirstWhere(erased, i, k, true);
    WhereAppend(erased, k, j, |erased|, false);
  }

  method NextSurvivor(erased: array<bool>, k: nat, i: nat, start: nat) returns (j: nat)
    requires Recoverable(erased[..], k) && i < k <= start <= erased.Length && erased[i]
    requires |Where(erased[..], k, start, false)| == |Where(erased[..], 0, i, true)|
    ensures k <= j < erased.Length && j == StandIn(erased[..], k, i) && !erased[j]
    ensures |Where(erased[..], k, j + 1, false)| == |Where(erased[..], 0, i + 1, true)|
  {
    hide StandIn, Recoverable;
    j := start;
    StandInAhead(erased[..], k, i, j);
    while erased[j]
      invariant start <= j <= StandIn(erased[..], k, i)
      invariant |Where(erased[..], k, j, false)| == |Where(erased[..], 0, i, true)|
      decreases erased.Length - j
    {
      j := j + 1;
    }
    StandInNext(erased[..], k, i, j);
  }

  // Every pointer entry up to x names the right device, and the lost devices below d know theirs.
  ghost predicate IdsUpTo(rowIds: array<int>, indToRow: array<int>, e: seq<bool>, k: nat, data: nat, x: nat, d: nat)
    requires Recoverable(e, k)
    reads rowIds, indToRow
  {
    && rowIds != indToRow && rowIds.Length == indToRow.Length == |e|
    && data <= k <= x <= |RowIds(e, k)| <= |e| && d <= |e|
    && (forall y | 0 <= y < data :: rowIds[y] == RowIds(e, k)[y])
    && (forall y | k <= y < x :: rowIds[y] == RowIds(e, k)[y])
    && (forall i | 0 <= i < d && e[i] :: k <= indToRow[i] < x && RowIds(e, k)[indToRow[i]] == i)
  }

  lemma LostAt(e: seq<bool>, k: nat, d: nat)
    requires Recoverable(e, k) && d < |e| && e[d]
    ensures d < k ==> k + |Where(e, 0, d, true)| < |RowIds(e, k)| && RowIds(e, k)[k + |Where(e, 0, d, true)|] == d
    ensures d >= k ==>
      var x := k + |Where(e, 0, k, true)| + |Where(e, k, d, true)|; x < |RowIds(e, k)| && RowIds(e, k)[x] == d
  {
    hide Where, StandIn, RowIds;
    if d < k {
      WhereAppend(e, 0, d, k, true);
      FirstWhere(e, d, k, true);
      RowIdAt(e, k, k + |Where(e, 0, d, true)|);
    } else {
      WhereAppend(e, k, d, |e|, true);
      FirstWhere(e, d, |e|, true);
      RowIdAt(e, k, k + |Where(e, 0, k, true)| + |Where(e, k, d, true)|);
    }
  }

  // Once the flags are known: rowIds names the device behind each pointer, and indToRow finds the pointer of
  // every lost device.
  method NameIds(k: nat, erased: array<bool>, rowIds: array<int>, indToRow: array<int>)
    requires Recoverable(erased[..], k)
    requires rowIds.Length == indToRow.Length == erased.Length && rowIds != indToRow
    modifies rowIds, indToRow
    ensures IdsUpTo(rowIds, indToRow, erased[..], k, k, |RowIds(erased[..], k)|, erased.Length)
  {
    hide RowIds, StandIn, IdsUpTo, Where;
    ghost var e := erased[..];
    var j, x := k, k;
    NoIds(rowIds, indToRow, e, k);
    for i := 0 to k
      invariant k <= j <= erased.Length && |Where(e, k, j, false)| == |Where(e, 0, i, true)|
      invariant x == k + |Where(e, 0, i, true)|
      invariant IdsUpTo(rowIds, indToRow, e, k, i, x, i)
    {
      StandInFirst(e, k, i);
      WhereNext(e, 0, i);
      if !erased[i] {
        RecordSelf(k, e, rowIds, indToRow, i, x);
      } else {
        LostAt(e, k, i);
        j := NextSurvivor(erased, k, i, j);
        RecordStandIn(k, e, rowIds, indToRow, i, j, x);
        j := j + 1;
        x := x + 1;
      }
    }
    SetUpCodingIds(k, erased, rowIds, indToRow, x);
  }

  lemma NoIds(rowIds: array<int>, indToRow: array<int>, e: seq<bool>, k: nat)
    requires Recoverable(e, k) && rowIds != indToRow && rowIds.Length == indToRow.Length == |e|
    ensures IdsUpTo(rowIds, indToRow, e, k, 0, k, 0) && |Where(e, k, k, false)| == |Where(e, 0, 0, true)| == 0
  {
    WhereCounts(e, k, |e|);
  }

  lemma WhereNext(e: seq<bool>, lo: nat, i: nat)
    requires lo <= i < |e|
    ensures |Where(e, lo, i + 1, true)| == |Where(e, lo, i, true)| + if e[i] then 1 else 0
  {
  }

  // Data device i stands for itself.
  method RecordSelf(k: nat, ghost e: seq<bool>, rowIds: array<int>, indToRow: array<int>, i: nat, x: nat)
    requires Recoverable(e, k) && i < k && !e[i] && RowIds(e, k)[i] == i
    requires IdsUpTo(rowIds, indToRow, e, k, i, x, i)
    modifies rowIds, indToRow
    ensures IdsUpTo(rowIds, indToRow, e, k, i + 1, x, i + 1)
  {
    hide RowIds;
    rowIds[i] := i;
    indToRow[i] := i;
  }

  // Device j stands in for the lost data device i, whose own pointer is number x.
  method RecordStandIn(k: nat, ghost e: seq<bool>, rowIds: array<int>, indToRow: array<int>, i: nat, j: nat, x: nat)
    requires Recoverable(e, k) && i < k <= j < |e| && e[i] && !e[j] && x < |RowIds(e, k)|
    requires RowIds(e, k)[i] == j && RowIds(e, k)[x] == i
    requires IdsUpTo(rowIds, indToRow, e, k, i, x, i)
    modifies rowIds, indToRow
    ensures IdsUpTo(rowIds, indToRow, e, k, i + 1, x + 1, i + 1)
  {
    hide RowIds;
    rowIds[i] := j;
    indToRow[j] := i;
    rowIds[x] := i;
    indToRow[i] := x;
  }

  method SetUpCodingIds(k: nat, erased: array<bool>, rowIds: array<int>, indToRow: array<int>, start: nat)
    requires Recoverable(erased[..], k) && start == k + |Where(erased[..], 0, k, true)|
    requires IdsUpTo(rowIds, indToRow, erased[..], k, k, start, k)
    modifies rowIds, indToRow
    ensures IdsUpTo(rowIds, indToRow, erased[..], k, k, |RowIds(erased[..], k)|, erased.Length)
  {
    hide RowIds, StandIn, IdsUpTo, Where;
    ghost var e := erased[..];
    var x := start;
    NoneYet(e, k);
    for i := k to erased.Length
      invariant x == start + |Where(e, k, i, true)|
      invariant IdsUpTo(rowIds, indToRow, e, k, k, x, i)
    {
      WhereNext(e, k, i);
      if erased[i] {
        LostAt(e, k, i);
        RecordLost(k, e, rowIds, indToRow, i, x);
        x := x + 1;
      } else {
        NotLost(rowIds, indToRow, e, k, x, i);
      }
    }
  }

  lemma NoneYet(e: seq<bool>, k: nat)
    requires k <= |e|
    ensures |Where(e, k, k, true)| == 0
  {
  }

  lemma NotLost(rowIds: array<int>, indToRow: array<int>, e: seq<bool>, k: nat, x: nat, i: nat)
    requires Recoverable(e, k) && i < |e| && !e[i] && IdsUpTo(rowIds, indToRow, e, k, k, x, i)
    ensures IdsUpTo(rowIds, indToRow, e, k, k, x, i + 1)
  {
    hide RowIds;
  }

  method RecordLost(k: nat, ghost e: seq<bool>, rowIds: array<int>, indToRow: array<int>, i: nat, x: nat)
    requires Recoverable(e, k) && k <= i < |e| && e[i] && x < |RowIds(e, k)| && RowIds(e, k)[x] == i
    requires IdsUpTo(rowIds, indToRow, e, k, k, x, i)
    modifies rowIds, indToRow
    ensures IdsUpTo(rowIds, indToRow, e, k, k, x + 1, i + 1)
  {
    hide RowIds;
    rowIds[x] := i;
    indToRow[i] := x;
  }

  lemma StandInFirst(e: seq<bool>, k: nat, i: nat)
    requires Recoverable(e, k) && i < k
    ensures RowIds(e, k)[i] == StandIn(e, k, i)
    ensures !e[i] ==> StandIn(e, k, i) == i
  {
  }

  // The same for the pointers.
  method ArrangePtrs<T>(k: nat, erased: array<bool>, devices: seq<T>) returns (ptrs: seq<T>)
    requires Recoverable(erased[..], k) && |devices| == erased.Length
    ensures |ptrs| == |RowIds(erased[..], k)|
    ensures forall x | 0 <= x < |ptrs| :: ptrs[x] == devices[RowIds(erased[..], k)[x]]
  {
    hide RowIds, StandIn;
    ghost var e := erased[..];
    var front, back := SetUpDataPtrs(k, erased, devices);
    var rest := SetUpCodingPtrs(k, erased, devices);
    ptrs := front + back + rest;
    forall x | 0 <= x < |ptrs|
      ensures ptrs[x] == devices[RowIds(e, k)[x]]
    {
      RowIdAt(e, k, x);
    }
  }

  ghost predicate FrontUpTo<T>(e: seq<bool>, k: nat, devices: seq<T>, front: seq<T>, i: nat)
    requires Recoverable(e, k) && |devices| == |e| && i <= k
  {
    |front| == i && forall y | 0 <= y < i :: front[y] == devices[StandIn(e, k, y)]
  }

  ghost predicate BackUpTo<T>(e: seq<bool>, devices: seq<T>, back: seq<T>, i: nat)
    requires i <= |e| == |devices|
  {
    |back| == |Where(e, 0, i, true)| && forall y | 0 <= y < |back| :: back[y] == devices[Where(e, 0, i, true)[y]]
  }

  lemma NoPtrsYet<T>(e: seq<bool>, k: nat, devices: seq<T>)
    requires Recoverable(e, k) && |devices| == |e|
    ensures k <= |e| && |Where(e, 0, 0, true)| == |Where(e, k, k, false)|
    ensures FrontUpTo(e, k, devices, [], 0) && BackUpTo(e, devices, [], 0)
  {
  }

  lemma SurvivorPtr<T>(e: seq<bool>, k: nat, devices: seq<T>, front: seq<T>, back: seq<T>, i: nat)
    requires Recoverable(e, k) && |devices| == |e| && i < k && FrontUpTo(e, k, devices, front, i)
    requires BackUpTo(e, devices, back, i) && !e[i]
    ensures FrontUpTo(e, k, devices, front + [devices[i]], i + 1) && BackUpTo(e, devices, back, i + 1)
    ensures |Where(e, 0, i + 1, true)| == |Where(e, 0, i, true)|
  {
    assert Where(e, 0, i + 1, true) == Where(e, 0, i, true);
    hide Where, Recoverable;
  }

  lemma LostPtr<T>(e: seq<bool>, k: nat, devices: seq<T>, front: seq<T>, back: seq<T>, i: nat, j: nat)
    requires Recoverable(e, k) && |devices| == |e| && i < k && FrontUpTo(e, k, devices, front, i)
    requires BackUpTo(e, devices, back, i) && e[i]
    requires j == StandIn(e, k, i)
    ensures FrontUpTo(e, k, devices, front + [devices[j]], i + 1) && BackUpTo(e, devices, back + [devices[i]], i + 1)
  {
    assert Where(e, 0, i + 1, true) == Where(e, 0, i, true) + [i];
    hide Where, Recoverable, StandIn;
  }

  lemma PtrsThere<T>(e: seq<bool>, k: nat, devices: seq<T>, front: seq<T>, back: seq<T>)
    requires Recoverable(e, k) && |devices| == |e| && FrontUpTo(e, k, devices, front, k)
    requires BackUpTo(e, devices, back, k)
    ensures |front| == k && forall y | 0 <= y < k :: front[y] == devices[StandIn(e, k, y)]
    ensures |back| == |Where(e, 0, k, true)|
    ensures forall y | 0 <= y < |back| :: back[y] == devices[Where(e, 0, k, true)[y]]
  {
  }

  // The pointers of the stand-ins, and of the lost data devices.
  method SetUpDataPtrs<T>(k: nat, erased: array<bool>, devices: seq<T>) returns (front: seq<T>, back: seq<T>)
    requires Recoverable(erased[..], k) && |devices| == erased.Length
    ensures |front| == k && forall y | 0 <= y < k :: front[y] == devices[StandIn(erased[..], k, y)]
    ensures |back| == |Where(erased[..], 0, k, true)|
    ensures forall y | 0 <= y < |back| :: back[y] == devices[Where(erased[..], 0, k, true)[y]]
  {
    hide StandIn, Where, FrontUpTo, BackUpTo, Recoverable;
    ghost var e := erased[..];
    front, back := [], [];
    var j := k;
    NoPtrsYet(e, k, devices);
    for i := 0 to k
      invariant k <= j <= erased.Length && |Where(e, k, j, false)| == |Where(e, 0, i, true)|
      invariant FrontUpTo(e, k, devices, front, i) && BackUpTo(e, devices, back, i)
    {
      if !erased[i] {
        SurvivorPtr(e, k, devices, front, back, i);
        front := front + [devices[i]];
      } else {
        j := NextSurvivor(erased, k, i, j);
        LostPtr(e, k, devices, front, back, i, j);
        front := front + [devices[j]];
        j := j + 1;
        back := back + [devices[i]];
      }
    }
    PtrsThere(e, k, devices, front, back);
  }

  method SetUpCodingPtrs<T>(k: nat, erased: array<bool>, devices: seq<T>) returns (rest: seq<T>)
    requires k <= |devices| == erased.Length
    ensures |rest| == |Where(erased[..], k, erased.Length, true)|
    ensures forall y | 0 <= y < |rest| :: rest[y] == devices[Where(erased[..], k, erased.Length, true)[y]]
  {
    ghost var e := erased[..];
    rest := [];
    for i := k to erased.Length
      invariant |rest| == |Where(e, k, i, true)|
      invariant forall y | 0 <= y < |rest| :: rest[y] == devices[Where(e, k, i, true)[y]]
    {
      if erased[i] {
        rest := rest + [devices[i]];
      }
    }
  }

  // ---- Counting the list.

  function FlagsOf(n: nat, erasures: seq<nat>): (e: seq<bool>)
    ensures |e| == n
  {
    seq(n, d => d in erasures)
  }

  function CountBelow(erasures: seq<nat>, k: nat): (c: nat)
    ensures c <= |erasures|
  {
    if |erasures| == 0 then 0 else
      CountBelow(erasures[..|erasures| - 1], k) + if erasures[|erasures| - 1] < k then 1 else 0
  }

  ghost function Below(s: seq<nat>, k: nat): set<nat> { set x | x in s && x < k }

  lemma {:induction false} CountBelowElements(erasures: seq<nat>, k: nat)
    requires NoRepeats(erasures)
    ensures CountBelow(erasures, k) == |Below(erasures, k)|
  {
    if |erasures| > 0 {
      var rest, last := erasures[..|erasures| - 1], erasures[|erasures| - 1];
      CountBelowElements(rest, k);
      BelowSnoc(rest, last, k);
      assert erasures == rest + [last];
    }
  }

  lemma BelowSnoc(rest: seq<nat>, last: nat, k: nat)
    requires last !in rest
    ensures |Below(rest + [last], k)| == |Below(rest, k)| + if last < k then 1 else 0
  {
    assert Below(rest + [last], k) == if last < k then Below(rest, k) + {last} else Below(rest, k);
  }

  lemma LostBelow(e: seq<bool>, erasures: seq<nat>, k: nat)
    requires Flags(e, erasures) && k <= |e|
    ensures |Where(e, 0, k, true)| == |Below(erasures, k)|
  {
    WhereOrdered(e, 0, k, true);
    ElementCount(Where(e, 0, k, true));
    assert Elements(Where(e, 0, k, true)) == Below(erasures, k);
  }

  // Counting the entries of a list without repeats counts the lost devices.
  lemma CountsMatch(k: nat, m: nat, erasures: seq<nat>)
    requires NoRepeats(erasures) && forall i | 0 <= i < |erasures| :: erasures[i] < k + m
    ensures var e := FlagsOf(k + m, erasures);
      && Flags(e, erasures)
      && |Where(e, 0, k, true)| == CountBelow(erasures, k)
      && |Where(e, k, k + m, true)| == |erasures| - CountBelow(erasures, k)
      && |Elements(erasures)| == |erasures|
      && (|erasures| <= m ==> Recoverable(e, k))
  {
    hide Where, CountBelow;
    var e := FlagsOf(k + m, erasures);
    CountBelowElements(erasures, k);
    LostBelow(e, erasures, k);
    LostCount(e, erasures);
    ElementCount(erasures);
    WhereAppend(e, 0, k, k + m, true);
    WhereCounts(e, k, k + m);
  }

  lemma FlagsUnique(e: seq<bool>, erasures: seq<nat>)
    requires Flags(e, erasures)
    ensures e == FlagsOf(|e|, erasures)
  {
  }

  /** How many of the listed devices are data and how many are coding devices. */
  method CountErasures(k: nat, erasures: seq<nat>) returns (ddf: nat, cdf: nat)
    ensures ddf == CountBelow(erasures, k) && cdf == |erasures| - ddf
  {
    ddf, cdf := 0, 0;
    for i := 0 to |erasures|
      invariant ddf == CountBelow(erasures[..i], k) && cdf == i - ddf
    {
      assert erasures[..i + 1][..i] == erasures[..i];
      if erasures[i] < k {
        ddf := ddf + 1;
      } else {
        cdf := cdf + 1;
      }
    }
    assert erasures[..|erasures|] == erasures;
  }

  lemma FlagsRecoverable(k: nat, m: nat, e: seq<bool>, erasures: seq<nat>)
    requires Flags(e, erasures) && |e| == k + m && |Elements(erasures)| <= m
    ensures Recoverable(e, k)
  {
    LostCount(e, erasures);
    WhereAppend(e, 0, k, k + m, true);
    WhereCounts(e, k, k + m);
  }

  /** set_up_ids_for_scheduled_decoding: -1, leaving both arrays alone, exactly when more than m devices are lost;
      otherwise rowIds names the device behind each pointer and indToRow finds the pointer of every lost device. */
  method SetUpIds(k: nat, m: nat, erasures: seq<nat>, rowIds: array<int>, indToRow: array<int>) returns (r: int)
    requires forall i | 0 <= i < |erasures| :: erasures[i] < k + m
    requires rowIds.Length == indToRow.Length == k + m && rowIds != indToRow
    modifies rowIds, indToRow
    ensures r == if |Elements(erasures)| > m then -1 else 0
    ensures r == -1 ==> rowIds[..] == old(rowIds[..]) && indToRow[..] == old(indToRow[..])
    ensures r == 0 ==> var e := FlagsOf(k + m, erasures);
      Recoverable(e, k) && IdsUpTo(rowIds, indToRow, e, k, k, |RowIds(e, k)|, k + m)
  {
    hide Elements, Where, RowIds, IdsUpTo;
    var erased := ErasuresToErased(k, m, erasures);
    if erased == null {
      return -1;
    }
    FlagsUnique(erased[..], erasures);
    FlagsRecoverable(k, m, erased[..], erasures);
    NameIds(k, erased, rowIds, indToRow);
    r := 0;
  }

  /** set_up_ptrs_for_scheduled_decoding: nothing exactly when more than m devices are lost, otherwise the pointers
      of the same devices in the same order. */
  method SetUpPtrs<T>(k: nat, m: nat, erasures: seq<nat>, devices: seq<T>) returns (ptrs: Option<seq<T>>)
    requires (forall i | 0 <= i < |erasures| :: erasures[i] < k + m) && |devices| == k + m
    ensures ptrs == None <==> |Elements(erasures)| > m
    ensures ptrs != None ==> var e := FlagsOf(k + m, erasures);
      && Recoverable(e, k) && |ptrs.value| == |RowIds(e, k)|
      && forall x | 0 <= x < |ptrs.value| :: ptrs.value[x] == devices[RowIds(e, k)[x]]
  {
    hide Elements, Where, RowIds;
    var erased := ErasuresToErased(k, m, erasures);
    if erased == null {
      return None;
    }
    FlagsUnique(erased[..], erasures);
    FlagsRecoverable(k, m, erased[..], erasures);
    var arranged := ArrangePtrs(k, erased, devices);
    ptrs := Some(arranged);
  }
}
