/**
 * The range query of ext/MMDB/MMDB.cc (`bin_search` and `query_internal`,
 * compiled out by `#if 0`): a scan over the slices of the database, each an
 * internally key-sorted batch, that visits every record whose key lies
 * field by field between the `from` and `to` keys, skipping runs of records
 * by binary search ("carry-forward").
 *
 * The record store those functions read (`RecordDB`, `record_n`,
 * `slices_beg`) is not part of this model: the slices are given directly as
 * sequences of rows.  A key is the sequence of its key fields' values, each
 * an unbounded integer; `compare_keys` is the lexicographic order over them.
 */
module MmdbQuery {
  import opened Bytes

  type Key = seq<int>

  /** One stored record: its key fields and its value bytes. */
  datatype Row = Row(key: Key, value: seq<Byte>)

  // ---------------------------------------------------------------------
  // Key order
  // ---------------------------------------------------------------------

  /** The first field at or after i where the two keys differ, or their length. */
  function DiffFrom(a: Key, b: Key, i: nat): (d: nat)
    requires |a| == |b| && i <= |a|
    ensures i <= d <= |a|
    ensures forall j :: i <= j < d ==> a[j] == b[j]
    ensures d < |a| ==> a[d] != b[d]
    decreases |a| - i
  {
    if i == |a| || a[i] != b[i] then i else DiffFrom(a, b, i + 1)
  }

  function Diff(a: Key, b: Key): nat
    requires |a| == |b|
  {
    DiffFrom(a, b, 0)
  }

  /** `compare_keys`: the sign of the first differing key field, 0 when all are equal. */
  function Cmp(a: Key, b: Key): int
    requires |a| == |b|
  {
    var d := Diff(a, b);
    if d == |a| then 0 else if a[d] < b[d] then -1 else 1
  }

  /** Any position that is a first difference is the first difference. */
  lemma DiffIs(a: Key, b: Key, d: nat)
    requires |a| == |b| && d <= |a|
    requires forall j :: 0 <= j < d ==> a[j] == b[j]
    requires d < |a| ==> a[d] != b[d]
    ensures Diff(a, b) == d
  {
  }

  lemma CmpAntisymmetric(a: Key, b: Key)
    requires |a| == |b|
    ensures Cmp(b, a) == -Cmp(a, b)
  {
    DiffIs(b, a, Diff(a, b));
  }

  /** The order is transitive, and strict as soon as one of the two steps is. */
  lemma CmpTransitive(a: Key, b: Key, c: Key)
    requires |a| == |b| == |c| && Cmp(a, b) <= 0 && Cmp(b, c) <= 0
    ensures Cmp(a, c) <= 0
    ensures Cmp(a, b) < 0 || Cmp(b, c) < 0 ==> Cmp(a, c) < 0
  {
    var d1, d2 := Diff(a, b), Diff(b, c);
    var m := if d1 < d2 then d1 else d2;
    DiffIs(a, c, m);
  }

  // ---------------------------------------------------------------------
  // The query box
  // ---------------------------------------------------------------------

  /** Every key field of c lies between the same field of `lo` and of `hi`. */
  predicate InBox(c: Key, lo: Key, hi: Key)
  {
    |c| == |lo| == |hi| && forall f :: 0 <= f < |c| ==> lo[f] <= c[f] <= hi[f]
  }

  /** A key inside the box lies between its corners in key order. */
  lemma InBoxBetween(c: Key, lo: Key, hi: Key)
    requires InBox(c, lo, hi)
    ensures Cmp(lo, c) <= 0 && Cmp(c, hi) <= 0
  {
  }

  /**
   * `keys_in_range_pos` from field f on: 0 when every field is within its
   * bounds, else for the first field g that is not, -(g+1) when it lies
   * below `lo` and g+1 when it lies above `hi` (the order of the tests of
   * a field's `between`).
   */
  function RangePos(c: Key, lo: Key, hi: Key, f: nat): (r: int)
    requires |c| == |lo| == |hi| && f <= |c|
    ensures r == 0 <==> forall g :: f <= g < |c| ==> lo[g] <= c[g] <= hi[g]
    ensures r < 0 ==> f <= -r - 1 < |c| && c[-r - 1] < lo[-r - 1]
    ensures r > 0 ==> f <= r - 1 < |c| && c[r - 1] > hi[r - 1]
    ensures r != 0 ==> var g := if r < 0 then -r - 1 else r - 1;
      forall h :: f <= h < g ==> lo[h] <= c[h] <= hi[h]
    decreases |c| - f
  {
    if f == |c| then 0
    else if c[f] < lo[f] then -(f + 1)
    else if c[f] > hi[f] then f + 1
    else RangePos(c, lo, hi, f + 1)
  }

  /** `copy_keys(current, from, f)`: the key fields from f on are replaced by those of `src`. */
  function CopyKeys(dst: Key, src: Key, f: nat): (r: Key)
    requires |dst| == |src| && f <= |dst|
    ensures |r| == |dst|
    ensures forall g :: 0 <= g < f ==> r[g] == dst[g]
    ensures forall g :: f <= g < |r| ==> r[g] == src[g]
  {
    dst[..f] + src[f..]
  }

  /** `increase_key(current, f)`: key field f steps up by one (no field-width wrap-around). */
  function IncreaseKey(k: Key, f: nat): (r: Key)
    requires f < |k|
    ensures |r| == |k| && r[f] == k[f] + 1
    ensures forall g :: 0 <= g < |k| && g != f ==> r[g] == k[g]
  {
    k[f := k[f] + 1]
  }

  /**
   * Carry-forward below: when field f > 0 of c is the first out of range and
   * lies below `lo`, every key from c on that sorts before c with its fields
   * from f replaced by those of `lo` is outside the box.
   */
  lemma SkipBelow(c: Key, r: Key, lo: Key, hi: Key, f: nat)
    requires |c| == |r| == |lo| == |hi| && f < |c| && c[f] < lo[f]
    requires Cmp(c, r) <= 0 && Cmp(r, CopyKeys(c, lo, f)) < 0
    ensures !InBox(r, lo, hi)
  {
    var cur := CopyKeys(c, lo, f);
    var d := Diff(r, cur);
    if d < f {
      DiffIs(c, r, d);
    } else {
      assert r[d] < lo[d];
    }
  }

  /**
   * Carry-forward above: when field f > 0 of c is the first out of range and
   * lies above `hi`, every key from c on that sorts before c with its fields
   * from f replaced by those of `lo` and field f-1 increased is outside the box.
   */
  lemma SkipAbove(c: Key, r: Key, lo: Key, hi: Key, f: nat)
    requires |c| == |r| == |lo| == |hi| && 0 < f < |c| && c[f] > hi[f]
    requires Cmp(c, r) <= 0 && Cmp(r, IncreaseKey(CopyKeys(c, lo, f), f - 1)) < 0
    ensures !InBox(r, lo, hi)
  {
    var cur := IncreaseKey(CopyKeys(c, lo, f), f - 1);
    var d := Diff(r, cur);
    if d < f - 1 {
      DiffIs(c, r, d);
    } else if d == f - 1 {
      if r[d] < c[d] {
        DiffIs(c, r, d);
      }
      var e := Diff(c, r);
      assert e >= f;
      assert r[f] >= c[f];
    } else {
      assert r[d] < lo[d];
    }
  }

  /** The leading field beyond `hi` ends the slice: every key from c on is outside the box. */
  lemma LeadAbove(c: Key, r: Key, lo: Key, hi: Key)
    requires |c| == |r| == |lo| == |hi| && 0 < |c| && c[0] > hi[0] && Cmp(c, r) <= 0
    ensures !InBox(r, lo, hi)
  {
  }

  // ---------------------------------------------------------------------
  // Sorted slices and what a scan should visit
  // ---------------------------------------------------------------------

  /** Every row has a key of K fields. */
  predicate Rows(s: seq<Row>, k: nat)
  {
    forall i :: 0 <= i < |s| ==> |s[i].key| == k
  }

  /** A slice is sorted by key, as `_put_bulk` writes it. */
  predicate Sorted(s: seq<Row>)
  {
    forall i, j :: 0 <= i < j < |s| ==> |s[i].key| == |s[j].key| && Cmp(s[i].key, s[j].key) <= 0
  }

  /** The rows of a slice whose keys lie in the box, in slice order. */
  function Filter(s: seq<Row>, lo: Key, hi: Key): seq<Row>
  {
    if s == [] then []
    else (if InBox(s[0].key, lo, hi) then [s[0]] else []) + Filter(s[1..], lo, hi)
  }

  /** The rows of all slices whose keys lie in the box, slice by slice. */
  function Matches(slices: seq<seq<Row>>, lo: Key, hi: Key): seq<Row>
  {
    if slices == [] then [] else Filter(slices[0], lo, hi) + Matches(slices[1..], lo, hi)
  }

  /** A row is matched exactly when it is in the slice and in the box. */
  lemma {:induction false} FilterMembers(s: seq<Row>, lo: Key, hi: Key, r: Row)
    ensures r in Filter(s, lo, hi) <==> r in s && InBox(r.key, lo, hi)
    decreases |s|
  {
    if s != [] {
      FilterMembers(s[1..], lo, hi, r);
      assert s == [s[0]] + s[1..];
    }
  }

  /** A row is matched by the query exactly when some slice holds it and it is in the box. */
  lemma {:induction false} MatchesMembers(slices: seq<seq<Row>>, lo: Key, hi: Key, r: Row)
    ensures r in Matches(slices, lo, hi) <==>
      (exists k :: 0 <= k < |slices| && r in slices[k]) && InBox(r.key, lo, hi)
    decreases |slices|
  {
    if slices != [] {
      MatchesMembers(slices[1..], lo, hi, r);
      FilterMembers(slices[0], lo, hi, r);
      if r in Matches(slices, lo, hi) && !(r in slices[0]) {
        var k :| 0 <= k < |slices[1..]| && r in slices[1..][k];
        assert r in slices[k + 1];
      }
      if (exists k :: 0 <= k < |slices| && r in slices[k]) && InBox(r.key, lo, hi) && !(r in slices[0]) {
        var k :| 0 <= k < |slices| && r in slices[k];
        assert r in slices[1..][k - 1];
      }
    }
  }

  lemma FilterAt(s: seq<Row>, i: nat, lo: Key, hi: Key)
    requires i < |s|
    ensures Filter(s[i..], lo, hi) == (if InBox(s[i].key, lo, hi) then [s[i]] else []) + Filter(s[i + 1..], lo, hi)
  {
    assert s[i..][1..] == s[i + 1..];
  }

  /** Skipping rows outside the box changes nothing to be visited. */
  lemma {:induction false} FilterSkip(s: seq<Row>, i: nat, p: nat, lo: Key, hi: Key)
    requires i <= p <= |s|
    requires forall j :: i <= j < p ==> !InBox(s[j].key, lo, hi)
    ensures Filter(s[i..], lo, hi) == Filter(s[p..], lo, hi)
    decreases p - i
  {
    if i < p {
      FilterAt(s, i, lo, hi);
      FilterSkip(s, i + 1, p, lo, hi);
    }
  }

  lemma MatchesAt(slices: seq<seq<Row>>, k: nat, lo: Key, hi: Key)
    requires k < |slices|
    ensures Matches(slices[k..], lo, hi) == Filter(slices[k], lo, hi) + Matches(slices[k + 1..], lo, hi)
  {
    assert slices[k..][1..] == slices[k + 1..];
  }

  // ---------------------------------------------------------------------
  // The iterator
  // ---------------------------------------------------------------------

  /**
   * Handing `rows` in order to the iterator after the records `log` were
   * handed to it: `cont` says, given those before, whether the query goes
   * on after a record.  The result is every record handed over and whether
   * the iterator never said stop.
   */
  function Feed(log: seq<Row>, rows: seq<Row>, cont: (seq<Row>, Row) -> bool): (seq<Row>, bool)
    decreases |rows|
  {
    if rows == [] then (log, true)
    else if cont(log, rows[0]) then Feed(log + [rows[0]], rows[1..], cont)
    else (log + [rows[0]], false)
  }

  /** Feeding two runs one after the other. */
  lemma {:induction false} FeedAppend(log: seq<Row>, a: seq<Row>, b: seq<Row>, cont: (seq<Row>, Row) -> bool)
    ensures Feed(log, a + b, cont) ==
      if Feed(log, a, cont).1 then Feed(Feed(log, a, cont).0, b, cont) else Feed(log, a, cont)
    decreases |a|
  {
    if a != [] {
      assert (a + b)[0] == a[0] && (a + b)[1..] == a[1..] + b;
      FeedAppend(log + [a[0]], a[1..], b, cont);
      if cont(log, a[0]) {
        assert Feed(log, a, cont) == Feed(log + [a[0]], a[1..], cont);
        assert Feed(log, a + b, cont) == Feed(log + [a[0]], a[1..] + b, cont);
      }
    } else {
      assert a + b == b;
    }
  }

  /**
   * The records handed over are the rows up to the one the iterator stopped
   * at, in order, and all of them when it never stopped; a stop is the
   * iterator's answer for the last record handed over.
   */
  lemma {:induction false} FeedPrefix(log: seq<Row>, rows: seq<Row>, cont: (seq<Row>, Row) -> bool)
    ensures var (v, ok) := Feed(log, rows, cont);
      |log| <= |v| <= |log| + |rows| && v == log + rows[..|v| - |log|]
    ensures var (v, ok) := Feed(log, rows, cont);
      (ok ==> v == log + rows) && (!ok ==> |v| > |log| && !cont(v[..|v| - 1], v[|v| - 1]))
    decreases |rows|
  {
    if rows != [] {
      FeedPrefix(log + [rows[0]], rows[1..], cont);
      var (v, ok) := Feed(log, rows, cont);
      if cont(log, rows[0]) {
        var n := |v| - |log| - 1;
        assert rows[..n + 1] == [rows[0]] + rows[1..][..n];
      } else {
        assert rows[..1] == [rows[0]];
      }
    }
  }

  /** An iterator that always goes on (`yield_iter`) is handed every row. */
  lemma {:induction false} FeedAll(log: seq<Row>, rows: seq<Row>, cont: (seq<Row>, Row) -> bool)
    requires forall l, r :: cont(l, r)
    ensures Feed(log, rows, cont) == (log + rows, true)
    decreases |rows|
  {
    if rows != [] {
      assert cont(log, rows[0]);
      FeedAll(log + [rows[0]], rows[1..], cont);
      assert log + [rows[0]] + rows[1..] == log + rows;
    } else {
      assert log + rows == log;
    }
  }

  // ---------------------------------------------------------------------
  // bin_search
  // ---------------------------------------------------------------------

  /** The first position in [l, r+1) whose key is not below `key`, or r+1. */
  function LowerBound(s: seq<Row>, l: nat, r: int, key: Key): (p: nat)
    requires r < |s| && l <= r + 1 && Rows(s, |key|)
    ensures l <= p <= r + 1
    decreases r + 1 - l
  {
    if l == r + 1 || Cmp(s[l].key, key) >= 0 then l else LowerBound(s, l + 1, r, key)
  }

  /**
   * Where a search may stop in a sorted slice: at the lower bound, or one
   * position before it, at a row below the key.
   */
  lemma {:induction false} LowerBoundOrBefore(s: seq<Row>, l: nat, r: int, key: Key, p: int)
    requires r < |s| && l <= p <= r + 1 && Rows(s, |key|)
    requires forall j :: l <= j < p ==> Cmp(s[j].key, key) < 0
    requires forall j :: p < j <= r ==> Cmp(s[j].key, key) >= 0
    ensures p == LowerBound(s, l, r, key) || (p + 1 == LowerBound(s, l, r, key) && Cmp(s[p].key, key) < 0)
    decreases r + 1 - l
  {
    if l < p {
      LowerBoundOrBefore(s, l + 1, r, key, p);
    } else if l <= r && Cmp(s[l].key, key) < 0 {
      assert LowerBound(s, l + 1, r, key) == l + 1;
    }
  }

  /**
   * `bin_search(l, r, key)` over a sorted slice: halves [l, r] until it is
   * at most one position wide; on an equal key it moves left to the first
   * equal key not below l.  Every row it passes over sorts below the key and
   * every row after the result up to r sorts at or above it; as the last
   * candidate is never compared, the result is the lower bound of the key or
   * the position just before it.
   */
  method BinSearch(l0: int, r0: int, key: Key, s: seq<Row>) returns (p: int)
    requires 0 <= l0 <= r0 + 1 <= |s| && Rows(s, |key|) && Sorted(s)
    ensures l0 <= p <= r0 + 1 && (l0 <= r0 ==> p <= r0)
    ensures forall j :: l0 <= j < p ==> Cmp(s[j].key, key) < 0
    ensures forall j :: p < j <= r0 ==> Cmp(s[j].key, key) >= 0
    ensures p == LowerBound(s, l0, r0, key) || (p + 1 == LowerBound(s, l0, r0, key) && Cmp(s[p].key, key) < 0)
  {
    var l, r := l0, r0;
    while l < r
      invariant l0 <= l <= r + 1 && r <= r0
      invariant l <= r0 || l == l0
      invariant forall j :: l0 <= j < l ==> Cmp(s[j].key, key) < 0
      invariant forall j :: r < j <= r0 ==> Cmp(s[j].key, key) > 0
      decreases r - l
    {
      var m := l + (r - l) / 2;
      var c := Cmp(key, s[m].key);
      CmpAntisymmetric(key, s[m].key);
      if c > 0 {
        forall j | l <= j <= m
          ensures Cmp(s[j].key, key) < 0
        {
          if j < m {
            CmpTransitive(s[j].key, s[m].key, key);
          }
        }
        l := m + 1;
      } else if c < 0 {
        forall j | m <= j <= r
          ensures Cmp(s[j].key, key) > 0
        {
          if m < j {
            CmpAntisymmetric(s[m].key, s[j].key);
            CmpAntisymmetric(key, s[j].key);
            CmpTransitive(key, s[m].key, s[j].key);
          }
        }
        r := m - 1;
      } else {
        m := ScanLeft(l, m, key, s);
        forall j | m < j <= r0
          ensures Cmp(s[j].key, key) >= 0
        {
          CmpAntisymmetric(key, s[j].key);
          CmpTransitive(key, s[m].key, s[j].key);
        }
        LowerBoundOrBefore(s, l0, r0, key, m);
        return m;
      }
    }
    LowerBoundOrBefore(s, l0, r0, key, l);
    return l;
  }

  /**
   * The inner loop of `bin_search` on an equal key: step left while the row
   * before is equal and the position is above l.  The result is the first
   * equal row not below l, and every row before it from l sorts below.
   */
  method ScanLeft(l: int, m0: int, key: Key, s: seq<Row>) returns (m: int)
    requires 0 <= l <= m0 < |s| && Rows(s, |key|) && Sorted(s) && Cmp(key, s[m0].key) == 0
    ensures l <= m <= m0 && Cmp(key, s[m].key) == 0
    ensures forall j :: l <= j < m ==> Cmp(s[j].key, key) < 0
  {
    m := m0;
    while m != l
      invariant l <= m <= m0 && Cmp(key, s[m].key) == 0
      decreases m - l
    {
      if Cmp(key, s[m - 1].key) == 0 {
        m := m - 1;
      } else {
        break;
      }
    }
    if m != l {
      BelowEqual(l, m, key, s);
    }
  }

  /** Below the first of a run of rows equal to `key`, everything sorts below `key`. */
  lemma BelowEqual(l: nat, m: nat, key: Key, s: seq<Row>)
    requires l < m < |s| && Rows(s, |key|) && Sorted(s)
    requires Cmp(key, s[m].key) == 0 && Cmp(key, s[m - 1].key) != 0
    ensures forall j :: l <= j < m ==> Cmp(s[j].key, key) < 0
  {
    CmpAntisymmetric(key, s[m].key);
    CmpAntisymmetric(key, s[m - 1].key);
    assert Cmp(s[m - 1].key, key) < 0 by {
      CmpTransitive(s[m - 1].key, s[m].key, key);
    }
    forall j | l <= j < m - 1
      ensures Cmp(s[j].key, key) < 0
    {
      CmpTransitive(s[j].key, s[m - 1].key, key);
    }
  }

  // ---------------------------------------------------------------------
  // query_internal
  // ---------------------------------------------------------------------

  /** Rows sorting below `lo` lie outside the box. */
  lemma BelowOut(s: seq<Row>, i: nat, p: nat, lo: Key, hi: Key)
    requires i <= p <= |s| && |lo| == |hi| && Rows(s, |lo|)
    requires forall j :: i <= j < p ==> Cmp(s[j].key, lo) < 0
    ensures forall j :: i <= j < p ==> !InBox(s[j].key, lo, hi)
  {
    forall j | i <= j < p
      ensures !InBox(s[j].key, lo, hi)
    {
      CmpAntisymmetric(s[j].key, lo);
      if InBox(s[j].key, lo, hi) {
        InBoxBetween(s[j].key, lo, hi);
      }
    }
  }

  /**
   * A slice whose first key sorts above `hi` or whose last key sorts below
   * `lo` holds no row of the box.
   */
  lemma PrunedEmpty(s: seq<Row>, lo: Key, hi: Key)
    requires |s| > 0 && |lo| == |hi| && Rows(s, |lo|) && Sorted(s)
    requires Cmp(hi, s[0].key) < 0 || Cmp(lo, s[|s| - 1].key) > 0
    ensures Filter(s, lo, hi) == []
  {
    forall j | 0 <= j < |s|
      ensures !InBox(s[j].key, lo, hi)
    {
      if InBox(s[j].key, lo, hi) {
        InBoxBetween(s[j].key, lo, hi);
        CmpAntisymmetric(lo, s[|s| - 1].key);
        if Cmp(hi, s[0].key) < 0 {
          CmpTransitive(hi, s[0].key, s[j].key);
          CmpAntisymmetric(hi, s[j].key);
        } else {
          CmpTransitive(lo, s[j].key, s[|s| - 1].key);
        }
      }
    }
    FilterSkip(s, 0, |s|, lo, hi);
    assert s[0..] == s;
  }

  /** `keys_in_range_pos` from the first field is 0 exactly for the keys in the box. */
  lemma RangePosZero(c: Key, lo: Key, hi: Key)
    requires |c| == |lo| == |hi|
    ensures RangePos(c, lo, hi, 0) == 0 <==> InBox(c, lo, hi)
  {
  }

  /** A row in the box is the next one the iterator is handed. */
  lemma FeedHit(s: seq<Row>, i: nat, lo: Key, hi: Key, log: seq<Row>, cont: (seq<Row>, Row) -> bool)
    requires i < |s| && InBox(s[i].key, lo, hi)
    ensures Feed(log, Filter(s[i..], lo, hi), cont) ==
      if cont(log, s[i]) then Feed(log + [s[i]], Filter(s[i + 1..], lo, hi), cont) else (log + [s[i]], false)
  {
    FilterAt(s, i, lo, hi);
    var rest := Filter(s[i + 1..], lo, hi);
    assert ([s[i]] + rest)[0] == s[i] && ([s[i]] + rest)[1..] == rest;
  }

  /**
   * The scan of one non-empty slice in `query_internal`: search for `from`,
   * then walk forward; a row in the box is handed to the iterator (a stop
   * ends the whole query); a leading field beyond `to` ends the slice; a
   * leading field below `from` steps by one; any other field out of range
   * rewrites the scratch key from that field on from `from` (and, when it
   * was above, steps the field before it up) and searches again after the
   * current row.  Exactly the rows of the slice in the box are handed over,
   * in order.
   */
  method ScanSlice(cur: seq<Row>, lo: Key, hi: Key, cont: (seq<Row>, Row) -> bool, log0: seq<Row>)
    returns (log: seq<Row>, ok: bool)
    requires |cur| > 0 && |lo| == |hi| && Rows(cur, |lo|) && Sorted(cur)
    ensures (log, ok) == Feed(log0, Filter(cur, lo, hi), cont)
  {
    var len := |cur|;
    var i := BinSearch(0, len - 1, lo, cur);
    BelowOut(cur, 0, i, lo, hi);
    FilterSkip(cur, 0, i, lo, hi);
    assert cur[0..] == cur;
    log := log0;
    while i < len
      invariant 0 <= i <= len
      invariant Feed(log0, Filter(cur, lo, hi), cont) == Feed(log, Filter(cur[i..], lo, hi), cont)
      decreases len - i
    {
      var row := cur[i];
      var current := row.key;
      var kp := RangePos(current, lo, hi, 0);
      RangePosZero(current, lo, hi);
      if kp == 0 {
        FeedHit(cur, i, lo, hi, log, cont);
        var more := cont(log, row);
        log := log + [row];
        if !more {
          return log, false;
        }
        i := i + 1;
      } else if kp == 1 {
        AboveEnds(cur, i, lo, hi);
        FilterSkip(cur, i, len, lo, hi);
        break;
      } else {
        i := SkipOut(cur, i, kp, lo, hi);
      }
    }
    assert Filter(cur[len..], lo, hi) == [];
    return log, true;
  }

  /**
   * The step of the scan for a row outside the box other than one whose
   * leading field lies beyond `to`: a leading field below `from` steps to
   * the next row; a later field out of range rewrites the scratch key from
   * that field on from `from`, steps the field before it up when the field
   * was above `to`, and searches for the result after the row.  Every row
   * passed over lies outside the box.
   */
  method SkipOut(cur: seq<Row>, i: nat, kp: int, lo: Key, hi: Key) returns (p: nat)
    requires i < |cur| && |lo| == |hi| && Rows(cur, |lo|) && Sorted(cur)
    requires kp == RangePos(cur[i].key, lo, hi, 0) && kp != 0 && kp != 1
    ensures i < p <= |cur|
    ensures Filter(cur[i..], lo, hi) == Filter(cur[p..], lo, hi)
  {
    var current := cur[i].key;
    var keypos := (if kp > 0 then kp else -kp) - 1;
    if kp < 0 {
      if keypos == 0 {
        FilterSkip(cur, i, i + 1, lo, hi);
        return i + 1;
      }
      current := CopyKeys(current, lo, keypos);
    } else {
      current := CopyKeys(current, lo, keypos);
      current := IncreaseKey(current, keypos - 1);
    }
    var q := BinSearch(i + 1, |cur| - 1, current, cur);
    SkippedOut(cur, i, q, keypos, kp < 0, current, lo, hi);
    FilterSkip(cur, i, q, lo, hi);
    return q;
  }

  /** The leading field of the row at i beyond `hi`: no row from i on is in the box. */
  lemma AboveEnds(s: seq<Row>, i: nat, lo: Key, hi: Key)
    requires i < |s| && |lo| == |hi| && 0 < |lo| && Rows(s, |lo|) && Sorted(s)
    requires s[i].key[0] > hi[0]
    ensures forall j :: i <= j < |s| ==> !InBox(s[j].key, lo, hi)
  {
    forall j | i < j < |s|
      ensures !InBox(s[j].key, lo, hi)
    {
      LeadAbove(s[i].key, s[j].key, lo, hi);
    }
  }

  /**
   * The row at i (below `lo` at field f > 0, or above `hi` there) and the
   * rows a forward search from the rewritten key passes over after it lie
   * outside the box.
   */
  lemma SkippedOut(s: seq<Row>, i: nat, p: int, f: nat, below: bool, current: Key, lo: Key, hi: Key)
    requires i < |s| && |lo| == |hi| && Rows(s, |lo|) && Sorted(s) && f < |lo|
    requires below ==> s[i].key[f] < lo[f] && current == CopyKeys(s[i].key, lo, f)
    requires !below ==> 0 < f && s[i].key[f] > hi[f] && current == IncreaseKey(CopyKeys(s[i].key, lo, f), f - 1)
    requires i + 1 <= p <= |s| && forall j :: i + 1 <= j < p ==> Cmp(s[j].key, current) < 0
    ensures forall j :: i <= j < p ==> !InBox(s[j].key, lo, hi)
  {
    forall j | i < j < p
      ensures !InBox(s[j].key, lo, hi)
    {
      if below {
        SkipBelow(s[i].key, s[j].key, lo, hi, f);
      } else {
        SkipAbove(s[i].key, s[j].key, lo, hi, f);
      }
    }
  }

  /**
   * `query_internal` over the slices in order: empty slices and slices
   * wholly before `from` or after `to` are skipped; the result is false
   * exactly when the iterator stopped the query.  The records handed to the
   * iterator are the rows of the box slice by slice, up to the stop.
   */
  method Query(slices: seq<seq<Row>>, lo: Key, hi: Key, cont: (seq<Row>, Row) -> bool)
    returns (visited: seq<Row>, ok: bool)
    requires |lo| == |hi|
    requires forall k :: 0 <= k < |slices| ==> Rows(slices[k], |lo|) && Sorted(slices[k])
    ensures (visited, ok) == Feed([], Matches(slices, lo, hi), cont)
  {
    visited := [];
    var s := 0;
    assert slices[0..] == slices;
    while s < |slices|
      invariant 0 <= s <= |slices|
      invariant Feed([], Matches(slices, lo, hi), cont) == Feed(visited, Matches(slices[s..], lo, hi), cont)
    {
      var cur := slices[s];
      MatchesAt(slices, s, lo, hi);
      FeedAppend(visited, Filter(cur, lo, hi), Matches(slices[s + 1..], lo, hi), cont);
      s := s + 1;
      if |cur| == 0 {
        continue;
      }
      if Cmp(hi, cur[0].key) < 0 || Cmp(lo, cur[|cur| - 1].key) > 0 {
        PrunedEmpty(cur, lo, hi);
        continue;
      }
      var more;
      visited, more := ScanSlice(cur, lo, hi, cont, visited);
      if !more {
        return visited, false;
      }
    }
    return visited, true;
  }

  /**
   * With an iterator that never stops, the query hands over exactly the
   * rows of the box: a row is handed over iff some slice holds it and every
   * key field lies between `from` and `to`.
   */
  lemma QueryVisitsMatches(slices: seq<seq<Row>>, lo: Key, hi: Key, cont: (seq<Row>, Row) -> bool, r: Row)
    requires forall l, x :: cont(l, x)
    ensures Feed([], Matches(slices, lo, hi), cont) == (Matches(slices, lo, hi), true)
    ensures r in Feed([], Matches(slices, lo, hi), cont).0 <==>
      (exists k :: 0 <= k < |slices| && r in slices[k]) && InBox(r.key, lo, hi)
  {
    FeedAll([], Matches(slices, lo, hi), cont);
    assert [] + Matches(slices, lo, hi) == Matches(slices, lo, hi);
    MatchesMembers(slices, lo, hi, r);
  }
}
