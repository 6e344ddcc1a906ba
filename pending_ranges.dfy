/** The reassembler's pending store `buf_`: an ordered map from absolute start
    index to a byte string, modelled as a sequence of entries kept in key order.
    `Cover` gives the byte at every absolute index the store holds. */
module PendingRanges {
  import opened Common

  /** One entry of the store: `data` is to sit at absolute indices
      `start .. start + |data| - 1`. */
  datatype Pending = Pending(start: nat, data: Bytes)

  function End(p: Pending): nat
  {
    p.start + |p.data|
  }

  /** The byte an entry holds at absolute index `i`. */
  function ByteAt(p: Pending, i: int): u8
    requires p.start <= i < End(p)
  {
    p.data[i - p.start]
  }

  /** The absolute index to byte mapping of a single entry. */
  function Cells(p: Pending): (m: map<int, u8>)
    ensures forall i :: i in m <==> p.start <= i < End(p)
  {
    map i | p.start <= i < End(p) :: ByteAt(p, i)
  }

  /** The bytes held by a store, by absolute index. */
  function Cover(rs: seq<Pending>): map<int, u8>
  {
    if rs == [] then map[] else Cells(rs[0]) + Cover(rs[1..])
  }

  /** `total_pending_` as the source keeps it: the sum of entry sizes. */
  function PendingSize(rs: seq<Pending>): nat
  {
    if rs == [] then 0 else |rs[0].data| + PendingSize(rs[1..])
  }

  /** Entries are in key order and pairwise disjoint. */
  ghost predicate Ordered(rs: seq<Pending>)
  {
    forall i, j | 0 <= i < j < |rs| :: End(rs[i]) <= rs[j].start
  }

  /** No entry is empty (an empty insert never reaches the store). */
  ghost predicate NonEmpty(rs: seq<Pending>)
  {
    forall i | 0 <= i < |rs| :: rs[i].data != []
  }

  ghost predicate WellFormed(rs: seq<Pending>)
  {
    Ordered(rs) && NonEmpty(rs)
  }

  /** No entry holds `q` strictly inside it (it may start at `q`). */
  ghost predicate NoStraddle(rs: seq<Pending>, q: int)
  {
    forall k | 0 <= k < |rs| :: !(rs[k].start < q < End(rs[k]))
  }

  /** `std::map::lower_bound`: the position of the first entry whose key is
      at least `q`; all keys before it are below `q`. */
  function LowerBound(rs: seq<Pending>, q: int): (n: nat)
    requires WellFormed(rs)
    ensures n <= |rs|
    ensures forall k | 0 <= k < n :: rs[k].start < q
    ensures forall k | n <= k < |rs| :: rs[k].start >= q
  {
    if rs == [] || rs[0].start >= q then 0
    else
      assert WellFormed(rs[1..]);
      1 + LowerBound(rs[1..], q)
  }

  lemma {:induction false} PendingSizeAppend(a: seq<Pending>, b: seq<Pending>)
    ensures PendingSize(a + b) == PendingSize(a) + PendingSize(b)
  {
    if a == [] {
      assert a + b == b;
    } else {
      assert (a + b)[1..] == a[1..] + b;
      PendingSizeAppend(a[1..], b);
    }
  }

  lemma {:induction false} CoverAppend(a: seq<Pending>, b: seq<Pending>)
    ensures Cover(a + b) == Cover(a) + Cover(b)
  {
    if a == [] {
      assert a + b == b;
      MapEmptyLeft(Cover(b));
    } else {
      assert (a + b)[0] == a[0];
      assert (a + b)[1..] == a[1..] + b;
      CoverAppend(a[1..], b);
      MapAssoc(Cells(a[0]), Cover(a[1..]), Cover(b));
    }
  }

  /** Every index a store holds lies inside some entry's range; in
      particular inside any interval that contains every entry. */
  lemma {:induction false} CoverWithin(rs: seq<Pending>, lo: int, hi: int)
    requires forall k | 0 <= k < |rs| :: lo <= rs[k].start && End(rs[k]) <= hi
    ensures forall i | i in Cover(rs) :: lo <= i < hi
  {
    if rs != [] {
      CoverWithin(rs[1..], lo, hi);
    }
  }

  /** Every byte of every entry is held by the store at its own index. */
  lemma {:induction false} CoverHolds(rs: seq<Pending>, k: nat, t: nat)
    requires Ordered(rs) && k < |rs| && t < |rs[k].data|
    ensures rs[k].start + t in Cover(rs) && Cover(rs)[rs[k].start + t] == rs[k].data[t]
  {
    if k == 0 {
      if |rs| > 1 {
        CoverWithin(rs[1..], End(rs[0]), End(rs[|rs| - 1]));
      }
    } else {
      assert rs[1..][k - 1] == rs[k];
      CoverHolds(rs[1..], k - 1, t);
    }
  }

  /** A store holds nothing exactly when it has no entries, and then its
      recorded size is zero. */
  lemma EmptyStore(rs: seq<Pending>)
    requires NonEmpty(rs)
    ensures Cover(rs) == map[] <==> rs == []
    ensures PendingSize(rs) == 0 <==> rs == []
  {
    if rs != [] {
      assert rs[0].start in Cover(rs);
    }
  }

  /** Removing the front entry of an ordered store forgets exactly the
      indices below that entry's end. */
  lemma CoverDropFront(rs: seq<Pending>)
    requires Ordered(rs) && rs != []
    ensures Ordered(rs[1..])
    ensures Cover(rs[1..]) == Above(Cover(rs), End(rs[0]))
    ensures forall i | i in Cover(rs) :: i >= rs[0].start
  {
    if |rs| > 1 {
      CoverWithin(rs[1..], End(rs[0]), End(rs[|rs| - 1]));
    }
    CoverWithin(rs, rs[0].start, End(rs[|rs| - 1]));
  }

  /** Taking the front entry off a well-formed store whose indices lie in
      `[lo, hi)`: the front lies in that band, and the rest is well formed,
      smaller by the front's size, and holds only indices from the front's
      end up to `hi`. */
  lemma DropFront(rs: seq<Pending>, lo: int, hi: int)
    requires WellFormed(rs) && rs != []
    requires forall i | i in Cover(rs) :: lo <= i < hi
    ensures lo <= rs[0].start && End(rs[0]) <= hi
    ensures WellFormed(rs[1..]) && PendingSize(rs[1..]) + |rs[0].data| == PendingSize(rs)
    ensures forall i | i in Cover(rs[1..]) :: End(rs[0]) <= i < hi
  {
    CoverDropFront(rs);
    EntryBounds(rs, 0);
    assert forall k | 0 <= k < |rs| - 1 :: rs[1..][k] == rs[k + 1];
  }

  /** Placing the entry `Pending(f, d)` between a prefix that ends at or
      below `f` and a suffix that starts at or above `f + |d|`, in place of
      the entries in between, keeps the store ordered. */
  lemma PlaceOrdered(rs: seq<Pending>, lo: nat, hi: nat, f: nat, d: Bytes)
    requires WellFormed(rs) && d != []
    requires lo <= hi <= |rs|
    requires forall k | 0 <= k < lo :: End(rs[k]) <= f
    requires forall k | hi <= k < |rs| :: f + |d| <= rs[k].start
    ensures WellFormed(rs[..lo] + [Pending(f, d)] + rs[hi..])
  {
    var placed := rs[..lo] + [Pending(f, d)] + rs[hi..];
    forall i, j | 0 <= i < j < |placed| ensures End(placed[i]) <= placed[j].start {
      if j < lo {
        assert placed[i] == rs[i] && placed[j] == rs[j];
      } else if j == lo {
        assert placed[i] == rs[i];
      } else if i < lo {
        assert placed[i] == rs[i] && placed[j] == rs[j - lo - 1 + hi];
      } else if i == lo {
        assert placed[j] == rs[j - lo - 1 + hi];
      } else {
        assert placed[i] == rs[i - lo - 1 + hi] && placed[j] == rs[j - lo - 1 + hi];
      }
    }
    forall k | 0 <= k < |placed| ensures placed[k].data != [] {
      if k < lo {
        assert placed[k] == rs[k];
      } else if k > lo {
        assert placed[k] == rs[k - lo - 1 + hi];
      }
    }
  }

  /** The same placement leaves the old bytes overwritten by `d`. */
  lemma PlaceCover(rs: seq<Pending>, lo: nat, hi: nat, f: nat, d: Bytes)
    requires WellFormed(rs) && d != []
    requires lo <= hi <= |rs|
    requires forall k | 0 <= k < lo :: End(rs[k]) <= f
    requires forall k | lo <= k < hi :: f <= rs[k].start && End(rs[k]) <= f + |d|
    requires forall k | hi <= k < |rs| :: f + |d| <= rs[k].start
    ensures Cover(rs[..lo] + [Pending(f, d)] + rs[hi..]) == Cover(rs) + Cells(Pending(f, d))
  {
    var a, b, e := rs[..lo], rs[lo..hi], rs[hi..];
    SliceThree(rs, lo, hi);
    SliceBands(rs, lo, hi, f, f + |d|);
    ReplaceMiddle(a, b, e, Pending(f, d));
  }

  /** Cover-level form of a placement: replacing the middle part `b` of a
      store by an entry whose range contains every index `b` holds and none
      that `a` or `e` hold. */
  lemma ReplaceMiddle(a: seq<Pending>, b: seq<Pending>, e: seq<Pending>, c: Pending)
    requires forall i | i in Cover(a) :: i < c.start
    requires forall i | i in Cover(b) :: c.start <= i < End(c)
    requires forall i | i in Cover(e) :: End(c) <= i
    ensures Cover(a + [c] + e) == Cover(a + b + e) + Cells(c)
  {
    calc {
      Cover(a + [c] + e);
    == { CoverThree(a + [c] + e, a, [c], e); CoverSingle(c); }
      Cover(a) + Cells(c) + Cover(e);
    == { OverrideMiddle(Cover(a), Cover(b), Cover(e), Cells(c), c.start, End(c)); }
      Cover(a) + Cover(b) + Cover(e) + Cells(c);
    == { CoverThree(a + b + e, a, b, e); }
      Cover(a + b + e) + Cells(c);
    }
  }

  lemma SliceThree<T>(rs: seq<T>, lo: nat, hi: nat)
    requires lo <= hi <= |rs|
    ensures rs == rs[..lo] + rs[lo..hi] + rs[hi..]
  {
  }

  /** The key bands of the three slices around a placement. */
  lemma SliceBands(rs: seq<Pending>, lo: nat, hi: nat, f: int, g: int)
    requires Ordered(rs) && lo <= hi <= |rs|
    requires forall k | 0 <= k < lo :: End(rs[k]) <= f
    requires forall k | lo <= k < hi :: f <= rs[k].start && End(rs[k]) <= g
    requires forall k | hi <= k < |rs| :: g <= rs[k].start
    ensures forall i | i in Cover(rs[..lo]) :: i < f
    ensures forall i | i in Cover(rs[lo..hi]) :: f <= i < g
    ensures forall i | i in Cover(rs[hi..]) :: g <= i
  {
    CoverWithin(rs[..lo], 0, f);
    CoverWithin(rs[lo..hi], f, g);
    CoverAbove(rs[hi..], g);
  }

  lemma CoverThree(rs: seq<Pending>, a: seq<Pending>, b: seq<Pending>, e: seq<Pending>)
    requires rs == a + b + e
    ensures Cover(rs) == Cover(a) + Cover(b) + Cover(e)
  {
    CoverAppend(a + b, e);
    CoverAppend(a, b);
  }

  lemma CoverSingle(c: Pending)
    ensures Cover([c]) == Cells(c)
  {
    assert [c][1..] == [];
    MapEmptyRight(Cells(c));
  }

  /** A store whose entries all start at or above `lo` holds only
      indices at or above `lo`. */
  lemma {:induction false} CoverAbove(e: seq<Pending>, lo: int)
    requires forall k | 0 <= k < |e| :: lo <= e[k].start
    ensures forall i | i in Cover(e) :: lo <= i
  {
    if e != [] {
      assert forall k | 0 <= k < |e| - 1 :: e[1..][k] == e[k + 1];
      CoverAbove(e[1..], lo);
    }
  }

  lemma MapEmptyRight<V>(m: map<int, V>)
    ensures m + map[] == m
  {
  }

  lemma MapEmptyLeft<V>(m: map<int, V>)
    ensures map[] + m == m
  {
  }

  lemma MapAssoc<V>(x: map<int, V>, y: map<int, V>, z: map<int, V>)
    ensures x + (y + z) == (x + y) + z
  {
  }

  /** Overwriting the whole interval `[f, g)` of a map split into three key
      bands replaces the middle band. */
  lemma OverrideMiddle<V>(m1: map<int, V>, m2: map<int, V>, m3: map<int, V>, c: map<int, V>, f: int, g: int)
    requires forall i | i in m1 :: i < f
    requires forall i | i in m2 :: f <= i < g
    requires forall i | i in m3 :: g <= i
    requires f <= g
    requires forall i :: i in c <==> f <= i < g
    ensures m1 + c + m3 == m1 + m2 + m3 + c
  {
    var l, r := m1 + c + m3, m1 + m2 + m3 + c;
    assert forall i :: i in l <==> i in r;
    forall i | i in l ensures l[i] == r[i] {
      if f <= i < g {
        assert l[i] == c[i] && r[i] == c[i];
      } else if i in m3 {
        assert l[i] == m3[i] && r[i] == m3[i];
      } else {
        assert l[i] == m1[i] && r[i] == m1[i];
      }
    }
  }

  /** `lower_bound` is determined by the two bands it separates. */
  lemma LowerBoundUnique(rs: seq<Pending>, q: int, n: nat)
    requires WellFormed(rs) && n <= |rs|
    requires forall k | 0 <= k < n :: rs[k].start < q
    requires forall k | n <= k < |rs| :: rs[k].start >= q
    ensures LowerBound(rs, q) == n
  {
    var m := LowerBound(rs, q);
    assert m < |rs| ==> rs[m].start >= q;
    assert n < |rs| ==> rs[n].start >= q;
  }

  /** `lower_bound` does not move back when the key grows. */
  lemma {:induction false} LowerBoundMono(rs: seq<Pending>, q: int, q2: int)
    requires WellFormed(rs) && q <= q2
    ensures LowerBound(rs, q) <= LowerBound(rs, q2)
  {
    if rs != [] && rs[0].start < q {
      assert WellFormed(rs[1..]);
      LowerBoundMono(rs[1..], q, q2);
    }
  }

  /** The two pieces `split` cuts an entry into at `pos`. */
  function Low(p: Pending, pos: int): Pending
    requires p.start <= pos <= End(p)
  {
    Pending(p.start, p.data[..pos - p.start])
  }

  function High(p: Pending, pos: int): Pending
    requires p.start <= pos <= End(p)
  {
    Pending(pos, p.data[pos - p.start..])
  }

  lemma CellsSplit(p: Pending, pos: int)
    requires p.start <= pos <= End(p)
    ensures Cover([Low(p, pos), High(p, pos)]) == Cells(p)
  {
    var l, h := Low(p, pos), High(p, pos);
    assert [l, h][1..] == [h];
    CoverSingle(h);
    var x := Cells(l) + Cells(h);
    forall i | i in x ensures x[i] == Cells(p)[i] {
      if i < pos {
        assert x[i] == ByteAt(l, i);
      } else {
        assert x[i] == ByteAt(h, i);
      }
    }
    assert x == Cells(p);
  }

  lemma PendingSizeThree(rs: seq<Pending>, a: seq<Pending>, b: seq<Pending>, e: seq<Pending>)
    requires rs == a + b + e
    ensures PendingSize(rs) == PendingSize(a) + PendingSize(b) + PendingSize(e)
  {
    PendingSizeAppend(a + b, e);
    PendingSizeAppend(a, b);
  }

  /** Cutting the entry at position `k` in two at `pos`, strictly inside it,
      keeps the store well formed, holds the same bytes, and leaves the new
      piece at `lower_bound(pos)`; no key at or below `pos` moves. */
  lemma SplitEntry(rs: seq<Pending>, k: nat, pos: int)
    requires WellFormed(rs) && k < |rs| && rs[k].start < pos < End(rs[k])
    ensures var s := rs[..k] + [Low(rs[k], pos), High(rs[k], pos)] + rs[k + 1..];
            && WellFormed(s)
            && Cover(s) == Cover(rs)
            && PendingSize(s) == PendingSize(rs)
            && NoStraddle(s, pos)
            && (forall q :: NoStraddle(rs, q) ==> NoStraddle(s, q))
            && (forall q | q <= pos :: LowerBound(s, q) == LowerBound(rs, q))
  {
    var p := rs[k];
    var two := [Low(p, pos), High(p, pos)];
    var a, e := rs[..k], rs[k + 1..];
    var s := a + two + e;
    SliceThree(rs, k, k + 1);
    assert rs[k..k + 1] == [p];
    SplitOrdered(rs, k, pos);
    calc {
      Cover(s);
    == { CoverThree(s, a, two, e); CellsSplit(p, pos); }
      Cover(a) + Cells(p) + Cover(e);
    == { CoverThree(rs, a, [p], e); CoverSingle(p); }
      Cover(rs);
    }
    assert PendingSize(s) == PendingSize(rs) by {
      PendingSizeThree(s, a, two, e);
      PendingSizeThree(rs, a, [p], e);
      assert two[1..][1..] == [] && [p][1..] == [];
    }
    SplitStraddle(rs, k, pos);
    forall q | q <= pos ensures LowerBound(s, q) == LowerBound(rs, q) {
      SplitLowerBound(rs, k, pos, q);
    }
  }

  lemma SplitOrdered(rs: seq<Pending>, k: nat, pos: int)
    requires WellFormed(rs) && k < |rs| && rs[k].start < pos < End(rs[k])
    ensures WellFormed(rs[..k] + [Low(rs[k], pos), High(rs[k], pos)] + rs[k + 1..])
  {
    var s := rs[..k] + [Low(rs[k], pos), High(rs[k], pos)] + rs[k + 1..];
    forall i, j | 0 <= i < j < |s| ensures End(s[i]) <= s[j].start {
      SplitIndex(rs, k, pos, i);
      SplitIndex(rs, k, pos, j);
    }
    forall i | 0 <= i < |s| ensures s[i].data != [] {
      SplitIndex(rs, k, pos, i);
    }
  }

  /** Where each entry of the split store comes from. */
  lemma SplitIndex(rs: seq<Pending>, k: nat, pos: int, i: nat)
    requires k < |rs| && rs[k].start < pos < End(rs[k])
    requires i <= |rs|
    ensures var s := rs[..k] + [Low(rs[k], pos), High(rs[k], pos)] + rs[k + 1..];
            && |s| == |rs| + 1
            && (i < k ==> s[i] == rs[i])
            && (i == k ==> s[i] == Low(rs[k], pos))
            && (i == k + 1 ==> s[i] == High(rs[k], pos))
            && (i > k + 1 ==> s[i] == rs[i - 1])
  {
  }

  lemma SplitStraddle(rs: seq<Pending>, k: nat, pos: int)
    requires WellFormed(rs) && k < |rs| && rs[k].start < pos < End(rs[k])
    ensures var s := rs[..k] + [Low(rs[k], pos), High(rs[k], pos)] + rs[k + 1..];
            && NoStraddle(s, pos)
            && (forall q :: NoStraddle(rs, q) ==> NoStraddle(s, q))
  {
    var s := rs[..k] + [Low(rs[k], pos), High(rs[k], pos)] + rs[k + 1..];
    forall j | 0 <= j < |s| ensures !(s[j].start < pos < End(s[j])) {
      SplitIndex(rs, k, pos, j);
      if j < k {
        assert End(rs[j]) <= rs[k].start;
      } else if j > k + 1 {
        assert End(rs[k]) <= rs[j - 1].start;
      }
    }
    forall q | NoStraddle(rs, q) ensures NoStraddle(s, q) {
      forall j | 0 <= j < |s| ensures !(s[j].start < q < End(s[j])) {
        SplitIndex(rs, k, pos, j);
        if k <= j <= k + 1 {
          assert !(rs[k].start < q < End(rs[k]));
        } else if j > k + 1 {
          assert !(rs[j - 1].start < q < End(rs[j - 1]));
        } else {
          assert !(rs[j].start < q < End(rs[j]));
        }
      }
    }
  }

  lemma SplitLowerBound(rs: seq<Pending>, k: nat, pos: int, q: int)
    requires WellFormed(rs) && k < |rs| && rs[k].start < pos < End(rs[k])
    requires q <= pos
    ensures WellFormed(rs[..k] + [Low(rs[k], pos), High(rs[k], pos)] + rs[k + 1..])
    ensures LowerBound(rs[..k] + [Low(rs[k], pos), High(rs[k], pos)] + rs[k + 1..], q) == LowerBound(rs, q)
  {
    var s := rs[..k] + [Low(rs[k], pos), High(rs[k], pos)] + rs[k + 1..];
    SplitOrdered(rs, k, pos);
    var n := LowerBound(rs, q);
    assert n <= k + 1 by {
      if k + 1 < |rs| {
        assert End(rs[k]) <= rs[k + 1].start;
      }
    }
    forall j | 0 <= j < n ensures s[j].start < q {
      SplitIndex(rs, k, pos, j);
    }
    forall j | n <= j < |s| ensures s[j].start >= q {
      SplitIndex(rs, k, pos, j);
    }
    LowerBoundUnique(s, q, n);
  }

  /** `buf_.emplace(first_index, data)` after the entries between
      `lower_bound(f)` and `lower_bound(f + |d|)` were erased: when no entry
      straddles either end, the new entry is placed in key order and its
      bytes take precedence over whatever the store held in that range. */
  lemma Place(rs: seq<Pending>, f: nat, d: Bytes)
    requires WellFormed(rs) && d != []
    requires NoStraddle(rs, f) && NoStraddle(rs, f + |d|)
    ensures LowerBound(rs, f) <= LowerBound(rs, f + |d|)
    ensures var placed := rs[..LowerBound(rs, f)] + [Pending(f, d)] + rs[LowerBound(rs, f + |d|)..];
            && WellFormed(placed)
            && Cover(placed) == Cover(rs) + Cells(Pending(f, d))
  {
    var lo, hi := LowerBound(rs, f), LowerBound(rs, f + |d|);
    LowerBoundMono(rs, f, f + |d|);
    forall k | 0 <= k < lo ensures End(rs[k]) <= f {
      assert !(rs[k].start < f < End(rs[k]));
    }
    forall k | lo <= k < hi ensures f <= rs[k].start && End(rs[k]) <= f + |d| {
      assert !(rs[k].start < f + |d| < End(rs[k]));
    }
    PlaceOrdered(rs, lo, hi, f, d);
    PlaceCover(rs, lo, hi, f, d);
  }

  lemma PendingSizeRemove(rs: seq<Pending>, k: nat)
    requires k < |rs|
    ensures PendingSize(rs[..k] + rs[k + 1..]) + |rs[k].data| == PendingSize(rs)
  {
    SliceThree(rs, k, k + 1);
    assert rs[k..k + 1] == [rs[k]];
    PendingSizeThree(rs, rs[..k], [rs[k]], rs[k + 1..]);
    PendingSizeAppend(rs[..k], rs[k + 1..]);
    assert [rs[k]][1..] == [];
  }

  lemma PendingSizeInsert(rs: seq<Pending>, k: nat, c: Pending)
    requires k <= |rs|
    ensures PendingSize(rs[..k] + [c] + rs[k..]) == PendingSize(rs) + |c.data|
  {
    PendingSizeThree(rs[..k] + [c] + rs[k..], rs[..k], [c], rs[k..]);
    PendingSizeAppend(rs[..k], rs[k..]);
    assert rs[..k] + rs[k..] == rs;
    assert [c][1..] == [];
  }

  /** The part of a byte map at or above index `k`: what is left after the
      entries below `k` are erased. */
  function Above(m: map<int, u8>, k: int): map<int, u8>
  {
    map i | i in m && i >= k :: m[i]
  }

  lemma AboveAll(m: map<int, u8>, k: int)
    requires forall i | i in m :: i >= k
    ensures Above(m, k) == m
  {
  }

  lemma AboveAbove(m: map<int, u8>, a: int, b: int)
    requires a <= b
    ensures Above(Above(m, a), b) == Above(m, b)
  {
  }

  /** The bytes a map holds at `k`, `k + 1`, ... up to its first gap: what can
      be written to the stream contiguously from `k`. */
  function Run(m: map<int, u8>, k: int): seq<u8>
    decreases |m|
  {
    if k in m then [m[k]] + Run(m - {k}, k + 1) else []
  }

  /** The run holds the map's bytes, in index order, and stops at a gap. */
  lemma {:induction false} RunHolds(m: map<int, u8>, k: int)
    ensures forall i | k <= i < k + |Run(m, k)| :: i in m && m[i] == Run(m, k)[i - k]
    ensures k + |Run(m, k)| !in m
    decreases |m|
  {
    if k in m {
      var m' := m - {k};
      var r := Run(m', k + 1);
      RunHolds(m', k + 1);
      assert Run(m, k) == [m[k]] + r;
      forall i | k <= i < k + |Run(m, k)| ensures i in m && m[i] == Run(m, k)[i - k] {
        if i > k {
          assert i in m' && m'[i] == r[i - (k + 1)];
        }
      }
    }
  }

  /** Any sequence that the map holds from `k` and that ends at a gap is the run. */
  lemma {:induction false} RunUnique(m: map<int, u8>, k: int, s: seq<u8>)
    requires forall i | k <= i < k + |s| :: i in m && m[i] == s[i - k]
    requires k + |s| !in m
    ensures Run(m, k) == s
    decreases |m|
  {
    if s != [] {
      assert k in m;
      var m' := m - {k};
      forall i | k + 1 <= i < k + 1 + |s[1..]| ensures i in m' && m'[i] == s[1..][i - (k + 1)] {
        assert i in m;
      }
      RunUnique(m', k + 1, s[1..]);
    }
  }

  /** When the map holds `data` from `k`, the run from `k` is `data`
      followed by the run of what lies at or above `k + |data|`. */
  lemma RunThrough(m: map<int, u8>, k: int, data: seq<u8>, n: int)
    requires n == k + |data|
    requires forall i | k <= i < n :: i in m && m[i] == data[i - k]
    ensures Run(m, k) == data + Run(Above(m, n), n)
  {
    var r := Run(Above(m, n), n);
    RunHolds(Above(m, n), n);
    var s := data + r;
    forall i | k <= i < k + |s| ensures i in m && m[i] == s[i - k] {
      if i >= n {
        assert i in Above(m, n);
      }
    }
    assert k + |s| !in m by {
      assert n + |r| !in Above(m, n);
    }
    RunUnique(m, k, s);
  }

  /** Draining the front entry of a store that starts at `k`: the run from
      `k` is that entry's bytes followed by the run of the rest. */
  lemma RunFront(rs: seq<Pending>)
    requires WellFormed(rs) && rs != []
    ensures Run(Cover(rs), rs[0].start) == rs[0].data + Run(Cover(rs[1..]), End(rs[0]))
    ensures Cover(rs[1..]) == Above(Cover(rs), End(rs[0]))
  {
    var m := Cover(rs);
    var k := rs[0].start;
    CoverDropFront(rs);
    FrontHolds(rs);
    RunThrough(m, k, rs[0].data, End(rs[0]));
  }

  /** The cover holds the front entry's bytes at their indices. */
  lemma FrontHolds(rs: seq<Pending>)
    requires WellFormed(rs) && rs != []
    ensures forall i | rs[0].start <= i < End(rs[0]) :: i in Cover(rs) && Cover(rs)[i] == rs[0].data[i - rs[0].start]
  {
    forall i | rs[0].start <= i < End(rs[0]) ensures i in Cover(rs) && Cover(rs)[i] == rs[0].data[i - rs[0].start] {
      CoverHolds(rs, 0, i - rs[0].start);
    }
  }

  /** The bytes a drain starting at `k` delivers: the front entry while it
      starts exactly where the previous one ended. */
  function Flushed(rs: seq<Pending>, k: int): Bytes
    decreases |rs|
  {
    if rs != [] && rs[0].start == k then rs[0].data + Flushed(rs[1..], End(rs[0])) else []
  }

  /** The entries a drain starting at `k` leaves behind: a suffix of the store. */
  function Rest(rs: seq<Pending>, k: int): seq<Pending>
    decreases |rs|
  {
    if rs != [] && rs[0].start == k then Rest(rs[1..], End(rs[0])) else rs
  }

  /** Draining entry by entry delivers exactly the contiguous run of held
      bytes from `k`, and what stays held is everything above that run. */
  lemma {:induction false} FlushedRun(rs: seq<Pending>, k: int)
    requires WellFormed(rs)
    requires forall i | i in Cover(rs) :: i >= k
    ensures Flushed(rs, k) == Run(Cover(rs), k)
    decreases |rs|
  {
    if rs != [] && rs[0].start == k {
      var e := End(rs[0]);
      var t := rs[1..];
      assert Cover(t) == Above(Cover(rs), e) && WellFormed(t) by {
        CoverDropFront(rs);
      }
      assert Run(Cover(rs), k) == rs[0].data + Run(Cover(t), e) by {
        RunFront(rs);
      }
      FlushedRun(t, e);
    } else {
      if rs != [] {
        EntryBounds(rs, 0);
      }
      RunGap(rs, k);
    }
  }

  lemma {:induction false} RestAbove(rs: seq<Pending>, k: int)
    requires WellFormed(rs)
    requires forall i | i in Cover(rs) :: i >= k
    ensures Cover(Rest(rs, k)) == Above(Cover(rs), k + |Flushed(rs, k)|)
    decreases |rs|
  {
    if rs != [] && rs[0].start == k {
      var e := End(rs[0]);
      var t := rs[1..];
      assert Cover(t) == Above(Cover(rs), e) && WellFormed(t) by {
        CoverDropFront(rs);
      }
      RestAbove(t, e);
      AboveChain(Cover(Rest(t, e)), Cover(t), Cover(rs), e, e + |Flushed(t, e)|);
    } else {
      AboveAll(Cover(rs), k);
    }
  }

  lemma AboveChain(c: map<int, u8>, a: map<int, u8>, m: map<int, u8>, e: int, x: int)
    requires c == Above(a, x) && a == Above(m, e) && e <= x
    ensures c == Above(m, x)
  {
    AboveAbove(m, e, x);
  }

  /** A store whose entries all start above `k` has an empty run from `k`. */
  lemma RunGap(rs: seq<Pending>, k: int)
    requires WellFormed(rs)
    requires rs != [] ==> rs[0].start > k
    ensures Run(Cover(rs), k) == []
  {
    if rs != [] {
      CoverDropFront(rs);
    }
  }

  /** Erasing position `lo` of a sequence that already lost `s[lo..j]`. */
  lemma DropAt<T>(s: seq<T>, lo: nat, j: nat)
    requires lo <= j < |s|
    ensures var t := s[..lo] + s[j..];
            lo < |t| && t[..lo] + t[lo + 1..] == s[..lo] + s[j + 1..]
  {
  }

  /** Inserting at position `lo` of a sequence that lost `s[lo..hi]`. */
  lemma EmplaceAt<T>(s: seq<T>, lo: nat, hi: nat, c: T)
    requires lo <= hi <= |s|
    ensures var t := s[..lo] + s[hi..];
            t[..lo] + [c] + t[lo..] == s[..lo] + [c] + s[hi..]
  {
  }

  /** The integers of `[lo, hi)`. */
  function Range(lo: int, hi: int): (r: set<int>)
    ensures forall i :: i in r <==> lo <= i < hi
    ensures |r| == if lo <= hi then hi - lo else 0
    decreases hi - lo
  {
    if lo >= hi then {} else Range(lo, hi - 1) + {hi - 1}
  }

  /** An entry holds as many indices as it has bytes. */
  lemma CellsSize(p: Pending)
    ensures |Cells(p)| == |p.data|
  {
    assert Cells(p).Keys == Range(p.start, End(p));
  }

  /** `total_pending_` counts the indices the store holds, because the
      entries are disjoint. */
  lemma {:induction false} CoverSize(rs: seq<Pending>)
    requires Ordered(rs)
    ensures |Cover(rs)| == PendingSize(rs)
  {
    if rs != [] {
      var head, tail := Cells(rs[0]), Cover(rs[1..]);
      CoverDropFront(rs);
      CoverSize(rs[1..]);
      CellsSize(rs[0]);
      if |rs| > 1 {
        CoverWithin(rs[1..], End(rs[0]), End(rs[|rs| - 1]));
      }
      assert head.Keys * tail.Keys == {};
      assert (head + tail).Keys == head.Keys + tail.Keys;
    }
  }

  /** The first and last index of an entry are held by the store. */
  lemma {:induction false} EntryBounds(rs: seq<Pending>, k: nat)
    requires k < |rs| && rs[k].data != []
    ensures rs[k].start in Cover(rs) && End(rs[k]) - 1 in Cover(rs)
  {
    if k > 0 {
      assert rs[1..][k - 1] == rs[k];
      EntryBounds(rs[1..], k - 1);
    }
  }
}
