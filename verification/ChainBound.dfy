/** The arithmetic of bucket loads: what one doubling does to the expansion
    multipliers, and why chains stay bounded. */
module ChainBound {
  import opened Bits

  const THRESH: nat := 10

  datatype Bucket<H> = Bucket(hhHead: H, count: nat, expandMult: nat)

  function SumCount<H>(bs: seq<Bucket<H>>): nat {
    if bs == [] then 0 else bs[0].count + SumCount(bs[1..])
  }

  function SumMult<H>(bs: seq<Bucket<H>>): nat {
    if bs == [] then 0 else bs[0].expandMult + SumMult(bs[1..])
  }

  // The items whose chain position is past the ideal length.
  function SumExcess<H>(bs: seq<Bucket<H>>, ideal: nat): nat {
    if bs == [] then 0 else Excess(bs[0].count, ideal) + SumExcess(bs[1..], ideal)
  }

  function Excess(count: nat, ideal: nat): nat {
    if count > ideal then count - ideal else 0
  }

  // The multiplier a doubling leaves on a bucket that received `count` items.
  function MultFor(count: nat, ideal: nat): nat
    requires ideal > 0
  {
    if count > ideal then Quot(count, ideal) else 0
  }

  // The load that add and delete keep while expansion is enabled.
  predicate Within<H>(b: Bucket<H>) {
    && b.count <= (b.expandMult + 1) * THRESH
    && (b.expandMult > 0 ==> b.count < (b.expandMult + 1) * THRESH)
  }

  ghost predicate AllWithin<H>(bs: seq<Bucket<H>>) {
    forall b :: 0 <= b < |bs| ==> Within(bs[b])
  }

  ghost predicate Spread<H>(bs: seq<Bucket<H>>, ideal: nat)
    requires ideal > 0
  {
    forall b :: 0 <= b < |bs| ==> bs[b].expandMult == MultFor(bs[b].count, ideal)
  }

  lemma {:induction false} SumUpdate<H>(bs: seq<Bucket<H>>, i: nat, v: Bucket<H>, ideal: nat)
    requires i < |bs|
    ensures SumCount(bs[i := v]) == SumCount(bs) - bs[i].count + v.count
    ensures SumMult(bs[i := v]) == SumMult(bs) - bs[i].expandMult + v.expandMult
    ensures SumExcess(bs[i := v], ideal)
         == SumExcess(bs, ideal) - Excess(bs[i].count, ideal) + Excess(v.count, ideal)
  {
    if i == 0 {
      assert bs[i := v][1..] == bs[1..];
    } else {
      assert bs[i := v][1..] == bs[1..][i - 1 := v];
      SumUpdate(bs[1..], i - 1, v, ideal);
    }
  }

  lemma {:induction false} SumEmpty<H>(bs: seq<Bucket<H>>, ideal: nat)
    requires forall b :: 0 <= b < |bs| ==> bs[b].count == 0 && bs[b].expandMult == 0
    ensures SumCount(bs) == 0 && SumMult(bs) == 0 && SumExcess(bs, ideal) == 0
  {
    if bs != [] {
      SumEmpty(bs[1..], ideal);
    }
  }

  lemma MultBound(count: nat, ideal: nat)
    requires ideal > 0
    ensures ideal * MultFor(count, ideal) <= count
  {
    QuotBounds(count, ideal);
    assert ideal * Quot(count, ideal) == Quot(count, ideal) * ideal;
  }

  // Summing floor(count/ideal): a spread of n items multiplies back into n.
  lemma {:induction false} SpreadMult<H>(bs: seq<Bucket<H>>, ideal: nat)
    requires ideal > 0 && Spread(bs, ideal)
    ensures ideal * SumMult(bs) <= SumCount(bs)
  {
    hide MultFor;
    if bs != [] {
      SpreadMult(bs[1..], ideal);
      var c, m := bs[0].count, bs[0].expandMult;
      assert m == MultFor(c, ideal);
      MultBound(c, ideal);
      MulSum(ideal, m, SumMult(bs[1..]));
    }
  }

  // Taking an item out of a bucket keeps the loads.
  lemma {:induction false} LessLoad<H>(bs: seq<Bucket<H>>, b: nat, h: H)
    requires b < |bs| && bs[b].count > 0
    ensures SumCount(bs[b := Bucket(h, bs[b].count - 1, bs[b].expandMult)]) == SumCount(bs) - 1
    ensures SumMult(bs[b := Bucket(h, bs[b].count - 1, bs[b].expandMult)]) == SumMult(bs)
    ensures AllWithin(bs) ==> AllWithin(bs[b := Bucket(h, bs[b].count - 1, bs[b].expandMult)])
  {
    SumUpdate(bs, b, Bucket(h, bs[b].count - 1, bs[b].expandMult), 0);
  }

  // After a doubling the multipliers add up to at most the new number of buckets.
  lemma DoublingMult<H>(bs: seq<Bucket<H>>, ideal: nat)
    requires |bs| > 0 && ideal > 0 && Spread(bs, ideal)
    requires ideal == CeilDiv(SumCount(bs), |bs|)
    ensures SumMult(bs) <= |bs|
  {
    SpreadMult(bs, ideal);
    CeilDivBounds(SumCount(bs), |bs|);
    MulCancel(ideal, SumMult(bs), |bs|);
  }

  // ... and with an ideal of at most the threshold every bucket is within its load.
  lemma DoublingWithin<H>(bs: seq<Bucket<H>>, ideal: nat)
    requires 0 < ideal <= THRESH && Spread(bs, ideal)
    ensures AllWithin(bs)
  {
    forall b | 0 <= b < |bs|
      ensures Within(bs[b])
    {
      var c, m := bs[b].count, bs[b].expandMult;
      assert m == MultFor(c, ideal);
      if c > ideal {
        QuotBounds(c, ideal);
        MulMono(ideal, THRESH, m + 1);
        assert ideal * (m + 1) == (m + 1) * ideal;
      }
    }
  }

  // Every bucket within its load, except possibly one that has just grown by one.
  lemma {:induction false} LoadSum<H>(bs: seq<Bucket<H>>)
    requires AllWithin(bs)
    ensures SumCount(bs) <= THRESH * SumMult(bs) + THRESH * |bs|
    ensures SumMult(bs) > 0 ==> SumCount(bs) < THRESH * SumMult(bs) + THRESH * |bs|
  {
    if bs != [] {
      assert Within(bs[0]);
      assert forall b :: 0 <= b < |bs[1..]| ==> bs[1..][b] == bs[b + 1];
      LoadSum(bs[1..]);
    }
  }

  // A table within its loads holds at most 20 items per bucket, even one add later;
  // so the ideal length that the next doubling computes is at most the threshold.
  lemma LoadBound<H>(bs: seq<Bucket<H>>)
    requires |bs| > 0 && AllWithin(bs) && SumMult(bs) <= |bs|
    ensures SumCount(bs) + 1 <= 20 * |bs|
  {
    LoadSum(bs);
  }

  lemma NextIdeal<H>(bs: seq<Bucket<H>>)
    requires |bs| > 0 && AllWithin(bs) && SumMult(bs) <= |bs|
    ensures CeilDiv(SumCount(bs) + 1, 2 * |bs|) <= THRESH
  {
    LoadBound(bs);
    CeilDivLeast(SumCount(bs) + 1, 2 * |bs|, THRESH);
  }

  // How many of the last doublings, without a gap, were ineffective.
  function Trailing(h: seq<bool>): nat {
    if h == [] || !h[|h| - 1] then 0 else 1 + Trailing(h[..|h| - 1])
  }

  ghost predicate TwoInARow(h: seq<bool>) {
    exists i :: 0 <= i < |h| - 1 && h[i] && h[i + 1]
  }

  lemma TwoInARowStep(h: seq<bool>, f: bool)
    ensures Trailing(h + [f]) == if f then Trailing(h) + 1 else 0
    ensures TwoInARow(h + [f]) <==> TwoInARow(h) || (f && Trailing(h) > 0)
  {
    var h' := h + [f];
    assert h'[..|h|] == h;
    if TwoInARow(h) {
      var i :| 0 <= i < |h| - 1 && h[i] && h[i + 1];
      assert h'[i] && h'[i + 1];
    }
    if f && Trailing(h) > 0 {
      assert h'[|h| - 1] && h'[|h| - 1 + 1];
    }
  }

  // The positions past the ideal length, chain by chain.
  ghost function NonIdeal<T>(chains: seq<seq<T>>, ideal: nat): set<(nat, nat)> {
    set b: nat, k: nat | b < |chains| && ideal <= k < |chains[b]| :: (b, k)
  }

  ghost function Row(b: nat, lo: nat, hi: nat): set<(nat, nat)> {
    set k: nat | lo <= k < hi :: (b, k)
  }

  lemma {:induction false} RowSize(b: nat, lo: nat, hi: nat)
    ensures |Row(b, lo, hi)| == if hi > lo then hi - lo else 0
  {
    if hi > lo {
      RowSize(b, lo, hi - 1);
      assert Row(b, lo, hi) == Row(b, lo, hi - 1) + {(b, hi - 1)};
    }
  }

  lemma {:induction false} ExcessSnoc<H>(bs: seq<Bucket<H>>, v: Bucket<H>, ideal: nat)
    ensures SumExcess(bs + [v], ideal) == SumExcess(bs, ideal) + Excess(v.count, ideal)
  {
    if bs != [] {
      assert (bs + [v])[1..] == bs[1..] + [v];
      ExcessSnoc(bs[1..], v, ideal);
    }
  }

  // The sum of what exceeds the ideal length counts exactly the positions past it.
  lemma {:induction false} ExcessCounts<H, T>(bs: seq<Bucket<H>>, chains: seq<seq<T>>, ideal: nat)
    requires |bs| == |chains| && forall b :: 0 <= b < |bs| ==> bs[b].count == |chains[b]|
    ensures SumExcess(bs, ideal) == |NonIdeal(chains, ideal)|
  {
    if bs == [] {
      assert NonIdeal(chains, ideal) == {};
    } else {
      var n := |bs| - 1;
      var before, row := NonIdeal(chains[..n], ideal), Row(n, ideal, |chains[n]|);
      ExcessCounts(bs[..n], chains[..n], ideal);
      assert bs == bs[..n] + [bs[n]];
      ExcessSnoc(bs[..n], bs[n], ideal);
      RowSize(n, ideal, |chains[n]|);
      assert NonIdeal(chains, ideal) == before + row && before !! row;
    }
  }

  // Later doublings do not undo it.
  lemma OnceForAll(h: seq<bool>, later: seq<bool>)
    requires h <= later && TwoInARow(h)
    ensures TwoInARow(later)
  {
    var i :| 0 <= i < |h| - 1 && h[i] && h[i + 1];
    assert later[i] && later[i + 1];
  }
}
