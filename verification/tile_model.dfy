/** `SuccessorTileModel`: a weighted distribution over tiles (colours) with a
    running grand total, sampled by walking the cumulative weights. The
    tile type is a parameter; `Color.Magenta`, the value returned when the
    walk runs off the end, is passed in as `magenta`. The random draw
    `rng.NextDouble()` is the parameter `u`. */
module SuccessorTileModels {
  import opened Wrappers
  import opened Dictionaries

  datatype TileModel<T> = TileModel(counts: Dict<T, real>, grandTotal: real)

  /** The sum of the first `n` stored weights. */
  function PrefixWeight<T>(d: Dict<T, real>, n: nat): real
    requires n <= |d|
  {
    if n == 0 then 0.0 else PrefixWeight(d, n - 1) + d[n - 1].1
  }

  function TotalWeight<T>(d: Dict<T, real>): real {
    PrefixWeight(d, |d|)
  }

  /** The model's invariant: one entry per tile, and `grandTotal` is the sum
      of the stored weights. */
  predicate Valid<T(==)>(m: TileModel<T>) {
    DistinctKeys(m.counts) && m.grandTotal == TotalWeight(m.counts)
  }

  /** The weight stored for `t`, 0 when absent. */
  function Weight<T(==)>(m: TileModel<T>, t: T): real {
    Lookup(m.counts, t).GetOr(0.0)
  }

  /** Every stored weight is positive. */
  predicate PositiveWeights<T>(d: Dict<T, real>) {
    forall i :: 0 <= i < |d| ==> d[i].1 > 0.0
  }

  // ---------------------------------------------------------------------
  // Sums over an updated dictionary

  lemma {:induction false} PrefixWeightOfExtension<T>(d: Dict<T, real>, e: Dict<T, real>, n: nat)
    requires n <= |d|
    ensures PrefixWeight(d + e, n) == PrefixWeight(d, n)
  {
    if n > 0 {
      PrefixWeightOfExtension(d, e, n - 1);
    }
  }

  lemma {:induction false} PrefixWeightOfUpdate<T>(d: Dict<T, real>, i: nat, p: (T, real), n: nat)
    requires i < |d| && n <= |d|
    ensures PrefixWeight(d[i := p], n) == if n <= i then PrefixWeight(d, n) else PrefixWeight(d, n) - d[i].1 + p.1
  {
    if n > 0 {
      PrefixWeightOfUpdate(d, i, p, n - 1);
    }
  }

  /** Setting `k` to `v` changes the total by `v` minus the old weight. */
  lemma TotalWeightAfterSet<T>(d: Dict<T, real>, k: T, v: real)
    ensures TotalWeight(Set(d, k, v)) == TotalWeight(d) - Lookup(d, k).GetOr(0.0) + v
  {
    match IndexOf(d, k)
    case Some(i) =>
      PrefixWeightOfUpdate(d, i, (k, v), |d|);
    case None =>
      PrefixWeightOfExtension(d, [(k, v)], |d|);
  }

  // ---------------------------------------------------------------------
  // Construction and accumulation

  /** A new model has no entries and a grand total of 0. */
  function New<T(==,!new)>(): (r: TileModel<T>)
    ensures r.counts == [] && r.grandTotal == 0.0
    ensures Valid(r)
    ensures forall t :: Weight(r, t) == 0.0
  {
    TileModel([], 0.0)
  }

  /** The private `AddWeight`: raise the weight of `tile` by `w`, creating
      its entry at the end if absent, and the grand total by `w`. Its
      properties are `AddWeightSpec` and `AddWeightOthers`. */
  function AddWeight<T(==)>(m: TileModel<T>, tile: T, w: real): TileModel<T> {
    TileModel(Set(m.counts, tile, Lookup(m.counts, tile).GetOr(0.0) + w), m.grandTotal + w)
  }

  /** `AddWeight` raises the tile's weight and the grand total by `w`, stores
      the tile, and keeps the model's invariant. */
  lemma AddWeightSpec<T>(m: TileModel<T>, tile: T, w: real)
    ensures Weight(AddWeight(m, tile, w), tile) == Weight(m, tile) + w
    ensures AddWeight(m, tile, w).grandTotal == m.grandTotal + w
    ensures HasKey(AddWeight(m, tile, w).counts, tile)
    ensures Valid(m) ==> Valid(AddWeight(m, tile, w))
  {
    LookupAfterSet(m.counts, tile, Lookup(m.counts, tile).GetOr(0.0) + w, tile);
    TotalWeightAfterSet(m.counts, tile, Lookup(m.counts, tile).GetOr(0.0) + w);
  }

  /** `AddWeight` leaves every other tile's weight alone. */
  lemma AddWeightOthers<T>(m: TileModel<T>, tile: T, w: real, q: T)
    requires q != tile
    ensures Weight(AddWeight(m, tile, w), q) == Weight(m, q)
  {
    LookupAfterSet(m.counts, tile, Lookup(m.counts, tile).GetOr(0.0) + w, q);
  }

  /** `Add`: one more observation of `tile`. */
  function Add<T(==)>(m: TileModel<T>, tile: T): (r: TileModel<T>)
    ensures Weight(r, tile) == Weight(m, tile) + 1.0
    ensures r.grandTotal == m.grandTotal + 1.0
    ensures Valid(m) ==> Valid(r)
  {
    AddWeightSpec(m, tile, 1.0);
    AddWeight(m, tile, 1.0)
  }

  /** `Add` changes no other tile's weight. */
  lemma AddOthers<T>(m: TileModel<T>, tile: T, q: T)
    requires q != tile
    ensures Weight(Add(m, tile), q) == Weight(m, q)
  {
    AddWeightOthers(m, tile, 1.0, q);
  }

  /** The entries of `es` with every weight multiplied by `rate`: what the
      `foreach` in `AddAll` passes to `AddWeight`, entry by entry. */
  function Scale<T>(es: Dict<T, real>, rate: real): (r: Dict<T, real>)
    ensures |r| == |es|
    ensures forall i :: 0 <= i < |es| ==> r[i].0 == es[i].0 && r[i].1 == es[i].1 * rate
  {
    seq(|es|, i requires 0 <= i < |es| => (es[i].0, es[i].1 * rate))
  }

  /** The first `n` iterations of a `foreach` that adds every entry of `es`
      with `AddWeight`. */
  function AddEntries<T(==)>(m: TileModel<T>, es: Dict<T, real>, n: nat): TileModel<T>
    requires n <= |es|
  {
    if n == 0 then m else AddWeight(AddEntries(m, es, n - 1), es[n - 1].0, es[n - 1].1)
  }

  /** The sum of the weights of `q`'s entries among the first `n`. */
  function SumAmong<T(==)>(es: Dict<T, real>, n: nat, q: T): real
    requires n <= |es|
  {
    if n == 0 then 0.0
    else SumAmong(es, n - 1, q) + (if es[n - 1].0 == q then es[n - 1].1 else 0.0)
  }

  /** The weight `q` has among the first `n` entries of `es`. */
  function WeightAmong<T(==)>(es: Dict<T, real>, n: nat, q: T): real {
    match IndexOf(es, q)
    case Some(j) => if j < n then es[j].1 else 0.0
    case None => 0.0
  }

  /** Among all entries, `q` has the weight `Lookup` finds. */
  lemma WeightAmongAll<T>(es: Dict<T, real>, q: T)
    ensures WeightAmong(es, |es|, q) == Lookup(es, q).GetOr(0.0)
  {
  }

  /** One more entry adds its weight to its own tile and nothing to others. */
  lemma WeightAmongStep<T>(es: Dict<T, real>, n: nat, q: T)
    requires DistinctKeys(es)
    requires 0 < n <= |es|
    ensures WeightAmong(es, n, q) == WeightAmong(es, n - 1, q) + (if q == es[n - 1].0 then es[n - 1].1 else 0.0)
  {
    if q == es[n - 1].0 {
      IndexOfFirst(es, q, n - 1);
    }
  }

  /** With one entry per key, the sum over `q`'s entries is `q`'s weight. */
  lemma {:induction false} SumAmongIsWeightAmong<T>(es: Dict<T, real>, n: nat, q: T)
    requires DistinctKeys(es)
    requires n <= |es|
    ensures SumAmong(es, n, q) == WeightAmong(es, n, q)
  {
    if n > 0 {
      SumAmongIsWeightAmong(es, n - 1, q);
      WeightAmongStep(es, n, q);
    } else {
      assert WeightAmong(es, 0, q) == 0.0;
    }
  }

  lemma AddWeightStep<T>(m: TileModel<T>, tile: T, w: real, q: T)
    ensures Weight(AddWeight(m, tile, w), q) == Weight(m, q) + (if q == tile then w else 0.0)
  {
    if q != tile {
      AddWeightOthers(m, tile, w, q);
    } else {
      AddWeightSpec(m, tile, w);
    }
  }

  /** After the first `n` iterations each tile's weight has grown by the
      weights of its entries among them. */
  lemma {:induction false} AddEntriesWeight<T>(m: TileModel<T>, es: Dict<T, real>, n: nat, q: T)
    requires n <= |es|
    ensures Weight(AddEntries(m, es, n), q) == Weight(m, q) + SumAmong(es, n, q)
  {
    if n > 0 {
      AddEntriesWeight(m, es, n - 1, q);
      AddWeightStep(AddEntries(m, es, n - 1), es[n - 1].0, es[n - 1].1, q);
    }
  }

  /** After the first `n` iterations the grand total has grown by the sum of
      their weights. */
  lemma {:induction false} AddEntriesTotal<T>(m: TileModel<T>, es: Dict<T, real>, n: nat)
    requires n <= |es|
    ensures AddEntries(m, es, n).grandTotal == m.grandTotal + PrefixWeight(es, n)
  {
    if n > 0 {
      AddEntriesTotal(m, es, n - 1);
    }
  }

  /** Every iteration keeps the model's invariant. */
  lemma {:induction false} AddEntriesValid<T>(m: TileModel<T>, es: Dict<T, real>, n: nat)
    requires n <= |es|
    requires Valid(m)
    ensures Valid(AddEntries(m, es, n))
  {
    if n > 0 {
      AddEntriesValid(m, es, n - 1);
      AddWeightSpec(AddEntries(m, es, n - 1), es[n - 1].0, es[n - 1].1);
    }
  }

  lemma Distribute(a: real, b: real, c: real)
    ensures (a + b) * c == a * c + b * c
  {
  }

  /** Scaling every entry scales each key's sum by `rate`. */
  lemma {:induction false} SumAmongScaled<T>(es: Dict<T, real>, rate: real, n: nat, q: T)
    requires n <= |es|
    ensures SumAmong(Scale(es, rate), n, q) == SumAmong(es, n, q) * rate
  {
    if n > 0 {
      SumAmongScaled(es, rate, n - 1, q);
      if es[n - 1].0 == q {
        Distribute(SumAmong(es, n - 1, q), es[n - 1].1, rate);
      }
    }
  }

  /** Scaling every entry scales the total by `rate`. */
  lemma {:induction false} PrefixWeightScaled<T>(es: Dict<T, real>, rate: real, n: nat)
    requires n <= |es|
    ensures PrefixWeight(Scale(es, rate), n) == PrefixWeight(es, n) * rate
  {
    if n > 0 {
      PrefixWeightScaled(es, rate, n - 1);
      Distribute(PrefixWeight(es, n - 1), es[n - 1].1, rate);
    }
  }

  /** `AddAll(model, rate)`: add every entry of `src`, in its enumeration
      order, with its weight scaled by `rate` (1.0 when the caller omits
      it). `src` itself is a value and is not changed. */
  function AddAll<T(==,!new)>(m: TileModel<T>, src: TileModel<T>, rate: real): (r: TileModel<T>)
    ensures Valid(src) ==> forall q :: Weight(r, q) == Weight(m, q) + Weight(src, q) * rate
    ensures Valid(src) ==> r.grandTotal == m.grandTotal + src.grandTotal * rate
    ensures Valid(m) ==> Valid(r)
    ensures src.counts == [] ==> r == m
  {
    AddAllWeights(m, src, rate);
    AddAllTotal(m, src, rate);
    AddAllValid(m, src, rate);
    AddEntries(m, Scale(src.counts, rate), |src.counts|)
  }

  lemma AddAllValid<T>(m: TileModel<T>, src: TileModel<T>, rate: real)
    ensures Valid(m) ==> Valid(AddEntries(m, Scale(src.counts, rate), |src.counts|))
  {
    if Valid(m) {
      AddEntriesValid(m, Scale(src.counts, rate), |src.counts|);
    }
  }

  lemma AddAllTotal<T>(m: TileModel<T>, src: TileModel<T>, rate: real)
    ensures Valid(src) ==> AddEntries(m, Scale(src.counts, rate), |src.counts|).grandTotal == m.grandTotal + src.grandTotal * rate
  {
    AddEntriesTotal(m, Scale(src.counts, rate), |src.counts|);
    PrefixWeightScaled(src.counts, rate, |src.counts|);
  }

  lemma AddAllWeight<T>(m: TileModel<T>, src: TileModel<T>, rate: real, q: T)
    requires Valid(src)
    ensures Weight(AddEntries(m, Scale(src.counts, rate), |src.counts|), q) == Weight(m, q) + Weight(src, q) * rate
  {
    ScaledWeight(src, rate, q);
    AddEntriesWeight(m, Scale(src.counts, rate), |src.counts|, q);
  }

  /** In a valid model, the scaled entries of a tile add up to its weight
      times `rate`. */
  lemma ScaledWeight<T>(src: TileModel<T>, rate: real, q: T)
    requires Valid(src)
    ensures SumAmong(Scale(src.counts, rate), |src.counts|, q) == Weight(src, q) * rate
  {
    var n := |src.counts|;
    SumAmongIsWeightAmong(src.counts, n, q);
    WeightAmongAll(src.counts, q);
    var sum := SumAmong(src.counts, n, q);
    assert sum == Weight(src, q);
    assert sum * rate == Weight(src, q) * rate;
    SumAmongScaled(src.counts, rate, n, q);
  }

  lemma AddAllWeights<T>(m: TileModel<T>, src: TileModel<T>, rate: real)
    ensures Valid(src) ==> forall q :: Weight(AddEntries(m, Scale(src.counts, rate), |src.counts|), q) == Weight(m, q) + Weight(src, q) * rate
  {
    if Valid(src) {
      forall q
        ensures Weight(AddEntries(m, Scale(src.counts, rate), |src.counts|), q) == Weight(m, q) + Weight(src, q) * rate
      {
        AddAllWeight(m, src, rate, q);
      }
    }
  }

  // ---------------------------------------------------------------------
  // Sampling

  /** The `foreach` of `ChooseRandomly` from entry `i` on, with `rem` left
      of the draw. */
  function Walk<T>(es: Dict<T, real>, i: nat, rem: real, magenta: T): T
    requires i <= |es|
    decreases |es| - i
  {
    if i == |es| then magenta
    else if rem < es[i].1 then es[i].0
    else Walk(es, i + 1, rem - es[i].1, magenta)
  }

  /** Entry `i` is where the walk stops for the draw `rand`: what is left
      after subtracting the preceding weights is below entry `i`'s weight,
      and that did not happen at any earlier entry. */
  predicate StopsAt<T>(es: Dict<T, real>, rand: real, i: nat) {
    i < |es| &&
    rand - PrefixWeight(es, i) < es[i].1 &&
    forall j :: 0 <= j < i ==> Passes(es, rand, j)
  }

  /** The walk goes on past entry `j`: what is left of the draw there is at
      least the entry's weight. */
  predicate Passes<T>(es: Dict<T, real>, rand: real, j: nat) {
    j < |es| && rand - PrefixWeight(es, j) >= es[j].1
  }

  /** The draw scaled to the model: `rand = rng.NextDouble() * grandTotal`. */
  function Draw<T>(m: TileModel<T>, u: real): real {
    u * m.grandTotal
  }

  /** `ChooseRandomly(rng)` for the draw `u = rng.NextDouble()`. */
  function ChooseRandomly<T(==)>(m: TileModel<T>, u: real, magenta: T): (r: T)
    ensures m.counts == [] ==> r == magenta
  {
    Walk(m.counts, 0, Draw(m, u), magenta)
  }

  /** Started at entry `i <= s` with the draw less the preceding weights,
      the walk returns the tile of the entry `s` where it stops. */
  lemma {:induction false} WalkStopsAt<T>(es: Dict<T, real>, i: nat, rand: real, magenta: T, s: nat)
    requires i <= s
    requires StopsAt(es, rand, s)
    ensures Walk(es, i, rand - PrefixWeight(es, i), magenta) == es[s].0
    decreases s - i
  {
    var rem := rand - PrefixWeight(es, i);
    if i < s {
      assert Passes(es, rand, i);
      assert rem - es[i].1 == rand - PrefixWeight(es, i + 1);
      WalkStopsAt(es, i + 1, rand, magenta, s);
      assert Walk(es, i, rem, magenta) == Walk(es, i + 1, rem - es[i].1, magenta);
    } else {
      assert rem < es[i].1;
    }
  }

  /** A walk that stops at no entry from `i` on returns `magenta`. */
  lemma {:induction false} WalkRunsOff<T>(es: Dict<T, real>, i: nat, rand: real, magenta: T)
    requires i <= |es|
    requires forall j :: 0 <= j < i ==> Passes(es, rand, j)
    requires forall s :: i <= s < |es| ==> !StopsAt(es, rand, s)
    ensures Walk(es, i, rand - PrefixWeight(es, i), magenta) == magenta
    decreases |es| - i
  {
    var rem := rand - PrefixWeight(es, i);
    if i < |es| {
      assert !StopsAt(es, rand, i);
      assert Passes(es, rand, i);
      assert rem - es[i].1 == rand - PrefixWeight(es, i + 1);
      WalkRunsOff(es, i + 1, rand, magenta);
      assert Walk(es, i, rem, magenta) == Walk(es, i + 1, rem - es[i].1, magenta);
    }
  }

  /** `ChooseRandomly` returns the tile of the entry where the walk stops,
      and `magenta` when it stops nowhere. */
  lemma ChooseRandomlyFirstFit<T>(m: TileModel<T>, u: real, magenta: T)
    ensures forall i: nat :: StopsAt(m.counts, Draw(m, u), i) ==> ChooseRandomly(m, u, magenta) == m.counts[i].0
    ensures (forall i: nat :: !StopsAt(m.counts, Draw(m, u), i)) ==> ChooseRandomly(m, u, magenta) == magenta
  {
    var es, rand := m.counts, Draw(m, u);
    assert rand - PrefixWeight(es, 0) == rand;
    forall i: nat | StopsAt(es, rand, i)
      ensures ChooseRandomly(m, u, magenta) == es[i].0
    {
      WalkStopsAt(es, 0, rand, magenta, i);
    }
    if forall i: nat :: !StopsAt(es, rand, i) {
      WalkRunsOff(es, 0, rand, magenta);
    }
  }

  lemma {:induction false} PrefixWeightMonotone<T>(es: Dict<T, real>, j: nat, i: nat)
    requires PositiveWeights(es)
    requires j <= i <= |es|
    ensures PrefixWeight(es, j) <= PrefixWeight(es, i)
    decreases i - j
  {
    if j < i {
      PrefixWeightMonotone(es, j, i - 1);
    }
  }

  /** With positive weights, the walk stops at entry `i` exactly when the
      draw lies in `[w_0 + ... + w_(i-1), w_0 + ... + w_i)`, an interval as
      long as entry `i`'s weight. */
  lemma StopsAtInterval<T>(es: Dict<T, real>, rand: real, i: nat)
    requires PositiveWeights(es)
    requires rand >= 0.0
    requires i < |es|
    ensures StopsAt(es, rand, i) <==> PrefixWeight(es, i) <= rand < PrefixWeight(es, i + 1)
  {
    if PrefixWeight(es, i) <= rand < PrefixWeight(es, i + 1) {
      forall j | 0 <= j < i
        ensures Passes(es, rand, j)
      {
        PrefixWeightMonotone(es, j + 1, i);
      }
    }
    if StopsAt(es, rand, i) && i > 0 {
      assert Passes(es, rand, i - 1);
    }
  }

  lemma {:induction false} WalkFindsEntry<T>(es: Dict<T, real>, i: nat, rand: real, magenta: T)
    requires i <= |es|
    requires PrefixWeight(es, i) <= rand < TotalWeight(es)
    ensures HasKey(es, Walk(es, i, rand - PrefixWeight(es, i), magenta))
    decreases |es| - i
  {
    if i == |es| {
      assert false;
    } else if rand - PrefixWeight(es, i) < es[i].1 {
      assert es[i].0 == Walk(es, i, rand - PrefixWeight(es, i), magenta);
    } else {
      assert rand - PrefixWeight(es, i) - es[i].1 == rand - PrefixWeight(es, i + 1);
      WalkFindsEntry(es, i + 1, rand, magenta);
    }
  }

  /** For a draw in `[0, 1)` and a positive grand total that equals the sum of
      the weights, the walk never runs off the end: the result is a stored
      tile, never the `magenta` fallback (unless magenta is itself stored). */
  lemma ChooseRandomlyReturnsStoredTile<T>(m: TileModel<T>, u: real, magenta: T)
    requires Valid(m)
    requires 0.0 <= u < 1.0
    requires m.grandTotal > 0.0
    ensures HasKey(m.counts, ChooseRandomly(m, u, magenta))
  {
    assert m.grandTotal - Draw(m, u) == (1.0 - u) * m.grandTotal;
    assert 0.0 <= Draw(m, u) < m.grandTotal;
    WalkFindsEntry(m.counts, 0, Draw(m, u), magenta);
    assert Draw(m, u) - PrefixWeight(m.counts, 0) == Draw(m, u);
  }
}
