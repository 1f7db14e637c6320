/**
 * The peak model and the search for the best peak-type combination
 * (`MathOperations` and `ComputeCombinationThread`).
 *
 * The shape formulas, scipy's `curve_fit` and `np.sqrt` are not interpreted:
 * they are passed in as `Kernels` and as a fit oracle. What is modelled is the
 * layout around them: which parameters feed which slot, how slots are summed,
 * which combinations are tried, what is recorded and which record wins.
 */
module PeakMath {
  import opened Wrappers
  import Combinatorics

  const GAUSS: string := "gauss"
  const FRASER: string := "fraser"
  const ADS: string := "ads"

  /**
   * The numeric primitives. `gaussShape(x, a1, a2)` is the unit-height
   * Gaussian `exp(-(x - a1)^2 / (2 a2^2))`; `fraserShape(x, a1, a2, a3)` is the
   * unit-height Fraser-Suzuki factor, None where numpy produces NaN;
   * `sqrt` is `np.sqrt`.
   */
  datatype Kernels = Kernels(
    gaussShape: (real, real, real) -> real,
    fraserShape: (real, real, real, real) -> Option<real>,
    sqrt: real -> real)

  /** `max(0, a0)`. */
  function Clamp(a0: real): (h: real)
    ensures h >= 0.0 && h >= a0
    ensures h == a0 || h == 0.0
  {
    if a0 > 0.0 then a0 else 0.0
  }

  /** `gaussian` at one point: the height is clamped at zero before scaling the shape. */
  function GaussianAt(k: Kernels, x: real, a0: real, a1: real, a2: real): (r: real)
    ensures a0 <= 0.0 ==> r == 0.0
    ensures a0 > 0.0 ==> r == a0 * k.gaussShape(x, a1, a2)
  {
    Clamp(a0) * k.gaussShape(x, a1, a2)
  }

  /** `fraser_suzuki` at one point: a NaN value is replaced by 0. */
  function FraserSuzukiAt(k: Kernels, x: real, a0: real, a1: real, a2: real, a3: real): (r: real)
    ensures k.fraserShape(x, a1, a2, a3).None? ==> r == 0.0
    ensures k.fraserShape(x, a1, a2, a3).Some? ==> r == a0 * k.fraserShape(x, a1, a2, a3).value
  {
    match k.fraserShape(x, a1, a2, a3)
    case None => 0.0
    case Some(f) => a0 * f
  }

  /** `np.zeros_like(x)`. */
  function Zeros(n: nat): (z: seq<real>)
    ensures |z| == n && forall j :: 0 <= j < n ==> z[j] == 0.0
  {
    seq(n, _ => 0.0)
  }

  /** Elementwise `a + b`. */
  function VecAdd(a: seq<real>, b: seq<real>): (r: seq<real>)
    requires |a| == |b|
    ensures |r| == |a| && forall j :: 0 <= j < |a| ==> r[j] == a[j] + b[j]
  {
    seq(|a|, j requires 0 <= j < |a| => a[j] + b[j])
  }

  /** `gaussian(x, a0, a1, a2)` on a vector. */
  function Gaussian(k: Kernels, xs: seq<real>, a0: real, a1: real, a2: real): (r: seq<real>)
    ensures |r| == |xs| && forall j :: 0 <= j < |xs| ==> r[j] == GaussianAt(k, xs[j], a0, a1, a2)
  {
    seq(|xs|, j requires 0 <= j < |xs| => GaussianAt(k, xs[j], a0, a1, a2))
  }

  /** `fraser_suzuki(x, a0, a1, a2, a3)` on a vector. */
  function FraserSuzuki(k: Kernels, xs: seq<real>, a0: real, a1: real, a2: real, a3: real): (r: seq<real>)
    ensures |r| == |xs| && forall j :: 0 <= j < |xs| ==> r[j] == FraserSuzukiAt(k, xs[j], a0, a1, a2, a3)
  {
    seq(|xs|, j requires 0 <= j < |xs| => FraserSuzukiAt(k, xs[j], a0, a1, a2, a3))
  }

  /**
   * `peaks` can read everything it needs: three parameters per slot, and a
   * coefficient for every slot that is not a Gaussian. Otherwise it raises IndexError.
   */
  predicate SlotsCovered(types: seq<string>, coeff: seq<real>, params: seq<real>)
  {
    3 * |types| <= |params| && forall i :: 0 <= i < |types| && types[i] != GAUSS ==> i < |coeff|
  }

  /** The value of slot `i` at `x`: a Gaussian for the tag "gauss", a Fraser-Suzuki peak for any other tag. */
  function SlotAt(k: Kernels, types: seq<string>, coeff: seq<real>, params: seq<real>, i: nat, x: real): real
    requires SlotsCovered(types, coeff, params) && i < |types|
  {
    if types[i] == GAUSS then GaussianAt(k, x, params[3 * i], params[3 * i + 1], params[3 * i + 2])
    else FraserSuzukiAt(k, x, params[3 * i], params[3 * i + 1], params[3 * i + 2], coeff[i])
  }

  /** The sum of slots `0 .. n - 1` at `x`, added in slot order. */
  function SumAt(k: Kernels, types: seq<string>, coeff: seq<real>, params: seq<real>, n: nat, x: real): real
    requires SlotsCovered(types, coeff, params) && n <= |types|
  {
    if n == 0 then 0.0 else SumAt(k, types, coeff, params, n - 1, x) + SlotAt(k, types, coeff, params, n - 1, x)
  }

  /** What `peaks(x, peak_types, coeff_1, *params)` computes: at every x, the sum of all slots. */
  function PeaksSpec(k: Kernels, xs: seq<real>, types: seq<string>, coeff: seq<real>, params: seq<real>): (y: seq<real>)
    requires SlotsCovered(types, coeff, params)
    ensures |y| == |xs|
    ensures types == [] ==> y == Zeros(|xs|)
  {
    seq(|xs|, j requires 0 <= j < |xs| => SumAt(k, types, coeff, params, |types|, xs[j]))
  }

  /** `MathOperations.peaks`: starts from zeros and adds one shape vector per slot. */
  method Peaks(k: Kernels, xs: seq<real>, types: seq<string>, coeff: seq<real>, params: seq<real>) returns (y: seq<real>)
    requires SlotsCovered(types, coeff, params)
    ensures y == PeaksSpec(k, xs, types, coeff, params)
  {
    y := Zeros(|xs|);
    for i := 0 to |types|
      invariant |y| == |xs|
      invariant forall j :: 0 <= j < |xs| ==> y[j] == SumAt(k, types, coeff, params, i, xs[j])
    {
      var a0, a1, a2 := params[3 * i], params[3 * i + 1], params[3 * i + 2];
      if types[i] == GAUSS {
        y := VecAdd(y, Gaussian(k, xs, a0, a1, a2));
      } else {
        y := VecAdd(y, FraserSuzuki(k, xs, a0, a1, a2, coeff[i]));
      }
    }
  }

  /** A single slot contributes exactly its own shape vector. */
  lemma PeaksSingle(k: Kernels, xs: seq<real>, t: string, c: real, a0: real, a1: real, a2: real)
    ensures SlotsCovered([t], [c], [a0, a1, a2])
    ensures PeaksSpec(k, xs, [t], [c], [a0, a1, a2])
      == (if t == GAUSS then Gaussian(k, xs, a0, a1, a2) else FraserSuzuki(k, xs, a0, a1, a2, c))
  {
    assert SlotsCovered([t], [c], [a0, a1, a2]);
    var p := [a0, a1, a2];
    assert p[3 * 0] == a0 && p[3 * 0 + 1] == a1 && p[3 * 0 + 2] == a2;
    forall j | 0 <= j < |xs|
      ensures SumAt(k, [t], [c], p, 1, xs[j]) == SlotAt(k, [t], [c], p, 0, xs[j])
    {
    }
  }

  lemma {:induction false} SumAtPrefix(k: Kernels, t1: seq<string>, c1: seq<real>, p1: seq<real>,
                                        t2: seq<string>, c2: seq<real>, p2: seq<real>, n: nat, x: real)
    requires SlotsCovered(t1, c1, p1) && SlotsCovered(t2, c2, p2)
    requires |p1| == 3 * |t1| && |c1| == |t1| && n <= |t1|
    ensures SlotsCovered(t1 + t2, c1 + c2, p1 + p2)
    ensures SumAt(k, t1 + t2, c1 + c2, p1 + p2, n, x) == SumAt(k, t1, c1, p1, n, x)
  {
    SplitCovered(t1, c1, p1, t2, c2, p2);
    if n > 0 {
      SumAtPrefix(k, t1, c1, p1, t2, c2, p2, n - 1, x);
      var i := n - 1;
      assert (p1 + p2)[3 * i] == p1[3 * i] && (p1 + p2)[3 * i + 1] == p1[3 * i + 1] && (p1 + p2)[3 * i + 2] == p1[3 * i + 2];
      assert (t1 + t2)[i] == t1[i];
      if t1[i] != GAUSS { assert (c1 + c2)[i] == c1[i]; }
    }
  }

  lemma SplitCovered(t1: seq<string>, c1: seq<real>, p1: seq<real>, t2: seq<string>, c2: seq<real>, p2: seq<real>)
    requires SlotsCovered(t1, c1, p1) && SlotsCovered(t2, c2, p2)
    requires |p1| == 3 * |t1| && |c1| == |t1|
    ensures SlotsCovered(t1 + t2, c1 + c2, p1 + p2)
  {
    forall i | 0 <= i < |t1 + t2| && (t1 + t2)[i] != GAUSS ensures i < |c1 + c2| {
      if i >= |t1| { assert (t1 + t2)[i] == t2[i - |t1|]; }
    }
  }

  lemma {:induction false} SumAtSuffix(k: Kernels, t1: seq<string>, c1: seq<real>, p1: seq<real>,
                                        t2: seq<string>, c2: seq<real>, p2: seq<real>, m: nat, x: real)
    requires SlotsCovered(t1, c1, p1) && SlotsCovered(t2, c2, p2)
    requires |p1| == 3 * |t1| && |c1| == |t1| && m <= |t2|
    ensures SlotsCovered(t1 + t2, c1 + c2, p1 + p2)
    ensures SumAt(k, t1 + t2, c1 + c2, p1 + p2, |t1| + m, x) == SumAt(k, t1, c1, p1, |t1|, x) + SumAt(k, t2, c2, p2, m, x)
  {
    SplitCovered(t1, c1, p1, t2, c2, p2);
    if m == 0 {
      SumAtPrefix(k, t1, c1, p1, t2, c2, p2, |t1|, x);
    } else {
      SumAtSuffix(k, t1, c1, p1, t2, c2, p2, m - 1, x);
      var i := m - 1;
      var n := |t1| + i;
      assert 3 * n == |p1| + 3 * i;
      assert (p1 + p2)[3 * n] == p2[3 * i] && (p1 + p2)[3 * n + 1] == p2[3 * i + 1] && (p1 + p2)[3 * n + 2] == p2[3 * i + 2];
      assert (t1 + t2)[n] == t2[i];
      if t2[i] != GAUSS { assert (c1 + c2)[n] == c2[i]; }
    }
  }

  /**
   * `peaks` over two slot lists laid end to end is the elementwise sum of
   * `peaks` over each list: every slot reads only its own parameters and coefficient.
   */
  lemma PeaksSplit(k: Kernels, xs: seq<real>, t1: seq<string>, c1: seq<real>, p1: seq<real>,
                   t2: seq<string>, c2: seq<real>, p2: seq<real>)
    requires SlotsCovered(t1, c1, p1) && SlotsCovered(t2, c2, p2)
    requires |p1| == 3 * |t1| && |c1| == |t1|
    ensures SlotsCovered(t1 + t2, c1 + c2, p1 + p2)
    ensures PeaksSpec(k, xs, t1 + t2, c1 + c2, p1 + p2) == VecAdd(PeaksSpec(k, xs, t1, c1, p1), PeaksSpec(k, xs, t2, c2, p2))
  {
    SplitCovered(t1, c1, p1, t2, c2, p2);
    forall j | 0 <= j < |xs|
      ensures SumAt(k, t1 + t2, c1 + c2, p1 + p2, |t1 + t2|, xs[j]) == SumAt(k, t1, c1, p1, |t1|, xs[j]) + SumAt(k, t2, c2, p2, |t2|, xs[j])
    {
      SumAtSuffix(k, t1, c1, p1, t2, c2, p2, |t2|, xs[j]);
    }
  }

  /** Every tag other than "gauss" is read as "fraser". */
  function NormalTag(t: string): (r: string)
    ensures r == GAUSS || r == FRASER
    ensures r == GAUSS <==> t == GAUSS
  {
    if t == GAUSS then GAUSS else FRASER
  }

  lemma {:induction false} SumAtNormal(k: Kernels, types: seq<string>, coeff: seq<real>, params: seq<real>, n: nat, x: real)
    requires SlotsCovered(types, coeff, params) && n <= |types|
    ensures SlotsCovered(seq(|types|, i requires 0 <= i < |types| => NormalTag(types[i])), coeff, params)
    ensures SumAt(k, seq(|types|, i requires 0 <= i < |types| => NormalTag(types[i])), coeff, params, n, x)
         == SumAt(k, types, coeff, params, n, x)
  {
    var norm := seq(|types|, i requires 0 <= i < |types| => NormalTag(types[i]));
    assert SlotsCovered(norm, coeff, params);
    if n > 0 {
      SumAtNormal(k, types, coeff, params, n - 1, x);
    }
  }

  /** Replacing every tag other than "gauss" by "fraser" does not change `peaks`. */
  lemma UnknownTagIsFraser(k: Kernels, xs: seq<real>, types: seq<string>, coeff: seq<real>, params: seq<real>)
    requires SlotsCovered(types, coeff, params)
    ensures SlotsCovered(seq(|types|, i requires 0 <= i < |types| => NormalTag(types[i])), coeff, params)
    ensures PeaksSpec(k, xs, seq(|types|, i requires 0 <= i < |types| => NormalTag(types[i])), coeff, params)
         == PeaksSpec(k, xs, types, coeff, params)
  {
    forall j | 0 <= j < |xs|
      ensures SumAt(k, seq(|types|, i requires 0 <= i < |types| => NormalTag(types[i])), coeff, params, |types|, xs[j])
           == SumAt(k, types, coeff, params, |types|, xs[j])
    {
      SumAtNormal(k, types, coeff, params, |types|, xs[j]);
    }
  }

  /** The upper end of a bound: a number or `np.inf`. */
  datatype Limit = Finite(r: real) | PosInf

  /** The `(lower_bounds, upper_bounds)` pair handed to `curve_fit`. */
  datatype Bounds = Bounds(lower: seq<real>, upper: seq<Limit>)

  /** The bounds of `compute_best_peaks`: 0 from below and `+inf` from above, for 3 parameters per peak. */
  function DefaultBounds(numPeaks: nat): (b: Bounds)
    ensures |b.lower| == 3 * numPeaks && |b.upper| == 3 * numPeaks
    ensures forall j :: 0 <= j < 3 * numPeaks ==> b.lower[j] == 0.0 && b.upper[j] == PosInf
  {
    Bounds(seq(3 * numPeaks, _ => 0.0), seq(3 * numPeaks, _ => PosInf))
  }

  /** Everything one `curve_fit` call receives. */
  datatype FitRequest = FitRequest(
    xs: seq<real>, ys: seq<real>, combination: seq<string>, initialParams: seq<real>,
    maxfev: int, bounds: Bounds, coeff: seq<real>)

  /** The inputs `compute_best_peaks` shares among all combinations. */
  datatype FitSetup = FitSetup(xs: seq<real>, ys: seq<real>, numPeaks: nat, initialParams: seq<real>, maxfev: int, coeff: seq<real>)

  /** One record of `results_dict`: a combination with its fitted parameters and their RMSE. */
  datatype Entry = Entry(combination: seq<string>, popt: seq<real>, rmse: real)

  /** The peak types `compute_best_peaks` combines. */
  const MATH_PEAK_TYPES: seq<string> := [GAUSS, FRASER]

  /** `list(product(['gauss', 'fraser'], repeat=num_peaks))`. */
  function MathCombinations(numPeaks: nat): seq<seq<string>>
  {
    Combinatorics.Product(Combinatorics.Repeat(MATH_PEAK_TYPES, numPeaks))
  }

  /** 2^n combinations, no two equal, being exactly the length-n tuples over {gauss, fraser}. */
  lemma MathCombinationsShape(numPeaks: nat)
    ensures |MathCombinations(numPeaks)| == Combinatorics.Pow(2, numPeaks)
    ensures Combinatorics.Distinct(MathCombinations(numPeaks))
    ensures forall e :: e in MathCombinations(numPeaks) <==>
      |e| == numPeaks && forall i :: 0 <= i < numPeaks ==> e[i] in MATH_PEAK_TYPES
  {
    Combinatorics.RepeatProduct(MATH_PEAK_TYPES, numPeaks);
    MathPeakTypesDistinct();
    Combinatorics.ProductDistinct(Combinatorics.Repeat(MATH_PEAK_TYPES, numPeaks));
  }

  lemma MathPeakTypesDistinct()
    ensures Combinatorics.Distinct(MATH_PEAK_TYPES)
  {
    var t := MATH_PEAK_TYPES;
    assert t[0][0] == 'g' && t[1][0] == 'f';
  }

  function RequestFor(setup: FitSetup, combination: seq<string>): FitRequest
  {
    FitRequest(setup.xs, setup.ys, combination, setup.initialParams, setup.maxfev, DefaultBounds(setup.numPeaks), setup.coeff)
  }

  /** The sum of squared residuals. */
  function SquaredError(ys: seq<real>, pred: seq<real>): (s: real)
    requires |ys| == |pred|
    ensures s >= 0.0
  {
    if ys == [] then 0.0
    else SquaredError(ys[..|ys| - 1], pred[..|pred| - 1]) + (ys[|ys| - 1] - pred[|pred| - 1]) * (ys[|ys| - 1] - pred[|pred| - 1])
  }

  /** `np.sqrt(np.mean((y - predicted) ** 2))`. */
  function Rmse(k: Kernels, ys: seq<real>, pred: seq<real>): real
    requires |ys| == |pred| && |ys| > 0
  {
    k.sqrt(SquaredError(ys, pred) / (|ys| as real))
  }

  /**
   * What `ComputeCombinationThread.run` records for one request, or None when
   * it raises: `fit` returns `curve_fit`'s parameters or None when it raises;
   * `peaks` raises when the initial or the fitted parameters are too few for the
   * combination; the residuals need a nonempty `y` as long as `x`.
   */
  function FitOutcome(k: Kernels, fit: FitRequest -> Option<seq<real>>, req: FitRequest): (r: Option<Entry>)
    ensures r.Some? ==> r.value.combination == req.combination
    ensures r.Some? ==> fit(req).Some? && r.value.popt == fit(req).value
  {
    if |req.ys| == 0 || |req.xs| != |req.ys| || !SlotsCovered(req.combination, req.coeff, req.initialParams) then None
    else match fit(req)
      case None => None
      case Some(popt) =>
        if !SlotsCovered(req.combination, req.coeff, popt) then None
        else Some(Entry(req.combination, popt, Rmse(k, req.ys, PeaksSpec(k, req.xs, req.combination, req.coeff, popt))))
  }

  /** `results_dict[combination] = entry`: an existing key keeps its position, a new key goes last. */
  function Store(entries: seq<Entry>, e: Entry): (r: seq<Entry>)
    ensures e in r
    ensures forall d :: d in r ==> d == e || d in entries
    ensures forall d :: d in entries && d.combination != e.combination ==> d in r
  {
    if entries == [] then [e]
    else if entries[0].combination == e.combination then [e] + entries[1..]
    else [entries[0]] + Store(entries[1..], e)
  }

  /** The dictionary shared by the fitting runs. */
  class ResultsDict {
    var entries: seq<Entry>

    constructor()
      ensures entries == []
    {
      entries := [];
    }

    method Put(e: Entry)
      modifies this
      ensures entries == Store(old(entries), e)
    {
      entries := Store(entries, e);
    }
  }

  /** One fitting run. `result` is what it found, None until `run` succeeds. */
  class ComputeCombinationThread {
    const request: FitRequest
    var result: Option<Entry>

    constructor(request: FitRequest)
      ensures this.request == request && result == None
    {
      this.request := request;
      result := None;
    }

    /** `run`: fits, scores, and stores the entry under its combination; a raise stores nothing. */
    method Run(k: Kernels, fit: FitRequest -> Option<seq<real>>, results: ResultsDict)
      modifies this, results
      ensures result == FitOutcome(k, fit, request)
      ensures result.Some? ==> results.entries == Store(old(results.entries), result.value)
      ensures result.None? ==> results.entries == old(results.entries)
    {
      result := None;
      if |request.ys| == 0 || |request.xs| != |request.ys| || !SlotsCovered(request.combination, request.coeff, request.initialParams) {
        return;
      }
      var popt := fit(request);
      if popt.None? || !SlotsCovered(request.combination, request.coeff, popt.value) {
        return;
      }
      var predicted := Peaks(k, request.xs, request.combination, request.coeff, popt.value);
      result := Some(Entry(request.combination, popt.value, Rmse(k, request.ys, predicted)));
      results.Put(result.value);
    }
  }

  /** The dictionary after the runs for `cs`, one after another. */
  function Recorded(k: Kernels, fit: FitRequest -> Option<seq<real>>, setup: FitSetup, cs: seq<seq<string>>): seq<Entry>
  {
    if cs == [] then []
    else
      var before := Recorded(k, fit, setup, cs[..|cs| - 1]);
      match FitOutcome(k, fit, RequestFor(setup, cs[|cs| - 1]))
      case None => before
      case Some(e) => Store(before, e)
  }

  /** Every record belongs to a tried combination and holds that combination's own outcome. */
  lemma {:induction false} RecordedSound(k: Kernels, fit: FitRequest -> Option<seq<real>>, setup: FitSetup, cs: seq<seq<string>>)
    ensures forall e :: e in Recorded(k, fit, setup, cs) ==>
      e.combination in cs && FitOutcome(k, fit, RequestFor(setup, e.combination)) == Some(e)
  {
    if cs != [] {
      RecordedSound(k, fit, setup, cs[..|cs| - 1]);
    }
  }

  /** Every tried combination whose fit succeeds is recorded; one whose fit raises leaves no record. */
  lemma {:induction false} RecordedComplete(k: Kernels, fit: FitRequest -> Option<seq<real>>, setup: FitSetup, cs: seq<seq<string>>)
    ensures forall c :: c in cs && FitOutcome(k, fit, RequestFor(setup, c)).Some? ==>
      FitOutcome(k, fit, RequestFor(setup, c)).value in Recorded(k, fit, setup, cs)
    ensures forall e :: e in Recorded(k, fit, setup, cs) ==> FitOutcome(k, fit, RequestFor(setup, e.combination)).Some?
  {
    if cs != [] {
      var pre := cs[..|cs| - 1];
      RecordedComplete(k, fit, setup, pre);
      RecordedSound(k, fit, setup, cs);
      forall c | c in cs && FitOutcome(k, fit, RequestFor(setup, c)).Some?
        ensures FitOutcome(k, fit, RequestFor(setup, c)).value in Recorded(k, fit, setup, cs)
      {
        if c != cs[|cs| - 1] {
          var i :| 0 <= i < |cs| && cs[i] == c;
          assert c in pre by { assert pre[i] == c; }
        }
      }
    }
  }

  /** The position `min(results_dict, key=rmse)` returns: the first entry of least RMSE. */
  function MinIndex(es: seq<Entry>): (m: nat)
    requires |es| > 0
    ensures m < |es|
    ensures forall j :: 0 <= j < |es| ==> es[m].rmse <= es[j].rmse
    ensures forall j :: 0 <= j < m ==> es[j].rmse > es[m].rmse
  {
    if |es| == 1 then 0
    else
      var m := MinIndex(es[..|es| - 1]);
      if es[|es| - 1].rmse < es[m].rmse then |es| - 1 else m
  }

  /** The triple `compute_best_peaks` returns when something succeeded. */
  datatype Best = Best(popt: seq<real>, combination: seq<string>, rmse: real)

  /** The selection over the records: None (the triple of Nones) when there is none. */
  function Select(es: seq<Entry>): (b: Option<Best>)
    ensures b.None? <==> es == []
    ensures b.Some? ==> exists i :: 0 <= i < |es| && es[i] == Entry(b.value.combination, b.value.popt, b.value.rmse)
    ensures b.Some? ==> forall j :: 0 <= j < |es| ==> b.value.rmse <= es[j].rmse
  {
    if es == [] then None
    else
      var m := MinIndex(es);
      Some(Best(es[m].popt, es[m].combination, es[m].rmse))
  }

  /**
   * `compute_best_peaks`: one run per combination over {gauss, fraser}^numPeaks,
   * then the record of least RMSE, or None when every run raised.
   */
  method ComputeBestPeaks(k: Kernels, fit: FitRequest -> Option<seq<real>>, setup: FitSetup) returns (best: Option<Best>)
    ensures best == Select(Recorded(k, fit, setup, MathCombinations(setup.numPeaks)))
    ensures best.None? <==> forall c :: c in MathCombinations(setup.numPeaks) ==> FitOutcome(k, fit, RequestFor(setup, c)).None?
    ensures best.Some? ==>
      best.value.combination in MathCombinations(setup.numPeaks)
      && FitOutcome(k, fit, RequestFor(setup, best.value.combination)) == Some(Entry(best.value.combination, best.value.popt, best.value.rmse))
    ensures best.Some? ==> forall c :: c in MathCombinations(setup.numPeaks) && FitOutcome(k, fit, RequestFor(setup, c)).Some? ==>
      best.value.rmse <= FitOutcome(k, fit, RequestFor(setup, c)).value.rmse
  {
    var combinations := MathCombinations(setup.numPeaks);
    var results := new ResultsDict();
    for i := 0 to |combinations|
      invariant results.entries == Recorded(k, fit, setup, combinations[..i])
    {
      var thread := new ComputeCombinationThread(RequestFor(setup, combinations[i]));
      thread.Run(k, fit, results);
      assert combinations[..i + 1][..i] == combinations[..i];
    }
    assert combinations[..|combinations|] == combinations;
    best := Select(results.entries);
    BestOfRecords(k, fit, setup, combinations);
  }

  /** The facts about `Select(Recorded(...))` that `compute_best_peaks` promises. */
  lemma BestOfRecords(k: Kernels, fit: FitRequest -> Option<seq<real>>, setup: FitSetup, cs: seq<seq<string>>)
    ensures var best := Select(Recorded(k, fit, setup, cs));
      && (best.None? <==> forall c :: c in cs ==> FitOutcome(k, fit, RequestFor(setup, c)).None?)
      && (best.Some? ==> best.value.combination in cs)
      && (best.Some? ==> FitOutcome(k, fit, RequestFor(setup, best.value.combination)) == Some(Entry(best.value.combination, best.value.popt, best.value.rmse)))
      && (best.Some? ==> forall c :: c in cs && FitOutcome(k, fit, RequestFor(setup, c)).Some? ==>
            best.value.rmse <= FitOutcome(k, fit, RequestFor(setup, c)).value.rmse)
  {
    var es := Recorded(k, fit, setup, cs);
    RecordedSound(k, fit, setup, cs);
    RecordedComplete(k, fit, setup, cs);
    var best := Select(es);
    if best.Some? {
      forall c | c in cs && FitOutcome(k, fit, RequestFor(setup, c)).Some?
        ensures best.value.rmse <= FitOutcome(k, fit, RequestFor(setup, c)).value.rmse
      {
        var e := FitOutcome(k, fit, RequestFor(setup, c)).value;
        var j :| 0 <= j < |es| && es[j] == e;
      }
    }
  }
}
