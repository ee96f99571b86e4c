/** `UrbanczikConnection` (models/urbanczik_connection_bc.h): the synapse of
    the Urbanczik-Senn dendritic prediction rule. On every presynaptic
    spike it has the target compress its dendritic history up to the
    spike, reads the integrals the target accumulated since its previous
    spike, folds them into its four PI integrals and sets the weight from
    them, clipped to `[Wmin, Wmax]`. */
module UrbanczikSynapse {
  import opened Entries
  import opened Wrappers
  import opened UrbanczikArchive

  /** The clipping of `send`: above `Wmax` gives `Wmax`, otherwise below
      `Wmin` gives `Wmin`. */
  function Clamp(w: real, wMin: real, wMax: real): (r: real)
    ensures wMin <= wMax ==> wMin <= r <= wMax
    ensures wMin <= w <= wMax ==> r == w
    ensures wMax < w ==> r == wMax
    ensures w <= wMax && w < wMin ==> r == wMin
  {
    if w > wMax then wMax else if w < wMin then wMin else w
  }

  /** `(x >= 0) - (x < 0)`: the sign the weight and `Wmin` are compared by. */
  function SignFrom(x: real): (r: int)
    ensures r == 1 || r == -1
    ensures r == 1 <==> 0.0 <= x
  {
    (if x >= 0.0 then 1 else 0) - (if x < 0.0 then 1 else 0)
  }

  /** `(x > 0) - (x <= 0)`: the sign `Wmax` is compared by; zero counts as
      negative here. */
  function StrictSign(x: real): (r: int)
    ensures r == 1 || r == -1
    ensures r == 1 <==> 0.0 < x
  {
    (if x > 0.0 then 1 else 0) - (if x <= 0.0 then 1 else 0)
  }

  /** The checks at the end of `set_status`: the weight must have the sign
      of `Wmin`, then the sign of `Wmax`, where a zero weight counts as
      positive and a zero `Wmax` as negative. */
  function CheckUrbanczikStatus(w: real, wMin: real, wMax: real): (r: Option<BadProperty>)
    ensures r == None <==> (0.0 <= w <==> 0.0 <= wMin) && (0.0 <= w <==> 0.0 < wMax)
    ensures r == Some(WminSignMismatch) <==> !(0.0 <= w <==> 0.0 <= wMin)
    ensures r == Some(WmaxSignMismatch) <==> (0.0 <= w <==> 0.0 <= wMin) && !(0.0 <= w <==> 0.0 < wMax)
  {
    if SignFrom(w) != SignFrom(wMin) then Some(WminSignMismatch)
    else if SignFrom(w) != StrictSign(wMax) then Some(WmaxSignMismatch)
    else None
  }

  /** A zero weight passes only with a positive `Wmax`: `Wmin = Wmax = 0`
      with weight 0 is refused. */
  lemma ZeroWeightNeedsPositiveWmax(wMax: real)
    requires wMax <= 0.0
    ensures CheckUrbanczikStatus(0.0, 0.0, wMax) == Some(WmaxSignMismatch)
  {
  }

  /** The weight `send` computes before clipping:
      `init_weight + (PI_L - PI_s - PIexp_L + PIexp_s) * 15 C_m tau_s eta / (g_L (tau_L - tau_s))`. */
  function RawWeight(initWeight: real, pi: Integrals, cM: real, tauS: real, eta: real, gL: real, tauL: real): (r: real)
    requires gL != 0.0 && tauL != tauS
    ensures pi.i1L - pi.i1S - pi.i2L + pi.i2S == 0.0 ==> r == initWeight
    ensures eta == 0.0 ==> r == initWeight
  {
    initWeight + (pi.i1L - pi.i1S - pi.i2L + pi.i2S) * 15.0 * cM * tauS * eta / (gL * (tauL - tauS))
  }

  /** A presynaptic trace at a spike: the old trace decayed over the
      inter-spike interval, plus one for the new spike. */
  function SpikeTrace(trace: real, tLastSpike: real, tSpike: real, tau: real, exp: real -> real): (r: real)
    requires tau != 0.0
    ensures 0.0 <= trace && 0.0 <= exp((tLastSpike - tSpike) / tau) ==> 1.0 <= r
  {
    trace * exp((tLastSpike - tSpike) / tau) + 1.0
  }

  /** The synapse's four PI integrals after reading `v`: the `I1` parts
      weighted by the traces are added, the exponentially weighted parts
      decay by `exp((t_lastspike - t_spike) / tau_Delta)` first. The
      integrals are kept in an `Integrals` record, in the order `PI_L`,
      `PI_s`, `PIexp_L`, `PIexp_s`. */
  function AccumulatePI(pi: Integrals, v: Integrals, traceL: real, traceS: real, fade: real): (r: Integrals)
    ensures v == NoIntegrals && fade == 1.0 ==> r == pi
    ensures traceL == 0.0 && traceS == 0.0 ==>
      r == Integrals(pi.i1L, pi.i1S, fade * pi.i2L, fade * pi.i2S)
  {
    Integrals(pi.i1L + traceL * v.i1L, pi.i1S + traceS * v.i1S,
              fade * pi.i2L + traceL * v.i2L, fade * pi.i2S + traceS * v.i2S)
  }

  /** A spike whose integrals were already read (or that finds none) leaves
      the summed integrals unchanged when no time has passed. */
  lemma NothingReadNothingLearnt(pi: Integrals, traceL: real, traceS: real)
    ensures AccumulatePI(pi, NoIntegrals, traceL, traceS, 1.0) == pi
  {
    assert traceL * 0.0 == 0.0 && traceS * 0.0 == 0.0;
  }

  /** The decay factor `exp(dt / tau)` over a time step `dt`. */
  function Decay(exp: real -> real, dt: real, tau: real): (f: real)
    requires tau != 0.0
  {
    exp(dt / tau)
  }

  /** What `send` asks of the target: compress the history up to `tEnd`
      (`compress_urbanczik_history`), then read the integrals of the record
      at `tRead` (`get_urbanczik_value`). */
  method Exchange(target: UrbanczikArchivingNode, tEnd: real, tauDelta: real, tRead: real, exp: real -> real)
    returns (v: Integrals)
    requires target.Valid() && target.CompressionParameters() && tauDelta != 0.0
    requires CompressDefined(target.nIncoming, target.compressed, tEnd)
    modifies target
    ensures target.Valid()
    ensures
      var c := Compression(old(target.nIncoming), Archive(old(target.history), old(target.compressed)), tEnd,
                           Taus(target.TauL(), target.tauSynEx, tauDelta), exp);
      var read := ValueAt(c.compressed, tRead);
      && target.history == c.history
      && target.compressed == read.compressed
      && v == read.value
    ensures target.nIncoming == old(target.nIncoming)
  {
    target.CompressUrbanczikHistory(tEnd, tauDelta, exp);
    v := target.GetUrbanczikValue(tRead);
  }

  class UrbanczikConnection {
    /** The dendritic delay `d`, in ms. */
    const delay: real

    var weight: real
    var initWeight: real
    var tauDelta: real
    var eta: real
    var wMin: real
    var wMax: real
    /** `PI_integral_L_`, `PI_integral_s_`, `PI_exp_integral_L_`,
        `PI_exp_integral_s_`. */
    var pi: Integrals
    var traceL: real
    var traceS: real
    var tLastSpike: real

    constructor (delay: real)
      ensures this.delay == delay && weight == 1.0 && initWeight == 1.0 && tauDelta == 100.0
      ensures eta == 0.07 && wMin == 0.0 && wMax == 100.0
      ensures pi == NoIntegrals && traceL == 0.0 && traceS == 0.0 && tLastSpike == -1.0
    {
      this.delay := delay;
      weight := 1.0;
      initWeight := 1.0;
      tauDelta := 100.0;
      eta := 0.07;
      wMin := 0.0;
      wMax := 100.0;
      pi := NoIntegrals;
      traceL := 0.0;
      traceS := 0.0;
      tLastSpike := -1.0;
    }

    /** The time at which a spike sent at `t` reaches the dendrite. */
    function Dendritic(t: real): (td: real)
    {
      t - delay
    }

    /** `send` for a spike at `tSpike`, with `exp` the exponential function.
        The synaptic time constant is the excitatory one for a positive
        weight and the inhibitory one otherwise. */
    method Send(tSpike: real, target: UrbanczikArchivingNode, exp: real -> real)
      requires target.Valid() && target.CompressionParameters() && tauDelta != 0.0
      requires var tauS := if weight > 0.0 then target.tauSynEx else target.tauSynIn;
        tauS != 0.0 && target.TauL() != tauS
      requires CompressDefined(target.nIncoming, target.compressed, Dendritic(tSpike))
      modifies this`pi, this`weight, this`traceL, this`traceS, this`tLastSpike, target
      ensures target.Valid()
      ensures target.nIncoming == old(target.nIncoming)
      ensures
        var c := Compression(old(target.nIncoming), Archive(old(target.history), old(target.compressed)), Dendritic(tSpike),
                             Taus(target.TauL(), target.tauSynEx, tauDelta), exp);
        var read := ValueAt(c.compressed, Dendritic(old(tLastSpike)));
        var tauS := if old(weight) > 0.0 then target.tauSynEx else target.tauSynIn;
        var fade := Decay(exp, old(tLastSpike) - tSpike, tauDelta);
        && target.history == c.history && target.compressed == read.compressed
        && pi == AccumulatePI(old(pi), read.value, old(traceL), old(traceS), fade)
        && weight == Clamp(RawWeight(initWeight, pi, target.cM, tauS, eta, target.gL, target.TauL()), wMin, wMax)
        && traceL == SpikeTrace(old(traceL), old(tLastSpike), tSpike, target.TauL(), exp)
        && traceS == SpikeTrace(old(traceS), old(tLastSpike), tSpike, tauS, exp)
      ensures wMin <= wMax ==> wMin <= weight <= wMax
      ensures tLastSpike == tSpike
    {
      var tauS := if weight > 0.0 then target.tauSynEx else target.tauSynIn;
      var v := Exchange(target, Dendritic(tSpike), tauDelta, Dendritic(tLastSpike), exp);
      Learn(tSpike, v, target.cM, tauS, target.gL, target.TauL(), exp);
    }

    /** The synapse's side of `send`, given the integrals `v` the target
        handed back and the target's `C_m`, `g_L` and `tau_L`: accumulate
        the PI integrals, set the clipped weight, advance both traces and
        remember the spike. */
    method Learn(tSpike: real, v: Integrals, cM: real, tauS: real, gL: real, tauL: real, exp: real -> real)
      requires gL != 0.0 && tauL != 0.0 && tauS != 0.0 && tauL != tauS && tauDelta != 0.0
      modifies this`pi, this`weight, this`traceL, this`traceS, this`tLastSpike
      ensures pi == AccumulatePI(old(pi), v, old(traceL), old(traceS), Decay(exp, old(tLastSpike) - tSpike, tauDelta))
      ensures weight == Clamp(RawWeight(initWeight, pi, cM, tauS, eta, gL, tauL), wMin, wMax)
      ensures traceL == SpikeTrace(old(traceL), old(tLastSpike), tSpike, tauL, exp)
      ensures traceS == SpikeTrace(old(traceS), old(tLastSpike), tSpike, tauS, exp)
      ensures tLastSpike == tSpike
    {
      pi := AccumulatePI(pi, v, traceL, traceS, Decay(exp, tLastSpike - tSpike, tauDelta));
      weight := Clamp(RawWeight(initWeight, pi, cM, tauS, eta, gL, tauL), wMin, wMax);
      traceL := SpikeTrace(traceL, tLastSpike, tSpike, tauL, exp);
      traceS := SpikeTrace(traceS, tLastSpike, tSpike, tauS, exp);
      tLastSpike := tSpike;
    }

    /** `set_status`: take every given value, make the weight the new
        initial weight, then report a sign mismatch. The values are kept
        even when an error is reported. */
    method SetStatus(w: Option<real>, delta: Option<real>, rate: Option<real>, lo: Option<real>, hi: Option<real>)
      returns (err: Option<BadProperty>)
      modifies this`weight, this`initWeight, this`tauDelta, this`eta, this`wMin, this`wMax
      ensures weight == OrElse(w, old(weight)) && initWeight == weight
      ensures tauDelta == OrElse(delta, old(tauDelta)) && eta == OrElse(rate, old(eta))
      ensures wMin == OrElse(lo, old(wMin)) && wMax == OrElse(hi, old(wMax))
      ensures err == CheckUrbanczikStatus(weight, wMin, wMax)
    {
      var newWeight := OrElse(w, weight);
      var newWmin := OrElse(lo, wMin);
      var newWmax := OrElse(hi, wMax);
      weight, initWeight, tauDelta, eta := newWeight, newWeight, OrElse(delta, tauDelta), OrElse(rate, eta);
      wMin, wMax := newWmin, newWmax;
      err := CheckUrbanczikStatus(newWeight, newWmin, newWmax);
    }
  }
}
