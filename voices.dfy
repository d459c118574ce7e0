/** The voice engine of hearnet.cpp: a fixed table of sixteen enveloped sine
    voices. A captured packet claims the first free slot (PacketHandler); the
    audio callback (Process) mixes every active voice into the output buffer,
    hard-clipping after every addition, steps each voice's envelope and phase
    and retires voices whose amplitude has fallen below 0.001.

    Both callbacks run under one mutex for their whole body, so each is modelled
    as one atomic step on the table. Arithmetic is on `real`; `sin` is a
    parameter, and the values of `pow` and `rand()` come in as a `Trigger`. */
module Voices {

  /** MAX_VOICES: the size of the voice table. */
  const MaxVoices: nat := 16

  /** A voice whose amp falls below this is retired. */
  const RetireLevel: real := 0.001

  datatype Option<T> = None | Some(value: T)

  /** One slot of the table (`struct voice`). */
  datatype Voice = Voice(
    active: bool,
    attack: real,        // fraction of the attack ramp done; 1.0 or more = decaying
    attackLength: real,  // seconds
    sinPos: real,        // oscillator phase
    sinFreq: real,
    amp: real,
    decayLength: real,   // seconds
    age: int)

  /** A slot as `memset(…, 0, …)` leaves it. */
  const Silent: Voice := Voice(false, 0.0, 0.0, 0.0, 0.0, 0.0, 0.0, 0)

  /** The audio sample rate (`srate`), fixed and positive while voices play. */
  type SampleRate = n: nat | 0 < n witness 44100

  /** What one packet contributes to a new voice: `pitchScale` is the value of
      `pow(2, len/256 * 3/12)` for the packet's length, and the four draws are the
      results of the four `rand()` calls, in the order the handler makes them. */
  datatype Trigger = Trigger(
    pitchScale: real,
    harmonicDraw: nat,
    detuneDraw: nat,
    decayDraw: nat,
    attackDraw: nat)

  /** The lengths that every voice the handler creates has. */
  predicate Configured(v: Voice)
  {
    0.001 <= v.attackLength <= 0.020 && 0.100 <= v.decayLength <= 0.199
  }

  /** The table invariant: every active slot was configured by the handler,
      and has not yet fallen below the retire level. */
  predicate ActiveConfigured(s: seq<Voice>)
  {
    forall i :: 0 <= i < |s| && s[i].active ==> Configured(s[i]) && s[i].amp >= RetireLevel
  }

  // ---------------------------------------------------------------------------
  // Allocation (get_free_voice, packet_handler)
  // ---------------------------------------------------------------------------

  /** The sine frequency the handler computes: the base pitch times a
      harmonic 1..5, plus a detune of 0..4 times the same factor. */
  function Frequency(t: Trigger): real
  {
    var factor := t.pitchScale * ((t.harmonicDraw % 5 + 1) as real);
    55.0 * 2.0 * 3.14159 * factor + ((t.detuneDraw % 5) as real) * factor
  }

  /** The voice a packet starts: a cleared slot, then the handler's field writes. */
  function NewVoice(t: Trigger): (v: Voice)
    ensures v.active && Configured(v)
    ensures v.attack == 0.0 && v.sinPos == 0.0 && v.age == 0
    ensures v.amp * (MaxVoices as real) == 0.5
  {
    Silent.(
      sinFreq := Frequency(t),
      amp := 0.5 / (MaxVoices as real),
      decayLength := ((t.decayDraw % 100 + 100) as real) / 1000.0,
      attackLength := ((t.attackDraw % 20 + 1) as real) / 1000.0,
      active := true)
  }

  /** The first inactive slot, or None when every slot is active. */
  function FirstFree(s: seq<Voice>): (r: Option<nat>)
    ensures r.None? <==> forall i :: 0 <= i < |s| ==> s[i].active
    ensures r.Some? ==> r.value < |s| && !s[r.value].active
    ensures r.Some? ==> forall i :: 0 <= i < r.value ==> s[i].active
  {
    if s == [] then None
    else if !s[0].active then Some(0)
    else match FirstFree(s[1..])
      case None => None
      case Some(k) => Some(k + 1)
  }

  /** The table after one packet: the first free slot gets a new voice, and a
      full table drops the packet. */
  function Admit(s: seq<Voice>, t: Trigger): (r: seq<Voice>)
    ensures |r| == |s|
  {
    match FirstFree(s)
    case None => s
    case Some(k) => s[k := NewVoice(t)]
  }

  /** The table after a burst of packets with no audio callback in between. */
  function AdmitAll(s: seq<Voice>, ts: seq<Trigger>): (r: seq<Voice>)
    ensures |r| == |s|
    decreases |ts|
  {
    if ts == [] then s else AdmitAll(Admit(s, ts[0]), ts[1..])
  }

  function ActiveCount(s: seq<Voice>): (n: nat)
    ensures n <= |s|
  {
    if s == [] then 0 else (if s[0].active then 1 else 0) + ActiveCount(s[1..])
  }

  /** Slots below m are active and the rest are free. */
  predicate FilledUpTo(s: seq<Voice>, m: nat)
  {
    forall i :: 0 <= i < |s| ==> s[i].active == (i < m)
  }

  lemma {:induction false} ActiveCountUpdate(s: seq<Voice>, k: nat, v: Voice)
    requires k < |s|
    ensures ActiveCount(s[k := v]) + (if s[k].active then 1 else 0)
         == ActiveCount(s) + (if v.active then 1 else 0)
  {
    if k > 0 {
      ActiveCountUpdate(s[1..], k - 1, v);
      assert s[k := v][1..] == s[1..][k - 1 := v];
    }
  }

  /** Fewer-or-equal active slots, pointwise, means fewer-or-equal in number. */
  lemma {:induction false} ActiveCountMonotone(s: seq<Voice>, t: seq<Voice>)
    requires |s| == |t|
    requires forall i :: 0 <= i < |t| && t[i].active ==> s[i].active
    ensures ActiveCount(t) <= ActiveCount(s)
  {
    if s != [] {
      ActiveCountMonotone(s[1..], t[1..]);
    }
  }

  lemma {:induction false} ActiveCountFilled(s: seq<Voice>, m: nat)
    requires m <= |s| && FilledUpTo(s, m)
    ensures ActiveCount(s) == m
  {
    if s != [] {
      ActiveCountFilled(s[1..], if m == 0 then 0 else m - 1);
    }
  }

  /** One packet: a free slot exists exactly when the table is not full; then
      only that slot changes, it is the lowest free one, it gets the handler's
      voice, and the active count grows by one. A full table is left unchanged.
      No active voice is ever overwritten. */
  lemma AdmitSpec(s: seq<Voice>, t: Trigger)
    ensures ActiveCount(s) == |s| ==> Admit(s, t) == s
    ensures ActiveCount(s) < |s| ==>
      exists k :: 0 <= k < |s| && !s[k].active && (forall i :: 0 <= i < k ==> s[i].active) && Admit(s, t) == s[k := NewVoice(t)]
    ensures ActiveCount(Admit(s, t)) == if ActiveCount(s) < |s| then ActiveCount(s) + 1 else ActiveCount(s)
    ensures |Admit(s, t)| == |s|
    ensures forall i :: 0 <= i < |s| && s[i].active ==> Admit(s, t)[i] == s[i]
  {
    match FirstFree(s)
    case None =>
      ActiveCountFilled(s, |s|);
    case Some(k) =>
      ActiveCountUpdate(s, k, NewVoice(t));
  }

  /** The handler keeps the table invariant. */
  lemma AdmitConfigured(s: seq<Voice>, t: Trigger)
    requires ActiveConfigured(s)
    ensures ActiveConfigured(Admit(s, t))
  {
  }

  /** A burst of packets adds at most one active voice per packet and never
      more than the table holds. */
  lemma {:induction false} AdmitAllBounded(s: seq<Voice>, ts: seq<Trigger>)
    ensures |AdmitAll(s, ts)| == |s|
    ensures ActiveCount(s) <= ActiveCount(AdmitAll(s, ts)) <= ActiveCount(s) + |ts|
    ensures ActiveCount(AdmitAll(s, ts)) <= |s|
    decreases |ts|
  {
    if ts != [] {
      AdmitSpec(s, ts[0]);
      AdmitAllBounded(Admit(s, ts[0]), ts[1..]);
    }
  }

  /** Starting from slots 0..m-1 active, each packet of a burst takes the next
      slot, in order, until the table is full. */
  lemma {:induction false} AdmitAllFills(s: seq<Voice>, m: nat, ts: seq<Trigger>)
    requires FilledUpTo(s, m) && m + |ts| <= |s|
    ensures FilledUpTo(AdmitAll(s, ts), m + |ts|)
    ensures forall j :: 0 <= j < |ts| ==> AdmitAll(s, ts)[m + j] == NewVoice(ts[j])
    decreases |ts|
  {
    if ts != [] {
      var s' := Admit(s, ts[0]);
      AdmitFillsNext(s, m, ts[0]);
      AdmitAllFills(s', m + 1, ts[1..]);
      AdmitAllKeepsActive(s', ts[1..]);
      var r := AdmitAll(s', ts[1..]);
      assert AdmitAll(s, ts) == r;
      forall j | 0 <= j < |ts|
        ensures r[m + j] == NewVoice(ts[j])
      {
        if j > 0 {
          assert r[(m + 1) + (j - 1)] == NewVoice(ts[1..][j - 1]);
        } else {
          assert r[m] == s'[m];
        }
      }
    }
  }

  /** With slots 0..m-1 active and slot m free, a packet takes slot m. */
  lemma AdmitFillsNext(s: seq<Voice>, m: nat, t: Trigger)
    requires FilledUpTo(s, m) && m < |s|
    ensures Admit(s, t) == s[m := NewVoice(t)]
    ensures FilledUpTo(Admit(s, t), m + 1)
  {
    FirstFreeIsLowest(s, m);
  }

  /** A burst never touches a voice that is already active. */
  lemma {:induction false} AdmitAllKeepsActive(s: seq<Voice>, ts: seq<Trigger>)
    ensures |AdmitAll(s, ts)| == |s|
    ensures forall i :: 0 <= i < |s| && s[i].active ==> AdmitAll(s, ts)[i] == s[i]
    decreases |ts|
  {
    if ts != [] {
      AdmitSpec(s, ts[0]);
      AdmitAllKeepsActive(Admit(s, ts[0]), ts[1..]);
    }
  }

  /** Once the table is full every further packet is dropped. */
  lemma {:induction false} AdmitAllWhenFull(s: seq<Voice>, ts: seq<Trigger>)
    requires FilledUpTo(s, |s|)
    ensures AdmitAll(s, ts) == s
    decreases |ts|
  {
    if ts != [] {
      assert FirstFree(s) == None;
      AdmitAllWhenFull(s, ts[1..]);
    }
  }

  // ---------------------------------------------------------------------------
  // Rendering (process)
  // ---------------------------------------------------------------------------

  /** The hard clip applied to the running sample after every addition. */
  function Clip(x: real): (y: real)
    ensures -1.0 <= y <= 1.0
    ensures -1.0 <= x <= 1.0 ==> y == x
    ensures (x > 1.0 ==> y == 1.0) && (x < -1.0 ==> y == -1.0)
  {
    if x > 1.0 then 1.0 else if x < -1.0 then -1.0 else x
  }

  /** What a voice adds to the current sample. */
  function Contribution(v: Voice, sin: real -> real): real
  {
    sin(v.sinPos) * v.amp * v.attack
  }

  /** The per-sample quantities process derives from a voice's settings and
      the sample rate: the attack increment 1/(srate*attackLength), the decay
      factor 1 - 1/(srate*decayLength) and the phase increment sinFreq/srate. */
  datatype Rates = Rates(attackStep: real, decayFactor: real, phaseStep: real)

  function RatesOf(v: Voice, srate: SampleRate): (r: Rates)
    requires Configured(v)
    ensures r.attackStep > 0.0 && r.decayFactor < 1.0
    ensures srate as real * v.decayLength >= 1.0 ==> r.decayFactor >= 0.0
  {
    Rates(1.0 / (srate as real * v.attackLength),
          1.0 - 1.0 / (srate as real * v.decayLength),
          v.sinFreq / srate as real)
  }

  /** The fields a render pass never writes. */
  predicate SameSettings(a: Voice, b: Voice)
  {
    a.attackLength == b.attackLength && a.sinFreq == b.sinFreq &&
    a.decayLength == b.decayLength && a.age == b.age
  }

  /** One sample under fixed rates: the envelope (attack ramp, else decay),
      then the phase, then retirement once amp is below the retire level. */
  function StepWith(v: Voice, r: Rates): (w: Voice)
    ensures SameSettings(w, v)
  {
    var attack := if v.attack < 1.0 then v.attack + r.attackStep else v.attack;
    var amp := if v.attack < 1.0 then v.amp else v.amp * r.decayFactor;
    v.(attack := attack, amp := amp, sinPos := v.sinPos + r.phaseStep,
       active := v.active && !(amp < RetireLevel))
  }

  /** One sample of a voice's life at sample rate srate. */
  function Step(v: Voice, srate: SampleRate): (w: Voice)
    requires Configured(v)
    ensures SameSettings(w, v) && Configured(w)
  {
    StepWith(v, RatesOf(v, srate))
  }

  /** The per-sample envelope rule: an attacking voice ramps attack by
      1/(srate*attackLength) and keeps amp; otherwise amp is scaled by
      1 - 1/(srate*decayLength) and attack is kept. */
  lemma StepEnvelope(v: Voice, srate: SampleRate)
    requires Configured(v)
    ensures v.attack < 1.0 ==>
      Step(v, srate).attack == v.attack + 1.0 / (srate as real * v.attackLength) &&
      Step(v, srate).amp == v.amp
    ensures v.attack >= 1.0 ==>
      Step(v, srate).amp == v.amp * (1.0 - 1.0 / (srate as real * v.decayLength)) &&
      Step(v, srate).attack == v.attack
  {
  }

  /** What a step preserves under rates with a positive attack increment:
      attack never falls; the voice is active afterwards exactly when it was
      active and its new amp is at least the retire level; and with a decay
      factor in [0, 1] a non-negative amp stays non-negative and never grows. */
  lemma StepMonotone(v: Voice, r: Rates)
    requires r.attackStep > 0.0
    ensures StepWith(v, r).attack >= v.attack
    ensures StepWith(v, r).active <==> v.active && StepWith(v, r).amp >= RetireLevel
    ensures 0.0 <= r.decayFactor <= 1.0 && v.amp >= 0.0 ==> 0.0 <= StepWith(v, r).amp <= v.amp
  {
    if 0.0 <= r.decayFactor <= 1.0 && v.amp >= 0.0 {
      StepAmpBounded(v, r);
    }
  }

  lemma StepAmpBounded(v: Voice, r: Rates)
    requires 0.0 <= r.decayFactor <= 1.0 && v.amp >= 0.0
    ensures 0.0 <= StepWith(v, r).amp <= v.amp
  {
    if v.attack >= 1.0 {
      ScaleDown(v.amp, r.decayFactor);
      assert StepWith(v, r).amp == v.amp * r.decayFactor;
      assert v.amp * r.decayFactor <= v.amp;
    }
  }

  /** Scaling a non-negative level by a factor in [0, 1] keeps it in [0, level]. */
  lemma ScaleDown(a: real, f: real)
    requires a >= 0.0 && 0.0 <= f <= 1.0
    ensures 0.0 <= a * f <= a
  {
  }

  /** A voice after k samples under fixed rates. */
  function Evolve(v: Voice, k: nat, r: Rates): (w: Voice)
    ensures SameSettings(w, v)
    decreases k
  {
    if k == 0 then v else StepWith(Evolve(v, k - 1, r), r)
  }

  /** Stepping a voice at its own rates is one more sample of its evolution. */
  lemma EvolveStep(v: Voice, k: nat, srate: SampleRate)
    requires Configured(v)
    ensures Configured(Evolve(v, k, RatesOf(v, srate)))
    ensures Step(Evolve(v, k, RatesOf(v, srate)), srate) == Evolve(v, k + 1, RatesOf(v, srate))
  {
  }

  /** Over k samples attack never falls, the voice is never activated, a voice
      left below the retire level is inactive, and with a decay factor in
      [0, 1] a non-negative amp never grows; then, since amp only falls, the
      voice is still active exactly when it was active and its amp has not
      fallen below the retire level. */
  lemma {:induction false} EvolveEnvelope(v: Voice, k: nat, r: Rates)
    requires r.attackStep > 0.0
    ensures Evolve(v, k, r).attack >= v.attack
    ensures Evolve(v, k, r).active ==> v.active
    ensures k > 0 && Evolve(v, k, r).amp < RetireLevel ==> !Evolve(v, k, r).active
    ensures 0.0 <= r.decayFactor <= 1.0 && v.amp >= 0.0 ==> 0.0 <= Evolve(v, k, r).amp <= v.amp
    ensures k > 0 && 0.0 <= r.decayFactor <= 1.0 && v.amp >= 0.0 ==>
      (Evolve(v, k, r).active <==> v.active && Evolve(v, k, r).amp >= RetireLevel)
  {
    if k > 0 {
      EvolveEnvelope(v, k - 1, r);
      StepMonotone(Evolve(v, k - 1, r), r);
      if 0.0 <= r.decayFactor <= 1.0 && v.amp >= 0.0 {
        StepAmpBounded(Evolve(v, k - 1, r), r);
      }
    }
  }

  /** x to the power k. */
  function Pow(x: real, k: nat): real
  {
    if k == 0 then 1.0 else x * Pow(x, k - 1)
  }

  /** A decaying voice keeps its attack, and its amp after k samples is
      amp * f^k, for the decay factor f. */
  lemma {:induction false} EvolveDecay(v: Voice, k: nat, r: Rates)
    requires v.attack >= 1.0
    ensures Evolve(v, k, r).attack == v.attack
    ensures Evolve(v, k, r).amp == v.amp * Pow(r.decayFactor, k)
  {
    if k > 0 {
      EvolveDecay(v, k - 1, r);
      assert Evolve(v, k, r).amp == (v.amp * Pow(r.decayFactor, k - 1)) * r.decayFactor;
    }
  }

  /** While decaying with a positive amp and a decay factor in [0, 1), amp
      falls strictly at every sample. */
  lemma StepDecays(v: Voice, r: Rates)
    requires v.attack >= 1.0 && v.amp > 0.0 && 0.0 <= r.decayFactor < 1.0
    ensures StepWith(v, r).amp < v.amp
  {
    assert StepWith(v, r).amp == v.amp * r.decayFactor;
    assert v.amp - v.amp * r.decayFactor == v.amp * (1.0 - r.decayFactor);
  }

  /** a <= b scaled by c >= 0. */
  lemma MulLe(c: real, a: real, b: real)
    requires c >= 0.0 && a <= b
    ensures c * a <= c * b
  {
  }

  /** A product of two factors in [0, 1] lies between 0 and the first. */
  lemma UnitProduct(x: real, y: real)
    requires 0.0 <= x <= 1.0 && 0.0 <= y <= 1.0
    ensures 0.0 <= x * y <= x
  {
    MulLe(x, 0.0, y);
    MulLe(x, y, 1.0);
  }

  /** Distributing the next Bernoulli factor over one more step. */
  lemma Distrib(e: real, p: real, K: real, d: real)
    ensures (e * p) * (1.0 + (K + 1.0) * d) == e * (p * (1.0 + K * d)) + (e * d) * p
  {
  }

  /** (1 - d)*d expanded. */
  lemma Expand(e: real, d: real)
    requires e == 1.0 - d && d >= 0.0
    ensures e * d == d - d * d && d * d >= 0.0
  {
  }

  /** The linear last step of BernoulliStep. */
  lemma Combine(x: real, a: real, b: real, e: real, ed: real)
    requires x == a + b && a <= e && b <= ed && e + ed <= 1.0
    ensures x <= 1.0
  {
  }

  /** One step of Bernoulli's bound: from p*(1 + K*d) <= 1 to
      ((1 - d)*p)*(1 + (K + 1)*d) <= 1. */
  lemma BernoulliStep(d: real, p: real, K: real)
    requires 0.0 <= d <= 1.0 && 0.0 <= p <= 1.0 && K >= 0.0 && p * (1.0 + K * d) <= 1.0
    ensures 0.0 <= (1.0 - d) * p <= 1.0
    ensures ((1.0 - d) * p) * (1.0 + (K + 1.0) * d) <= 1.0
  {
    UnitProduct(1.0 - d, p);
    MulLe(1.0 - d, p * (1.0 + K * d), 1.0);
    UnitProduct(1.0 - d, d);
    MulLe((1.0 - d) * d, p, 1.0);
    Expand(1.0 - d, d);
    Distrib(1.0 - d, p, K, d);
    Combine(((1.0 - d) * p) * (1.0 + (K + 1.0) * d), (1.0 - d) * (p * (1.0 + K * d)),
      ((1.0 - d) * d) * p, 1.0 - d, (1.0 - d) * d);
  }

  /** Bernoulli's bound for a factor 1 - d: (1 - d)^k * (1 + k*d) <= 1. */
  lemma {:induction false} PowBernoulli(d: real, k: nat)
    requires 0.0 <= d <= 1.0
    ensures 0.0 <= Pow(1.0 - d, k) <= 1.0
    ensures Pow(1.0 - d, k) * (1.0 + (k as real) * d) <= 1.0
  {
    if k > 0 {
      PowBernoulli(d, k - 1);
      BernoulliStep(d, Pow(1.0 - d, k - 1), (k - 1) as real);
      assert (k as real) == ((k - 1) as real) + 1.0;
    }
  }

  /** A level a >= 0 scaled by p is below the retire level when p*q <= 1 for
      some q > 1000*a. */
  lemma BelowRetire(a: real, p: real, q: real)
    requires a >= 0.0 && p >= 0.0 && p * q <= 1.0 && q > 1000.0 * a
    ensures a * p < RetireLevel
  {
    MulLe(a, p * q, 1.0);
    if a * p >= RetireLevel {
      MulLe(q, RetireLevel, a * p);
    }
  }

  /** x > D*y with D > 0 gives x*(1/D) > y. */
  lemma DivideBound(x: real, D: real, y: real)
    requires D > 0.0 && x > D * y
    ensures x * (1.0 / D) > y
  {
    assert x * (1.0 / D) == x / D;
  }

  /** With decay factor 1 - 1/D, D >= 1, a level a >= 0 is below the retire
      level after any k > D*(1000*a - 1) samples. */
  lemma DecayBelowRetire(a: real, D: real, k: nat)
    requires a >= 0.0 && D >= 1.0 && (k as real) > D * (1000.0 * a - 1.0)
    ensures a * Pow(1.0 - 1.0 / D, k) < RetireLevel
  {
    var d := 1.0 / D;
    PowBernoulli(d, k);
    DivideBound(k as real, D, 1000.0 * a - 1.0);
    BelowRetire(a, Pow(1.0 - d, k), 1.0 + (k as real) * d);
  }

  /** A decaying voice with decay factor 1 - 1/D, D >= 1, is inactive after
      any k > D*(1000*amp - 1) samples. */
  lemma DecayRetires(w: Voice, k: nat, r: Rates, D: real)
    requires w.attack >= 1.0 && w.amp >= 0.0 && D >= 1.0 && r.decayFactor == 1.0 - 1.0 / D
    requires r.attackStep > 0.0 && k > 0 && (k as real) > D * (1000.0 * w.amp - 1.0)
    ensures !Evolve(w, k, r).active
  {
    DecayBelowRetire(w.amp, D, k);
    EvolveDecay(w, k, r);
    EvolveEnvelope(w, k, r);
  }

  /** Evolving j samples, then k more, is evolving j + k samples. */
  lemma {:induction false} EvolveAdd(v: Voice, j: nat, k: nat, r: Rates)
    ensures Evolve(Evolve(v, j, r), k, r) == Evolve(v, j + k, r)
  {
    if k > 0 {
      EvolveAdd(v, j, k - 1, r);
    }
  }

  /** A voice retires within a bounded number of samples: once its attack
      ramp is over (after a >= srate*attackLength samples) and then
      k > srate*decayLength*(1000*amp - 1) more samples, it is inactive. For a
      new voice (amp 1/32) at 44100 Hz with a 0.1 s decay that is at most
      133,403 samples after the ramp. */
  lemma VoiceRetires(v: Voice, srate: SampleRate, a: nat, k: nat)
    requires Configured(v) && v.attack >= 0.0 && v.amp >= 0.0
    requires a as real >= srate as real * v.attackLength
    requires srate as real * v.decayLength >= 1.0
    requires k > 0 && (k as real) > srate as real * v.decayLength * (1000.0 * v.amp - 1.0)
    ensures !Evolve(v, a + k, RatesOf(v, srate)).active
  {
    var r := RatesOf(v, srate);
    var D := srate as real * v.decayLength;
    var w := Evolve(v, a, r);
    EvolveAttackCompletes(v, a, srate);
    EvolveEnvelope(v, a, r);
    MulLe(D, 1000.0 * w.amp - 1.0, 1000.0 * v.amp - 1.0);
    DecayRetires(w, k, r, D);
    EvolveAdd(v, a, k, r);
  }

  /** The attack level after k samples: ramped by d per sample until it
      reaches 1, then held. */
  function AttackAfter(a: real, d: real, k: nat): real
  {
    if k == 0 then a
    else
      var prev := AttackAfter(a, d, k - 1);
      if prev < 1.0 then prev + d else prev
  }

  /** Attack over k samples follows AttackAfter: the ramp does not depend on
      amp, phase or activity. */
  lemma {:induction false} EvolveAttackAfter(v: Voice, k: nat, r: Rates)
    ensures Evolve(v, k, r).attack == AttackAfter(v.attack, r.attackStep, k)
  {
    if k > 0 {
      EvolveAttackAfter(v, k - 1, r);
    }
  }

  /** After k samples the ramp is at least min(1, a + k*d). */
  lemma {:induction false} AttackAfterBound(a: real, d: real, k: nat)
    requires d > 0.0
    ensures var x := a + (k as real) * d;
      AttackAfter(a, d, k) >= if x < 1.0 then x else 1.0
  {
    if k > 0 {
      AttackAfterBound(a, d, k - 1);
      var prev := AttackAfter(a, d, k - 1);
      assert AttackAfter(a, d, k) == if prev < 1.0 then prev + d else prev;
      assert (k as real) * d == ((k - 1) as real) * d + d;
    }
  }

  /** k samples of d = 1/D each add up to at least 1 once k >= D. */
  lemma StepsReachOne(k: real, D: real, d: real)
    requires D > 0.0 && k >= D && d == 1.0 / D
    ensures k * d >= 1.0
  {
  }

  /** A voice starting its ramp at attack >= 0 has finished it after
      srate*attackLength samples (441 samples for 10 ms at 44100 Hz). */
  lemma EvolveAttackCompletes(v: Voice, k: nat, srate: SampleRate)
    requires Configured(v) && v.attack >= 0.0
    requires k as real >= srate as real * v.attackLength
    ensures Evolve(v, k, RatesOf(v, srate)).attack >= 1.0
  {
    var r := RatesOf(v, srate);
    StepsReachOne(k as real, srate as real * v.attackLength, r.attackStep);
    RampCompletes(v, k, r);
  }

  /** Under any positive ramp increment d, a ramp from attack >= 0 is complete
      once k*d >= 1. */
  lemma RampCompletes(v: Voice, k: nat, r: Rates)
    requires r.attackStep > 0.0 && v.attack >= 0.0 && (k as real) * r.attackStep >= 1.0
    ensures Evolve(v, k, r).attack >= 1.0
  {
    EvolveAttackAfter(v, k, r);
    AttackAfterBound(v.attack, r.attackStep, k);
  }

  /** Two voices that agree on everything except `active`. */
  predicate SameButActive(a: Voice, b: Voice)
  {
    SameSettings(a, b) && a.attack == b.attack && a.sinPos == b.sinPos && a.amp == b.amp
  }

  /** The envelope and phase never consult `active`. */
  lemma {:induction false} EvolveIgnoresActive(v: Voice, w: Voice, k: nat, r: Rates)
    requires SameButActive(v, w)
    ensures SameButActive(Evolve(v, k, r), Evolve(w, k, r))
  {
    if k > 0 {
      EvolveIgnoresActive(v, w, k - 1, r);
    }
  }

  lemma ContributionIgnoresActive(v: Voice, w: Voice, sin: real -> real)
    requires SameButActive(v, w)
    ensures Contribution(v, sin) == Contribution(w, sin)
  {
  }

  /** What a voice adds to frames 0..n-1 of a buffer: frame j hears the voice
      as it stands after j samples (SoundAt). */
  function Sound(v: Voice, n: nat, sin: real -> real, r: Rates): (c: seq<real>)
    ensures |c| == n
    decreases n
  {
    if n == 0 then [] else Sound(v, n - 1, sin, r) + [Contribution(Evolve(v, n - 1, r), sin)]
  }

  lemma {:induction false} SoundAt(v: Voice, n: nat, j: nat, sin: real -> real, r: Rates)
    requires j < n
    ensures Sound(v, n, sin, r)[j] == Contribution(Evolve(v, j, r), sin)
  {
    if j < n - 1 {
      SoundAt(v, n - 1, j, sin, r);
    }
  }

  /** A voice's sound mixed into the buffer, clipping every sum to [-1, 1]. */
  function MixInto(out: seq<real>, sound: seq<real>): (o: seq<real>)
    requires |sound| == |out|
    ensures |o| == |out| && forall j :: 0 <= j < |o| ==> -1.0 <= o[j] <= 1.0
  {
    seq(|out|, j requires 0 <= j < |out| => Clip(out[j] + sound[j]))
  }

  /** The frame loop does not stop when a voice retires: what a voice sounds
      over the buffer does not depend on its `active` flag. */
  lemma SoundIgnoresActive(v: Voice, w: Voice, n: nat, sin: real -> real, r: Rates)
    requires SameButActive(v, w)
    ensures Sound(v, n, sin, r) == Sound(w, n, sin, r)
  {
    forall j | 0 <= j < n
      ensures Sound(v, n, sin, r)[j] == Sound(w, n, sin, r)[j]
    {
      SoundAt(v, n, j, sin, r);
      SoundAt(w, n, j, sin, r);
      EvolveIgnoresActive(v, w, j, r);
      ContributionIgnoresActive(Evolve(v, j, r), Evolve(w, j, r), sin);
    }
  }

  /** The output buffer and the table, as the slot loop leaves them. */
  datatype Rendered = Rendered(out: seq<real>, slots: seq<Voice>)

  /** Slots 0..n-1 rendered in order into `out`: each slot active on entry mixes
      its voice over the whole buffer and is left as it stands after the last
      frame. */
  function RenderSlots(slots: seq<Voice>, out: seq<real>, n: nat, sin: real -> real, srate: SampleRate): (r: Rendered)
    requires ActiveConfigured(slots) && n <= |slots|
    ensures |r.out| == |out| && |r.slots| == |slots|
    ensures forall i :: 0 <= i < |slots| ==>
      r.slots[i] == if i < n && slots[i].active then Evolve(slots[i], |out|, RatesOf(slots[i], srate)) else slots[i]
    decreases n
  {
    if n == 0 then Rendered(out, slots)
    else
      var prev := RenderSlots(slots, out, n - 1, sin, srate);
      var v := prev.slots[n - 1];
      if v.active then
        var r := RatesOf(v, srate);
        Rendered(MixInto(prev.out, Sound(v, |out|, sin, r)), prev.slots[n - 1 := Evolve(v, |out|, r)])
      else prev
  }

  /** A silent buffer of nframes samples (the memset). */
  function Silence(nframes: nat): (z: seq<real>)
    ensures |z| == nframes && forall j :: 0 <= j < nframes ==> z[j] == 0.0
  {
    seq(nframes, _ => 0.0)
  }

  /** One audio callback: silence, then every slot in table order. */
  function Render(slots: seq<Voice>, nframes: nat, sin: real -> real, srate: SampleRate): Rendered
    requires ActiveConfigured(slots)
  {
    RenderSlots(slots, Silence(nframes), |slots|, sin, srate)
  }

  /** Output bound: starting from samples in [-1, 1], every sample stays there. */
  lemma {:induction false} RenderSlotsBounded(slots: seq<Voice>, out: seq<real>, n: nat, sin: real -> real, srate: SampleRate)
    requires ActiveConfigured(slots) && n <= |slots|
    requires forall j :: 0 <= j < |out| ==> -1.0 <= out[j] <= 1.0
    ensures forall j :: 0 <= j < |out| ==> -1.0 <= RenderSlots(slots, out, n, sin, srate).out[j] <= 1.0
  {
    if n > 0 {
      RenderSlotsBounded(slots, out, n - 1, sin, srate);
    }
  }

  /** Idle buffer: with no active slot, the buffer and the table are unchanged. */
  lemma {:induction false} RenderSlotsIdle(slots: seq<Voice>, out: seq<real>, n: nat, sin: real -> real, srate: SampleRate)
    requires ActiveConfigured(slots) && n <= |slots|
    requires forall i :: 0 <= i < |slots| ==> !slots[i].active
    ensures RenderSlots(slots, out, n, sin, srate) == Rendered(out, slots)
  {
    if n > 0 {
      RenderSlotsIdle(slots, out, n - 1, sin, srate);
    }
  }

  /** The properties of one audio callback over the whole table: every sample in
      [-1, 1]; an inactive slot untouched; no slot activated, so the active count
      never grows; an active slot left below the retire level is inactive; attack
      never falls; amp never grows when srate*decayLength >= 1, and then an active
      slot stays active exactly while its amp is at least 0.001; and with no active
      slot the buffer is silent and the table unchanged. */
  lemma RenderSpec(slots: seq<Voice>, nframes: nat, sin: real -> real, srate: SampleRate)
    requires ActiveConfigured(slots)
    ensures var r := Render(slots, nframes, sin, srate);
      |r.out| == nframes && |r.slots| == |slots| && ActiveConfigured(r.slots) &&
      (forall j :: 0 <= j < nframes ==> -1.0 <= r.out[j] <= 1.0) &&
      ActiveCount(r.slots) <= ActiveCount(slots)
    ensures var r := Render(slots, nframes, sin, srate);
      forall i :: 0 <= i < |slots| ==>
        (!slots[i].active ==> r.slots[i] == slots[i]) &&
        (r.slots[i].active ==> slots[i].active) &&
        (slots[i].active && nframes > 0 && r.slots[i].amp < RetireLevel ==> !r.slots[i].active) &&
        r.slots[i].attack >= slots[i].attack &&
        (slots[i].active && srate as real * slots[i].decayLength >= 1.0 ==>
          0.0 <= r.slots[i].amp <= slots[i].amp) &&
        (slots[i].active && nframes > 0 && srate as real * slots[i].decayLength >= 1.0 ==>
          (r.slots[i].active <==> r.slots[i].amp >= RetireLevel))
    ensures (forall i :: 0 <= i < |slots| ==> !slots[i].active) ==>
      Render(slots, nframes, sin, srate) == Rendered(Silence(nframes), slots)
  {
    var r := Render(slots, nframes, sin, srate);
    RenderSlotsBounded(slots, Silence(nframes), |slots|, sin, srate);
    forall i | 0 <= i < |slots| && slots[i].active
      ensures r.slots[i].attack >= slots[i].attack
      ensures r.slots[i].active ==> slots[i].active
      ensures nframes > 0 && r.slots[i].amp < RetireLevel ==> !r.slots[i].active
      ensures srate as real * slots[i].decayLength >= 1.0 ==>
        0.0 <= r.slots[i].amp <= slots[i].amp
      ensures nframes > 0 && srate as real * slots[i].decayLength >= 1.0 ==>
        (r.slots[i].active <==> r.slots[i].amp >= RetireLevel)
    {
      EvolveEnvelope(slots[i], nframes, RatesOf(slots[i], srate));
    }
    ActiveCountMonotone(slots, r.slots);
    if forall i :: 0 <= i < |slots| ==> !slots[i].active {
      RenderSlotsIdle(slots, Silence(nframes), |slots|, sin, srate);
    }
  }

  // ---------------------------------------------------------------------------
  // The table and the two callbacks, in place
  // ---------------------------------------------------------------------------

  /** The global `voices[]` array, updated in place by both callbacks. */
  class VoiceTable {
    var voices: array<Voice>

    ghost predicate Valid()
      reads this, voices
    {
      voices.Length == MaxVoices && ActiveConfigured(voices[..])
    }

    /** A zero-initialised global table. */
    constructor ()
      ensures Valid() && fresh(voices)
      ensures forall i :: 0 <= i < voices.Length ==> voices[i] == Silent
    {
      voices := new Voice[MaxVoices](_ => Silent);
    }

    /** init_voices: clear every slot. */
    method InitVoices()
      requires voices.Length == MaxVoices
      modifies voices
      ensures Valid()
      ensures forall i :: 0 <= i < voices.Length ==> voices[i] == Silent
    {
      var i := 0;
      while i < voices.Length
        invariant 0 <= i <= voices.Length
        invariant forall j :: 0 <= j < i ==> voices[j] == Silent
      {
        voices[i] := Silent;
        i := i + 1;
      }
    }

    /** get_free_voice: the lowest inactive slot, None when all are active. */
    method FreeVoice() returns (r: Option<nat>)
      requires Valid()
      ensures r.None? <==> forall i :: 0 <= i < voices.Length ==> voices[i].active
      ensures r.Some? ==> r.value < voices.Length && !voices[r.value].active
      ensures r.Some? ==> forall i :: 0 <= i < r.value ==> voices[i].active
      ensures r == FirstFree(voices[..])
    {
      var index := 0;
      while index < MaxVoices
        invariant 0 <= index <= MaxVoices
        invariant forall i :: 0 <= i < index ==> voices[i].active
      {
        if !voices[index].active {
          r := Some(index);
          FirstFreeIsLowest(voices[..], index);
          return;
        }
        index := index + 1;
      }
      r := None;
    }

    /** packet_handler: claim the first free slot for a new voice, or drop the
        packet when the table is full. */
    method PacketHandler(t: Trigger)
      requires Valid()
      modifies voices
      ensures Valid()
      ensures voices[..] == Admit(old(voices[..]), t)
    {
      AdmitConfigured(voices[..], t);
      var slot := FreeVoice();
      if slot.Some? {
        var k := slot.value;
        var created := Silent;
        created := created.(sinPos := 0.0);
        created := created.(sinFreq := Frequency(t));
        created := created.(amp := 0.5 / (MaxVoices as real));
        created := created.(decayLength := ((t.decayDraw % 100 + 100) as real) / 1000.0);
        created := created.(attack := 0.0);
        created := created.(attackLength := ((t.attackDraw % 20 + 1) as real) / 1000.0);
        created := created.(active := true);
        assert created == NewVoice(t);
        voices[k] := created;
      }
    }

    /** One frame of one slot in place: envelope, phase, retirement. */
    method StepVoice(index: nat, srate: SampleRate)
      requires index < voices.Length && Configured(voices[index])
      modifies voices
      ensures voices[..] == old(voices[..])[index := Step(old(voices[index]), srate)]
    {
      var current := voices[index];
      ghost var before := current;
      var rates := RatesOf(current, srate);
      if current.attack < 1.0 {
        current := current.(attack := current.attack + rates.attackStep);
      } else {
        current := current.(amp := current.amp * rates.decayFactor);
      }
      current := current.(sinPos := current.sinPos + rates.phaseStep);
      if current.amp < RetireLevel {
        current := current.(active := false);
      }
      assert current == StepWith(before, rates);
      voices[index] := current;
    }

    /** One frame of the mix in place: add, then hard-clip. */
    static method MixSample(out: array<real>, frame: nat, c: real)
      requires frame < out.Length
      modifies out
      ensures out[..] == old(out[..])[frame := Clip(old(out[frame]) + c)]
    {
      out[frame] := out[frame] + c;
      if out[frame] > 1.0 {
        out[frame] := 1.0;
      } else if out[frame] < -1.0 {
        out[frame] := -1.0;
      }
    }

    /** The frame loop for one active slot: every frame of the buffer, even
        after the voice retires. */
    method RenderVoice(index: nat, out: array<real>, sin: real -> real, srate: SampleRate)
      requires index < voices.Length && Configured(voices[index])
      modifies voices, out
      ensures out[..] == MixInto(old(out[..]), Sound(old(voices[index]), out.Length, sin, RatesOf(old(voices[index]), srate)))
      ensures voices[..] == old(voices[..])[index := Evolve(old(voices[index]), out.Length, RatesOf(old(voices[index]), srate))]
    {
      ghost var r := RatesOf(voices[index], srate);
      ghost var sound := Sound(voices[index], out.Length, sin, r);
      var frame := 0;
      while frame != out.Length
        invariant 0 <= frame <= out.Length
        invariant forall j :: 0 <= j < frame ==> out[j] == Clip(old(out[j]) + sound[j])
        invariant forall j :: frame <= j < out.Length ==> out[j] == old(out[j])
        invariant voices[..] == old(voices[..])[index := Evolve(old(voices[index]), frame, r)]
      {
        assert voices[index] == Evolve(old(voices[index]), frame, r);
        SoundAt(old(voices[index]), out.Length, frame, sin, r);
        EvolveStep(old(voices[index]), frame, srate);
        MixSample(out, frame, Contribution(voices[index], sin));
        StepVoice(index, srate);
        assert voices[index] == Evolve(old(voices[index]), frame + 1, r);
        frame := frame + 1;
      }
    }

    /** The memset: every sample of the buffer set to 0. */
    static method ClearBuffer(out: array<real>)
      modifies out
      ensures out[..] == Silence(out.Length)
    {
      var s := 0;
      while s < out.Length
        invariant 0 <= s <= out.Length
        invariant forall j :: 0 <= j < s ==> out[j] == 0.0
      {
        out[s] := 0.0;
        s := s + 1;
      }
    }

    /** process: silence the buffer, then mix every active slot over every frame,
        clipping after each addition and stepping envelope, phase and retirement. */
    method Process(out: array<real>, sin: real -> real, srate: SampleRate)
      requires Valid()
      modifies voices, out
      ensures Valid()
      ensures out[..] == Render(old(voices[..]), out.Length, sin, srate).out
      ensures voices[..] == Render(old(voices[..]), out.Length, sin, srate).slots
      ensures forall j :: 0 <= j < out.Length ==> -1.0 <= out[j] <= 1.0
    {
      var nframes := out.Length;
      ClearBuffer(out);
      ghost var slots0 := voices[..];

      var index := 0;
      while index != MaxVoices
        invariant 0 <= index <= MaxVoices && voices.Length == MaxVoices
        invariant Rendered(out[..], voices[..]) == RenderSlots(slots0, Silence(nframes), index, sin, srate)
      {
        assert voices[index] == slots0[index];
        if voices[index].active {
          RenderVoice(index, out, sin, srate);
        }
        assert Rendered(out[..], voices[..]) == RenderSlots(slots0, Silence(nframes), index + 1, sin, srate);
        index := index + 1;
      }
      RenderSpec(slots0, nframes, sin, srate);
    }
  }

  lemma FirstFreeIsLowest(s: seq<Voice>, k: nat)
    requires k < |s| && !s[k].active
    requires forall i :: 0 <= i < k ==> s[i].active
    ensures FirstFree(s) == Some(k)
  {
  }
}
