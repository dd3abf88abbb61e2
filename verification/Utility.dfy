/** How the utility of a memory moves: reward feedback (memory/store.py) and daily decay
    (memory/tasks.py). Floating point is modelled by reals. */
module Utility {

  const LOWEST := 0.1
  const HIGHEST := 0.9

  function Clamp(x: real): real {
    if x < LOWEST then LOWEST else if x > HIGHEST then HIGHEST else x
  }

  function Pow(base: real, n: nat): real {
    if n == 0 then 1.0 else base * Pow(base, n - 1)
  }

  /** One reward: a tenth of the way towards it, clamped. */
  function Feedback(u: real, reward: real): real {
    Clamp(u + 0.1 * (reward - u))
  }

  /** One decay: one percent off, never below the floor. */
  function Decay(u: real): real {
    if u * 0.99 < LOWEST then LOWEST else u * 0.99
  }

  function FeedbackN(u: real, reward: real, n: nat): real
    decreases n
  {
    if n == 0 then u else FeedbackN(Feedback(u, reward), reward, n - 1)
  }

  function DecayN(u: real, n: nat): real {
    if n == 0 then u else Decay(DecayN(u, n - 1))
  }

  datatype Event = Reward(reward: real) | Idle

  function Apply(u: real, e: Event): real {
    match e
    case Reward(r) => Feedback(u, r)
    case Idle => Decay(u)
  }

  function ApplyAll(u: real, events: seq<Event>): real
    decreases |events|
  {
    if events == [] then u else ApplyAll(Apply(u, events[0]), events[1..])
  }

  ghost predicate InBand(u: real) {
    LOWEST <= u <= HIGHEST
  }

  /** Every event keeps the band, keeps the order of two memories it is applied to, and
      brings them closer together by at least one percent. */
  lemma OneEvent(u: real, v: real, e: Event)
    requires InBand(u) && InBand(v) && u <= v
    ensures InBand(Apply(u, e)) && InBand(Apply(v, e))
    ensures Apply(u, e) <= Apply(v, e)
    ensures Apply(v, e) - Apply(u, e) <= 0.99 * (v - u)
  {
  }

  /** Whatever the common history of rewards and decays, the band and the order survive,
      and the difference the two memories started with is forgotten geometrically. */
  lemma {:induction false} CommonHistory(u: real, v: real, events: seq<Event>)
    requires 0.1 <= u <= v <= 0.9
    ensures 0.1 <= ApplyAll(u, events) <= ApplyAll(v, events) <= 0.9
    ensures 0.0 <= ApplyAll(v, events) - ApplyAll(u, events) <= Pow(0.99, |events|) * (v - u)
  {
    GapShrinks(u, v, events);
    ShrunkClosedForm(0.99, v - u, |events|);
  }

  /** A gap after n steps that each leave `rate` of it. */
  function Shrunk(rate: real, gap: real, n: nat): real
    decreases n
  {
    if n == 0 then gap else Shrunk(rate, rate * gap, n - 1)
  }

  lemma {:induction false} ShrunkMonotone(rate: real, a: real, b: real, n: nat)
    requires 0.0 <= rate && a <= b
    ensures Shrunk(rate, a, n) <= Shrunk(rate, b, n)
    decreases n
  {
    if n > 0 {
      ShrunkMonotone(rate, rate * a, rate * b, n - 1);
    }
  }

  lemma {:induction false} ShrunkClosedForm(rate: real, gap: real, n: nat)
    ensures Shrunk(rate, gap, n) == Pow(rate, n) * gap
    decreases n
  {
    if n > 0 {
      ShrunkClosedForm(rate, rate * gap, n - 1);
      Regroup(Pow(rate, n - 1), rate, gap);
    }
  }

  lemma Regroup(p: real, rate: real, gap: real)
    ensures p * (rate * gap) == (rate * p) * gap
  {
  }

  lemma {:induction false} GapShrinks(u: real, v: real, events: seq<Event>)
    requires InBand(u) && InBand(v) && u <= v
    ensures InBand(ApplyAll(u, events)) && InBand(ApplyAll(v, events))
    ensures 0.0 <= ApplyAll(v, events) - ApplyAll(u, events) <= Shrunk(0.99, v - u, |events|)
    decreases |events|
  {
    if events != [] {
      var u', v' := Apply(u, events[0]), Apply(v, events[0]);
      OneEvent(u, v, events[0]);
      GapShrinks(u', v', events[1..]);
      ShrunkMonotone(0.99, v' - u', 0.99 * (v - u), |events| - 1);
    }
  }

  /** Constant reward: the utility approaches the clamped reward from its own side, never
      passes it, and at least a tenth of the way is covered each time ... */
  lemma {:induction false} ConstantReward(u: real, reward: real, n: nat)
    requires 0.1 <= u <= 0.9
    ensures var c := if reward < 0.1 then 0.1 else if reward > 0.9 then 0.9 else reward;
      var v := FeedbackN(u, reward, n);
      && (u <= c ==> 0.0 <= c - v <= Pow(0.9, n) * (c - u))
      && (u >= c ==> 0.0 <= v - c <= Pow(0.9, n) * (u - c))
  {
    var c := Clamp(reward);
    Attracted(u, reward, c, n);
    ShrunkClosedForm(0.9, c - u, n);
    ShrunkClosedForm(0.9, u - c, n);
  }

  lemma {:induction false} Attracted(u: real, reward: real, c: real, n: nat)
    requires InBand(u) && c == Clamp(reward)
    ensures u <= c ==> 0.0 <= c - FeedbackN(u, reward, n) <= Shrunk(0.9, c - u, n)
    ensures u >= c ==> 0.0 <= FeedbackN(u, reward, n) - c <= Shrunk(0.9, u - c, n)
    decreases n
  {
    if n > 0 {
      var v := Feedback(u, reward);
      Attracted(v, reward, c, n - 1);
      if u <= c {
        ShrunkMonotone(0.9, c - v, 0.9 * (c - u), n - 1);
      }
      if u >= c {
        ShrunkMonotone(0.9, v - c, 0.9 * (u - c), n - 1);
      }
    }
  }

  /** ... and by exactly 0.9 a step when the reward itself lies in the band. */
  lemma {:induction false} ConstantRewardExact(u: real, reward: real, n: nat)
    requires 0.1 <= u <= 0.9 && 0.1 <= reward <= 0.9
    ensures FeedbackN(u, reward, n) - reward == Pow(0.9, n) * (u - reward)
  {
    ShrinksExactly(u, reward, u - reward, n);
    ShrunkClosedForm(0.9, u - reward, n);
  }

  lemma {:induction false} ShrinksExactly(u: real, reward: real, gap: real, n: nat)
    requires InBand(u) && InBand(reward) && gap == u - reward
    ensures FeedbackN(u, reward, n) - reward == Shrunk(0.9, gap, n)
    decreases n
  {
    if n > 0 {
      ShrinksExactly(Feedback(u, reward), reward, 0.9 * gap, n - 1);
    }
  }

  lemma {:induction false} DecayForm(u: real, n: nat)
    requires LOWEST <= u
    ensures DecayN(u, n) == (if u * Pow(0.99, n) < LOWEST then LOWEST else u * Pow(0.99, n))
  {
    if n > 0 {
      DecayForm(u, n - 1);
      var p := Pow(0.99, n - 1);
      assert u * (0.99 * p) == 0.99 * (u * p);
    }
  }

  /** n decays in closed form: the intermediate floors never matter. */
  lemma {:induction false} DecayClosedForm(u: real, n: nat)
    requires 0.1 <= u
    ensures DecayN(u, n) == (if u * Pow(0.99, n) < 0.1 then 0.1 else u * Pow(0.99, n))
  {
    DecayForm(u, n);
  }
}
