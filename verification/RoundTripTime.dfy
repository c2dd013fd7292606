/** The retransmission timer of lib/rtt.c, with its floats as real numbers. */
module RoundTripTime {
  const RXTMIN := 2.0
  const RXTMAX := 60.0
  const MAXNREXMT := 3

  function Abs(x: real): real {
    if x < 0.0 then -x else x
  }

  function MinMax(rto: real): real {
    if rto < RXTMIN then RXTMIN else if rto > RXTMAX then RXTMAX else rto
  }

  /** Smoothed time and deviation. */
  datatype Estimate = Estimate(srtt: real, rttvar: real)

  const INITIAL := Estimate(0.0, 0.75)

  function Rto(e: Estimate): real {
    e.srtt + 4.0 * e.rttvar
  }

  /** The estimators after a sample, with gains 1/8 and 1/4. */
  function Update(e: Estimate, rtt: real): Estimate {
    var delta := rtt - e.srtt;
    Estimate(e.srtt + delta / 8.0, e.rttvar + (Abs(delta) - e.rttvar) / 4.0)
  }

  function Pow(x: real, k: nat): real {
    if k == 0 then 1.0 else x * Pow(x, k - 1)
  }

  class RttInfo {
    var rtt: real
    var srtt: real
    var rttvar: real
    var rto: real
    var nrexmt: int

    function State(): Estimate
      reads this
    {
      Estimate(srtt, rttvar)
    }

    /** rtt_init: the first timeout is 3 seconds. The count of retransmissions is left
        to NewPacket. */
    constructor ()
      ensures State() == INITIAL && rto == 3.0 && rtt == 0.0
    {
      rtt, srtt, rttvar := 0.0, 0.0, 0.75;
      rto := MinMax(Rto(Estimate(0.0, 0.75)));
    }

    method NewPacket()
      modifies this`nrexmt
      ensures nrexmt == 0
    {
      nrexmt := 0;
    }

    /** The timeout rounded to a whole number of seconds. */
    method Start() returns (seconds: int)
      requires rto >= 0.0
      ensures rto - 0.5 < seconds as real <= rto + 0.5
    {
      seconds := (rto + 0.5).Floor;
    }

    method Stop(ms: nat)
      modifies this`rtt, this`srtt, this`rttvar, this`rto
      ensures rtt == ms as real / 1000.0 && State() == Update(old(State()), rtt) && rto == MinMax(Rto(State()))
      ensures RXTMIN <= rto <= RXTMAX
    {
      rtt := ms as real / 1000.0;
      var delta := rtt - srtt;
      srtt := srtt + delta / 8.0;
      if delta < 0.0 {
        delta := -delta;
      }
      rttvar := rttvar + (delta - rttvar) / 4.0;
      rto := MinMax(Rto(Estimate(srtt, rttvar)));
    }

    /** True is 0, go on; false is -1, give up. The timeout is doubled, not clamped. */
    method Timeout() returns (goOn: bool)
      modifies this`rto, this`nrexmt
      ensures rto == 2.0 * old(rto) && nrexmt == old(nrexmt) + 1
      ensures goOn == (nrexmt <= MAXNREXMT)
    {
      rto := rto * 2.0;
      nrexmt := nrexmt + 1;
      goOn := nrexmt <= MAXNREXMT;
    }
  }

  // ----- Runs -----

  datatype Event = Sample(ms: nat) | Expiry

  datatype Timer = Timer(estimate: Estimate, rto: real)

  const START := Timer(INITIAL, 3.0)

  function Seconds(ms: nat): real {
    ms as real / 1000.0
  }

  function Step(t: Timer, e: Event): Timer {
    match e
    case Sample(ms) => var u := Update(t.estimate, Seconds(ms)); Timer(u, MinMax(Rto(u)))
    case Expiry => t.(rto := 2.0 * t.rto)
  }

  function Run(events: seq<Event>): Timer {
    if events == [] then START else Step(Run(events[..|events| - 1]), events[|events| - 1])
  }

  /** A whole run on one timer. */
  method RunAll(events: seq<Event>) returns (timer: RttInfo)
    ensures Timer(timer.State(), timer.rto) == Run(events)
  {
    timer := new RttInfo();
    for k := 0 to |events|
      invariant Timer(timer.State(), timer.rto) == Run(events[..k])
    {
      assert events[..k + 1][..k] == events[..k];
      match events[k] {
        case Sample(ms) => timer.Stop(ms);
        case Expiry => var goOn := timer.Timeout();
      }
    }
    assert events[..|events|] == events;
  }

  function Max(a: real, b: real): real {
    if a < b then b else a
  }

  predicate SamplesWithin(events: seq<Event>, m: real) {
    forall i | 0 <= i < |events| && events[i].Sample? :: Seconds(events[i].ms) <= m
  }

  /** The estimators never leave the range of the samples, the deviation that of its
      initial value and the samples. */
  lemma {:induction false} EstimateBounds(events: seq<Event>, m: real)
    requires m >= 0.0 && SamplesWithin(events, m)
    ensures var e := Run(events).estimate; 0.0 <= e.srtt <= m && 0.0 <= e.rttvar <= Max(0.75, m)
  {
    if events != [] {
      EstimateBounds(events[..|events| - 1], m);
    }
  }

  /** How many timeouts expired since the last sample. */
  function Expired(events: seq<Event>): nat {
    if events == [] || events[|events| - 1].Sample? then 0 else 1 + Expired(events[..|events| - 1])
  }

  /** The run without these. */
  function UpToSample(events: seq<Event>): seq<Event> {
    if events == [] || events[|events| - 1].Sample? then events else UpToSample(events[..|events| - 1])
  }

  function Doubled(x: real, n: nat): real {
    if n == 0 then x else 2.0 * Doubled(x, n - 1)
  }

  lemma {:induction false} DoubledIsPower(x: real, n: nat)
    ensures Doubled(x, n) == Pow(2.0, n) * x
  {
    if n > 0 {
      DoubledIsPower(x, n - 1);
      Associate(2.0, Pow(2.0, n - 1), x);
    }
  }

  /** A packet that is never answered: rtt_newpack, and a number of timeouts. Three of
      them go on, and every one after these gives up. */
  method Unanswered(timer: RttInfo, n: nat) returns (goOn: seq<bool>)
    modifies timer
    ensures |goOn| == n && forall k | 0 <= k < n :: goOn[k] <==> k < 3
    ensures timer.rto == Doubled(old(timer.rto), n) && timer.State() == old(timer.State())
  {
    timer.NewPacket();
    goOn := [];
    for k := 0 to n
      invariant |goOn| == timer.nrexmt == k && forall j | 0 <= j < k :: goOn[j] <==> j < 3
      invariant timer.rto == Doubled(old(timer.rto), k) && timer.State() == old(timer.State())
    {
      var again := timer.Timeout();
      goOn := goOn + [again];
    }
  }

  lemma {:induction false} ExpiryDoubles(events: seq<Event>) returns (base: real, j: nat)
    ensures base == Run(UpToSample(events)).rto && j == Expired(events) && |UpToSample(events)| + j == |events|
    ensures RXTMIN <= base <= RXTMAX && Run(events).rto == Doubled(base, j)
  {
    if events != [] && events[|events| - 1].Expiry? {
      base, j := ExpiryDoubles(events[..|events| - 1]);
      j := j + 1;
    } else {
      base, j := Run(events).rto, 0;
    }
  }

  /** Right after a sample the timeout lies between 2 and 60 seconds, and it is exactly
      2^j times that after j timeouts in a row, with no upper limit. */
  lemma {:induction false} Backoff(events: seq<Event>) returns (base: real, j: nat)
    ensures base == Run(UpToSample(events)).rto && j == Expired(events) && |UpToSample(events)| + j == |events|
    ensures RXTMIN <= base <= RXTMAX && Run(events).rto == Pow(2.0, j) * base
  {
    base, j := ExpiryDoubles(events);
    DoubledIsPower(base, j);
  }

  lemma {:induction false} Associate(a: real, b: real, c: real)
    ensures a * b * c == a * (b * c)
  {
  }

  // ----- Constant samples -----

  function Repeated(e: Estimate, rtt: real, k: nat): Estimate {
    if k == 0 then e else Update(Repeated(e, rtt, k - 1), rtt)
  }

  lemma {:induction false} PowPositive(x: real, k: nat)
    requires x > 0.0
    ensures Pow(x, k) > 0.0
  {
    if k > 0 {
      PowPositive(x, k - 1);
    }
  }

  /** The estimators once the difference from the samples shrank by the factor a and the
      first deviation by the factor b. */
  function Closed(e: Estimate, rtt: real, a: real, b: real): Estimate {
    var d := e.srtt - rtt;
    Estimate(rtt + a * d, b * e.rttvar + 2.0 * Abs(d) * (a - b))
  }

  /** Under constant samples the smoothed time approaches them by 7/8 a step, and the
      deviation follows a closed form. */
  lemma {:induction false} ConstantSamples(e: Estimate, rtt: real, k: nat)
    ensures Repeated(e, rtt, k) == Closed(e, rtt, Pow(0.875, k), Pow(0.75, k))
  {
    if k == 0 {
      NoSamples(e, rtt);
    } else {
      ConstantSamples(e, rtt, k - 1);
      PowPositive(0.875, k - 1);
      OneMore(e, rtt, Pow(0.875, k - 1), Pow(0.75, k - 1));
    }
  }

  lemma {:induction false} NoSamples(e: Estimate, rtt: real)
    ensures Closed(e, rtt, 1.0, 1.0) == e
  {
  }

  lemma {:induction false} OneMore(e: Estimate, rtt: real, a: real, b: real)
    requires a > 0.0
    ensures Update(Closed(e, rtt, a, b), rtt) == Closed(e, rtt, 0.875 * a, 0.75 * b)
  {
    var d := e.srtt - rtt;
    assert Abs(-(a * d)) == a * Abs(d);
  }

  /** Not less than 2 seconds and not more than 60. */
  function Clamped(x: real): (r: real)
    ensures 2.0 <= r <= 60.0 && (x < r ==> r == 2.0) && (x > r ==> r == 60.0)
  {
    if x < 2.0 then 2.0 else if x > 60.0 then 60.0 else x
  }

  function Constantly(ms: nat, k: nat): (events: seq<Event>)
    ensures |events| == k && forall i | 0 <= i < k :: events[i] == Sample(ms)
  {
    seq(k, _ => Sample(ms))
  }

  lemma {:induction false} RunConstant(ms: nat, k: nat)
    requires k >= 1
    ensures Run(Constantly(ms, k)).estimate == Repeated(INITIAL, Seconds(ms), k)
    ensures Run(Constantly(ms, k)).rto == MinMax(Rto(Repeated(INITIAL, Seconds(ms), k)))
  {
    assert Constantly(ms, k)[..k - 1] == Constantly(ms, k - 1);
    if k > 1 {
      RunConstant(ms, k - 1);
    } else {
      assert Repeated(INITIAL, Seconds(ms), 0) == INITIAL;
    }
  }

  /** The timeout of a new timer after k samples of r seconds, as the smoothed time and four
      times the deviation make it: it tends to r, kept between 2 and 60 seconds. */
  lemma {:induction false} ConstantTimeouts(ms: nat, k: nat) returns (r: real, a: real, b: real)
    requires k >= 1
    ensures r == ms as real / 1000.0 && a == Pow(0.875, k) && b == Pow(0.75, k)
    ensures Run(Constantly(ms, k)).rto == Clamped(r + 7.0 * (r * a) + (3.0 * b - 8.0 * (r * b)))
  {
    r, a, b := Seconds(ms), Pow(0.875, k), Pow(0.75, k);
    RunConstant(ms, k);
    ConstantSamples(INITIAL, r, k);
    TimeoutForm(r, a, b);
  }

  lemma {:induction false} TimeoutForm(r: real, a: real, b: real)
    requires r >= 0.0
    ensures MinMax(Rto(Closed(INITIAL, r, a, b))) == Clamped(r + 7.0 * (r * a) + (3.0 * b - 8.0 * (r * b)))
  {
    var d := INITIAL.srtt - r;
    assert Abs(d) == r;
    assert a * d == -(r * a);
    assert 2.0 * r * (a - b) == 2.0 * (r * a) - 2.0 * (r * b);
    assert Closed(INITIAL, r, a, b) == Estimate(r - r * a, b * 0.75 + (2.0 * (r * a) - 2.0 * (r * b)));
    assert Rto(Closed(INITIAL, r, a, b)) == r + 7.0 * (r * a) + (3.0 * b - 8.0 * (r * b));
  }

  /** After the first sample of r seconds it is 9/8 of r and 2.25 seconds. */
  lemma {:induction false} FirstTimeout(ms: nat)
    ensures Run([Sample(ms)]).rto == Clamped(9.0 / 8.0 * (ms as real / 1000.0) + 2.25)
  {
    var r, a, b := ConstantTimeouts(ms, 1);
    assert Constantly(ms, 1) == [Sample(ms)];
  }
}
