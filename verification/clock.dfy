/** Frame-time bookkeeping of the scene's per-frame callback: the elapsed time
    `dt` and the remembered timestamp `lastUpdateTime`. */
module Clock {

  /** The two scene variables the update callback maintains. A timestamp that
      is not positive means "no frame seen yet". */
  datatype Clock = Clock(lastUpdateTime: real, dt: real)

  /** The clock of a freshly constructed scene. */
  const Start := Clock(0.0, 0.0)

  /** One frame callback at `currentTime`: elapsed time is zero unless a
      positive timestamp was remembered, and the new timestamp is remembered. */
  function Tick(c: Clock, currentTime: real): (r: Clock)
    ensures r.lastUpdateTime == currentTime
    ensures c.lastUpdateTime <= 0.0 ==> r.dt == 0.0
    ensures c.lastUpdateTime > 0.0 ==> c.lastUpdateTime + r.dt == currentTime
    ensures c.lastUpdateTime <= currentTime ==> r.dt >= 0.0
  {
    var dt := if c.lastUpdateTime > 0.0 then currentTime - c.lastUpdateTime else 0.0;
    Clock(currentTime, dt)
  }

  /** Every timestamp of a run is positive, as the engine's uptime clock is. */
  predicate AllPositive(ts: seq<real>)
  {
    forall i :: 0 <= i < |ts| ==> ts[i] > 0.0
  }

  /** The clock after one callback per timestamp of `ts`, in order. */
  function Run(c: Clock, ts: seq<real>): Clock
    decreases |ts|
  {
    if ts == [] then c else Run(Tick(c, ts[0]), ts[1..])
  }

  /** The sum of the `dt` values the callbacks of `ts` compute. */
  function TotalDt(c: Clock, ts: seq<real>): real
    decreases |ts|
  {
    if ts == [] then 0.0 else Tick(c, ts[0]).dt + TotalDt(Tick(c, ts[0]), ts[1..])
  }

  /** After a run from a clock that has seen a positive timestamp, the elapsed
      times add up to the span from that timestamp to the last one. */
  lemma {:induction false} TotalDtTelescopes(c: Clock, ts: seq<real>)
    requires c.lastUpdateTime > 0.0
    requires AllPositive(ts)
    ensures Run(c, ts).lastUpdateTime == if ts == [] then c.lastUpdateTime else ts[|ts| - 1]
    ensures TotalDt(c, ts) == Run(c, ts).lastUpdateTime - c.lastUpdateTime
    decreases |ts|
  {
    if ts != [] {
      var c' := Tick(c, ts[0]);
      assert AllPositive(ts[1..]) by {
        forall i | 0 <= i < |ts[1..]| ensures ts[1..][i] > 0.0 {
          assert ts[1..][i] == ts[i + 1];
        }
      }
      TotalDtTelescopes(c', ts[1..]);
      if |ts| > 1 {
        assert ts[1..][|ts[1..]| - 1] == ts[|ts| - 1];
      }
    }
  }

  /** From a fresh scene the first frame contributes nothing, so the elapsed
      times of a run add up to the span from its first timestamp to its last. */
  lemma TotalDtFromStart(ts: seq<real>)
    requires |ts| > 0
    requires AllPositive(ts)
    ensures Run(Start, ts).lastUpdateTime == ts[|ts| - 1]
    ensures TotalDt(Start, ts) == ts[|ts| - 1] - ts[0]
  {
    var c := Tick(Start, ts[0]);
    assert c.dt == 0.0;
    assert AllPositive(ts[1..]) by {
      forall i | 0 <= i < |ts[1..]| ensures ts[1..][i] > 0.0 {
        assert ts[1..][i] == ts[i + 1];
      }
    }
    TotalDtTelescopes(c, ts[1..]);
    if |ts| > 1 {
      assert ts[1..][|ts[1..]| - 1] == ts[|ts| - 1];
    }
  }
}
