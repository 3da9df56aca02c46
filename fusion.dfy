/**
 * The fusion decision of the orchestrator (orchestrator/orchestrator.py,
 * `fuse_and_decide`). The two HTTP calls are replaced by their decoded JSON
 * replies, which are the inputs here; a field the reply leaves out takes the
 * default the source reads it with.
 */
module Fusion {
  import opened Wrappers
  import opened Sequences

  /** The reply of the sensor endpoint: `{"alert": bool, "score": float}`. */
  datatype SensorReply = SensorReply(alert: Option<bool>, score: Option<real>)

  /** The reply of the text endpoint for one post: `{"label": int, "confidence": float}`. */
  datatype TextReply = TextReply(classLabel: Option<int>, confidence: Option<real>)

  /** The dictionary returned by `fuse_and_decide`. */
  datatype Decision = Decision(
    alert: bool,
    reasons: seq<string>,
    sensorScore: real,
    tweetAlerts: nat,
    avgTweetConf: real)

  const SensorAnomaly: string := "sensor_anomaly"
  const FusionSensorSocial: string := "fusion_sensor+social"
  /** The sensor score at or above which two alerting posts corroborate an alert. */
  const ScoreThreshold: real := 0.6
  /** The number of alerting posts the fusion rule needs. */
  const MinTweetAlerts: nat := 2

  function SensorAlert(r: SensorReply): bool {
    r.alert.GetOr(false)
  }

  function SensorScore(r: SensorReply): real {
    r.score.GetOr(0.0)
  }

  /** A post counts as an alert when its label is 1; a missing label reads as 0. */
  predicate IsTweetAlert(t: TextReply) {
    t.classLabel.GetOr(0) == 1
  }

  function Confidence(t: TextReply): real {
    t.confidence.GetOr(0.0)
  }

  /** The number of alerting posts, counted from the front as the loop does. */
  function CountAlerts(ts: seq<TextReply>): (n: nat)
    ensures n <= |ts|
  {
    if ts == [] then 0
    else CountAlerts(ts[..|ts| - 1]) + (if IsTweetAlert(ts[|ts| - 1]) then 1 else 0)
  }

  /** The positions of the alerting posts: an independent description of the count. */
  ghost function AlertPositions(ts: seq<TextReply>): set<nat> {
    set i: nat | i < |ts| && IsTweetAlert(ts[i])
  }

  lemma {:induction false} CountAlertsIsCardinality(ts: seq<TextReply>)
    ensures CountAlerts(ts) == |AlertPositions(ts)|
  {
    if ts != [] {
      var init := ts[..|ts| - 1];
      CountAlertsIsCardinality(init);
      var last := |ts| - 1;
      var before := AlertPositions(init);
      assert last !in before;
      if IsTweetAlert(ts[last]) {
        assert AlertPositions(ts) == before + {last} by {
          assert forall i: nat | i < |init| :: init[i] == ts[i];
        }
        assert |before + {last}| == |before| + 1;
      } else {
        assert AlertPositions(ts) == before by {
          assert forall i: nat | i < |init| :: init[i] == ts[i];
        }
      }
    }
  }

  /** Turning posts into alerts (and none the other way) never lowers the count. */
  lemma {:induction false} CountAlertsMonotone(ts: seq<TextReply>, us: seq<TextReply>)
    requires |ts| == |us|
    requires forall i :: 0 <= i < |ts| && IsTweetAlert(ts[i]) ==> IsTweetAlert(us[i])
    ensures CountAlerts(ts) <= CountAlerts(us)
  {
    if ts != [] {
      CountAlertsMonotone(ts[..|ts| - 1], us[..|us| - 1]);
    }
  }

  /** The list `confidences` that the loop builds. */
  function Confidences(ts: seq<TextReply>): (cs: seq<real>)
    ensures |cs| == |ts|
    ensures forall i :: 0 <= i < |ts| ==> cs[i] == Confidence(ts[i])
  {
    if ts == [] then [] else Confidences(ts[..|ts| - 1]) + [Confidence(ts[|ts| - 1])]
  }

  lemma {:induction false} SumBounds(xs: seq<real>, lo: real, hi: real)
    requires forall i :: 0 <= i < |xs| ==> lo <= xs[i] <= hi
    ensures |xs| as real * lo <= Sum(xs) <= |xs| as real * hi
  {
    if xs != [] {
      SumBounds(xs[..|xs| - 1], lo, hi);
    }
  }

  /** The average confidence, guarded against an empty list of posts. */
  function AverageConfidence(ts: seq<TextReply>): (avg: real)
    ensures |ts| == 0 ==> avg == 0.0
    ensures |ts| > 0 ==> avg * |ts| as real == Sum(Confidences(ts))
  {
    var cs := Confidences(ts);
    if |cs| > 0 then Sum(cs) / |cs| as real else 0.0
  }

  /** With every confidence a probability, so is their average. */
  lemma AverageConfidenceIsProbability(ts: seq<TextReply>)
    requires forall i :: 0 <= i < |ts| ==> 0.0 <= Confidence(ts[i]) <= 1.0
    ensures 0.0 <= AverageConfidence(ts) <= 1.0
  {
    var cs := Confidences(ts);
    SumBounds(cs, 0.0, 1.0);
  }

  /**
   * What `fuse_and_decide` returns for these replies: rule `sensor_anomaly`
   * first, then rule `fusion_sensor+social` only when the first did not fire.
   */
  function Decide(sensor: SensorReply, ts: seq<TextReply>): (d: Decision)
    ensures d.sensorScore == SensorScore(sensor)
    ensures d.tweetAlerts == CountAlerts(ts) && d.tweetAlerts <= |ts|
    ensures d.avgTweetConf == AverageConfidence(ts)
    ensures SensorAlert(sensor) ==> d.alert && d.reasons == [SensorAnomaly]
    ensures !SensorAlert(sensor) ==>
      (d.alert <==> SensorScore(sensor) >= ScoreThreshold && CountAlerts(ts) >= MinTweetAlerts)
    ensures !SensorAlert(sensor) && d.alert ==> d.reasons == [FusionSensorSocial]
    ensures |d.reasons| <= 1 && (d.alert <==> d.reasons != [])
  {
    var score := SensorScore(sensor);
    var alerts := CountAlerts(ts);
    var first := SensorAlert(sensor);
    var second := !first && score >= ScoreThreshold && alerts >= MinTweetAlerts;
    var reasons := (if first then [SensorAnomaly] else []) + (if second then [FusionSensorSocial] else []);
    Decision(first || second, reasons, score, alerts, AverageConfidence(ts))
  }

  /**
   * Raising the sensor score, setting the sensor alert or raising the number
   * of alerting posts, by any change to the list of posts, never withdraws an
   * alert.
   */
  lemma DecideMonotoneCount(s: SensorReply, ts: seq<TextReply>, s': SensorReply, ts': seq<TextReply>)
    requires SensorAlert(s) ==> SensorAlert(s')
    requires SensorScore(s) <= SensorScore(s')
    requires CountAlerts(ts) <= CountAlerts(ts')
    ensures Decide(s, ts).alert ==> Decide(s', ts').alert
  {
  }

  /** Adding posts at the end never withdraws an alert. */
  lemma {:induction false} DecideMonotoneAppend(s: SensorReply, ts: seq<TextReply>, more: seq<TextReply>)
    ensures Decide(s, ts).alert ==> Decide(s, ts + more).alert
    decreases |more|
  {
    if more != [] {
      var init := more[..|more| - 1];
      DecideMonotoneAppend(s, ts, init);
      assert (ts + more)[..|ts + more| - 1] == ts + init;
      assert CountAlerts(ts + init) <= CountAlerts(ts + more);
      DecideMonotoneCount(s, ts + init, s, ts + more);
    } else {
      assert ts + more == ts;
    }
  }

  /**
   * Raising the sensor score, setting the sensor alert or turning posts into
   * alerts never withdraws an alert.
   */
  lemma DecideMonotone(s: SensorReply, ts: seq<TextReply>, s': SensorReply, ts': seq<TextReply>)
    requires SensorAlert(s) ==> SensorAlert(s')
    requires SensorScore(s) <= SensorScore(s')
    requires |ts| == |ts'|
    requires forall i :: 0 <= i < |ts| && IsTweetAlert(ts[i]) ==> IsTweetAlert(ts'[i])
    ensures Decide(s, ts).alert ==> Decide(s', ts').alert
  {
    CountAlertsMonotone(ts, ts');
    DecideMonotoneCount(s, ts, s', ts');
  }

  /** The two boundary cases of the fusion rule: a score of exactly 0.6 fires, 0.59 does not. */
  lemma FusionThresholdBoundary(a: TextReply, b: TextReply)
    requires IsTweetAlert(a) && IsTweetAlert(b)
    ensures Decide(SensorReply(Some(false), Some(0.6)), [a, b]).reasons == [FusionSensorSocial]
    ensures !Decide(SensorReply(Some(false), Some(0.59)), [a, b]).alert
  {
    assert [a, b][..1] == [a] && [a][..0] == [];
    assert CountAlerts([a, b]) == 2;
  }

  /**
   * `fuse_and_decide`: counts the alerting posts and collects their
   * confidences in one pass, averages the confidences, then applies the two
   * rules in order.
   */
  method FuseAndDecide(sensor: SensorReply, tweets: seq<TextReply>) returns (d: Decision)
    ensures d == Decide(sensor, tweets)
  {
    var sensorAlert := SensorAlert(sensor);
    var sensorScore := SensorScore(sensor);
    var tweetAlerts: nat := 0;
    var confidences: seq<real> := [];
    for i := 0 to |tweets|
      invariant tweetAlerts == CountAlerts(tweets[..i])
      invariant confidences == Confidences(tweets[..i])
    {
      assert tweets[..i + 1][..i] == tweets[..i];
      if IsTweetAlert(tweets[i]) {
        tweetAlerts := tweetAlerts + 1;
      }
      confidences := confidences + [Confidence(tweets[i])];
    }
    assert tweets[..|tweets|] == tweets;
    var avgConf := if |confidences| > 0 then Sum(confidences) / |confidences| as real else 0.0;
    var final := false;
    var reasons: seq<string> := [];
    if sensorAlert {
      final := true;
      reasons := reasons + [SensorAnomaly];
    }
    if !final && sensorScore >= ScoreThreshold && tweetAlerts >= MinTweetAlerts {
      final := true;
      reasons := reasons + [FusionSensorSocial];
    }
    d := Decision(final, reasons, sensorScore, tweetAlerts, avgConf);
  }
}
