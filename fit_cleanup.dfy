/** The clean-up pass that rewrites a MyWhoosh FIT file before upload: lap
    messages are dropped, the temperature field is removed from every record
    message, and a session whose average cadence, power or heart rate is
    missing or zero gets one computed from the record messages since the
    previous session. The FIT binary is replaced by a sequence of abstract
    messages; both the current uploader's rules and the older script's rules
    are modelled, selected by a `Policy`. */
module FitCleanup {
  import opened Common

  /** A FIT message, reduced to the fields the clean-up looks at. */
  datatype Message =
    | Lap
    | Sample(cadence: Option<nat>, power: Option<nat>, heartRate: Option<nat>, temperature: Option<int>)
    | Session(avgCadence: Option<nat>, avgPower: Option<nat>, avgHeartRate: Option<nat>)
    | Other(kind: nat)

  /** The three running lists. */
  datatype Field = Cadence | Power | HeartRate

  /** `FitFileProcessor.cleanup_fit_file` (current) or the older script's
      `cleanup_fit_file` (legacy). */
  datatype Policy = Current | Legacy

  function SampleField(m: Message, f: Field): Option<nat>
    requires m.Sample?
  {
    match f
    case Cadence => m.cadence
    case Power => m.power
    case HeartRate => m.heartRate
  }

  function SessionField(m: Message, f: Field): Option<nat>
    requires m.Session?
  {
    match f
    case Cadence => m.avgCadence
    case Power => m.avgPower
    case HeartRate => m.avgHeartRate
  }

  /** Python truthiness of an average: `None` and `0` are both false. */
  predicate Falsy(avg: Option<nat>)
  {
    avg.None? || avg.value == 0
  }

  // ---------------------------------------------------------------------------
  // Running lists and averages
  // ---------------------------------------------------------------------------

  /** `_append_value` (and the older `append_value`): one value per call, 0
      when the field is missing. */
  function AppendValue(values: seq<nat>, field: Option<nat>): (r: seq<nat>)
    ensures |r| == |values| + 1 && r[..|values|] == values
    ensures field.None? ==> r[|values|] == 0
    ensures field.Some? ==> r[|values|] == field.value
  {
    values + [if field.Some? then field.value else 0]
  }

  function Sum(s: seq<nat>): nat
  {
    if s == [] then 0 else Sum(s[..|s| - 1]) + s[|s| - 1]
  }

  /** The values `_calculate_avg` keeps: the strictly positive ones, in order. */
  function Positives(s: seq<nat>): (r: seq<nat>)
    ensures forall x :: x in r <==> x in s && x > 0
  {
    if s == [] then []
    else Positives(s[..|s| - 1]) + (if s[|s| - 1] > 0 then [s[|s| - 1]] else [])
  }

  function Min(s: seq<nat>): (m: nat)
    requires s != []
    ensures m in s && forall x :: x in s ==> m <= x
  {
    if |s| == 1 then s[0]
    else
      var init := s[..|s| - 1];
      var m := Min(init);
      assert s == init + [s[|s| - 1]];
      assert forall x :: x in s ==> x in init || x == s[|s| - 1];
      if s[|s| - 1] < m then s[|s| - 1] else m
  }

  function Max(s: seq<nat>): (m: nat)
    requires s != []
    ensures m in s && forall x :: x in s ==> x <= m
  {
    if |s| == 1 then s[0]
    else
      var init := s[..|s| - 1];
      var m := Max(init);
      assert s == init + [s[|s| - 1]];
      assert forall x :: x in s ==> x in init || x == s[|s| - 1];
      if s[|s| - 1] > m then s[|s| - 1] else m
  }

  /** `_calculate_avg`: the mean of the positive values, truncated, or 0. */
  function CalculateAvg(values: seq<nat>): nat
  {
    var valid := Positives(values);
    if valid == [] then 0 else Sum(valid) / |valid|
  }

  /** The older `calculate_avg`: the mean of all values, zeros included, or 0
      for an empty list; the division is taken as whole-number division. */
  function LegacyAvg(values: seq<nat>): nat
  {
    if values == [] then 0 else Sum(values) / |values|
  }

  lemma {:induction false} SumBetween(s: seq<nat>, lo: nat, hi: nat)
    requires forall x :: x in s ==> lo <= x <= hi
    ensures lo * |s| <= Sum(s) <= hi * |s|
  {
    if s != [] {
      var init := s[..|s| - 1];
      var last := s[|s| - 1];
      assert forall x :: x in init ==> x in s;
      assert last in s;
      SumBetween(init, lo, hi);
      assert Sum(s) == Sum(init) + last;
      MulSucc(|init|, lo);
      MulSucc(|init|, hi);
    }
  }

  lemma DivBetween(total: nat, n: nat, lo: nat, hi: nat)
    requires n > 0 && lo * n <= total <= hi * n
    ensures lo <= total / n <= hi
  {
    DivAtLeast(total, n, lo);
    DivAtMost(total, n, hi);
  }

  lemma DivAtLeast(total: nat, n: nat, lo: nat)
    requires n > 0 && lo * n <= total
    ensures lo <= total / n
  {
    var q := total / n;
    if q < lo {
      MulSucc(q, n);
      MulMonotone(q + 1, lo, n);
    }
  }

  lemma DivAtMost(total: nat, n: nat, hi: nat)
    requires n > 0 && total <= hi * n
    ensures total / n <= hi
  {
    var q := total / n;
    if hi < q {
      MulSucc(hi, n);
      MulMonotone(hi + 1, q, n);
    }
  }

  lemma MulSucc(a: nat, n: nat)
    ensures (a + 1) * n == a * n + n
    ensures n * (a + 1) == n * a + n
  {
  }

  lemma MulMonotone(a: nat, b: nat, n: nat)
    requires a <= b
    ensures a * n <= b * n
  {
    assert b * n == a * n + (b - a) * n;
  }

  /** The average lies between the smallest and the largest positive value,
      and is 0 when there is no positive value. */
  lemma CalculateAvgBounds(values: seq<nat>)
    ensures Positives(values) == [] ==> CalculateAvg(values) == 0
    ensures Positives(values) != [] ==>
      Min(Positives(values)) <= CalculateAvg(values) <= Max(Positives(values))
    ensures CalculateAvg(values) > 0 <==> Positives(values) != []
  {
    var valid := Positives(values);
    if valid != [] {
      SumBetween(valid, Min(valid), Max(valid));
      DivBetween(Sum(valid), |valid|, Min(valid), Max(valid));
      assert Min(valid) > 0;
    }
  }

  /** A missing or zero reading does not move the average. */
  lemma CalculateAvgIgnoresZeros(values: seq<nat>)
    ensures CalculateAvg(values + [0]) == CalculateAvg(values)
  {
    assert (values + [0])[..|values|] == values;
    assert Positives(values + [0]) == Positives(values);
  }

  /** The stream of a typical ride: zeros are not counted, while the older
      rule counts them. */
  lemma AverageOfRideWithDropout()
    ensures CalculateAvg([100, 150, 200, 0]) == 150
    ensures LegacyAvg([100, 150, 200, 0]) == 112
  {
    var s0: seq<nat> := [];
    var s1 := s0 + [100];
    var s2 := s1 + [150];
    var s3 := s2 + [200];
    var s4 := s3 + [0];
    assert s4 == [100, 150, 200, 0];
    SumSnoc(s0, 100);
    SumSnoc(s1, 150);
    SumSnoc(s2, 200);
    SumSnoc(s3, 0);
    PositivesSnoc(s0, 100);
    PositivesSnoc(s1, 150);
    PositivesSnoc(s2, 200);
    PositivesSnoc(s3, 0);
    assert Positives(s4) == s3;
  }

  lemma SumSnoc(s: seq<nat>, x: nat)
    ensures Sum(s + [x]) == Sum(s) + x
  {
    assert (s + [x])[..|s|] == s;
  }

  lemma PositivesSnoc(s: seq<nat>, x: nat)
    ensures Positives(s + [x]) == Positives(s) + (if x > 0 then [x] else [])
  {
    assert (s + [x])[..|s|] == s;
  }

  /** The value a session average gets: kept when truthy; otherwise the
      current rule fills it only when samples were seen, the older rule always
      fills it. */
  function FillAverage(policy: Policy, avg: Option<nat>, values: seq<nat>): (r: Option<nat>)
    ensures !Falsy(avg) ==> r == avg
    ensures policy == Current ==> (r == avg || (Falsy(avg) && values != [] && r == Some(CalculateAvg(values))))
    ensures policy == Current && Falsy(avg) && values != [] ==> r == Some(CalculateAvg(values))
    ensures policy == Legacy && Falsy(avg) ==> r == Some(LegacyAvg(values))
  {
    if !Falsy(avg) then avg
    else if policy == Current then (if values != [] then Some(CalculateAvg(values)) else avg)
    else Some(LegacyAvg(values))
  }

  // ---------------------------------------------------------------------------
  // The transform, specified from the back
  // ---------------------------------------------------------------------------

  /** The running list for `f` after the messages `rs`: one value per record
      message since the last session message. */
  function Pending(rs: seq<Message>, f: Field): seq<nat>
  {
    if rs == [] then []
    else
      var last := rs[|rs| - 1];
      match last
      case Session(_, _, _) => []
      case Sample(_, _, _, _) => AppendValue(Pending(rs[..|rs| - 1], f), SampleField(last, f))
      case _ => Pending(rs[..|rs| - 1], f)
  }

  /** What one message becomes, given the messages before it. */
  function Clean(policy: Policy, before: seq<Message>, m: Message): seq<Message>
  {
    match m
    case Lap => []
    case Sample(_, _, _, _) => [m.(temperature := None)]
    case Session(ac, ap, ah) =>
      [Session(FillAverage(policy, ac, Pending(before, Cadence)),
               FillAverage(policy, ap, Pending(before, Power)),
               FillAverage(policy, ah, Pending(before, HeartRate)))]
    case Other(_) => [m]
  }

  /** The message stream the builder receives. */
  function Reference(policy: Policy, rs: seq<Message>): seq<Message>
  {
    if rs == [] then []
    else Reference(policy, rs[..|rs| - 1]) + Clean(policy, rs[..|rs| - 1], rs[|rs| - 1])
  }

  /** The input without its lap messages. */
  function NonLaps(rs: seq<Message>): (r: seq<Message>)
    ensures forall m :: m in r <==> m in rs && !m.Lap?
  {
    if rs == [] then []
    else NonLaps(rs[..|rs| - 1]) + (if rs[|rs| - 1].Lap? then [] else [rs[|rs| - 1]])
  }

  /** `out` is `m` after clean-up: a record message loses only its
      temperature, another message is unchanged, and a session keeps each
      average unless that average was missing or zero. */
  ghost predicate CleanedFrom(out: Message, m: Message)
  {
    match m
    case Lap => false
    case Sample(_, _, _, _) => out == m.(temperature := None)
    case Other(_) => out == m
    case Session(_, _, _) =>
      out.Session? &&
      (forall f :: SessionField(out, f) == SessionField(m, f) || Falsy(SessionField(m, f)))
  }

  /** Every non-lap message is emitted exactly once, in input order, changed
      only as `CleanedFrom` allows. */
  lemma {:induction false} ReferenceEmitsNonLapsInOrder(policy: Policy, rs: seq<Message>)
    ensures |Reference(policy, rs)| == |NonLaps(rs)|
    ensures forall i :: 0 <= i < |NonLaps(rs)| ==> CleanedFrom(Reference(policy, rs)[i], NonLaps(rs)[i])
  {
    if rs != [] {
      var init := rs[..|rs| - 1];
      ReferenceEmitsNonLapsInOrder(policy, init);
      var m := rs[|rs| - 1];
      if m.Session? {
        var out := Clean(policy, init, m)[0];
        forall f ensures SessionField(out, f) == SessionField(m, f) || Falsy(SessionField(m, f)) {
          match f
          case Cadence =>
          case Power =>
          case HeartRate =>
        }
      }
    }
  }

  /** No lap message and no temperature reading survive the clean-up. */
  lemma NoLapNoTemperature(policy: Policy, rs: seq<Message>)
    ensures forall m :: m in Reference(policy, rs) ==> !m.Lap?
    ensures forall m :: m in Reference(policy, rs) && m.Sample? ==> m.temperature.None?
  {
    ReferenceEmitsNonLapsInOrder(policy, rs);
    var out := Reference(policy, rs);
    forall m | m in out ensures !m.Lap? && (m.Sample? ==> m.temperature.None?) {
      var i :| 0 <= i < |out| && out[i] == m;
      var n := NonLaps(rs)[i];
      assert n in NonLaps(rs);
      assert CleanedFrom(m, n);
    }
  }

  /** The lists are empty right after a session, and afterwards hold exactly
      the values of the record messages that follow it. */
  lemma {:induction false} PendingResetsAtSession(before: seq<Message>, s: Message, after: seq<Message>, f: Field)
    requires s.Session?
    ensures Pending(before + [s] + after, f) == Pending(after, f)
    decreases |after|
  {
    var rs := before + [s] + after;
    if after == [] {
      assert rs[|rs| - 1] == s;
    } else {
      assert rs[..|rs| - 1] == before + [s] + after[..|after| - 1];
      assert rs[|rs| - 1] == after[|after| - 1];
      PendingResetsAtSession(before, s, after[..|after| - 1], f);
    }
  }

  /** The clean-up leaves the running lists it would compute again
      unchanged: the emitted record messages carry the same readings. */
  lemma {:induction false} PendingOfReference(policy: Policy, rs: seq<Message>, f: Field)
    ensures Pending(Reference(policy, rs), f) == Pending(rs, f)
  {
    if rs != [] {
      var init := rs[..|rs| - 1];
      var m := rs[|rs| - 1];
      var out := Reference(policy, rs);
      var outInit := Reference(policy, init);
      assert out == outInit + Clean(policy, init, m);
      PendingOfReference(policy, init, f);
      if !m.Lap? {
        var c := Clean(policy, init, m)[0];
        assert out[..|out| - 1] == outInit;
        assert out[|out| - 1] == c;
        match m
        case Sample(_, _, _, _) =>
          assert SampleField(c, f) == SampleField(m, f);
          assert Pending(out, f) == AppendValue(Pending(outInit, f), SampleField(c, f));
        case Session(_, _, _) =>
          assert Pending(out, f) == [];
        case Other(_) =>
          assert Pending(out, f) == Pending(outInit, f);
      } else {
        assert out == outInit;
      }
    }
  }

  /** Filling an average a second time from the same readings changes nothing. */
  lemma FillAverageIdempotent(policy: Policy, avg: Option<nat>, values: seq<nat>)
    ensures FillAverage(policy, FillAverage(policy, avg, values), values) == FillAverage(policy, avg, values)
  {
  }

  /** Cleaning a cleaned stream changes nothing. */
  lemma {:induction false} ReferenceIdempotent(policy: Policy, rs: seq<Message>)
    ensures Reference(policy, Reference(policy, rs)) == Reference(policy, rs)
  {
    if rs != [] {
      var init := rs[..|rs| - 1];
      var m := rs[|rs| - 1];
      var out := Reference(policy, rs);
      var outInit := Reference(policy, init);
      assert out == outInit + Clean(policy, init, m);
      ReferenceIdempotent(policy, init);
      if !m.Lap? {
        var c := Clean(policy, init, m)[0];
        assert out[..|out| - 1] == outInit;
        assert out[|out| - 1] == c;
        PendingOfReference(policy, init, Cadence);
        PendingOfReference(policy, init, Power);
        PendingOfReference(policy, init, HeartRate);
        if m.Session? {
          FillAverageIdempotent(policy, m.avgCadence, Pending(init, Cadence));
          FillAverageIdempotent(policy, m.avgPower, Pending(init, Power));
          FillAverageIdempotent(policy, m.avgHeartRate, Pending(init, HeartRate));
        }
        assert Clean(policy, outInit, c) == [c];
      } else {
        assert out == outInit;
      }
    }
  }

  // ---------------------------------------------------------------------------
  // The loop of cleanup_fit_file
  // ---------------------------------------------------------------------------

  /** The record loop of `cleanup_fit_file`, with its three running lists. */
  method CleanupRecords(policy: Policy, records: seq<Message>) returns (out: seq<Message>)
    ensures out == Reference(policy, records)
  {
    var cadence: seq<nat>, power: seq<nat>, heartRate: seq<nat> := [], [], [];
    out := [];
    for i := 0 to |records|
      invariant cadence == Pending(records[..i], Cadence)
      invariant power == Pending(records[..i], Power)
      invariant heartRate == Pending(records[..i], HeartRate)
      invariant out == Reference(policy, records[..i])
    {
      assert records[..i + 1][..i] == records[..i];
      var m := records[i];
      match m {
        case Lap =>
        case Sample(c, p, h, _) =>
          cadence := AppendValue(cadence, c);
          power := AppendValue(power, p);
          heartRate := AppendValue(heartRate, h);
          out := out + [m.(temperature := None)];
        case Session(ac, ap, ah) =>
          out := out + [Session(FillAverage(policy, ac, cadence),
                                FillAverage(policy, ap, power),
                                FillAverage(policy, ah, heartRate))];
          cadence, power, heartRate := [], [], [];
        case Other(_) =>
          out := out + [m];
      }
    }
    assert records[..|records|] == records;
  }

  /** `cleanup_fit_file` as a whole: nothing is written when the source
      cannot be read (missing, unreadable, or not a FIT file) or when the
      destination cannot be written; otherwise the cleaned stream is. */
  method CleanupFitFile(policy: Policy, source: Option<seq<Message>>, writeSucceeds: bool)
    returns (written: Option<seq<Message>>)
    ensures written.Some? <==> source.Some? && writeSucceeds
    ensures written.Some? ==> written.value == Reference(policy, source.value)
  {
    if source.None? {
      return None;
    }
    var out := CleanupRecords(policy, source.value);
    if !writeSucceeds {
      return None;
    }
    written := Some(out);
  }
}
