/** The record pipeline: `process_email` routes one address through the
    format check and the probe into one output file, and `process_file`
    turns the input lines into records, runs each, tallies the outcomes and
    reports the progress percentage after each one. The coordinator awaits
    the records in submission order, so the tally is a left fold over the
    per-record outcomes and the thread pool does not appear. */
module Batch {
  import opened Outcomes
  import opened Probe
  import Text
  import EmailFormat

  /** What `process_email` does with one address: the outcome it returns,
      the per-outcome file it appends the address to (none for a skipped
      one), and the probe attempts it spent. */
  datatype Dispatch = Dispatch(outcome: Outcome, bucket: Option<Bucket>, attempts: nat)

  /** The routing `process_email` promises for `email` when the network
      would give `answers`: skipped exactly when the format check fails, and
      then no probe and no file; otherwise the probe's `valid` or `invalid`
      passes through, anything else (including no result) becomes `failed`,
      and the address goes to the one file of its outcome. */
  ghost predicate Routed(email: string, answers: seq<Attempt>, maxRetries: int, d: Dispatch)
    requires maxRetries <= |answers|
  {
    var probe := Expected(answers, maxRetries);
    && (d.outcome == Skipped <==> !EmailFormat.ValidateEmailFormat(email))
    && (d.outcome == Skipped ==> d.bucket == None && d.attempts == 0)
    && (d.outcome != Skipped ==> d.bucket == Some(BucketOf(d.outcome)) && d.attempts == probe.attempts)
    && (d.outcome == Valid <==> EmailFormat.ValidateEmailFormat(email) && probe.result == Some(Valid))
    && (d.outcome == Invalid <==> EmailFormat.ValidateEmailFormat(email) && probe.result == Some(Invalid))
    && (d.outcome == Failed <==>
          EmailFormat.ValidateEmailFormat(email) && probe.result != Some(Valid) && probe.result != Some(Invalid))
  }

  /** `process_email`, with the file appends returned as the chosen bucket. */
  method ProcessEmail(email: string, answers: seq<Attempt>, maxRetries: int) returns (d: Dispatch)
    requires maxRetries <= |answers|
    ensures Routed(email, answers, maxRetries, d)
  {
    if !EmailFormat.ValidateEmailFormat(email) {
      return Dispatch(Skipped, None, 0);
    }
    var run := CheckEmail(answers, maxRetries);
    if run.result == Some(Valid) {
      d := Dispatch(Valid, Some(ValidFile), run.attempts);
    } else if run.result == Some(Invalid) {
      d := Dispatch(Invalid, Some(InvalidFile), run.attempts);
    } else {
      d := Dispatch(Failed, Some(RetryFile), run.attempts);
    }
  }

  /** The record list: every line stripped, the ones left empty dropped,
      the order kept. */
  function Records(lines: seq<string>): seq<string>
  {
    if |lines| == 0 then []
    else
      var r := Text.Strip(lines[0]);
      (if r == [] then [] else [r]) + Records(lines[1..])
  }

  /** The record list is no longer than the file, and every record is
      non-empty and free of surrounding whitespace. */
  lemma {:induction false} RecordsAreClean(lines: seq<string>)
    ensures |Records(lines)| <= |lines|
    ensures forall k :: 0 <= k < |Records(lines)| ==>
              Records(lines)[k] != [] && Text.IsStripped(Records(lines)[k])
    decreases |lines|
  {
    if |lines| > 0 {
      RecordsAreClean(lines[1..]);
    }
  }

  /** Filtering distributes over concatenation: the records of a file are
      those of its first part followed by those of the rest, so no record
      moves relative to another. */
  lemma {:induction false} RecordsAppend(a: seq<string>, b: seq<string>)
    ensures Records(a + b) == Records(a) + Records(b)
    decreases |a|
  {
    if |a| == 0 {
      assert a + b == b;
    } else {
      assert (a + b)[1..] == a[1..] + b;
      RecordsAppend(a[1..], b);
    }
  }

  /** A single line becomes its stripped form, or nothing when it is blank. */
  lemma RecordsOfOne(x: string)
    ensures Records([x]) == if Text.Strip(x) == [] then [] else [Text.Strip(x)]
  {
    assert [x][1..] == [];
  }

  /** Every line that is not blank contributes its stripped form, in its
      place: after the records of the lines before it and before those of
      the lines after it. */
  lemma RecordsKeepsLine(lines: seq<string>, k: nat)
    requires k < |lines| && Text.Strip(lines[k]) != []
    ensures Records(lines) == Records(lines[..k]) + [Text.Strip(lines[k])] + Records(lines[k + 1..])
    ensures Text.Strip(lines[k]) in Records(lines)
  {
    var front, back := lines[..k], lines[k + 1..];
    SplitAround(lines, k);
    RecordsAround(front, lines[k], back);
    var pre, post := Records(front), Records(back);
    assert (pre + [Text.Strip(lines[k])] + post)[|pre|] == Text.Strip(lines[k]);
  }

  /** A sequence is its part before index `k`, its `k`-th element, and its
      part after `k`. */
  lemma SplitAround<T>(s: seq<T>, k: nat)
    requires k < |s|
    ensures s == s[..k] + ([s[k]] + s[k + 1..])
  {
  }

  /** A non-blank line between two parts of a file gives one record between
      the records of those parts. */
  lemma RecordsAround(front: seq<string>, x: string, back: seq<string>)
    requires Text.Strip(x) != []
    ensures Records(front + ([x] + back)) == Records(front) + [Text.Strip(x)] + Records(back)
  {
    var xs := [x] + back;
    assert xs[0] == x && xs[1..] == back;
    assert Records(xs) == [Text.Strip(x)] + Records(back);
    RecordsAppend(front, xs);
  }

  /** The record list is already clean: filtering it again changes nothing. */
  lemma {:induction false} RecordsIdempotent(lines: seq<string>)
    ensures Records(Records(lines)) == Records(lines)
    decreases |lines|
  {
    if |lines| > 0 {
      var r := Text.Strip(lines[0]);
      var head := if r == [] then [] else [r];
      var tail := Records(lines[1..]);
      assert Records(lines) == head + tail;
      RecordsIdempotent(lines[1..]);
      RecordsAppend(head, tail);
      if r != [] {
        RecordsOfOne(r);
        Text.StripIdempotent(lines[0]);
      }
    }
  }

  /** The four counters of `results`. */
  datatype Counters = Counters(valid: nat, invalid: nat, failed: nat, skipped: nat)

  const NoCounts := Counters(0, 0, 0, 0)

  /** `results[o]` */
  function Count(c: Counters, o: Outcome): nat {
    match o
    case Valid => c.valid
    case Invalid => c.invalid
    case Failed => c.failed
    case Skipped => c.skipped
  }

  /** `sum(results.values())` */
  function Total(c: Counters): nat {
    c.valid + c.invalid + c.failed + c.skipped
  }

  /** `results[o] += 1` */
  function Inc(c: Counters, o: Outcome): Counters {
    match o
    case Valid => c.(valid := c.valid + 1)
    case Invalid => c.(invalid := c.invalid + 1)
    case Failed => c.(failed := c.failed + 1)
    case Skipped => c.(skipped := c.skipped + 1)
  }

  /** An increment raises exactly the counter of its outcome, by one, and so
      the sum of the counters by one. */
  lemma IncBumpsOneCounter(c: Counters, o: Outcome)
    ensures Count(Inc(c, o), o) == Count(c, o) + 1
    ensures forall p :: p != o ==> Count(Inc(c, o), p) == Count(c, p)
    ensures Total(Inc(c, o)) == Total(c) + 1
  {
  }

  /** The counters after the outcomes `outs` have been awaited in order. */
  function Tally(outs: seq<Outcome>): Counters {
    if |outs| == 0 then NoCounts
    else Inc(Tally(outs[..|outs| - 1]), outs[|outs| - 1])
  }

  /** Awaiting one more outcome is one more `Inc`. */
  lemma TallySnoc(outs: seq<Outcome>, o: Outcome)
    ensures Tally(outs + [o]) == Inc(Tally(outs), o)
  {
    assert (outs + [o])[..|outs|] == outs;
  }

  /** Every outcome increments exactly one counter, so the counters add up
      to the number of outcomes awaited. */
  lemma {:induction false} TallyTotal(outs: seq<Outcome>)
    ensures Total(Tally(outs)) == |outs|
    decreases |outs|
  {
    if |outs| > 0 {
      TallyTotal(outs[..|outs| - 1]);
      IncBumpsOneCounter(Tally(outs[..|outs| - 1]), outs[|outs| - 1]);
    }
  }

  /** Each counter ends up holding the number of records with its outcome. */
  lemma {:induction false} TallyCountsOutcomes(outs: seq<Outcome>, o: Outcome)
    ensures Count(Tally(outs), o) == multiset(outs)[o]
    decreases |outs|
  {
    if |outs| > 0 {
      var init := outs[..|outs| - 1];
      TallyCountsOutcomes(init, o);
      IncBumpsOneCounter(Tally(init), outs[|outs| - 1]);
      assert outs == init + [outs[|outs| - 1]];
    }
  }

  /** `(progress * 100) // total`: Python's floor division, which for these
      non-negative operands agrees with Dafny's. */
  function Percent(progress: nat, total: nat): nat
    requires 0 < total
  {
    (progress * 100) / total
  }

  /** The percentage is the floor of the completed share of 100, so it lies
      in 0..100 and reaches 100 exactly when every record is done. */
  lemma PercentIsFloor(progress: nat, total: nat)
    requires 0 < total && progress <= total
    ensures Percent(progress, total) * total <= progress * 100 < (Percent(progress, total) + 1) * total
    ensures Percent(progress, total) <= 100
    ensures Percent(progress, total) == 100 <==> progress == total
  {
    var q := progress * 100;
    var p := Percent(progress, total);
    var r := q % total;
    assert q == p * total + r && 0 <= r < total;
    assert (p + 1) * total == p * total + total;
    assert q <= 100 * total;
    MulCancel(p, 100, total);
    if progress == total {
      MulStrictCancel(100, p + 1, total);
    } else {
      MulStrictCancel(p, 100, total);
    }
  }

  /** The percentage never goes down as progress goes up. */
  lemma PercentMonotone(a: nat, b: nat, total: nat)
    requires 0 < total && a <= b <= total
    ensures Percent(a, total) <= Percent(b, total)
  {
    PercentIsFloor(a, total);
    PercentIsFloor(b, total);
    var pa, pb := Percent(a, total), Percent(b, total);
    MulStrictCancel(pa, pb + 1, total);
  }

  lemma MulMonotone(x: nat, y: nat, k: nat)
    requires x <= y
    ensures x * k <= y * k
  {
  }

  lemma MulCancel(a: nat, b: nat, k: nat)
    requires 0 < k && a * k <= b * k
    ensures a <= b
  {
    if a > b {
      MulMonotone(b + 1, a, k);
    }
  }

  lemma MulStrictCancel(a: nat, b: nat, k: nat)
    requires a * k < b * k
    ensures a < b
  {
    if a >= b {
      MulMonotone(b, a, k);
    }
  }

  /** The percentages printed after the first `k` of `total` records. */
  function ProgressTrace(k: nat, total: nat): seq<nat>
    requires k == 0 || 0 < total
  {
    if k == 0 then [] else ProgressTrace(k - 1, total) + [Percent(k, total)]
  }

  lemma {:induction false} ProgressTraceIndex(k: nat, total: nat)
    requires k == 0 || 0 < total
    ensures |ProgressTrace(k, total)| == k
    ensures forall j :: 0 <= j < k ==> ProgressTrace(k, total)[j] == Percent(j + 1, total)
  {
    if k > 0 {
      ProgressTraceIndex(k - 1, total);
    }
  }

  /** The percentages printed after the first, second, ... of `total`
      records rise monotonically, stay within 0..100 and end at 100. */
  lemma ProgressIsMonotone(ps: seq<nat>, total: nat)
    requires |ps| == total
    requires forall k :: 0 <= k < |ps| ==> ps[k] == Percent(k + 1, total)
    ensures forall j, k :: 0 <= j <= k < |ps| ==> ps[j] <= ps[k] <= 100
    ensures |ps| > 0 ==> ps[|ps| - 1] == 100
  {
    forall j, k | 0 <= j <= k < |ps|
      ensures ps[j] <= ps[k] <= 100
    {
      PercentMonotone(j + 1, k + 1, total);
      PercentIsFloor(k + 1, total);
    }
    if |ps| > 0 {
      PercentIsFloor(total, total);
    }
  }

  /** What `process_file` computes: the records, what happened to each, the
      final counters and the percentage printed after each awaited record. */
  datatype Report = Report(records: seq<string>, dispatches: seq<Dispatch>,
                           counters: Counters, percentages: seq<nat>)

  function OutcomesOf(ds: seq<Dispatch>): (outs: seq<Outcome>)
    ensures |outs| == |ds|
    ensures forall k :: 0 <= k < |ds| ==> outs[k] == ds[k].outcome
  {
    seq(|ds|, k requires 0 <= k < |ds| => ds[k].outcome)
  }

  /** The submission loop of `process_file`: one `process_email` per
      record, in list order; `probes[k]` is what the network would answer
      for the `k`-th record. */
  method DispatchAll(records: seq<string>, probes: seq<seq<Attempt>>, maxRetries: int)
    returns (ds: seq<Dispatch>)
    requires |probes| == |records|
    requires forall k :: 0 <= k < |probes| ==> maxRetries <= |probes[k]|
    ensures |ds| == |records|
    ensures forall k :: 0 <= k < |records| ==> Routed(records[k], probes[k], maxRetries, ds[k])
  {
    ds := [];
    var k := 0;
    while k < |records|
      invariant 0 <= k <= |records| && |ds| == k
      invariant forall j :: 0 <= j < k ==> Routed(records[j], probes[j], maxRetries, ds[j])
    {
      var d := ProcessEmail(records[k], probes[k], maxRetries);
      ds := ds + [d];
      k := k + 1;
    }
  }

  /** The collection loop of `process_file`: each outcome, in submission
      order, increments its counter, and the percentage printed next is
      computed from the sum of the counters. With no records nothing is
      printed, so nothing is divided by zero. */
  method Aggregate(outs: seq<Outcome>) returns (counters: Counters, percentages: seq<nat>)
    ensures counters == Tally(outs)
    ensures Total(counters) == |outs|
    ensures |percentages| == |outs|
    ensures percentages == ProgressTrace(|outs|, |outs|)
  {
    var n := |outs|;
    counters := NoCounts;
    percentages := [];
    var seen: seq<Outcome> := [];
    var k := 0;
    while k < n
      invariant 0 <= k <= n && |seen| == k
      invariant forall j :: 0 <= j < k ==> seen[j] == outs[j]
      invariant counters == Tally(seen)
      invariant percentages == ProgressTrace(k, n)
    {
      TallySnoc(seen, outs[k]);
      seen := seen + [outs[k]];
      counters := Inc(counters, outs[k]);
      TallyTotal(seen);
      var progress := Total(counters);
      percentages := percentages + [Percent(progress, n)];
      k := k + 1;
    }
    assert seen == outs;
    TallyTotal(outs);
    ProgressTraceIndex(n, n);
  }

  /** `process_file` after the lines have been read. */
  method ProcessFile(lines: seq<string>, probes: seq<seq<Attempt>>, maxRetries: int)
    returns (rep: Report)
    requires |probes| == |Records(lines)|
    requires forall k :: 0 <= k < |probes| ==> maxRetries <= |probes[k]|
    ensures rep.records == Records(lines)
    ensures |rep.dispatches| == |rep.records| == |rep.percentages|
    ensures forall k :: 0 <= k < |rep.records| ==>
              Routed(rep.records[k], probes[k], maxRetries, rep.dispatches[k])
    ensures rep.counters == Tally(OutcomesOf(rep.dispatches))
    ensures forall o :: Count(rep.counters, o) == multiset(OutcomesOf(rep.dispatches))[o]
    ensures Total(rep.counters) == |rep.records|
    ensures forall k :: 0 <= k < |rep.percentages| ==>
              rep.percentages[k] == Percent(k + 1, |rep.records|)
    ensures forall j, k :: 0 <= j <= k < |rep.percentages| ==>
              rep.percentages[j] <= rep.percentages[k] <= 100
    ensures |rep.percentages| > 0 ==> rep.percentages[|rep.percentages| - 1] == 100
  {
    var records := Records(lines);
    var dispatches := DispatchAll(records, probes, maxRetries);
    var counters, percentages := Aggregate(OutcomesOf(dispatches));
    ProgressTraceIndex(|records|, |records|);
    ProgressIsMonotone(percentages, |records|);
    forall o {
      TallyCountsOutcomes(OutcomesOf(dispatches), o);
    }
    rep := Report(records, dispatches, counters, percentages);
  }

  /** The worked scenario, for any two addresses `x` and `y` without
      surrounding whitespace: of the lines `x`, a blank line, `y` and `x`
      again, the blank one is dropped and the duplicate is kept, in order. */
  lemma ScenarioRecords(x: string, y: string, blank: string)
    requires x != [] && Text.IsStripped(x)
    requires y != [] && Text.IsStripped(y)
    requires Text.AllSpace(blank)
    ensures Records([x, blank, y, x]) == [x, y, x]
  {
    assert [x, blank, y, x] == [x] + [blank, y, x];
    assert [blank, y, x] == [blank] + [y, x];
    assert [y, x] == [y] + [x];
    assert Records([x]) == [x] by {
      RecordsOfOne(x);
      Text.StrippedIsFixed(x);
    }
    assert Records([y]) == [y] by {
      RecordsOfOne(y);
      Text.StrippedIsFixed(y);
    }
    assert Records([blank]) == [] by {
      RecordsOfOne(blank);
    }
    RecordsAppend([y], [x]);
    RecordsAppend([blank], [y, x]);
    RecordsAppend([x], [blank, y, x]);
  }

  /** Of the scenario's records "ok@example.com" passes the format check and
      "bad-format" fails it, so it is the one skipped without a probe. */
  lemma ScenarioFormats()
    ensures EmailFormat.ValidateEmailFormat("ok@example.com")
    ensures !EmailFormat.ValidateEmailFormat("bad-format")
  {
    assert EmailFormat.SplitAt("ok@example.com", 2, 10);
    EmailFormat.RejectsWithoutAt("bad-format");
  }
}
