/** The bound on what an interval one window long admits is reached by every rule. */
module QuotaBound {
  import opened Options
  import opened Quota

  /** A configuration with a default rule alone, and a call at some time. */
  function DefaultOnly(rule: Rule): Config { Config(Some(rule), map[], map[], map[]) }

  function DefaultMatch(rule: Rule): Match { Match(Default, "all", rule) }

  function CallAt(now: int): Call { Call("", "", "", now) }

  function Repeat<T>(x: T, n: nat): seq<T> { seq(n, _ => x) }

  /** One call at the start, all but one of the window's other calls just before its end, and as many as
      the next window admits at its beginning. */
  function Schedule(rule: Rule, start: int): seq<Call>
    requires ValidRule(rule)
  {
    var end := start + rule.window;
    [CallAt(start)] + Repeat(CallAt(end - 1), rule.limit - 1) + Repeat(CallAt(end), rule.limit)
  }

  function AdmittedOf(calls: seq<Call>, rule: Rule): seq<Entry> {
    Admitted(DefaultOnly(rule), calls, DefaultMatch(rule))
  }

  function BucketOf(calls: seq<Call>, rule: Rule): Option<Bucket> {
    Stored(BucketsAfter(DefaultOnly(rule), calls), DefaultMatch(rule))
  }

  /** One more call of a rule whose bucket reads as not full. */
  lemma OneIsAdmitted(calls: seq<Call>, rule: Rule, now: int, current: Bucket)
    requires current == Current(BucketsAfter(DefaultOnly(rule), calls), Key(DefaultMatch(rule)), rule, now)
    requires current.count < rule.limit
    ensures AdmittedOf(calls + [CallAt(now)], rule) == AdmittedOf(calls, rule) + [Entry(now, current.reset)]
    ensures BucketOf(calls + [CallAt(now)], rule) == Some(Charged(current))
  {
    var config, m := DefaultOnly(rule), DefaultMatch(rule);
    var grown := calls + [CallAt(now)];
    assert grown[..|grown| - 1] == calls && grown[|grown| - 1] == CallAt(now);
    assert MatchedBy(config, CallAt(now)) == [m];
    AllowedIff(BucketsAfter(config, calls), [m], now);
    LogStep(config, grown, m);
  }

  /** What the rule has admitted, and its bucket. */
  datatype View = View(log: seq<Entry>, bucket: Option<Bucket>)

  type Run = seq<Call> -> View

  function RunOf(rule: Rule): Run { calls => View(AdmittedOf(calls, rule), BucketOf(calls, rule)) }

  function Opened(bucket: Option<Bucket>, rule: Rule, now: int): Bucket {
    if bucket.Some? && now < bucket.value.reset then bucket.value else Bucket(0, now + rule.window)
  }

  predicate AdmitsOne(run: Run, rule: Rule, calls: seq<Call>, now: int) {
    var current := Opened(run(calls).bucket, rule, now);
    current.count < rule.limit ==>
      run(calls + [CallAt(now)]) == View(run(calls).log + [Entry(now, current.reset)], Some(Charged(current)))
  }

  ghost predicate AdmitsWhileNotFull(run: Run, rule: Rule) {
    forall calls, now :: AdmitsOne(run, rule, calls, now)
  }

  lemma RunAdmitsWhileNotFull(rule: Rule)
    ensures AdmitsWhileNotFull(RunOf(rule), rule)
  {
    forall calls, now ensures AdmitsOne(RunOf(rule), rule, calls, now) {
      var current := Opened(BucketOf(calls, rule), rule, now);
      if current.count < rule.limit { OneIsAdmitted(calls, rule, now, current); }
    }
  }

  /** As many calls as there is room for, in the window that is open then. */
  lemma {:induction false} BurstIsAdmitted(run: Run, rule: Rule, calls: seq<Call>, now: int, n: nat)
    requires AdmitsWhileNotFull(run, rule) && rule.window > 0
    requires Opened(run(calls).bucket, rule, now).count + n <= rule.limit && n > 0
    ensures
      var current := Opened(run(calls).bucket, rule, now);
      run(calls + Repeat(CallAt(now), n))
      == View(run(calls).log + Repeat(Entry(now, current.reset), n), Some(Bucket(current.count + n, current.reset)))
    decreases n
  {
    var entry, more := Entry(now, Opened(run(calls).bucket, rule, now).reset), calls + [CallAt(now)];
    assert AdmitsOne(run, rule, calls, now);
    if n == 1 {
      assert Repeat(CallAt(now), 1) == [CallAt(now)] && Repeat(entry, 1) == [entry];
    } else {
      BurstIsAdmitted(run, rule, more, now, n - 1);
      RepeatAfter(calls, CallAt(now), n);
      RepeatAfter(run(calls).log, entry, n);
    }
  }

  lemma RepeatAfter<T>(front: seq<T>, x: T, n: nat)
    requires n > 0
    ensures front + Repeat(x, n) == front + [x] + Repeat(x, n - 1)
  {}

  lemma {:induction false} CountRepeated(log: seq<Entry>, entry: Entry, n: nat, wanted: Entry -> bool)
    ensures Count(log + Repeat(entry, n), wanted) == Count(log, wanted) + (if wanted(entry) then n else 0)
  {
    if n == 0 {
      assert log + Repeat(entry, 0) == log;
    } else {
      CountRepeated(log, entry, n - 1, wanted);
      CountAppend(log + Repeat(entry, n - 1), entry, wanted);
      assert log + Repeat(entry, n) == log + Repeat(entry, n - 1) + [entry];
    }
  }

  /** What the schedule is admitted: all of it. */
  lemma ScheduleIsAdmitted(run: Run, rule: Rule, start: int)
    requires ValidRule(rule) && AdmitsWhileNotFull(run, rule) && run([]) == View([], None)
    ensures
      var end := start + rule.window;
      run(Schedule(rule, start)).log
      == [Entry(start, end)] + Repeat(Entry(end - 1, end), rule.limit - 1)
         + Repeat(Entry(end, end + rule.window), rule.limit)
  {
    var end, first := start + rule.window, [CallAt(start)];
    assert [] + first == first && AdmitsOne(run, rule, [], start);
    var second := first + Repeat(CallAt(end - 1), rule.limit - 1);
    if rule.limit == 1 {
      assert second == first;
    } else {
      BurstIsAdmitted(run, rule, first, end - 1, rule.limit - 1);
    }
    assert run(second) == View([Entry(start, end)] + Repeat(Entry(end - 1, end), rule.limit - 1),
                               Some(Bucket(rule.limit, end)));
    BurstIsAdmitted(run, rule, second, end, rule.limit);
  }

  lemma CountScheduled(rule: Rule, start: int, log: seq<Entry>)
    requires ValidRule(rule) && log == [Entry(start, start + rule.window)]
    ensures
      var end := start + rule.window;
      Count(log + Repeat(Entry(end - 1, end), rule.limit - 1) + Repeat(Entry(end, end + rule.window), rule.limit),
            Between(start + 1, start + 1 + rule.window)) == 2 * rule.limit - 1
  {
    var end, wanted := start + rule.window, Between(start + 1, start + 1 + rule.window);
    assert Count(log, wanted) == 0;
    CountRepeated(log, Entry(end - 1, end), rule.limit - 1, wanted);
    CountRepeated(log + Repeat(Entry(end - 1, end), rule.limit - 1), Entry(end, end + rule.window), rule.limit, wanted);
  }

  /** For every limit, every window and every time there is a run in which an interval one window long
      admits all but one of twice the limit. */
  lemma BoundIsReached(rule: Rule, start: int)
    requires ValidRule(rule)
    ensures ValidConfig(DefaultOnly(rule)) && IsConfigured(DefaultOnly(rule), DefaultMatch(rule))
    ensures IsMonotone(Schedule(rule, start))
    ensures Count(AdmittedOf(Schedule(rule, start), rule), Between(start + 1, start + 1 + rule.window))
         == 2 * rule.limit - 1
  {
    RunAdmitsWhileNotFull(rule);
    ScheduleIsAdmitted(RunOf(rule), rule, start);
    CountScheduled(rule, start, [Entry(start, start + rule.window)]);
  }
}
