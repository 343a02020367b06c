/** The multi-scope quota limiter: fixed windows per rule, all matching rules admit or none is
    charged. Times are nanoseconds; the clock is assumed not to run backwards between calls. */
module Quota {
  import opened Options
  import Text

  datatype Rule = Rule(limit: int, window: int)

  datatype Scope = Route | Service | Project | Default

  datatype Match = Match(scope: Scope, selector: string, rule: Rule)

  datatype Config = Config(
    defaultRule: Option<Rule>, services: map<string, Rule>, projects: map<string, Rule>, routes: map<string, Rule>)

  datatype Bucket = Bucket(count: nat, reset: int)

  type Buckets = map<BucketKey, Bucket>

  datatype Decision = Allowed | Rejected(scope: Scope, retryAfter: int)

  const MILLISECOND := 1_000_000
  const DAY := 86_400_000_000_000

  /** validateQuotaRule. */
  predicate ValidRule(rule: Rule) { rule.limit > 0 && MILLISECOND <= rule.window <= DAY }

  predicate IsBlank(text: string) {
    forall c :: c in text ==> Text.IsSpace(c)
  }

  predicate ValidRules(rules: map<string, Rule>) {
    forall selector :: selector in rules ==> !IsBlank(selector) && ValidRule(rules[selector])
  }

  /** What NewQuotaLimiter accepts. */
  predicate ValidConfig(config: Config) {
    && (config.defaultRule.Some? ==> ValidRule(config.defaultRule.value))
    && ValidRules(config.services) && ValidRules(config.projects) && ValidRules(config.routes)
  }

  function ScopeName(scope: Scope): string {
    match scope
    case Route => "route"
    case Service => "service"
    case Project => "project"
    case Default => "default"
  }

  /** The code writes a bucket key as text; the table below is indexed by the parts of that text. */
  datatype BucketKey = BucketKey(scope: Scope, selector: string) {
    function Text(): string { ScopeName(scope) + ":" + selector }
  }

  /** Distinct keys have distinct texts, so no two scopes share a bucket. */
  lemma KeyTextIsInjective(a: BucketKey, b: BucketKey)
    ensures a.Text() == b.Text() <==> a == b
  {
    if a.Text() == b.Text() {
      assert a.Text()[0] == ScopeName(a.scope)[0] && b.Text()[0] == ScopeName(b.scope)[0];
      assert a.Text()[|ScopeName(a.scope)| + 1..] == a.selector;
      assert b.Text()[|ScopeName(b.scope)| + 1..] == b.selector;
    }
  }

  function Key(m: Match): BucketKey { BucketKey(m.scope, m.selector) }

  /** The rules that match a call, with service and route already normalized. */
  function Matched(config: Config, service: string, route: string, project: string): seq<Match> {
    var qualified := service + " " + route;
    (if qualified in config.routes then [Match(Route, qualified, config.routes[qualified])]
     else if route in config.routes then [Match(Route, route, config.routes[route])] else [])
    + (if service in config.services then [Match(Service, service, config.services[service])] else [])
    + (if project != "" && project in config.projects then [Match(Project, project, config.projects[project])] else [])
    + (if config.defaultRule.Some? then [Match(Default, "all", config.defaultRule.value)] else [])
  }

  /** The bucket a rule reads: the stored one while its window lasts, else a fresh one. */
  function Current(buckets: Buckets, key: BucketKey, rule: Rule, now: int): Bucket {
    if key in buckets && now < buckets[key].reset then buckets[key] else Bucket(0, now + rule.window)
  }

  predicate IsFull(buckets: Buckets, m: Match, now: int) {
    Current(buckets, Key(m), m.rule, now).count >= m.rule.limit
  }

  function Charged(bucket: Bucket): Bucket { bucket.(count := bucket.count + 1) }

  /** Every matching rule is charged one call. */
  function Charge(buckets: Buckets, matched: seq<Match>, now: int): Buckets {
    if matched == [] then buckets
    else
      var m := matched[|matched| - 1];
      Charge(buckets, matched[..|matched| - 1], now)[Key(m) := Charged(Current(buckets, Key(m), m.rule, now))]
  }

  /** The first full rule rejects the call. */
  function Decide(buckets: Buckets, matched: seq<Match>, now: int): Decision {
    if matched == [] then Allowed
    else if IsFull(buckets, matched[0], now) then
      Rejected(matched[0].scope, Current(buckets, Key(matched[0]), matched[0].rule, now).reset - now)
    else Decide(buckets, matched[1..], now)
  }

  class QuotaLimiter {
    const config: Config
    var buckets: Buckets

    constructor (config: Config)
      ensures this.config == config && buckets == map[]
    {
      this.config, buckets := config, map[];
    }

    /** Allow: collect the matching rules, then admit the call against all of them or none. */
    method Allow(service: string, route: string, project: string, now: int) returns (decision: Decision)
      modifies this
      ensures decision == Decide(old(buckets), Matched(config, service, route, project), now)
      ensures decision.Allowed? ==> buckets == Charge(old(buckets), Matched(config, service, route, project), now)
      ensures decision.Rejected? ==> buckets == old(buckets)
    {
      var matched: seq<Match> := [];
      var qualified := service + " " + route;
      if qualified in config.routes {
        matched := matched + [Match(Route, qualified, config.routes[qualified])];
      } else if route in config.routes {
        matched := matched + [Match(Route, route, config.routes[route])];
      }
      if service in config.services {
        matched := matched + [Match(Service, service, config.services[service])];
      }
      if project != "" && project in config.projects {
        matched := matched + [Match(Project, project, config.projects[project])];
      }
      if config.defaultRule.Some? {
        matched := matched + [Match(Default, "all", config.defaultRule.value)];
      }
      assert matched == Matched(config, service, route, project);
      if |matched| == 0 {
        return Allowed;
      }
      decision := Admit(matched, now);
    }

    /** The first pass: read every matching bucket, and stop at a full one. */
    method Look(matched: seq<Match>, now: int) returns (decision: Decision, looked: seq<Bucket>)
      ensures decision == Decide(buckets, matched, now)
      ensures decision.Allowed? ==> |looked| == |matched|
      ensures decision.Allowed? ==> forall k :: 0 <= k < |matched| ==>
        looked[k] == Current(buckets, Key(matched[k]), matched[k].rule, now)
    {
      looked := [];
      for index := 0 to |matched|
        invariant |looked| == index
        invariant forall k :: 0 <= k < index ==> looked[k] == Current(buckets, Key(matched[k]), matched[k].rule, now)
        invariant Decide(buckets, matched, now) == Decide(buckets, matched[index..], now)
      {
        var m := matched[index];
        var bucket := Bucket(0, now + m.rule.window);
        if Key(m) in buckets && now < buckets[Key(m)].reset {
          bucket := buckets[Key(m)];
        }
        assert matched[index..][0] == m && matched[index..][1..] == matched[index + 1..];
        if bucket.count >= m.rule.limit {
          return Rejected(m.scope, bucket.reset - now), [];
        }
        looked := looked + [bucket];
      }
      decision := Allowed;
    }

    /** Look at every matching bucket first, and only then charge them all. */
    method Admit(matched: seq<Match>, now: int) returns (decision: Decision)
      modifies this
      ensures decision == Decide(old(buckets), matched, now)
      ensures decision.Allowed? ==> buckets == Charge(old(buckets), matched, now)
      ensures decision.Rejected? ==> buckets == old(buckets)
    {
      var looked: seq<Bucket>;
      decision, looked := Look(matched, now);
      if decision.Rejected? {
        return;
      }
      for index := 0 to |matched|
        invariant buckets == Charge(old(buckets), matched[..index], now)
      {
        buckets := buckets[Key(matched[index]) := looked[index].(count := looked[index].count + 1)];
        assert matched[..index + 1][..index] == matched[..index];
      }
      assert matched[..|matched|] == matched;
    }
  }

  /** The inner loop of NewQuotaLimiter, in any order: the first bad selector or rule refuses. */
  method CheckRules(rules: map<string, Rule>) returns (ok: bool)
    ensures ok <==> ValidRules(rules)
  {
    var left := rules.Keys;
    while left != {}
      invariant left <= rules.Keys
      invariant forall selector :: selector in rules && selector !in left ==>
        !IsBlank(selector) && ValidRule(rules[selector])
      decreases left
    {
      var selector :| selector in left;
      if IsBlank(selector) {
        return false;
      }
      var rule := rules[selector];
      if rule.limit <= 0 || rule.window < MILLISECOND || rule.window > DAY {
        return false;
      }
      left := left - {selector};
    }
    return true;
  }

  /** NewQuotaLimiter refuses a configuration with a blank selector or a rule out of range. */
  method New(config: Config) returns (limiter: Option<QuotaLimiter>)
    ensures limiter.Some? <==> ValidConfig(config)
    ensures limiter.Some? ==> fresh(limiter.value) && limiter.value.config == config && limiter.value.buckets == map[]
  {
    if config.defaultRule.Some? && !ValidRule(config.defaultRule.value) {
      return None;
    }
    var services := CheckRules(config.services);
    if !services {
      return None;
    }
    var projects := CheckRules(config.projects);
    if !projects {
      return None;
    }
    var routes := CheckRules(config.routes);
    if !routes {
      return None;
    }
    var made := new QuotaLimiter(config);
    return Some(made);
  }

  // ---------------------------------------------------------------------------------------------
  // One call
  // ---------------------------------------------------------------------------------------------

  predicate IsConfigured(config: Config, m: Match) {
    match m.scope
    case Route => m.selector in config.routes && config.routes[m.selector] == m.rule
    case Service => m.selector in config.services && config.services[m.selector] == m.rule
    case Project => m.selector in config.projects && config.projects[m.selector] == m.rule
    case Default => m.selector == "all" && config.defaultRule == Some(m.rule)
  }

  /** Every use of this key carries this rule. */
  predicate AllUse(matched: seq<Match>, key: BucketKey, rule: Rule) {
    forall k :: 0 <= k < |matched| && Key(matched[k]) == key ==> matched[k].rule == rule
  }

  predicate Mentions(matched: seq<Match>, key: BucketKey) {
    exists k :: 0 <= k < |matched| && Key(matched[k]) == key
  }

  /** A call is refused exactly when some matching rule is full. */
  lemma {:induction false} AllowedIff(buckets: Buckets, matched: seq<Match>, now: int)
    ensures Decide(buckets, matched, now).Allowed? <==> forall k :: 0 <= k < |matched| ==>
      !IsFull(buckets, matched[k], now)
  {
    if matched != [] && !IsFull(buckets, matched[0], now) {
      AllowedIff(buckets, matched[1..], now);
      assert forall k :: 0 < k < |matched| ==> matched[k] == matched[1..][k - 1];
      assert forall k :: 0 <= k < |matched[1..]| ==> matched[1..][k] == matched[k + 1];
    }
  }

  /** The rule named in a refusal is a full one, and the delay runs to the end of its window. */
  lemma {:induction false} RejectingRule(buckets: Buckets, matched: seq<Match>, now: int) returns (k: nat)
    requires Decide(buckets, matched, now).Rejected?
    ensures k < |matched| && IsFull(buckets, matched[k], now)
    ensures Decide(buckets, matched, now)
         == Rejected(matched[k].scope, Current(buckets, Key(matched[k]), matched[k].rule, now).reset - now)
  {
    k := 0;
    if !IsFull(buckets, matched[0], now) {
      k := RejectingRule(buckets, matched[1..], now);
      k := k + 1;
    }
  }

  /** Charging touches the mentioned keys, each once, and nothing else. */
  lemma {:induction false} ChargeAt(buckets: Buckets, matched: seq<Match>, now: int, key: BucketKey, rule: Rule)
    requires AllUse(matched, key, rule)
    ensures Mentions(matched, key) ==>
      key in Charge(buckets, matched, now)
        && Charge(buckets, matched, now)[key] == Charged(Current(buckets, key, rule, now))
    ensures !Mentions(matched, key) ==> (key in Charge(buckets, matched, now) <==> key in buckets)
    ensures !Mentions(matched, key) && key in buckets ==> Charge(buckets, matched, now)[key] == buckets[key]
  {
    if matched != [] {
      var last := |matched| - 1;
      var rest := matched[..last];
      assert forall k :: 0 <= k < last ==> rest[k] == matched[k];
      ChargeAt(buckets, rest, now, key, rule);
      assert Key(matched[last]) == key ==> matched[last].rule == rule;
      assert Mentions(matched, key) <==> Key(matched[last]) == key || Mentions(rest, key) by {
        if Mentions(rest, key) {
          var k :| 0 <= k < |rest| && Key(rest[k]) == key;
          assert Key(matched[k]) == key;
        }
      }
    }
  }

  lemma MatchedAreConfigured(config: Config, call: Call)
    ensures forall k :: 0 <= k < |MatchedBy(config, call)| ==> IsConfigured(config, MatchedBy(config, call)[k])
  {}

  /** Two scopes never share a bucket, so a key fixes its rule. */
  lemma MatchedUse(config: Config, call: Call, m: Match)
    requires IsConfigured(config, m)
    ensures AllUse(MatchedBy(config, call), Key(m), m.rule)
  {
    var matched := MatchedBy(config, call);
    MatchedAreConfigured(config, call);
  }

  // ---------------------------------------------------------------------------------------------
  // Runs
  // ---------------------------------------------------------------------------------------------

  datatype Call = Call(service: string, route: string, project: string, now: int)

  function MatchedBy(config: Config, call: Call): seq<Match> {
    Matched(config, call.service, call.route, call.project)
  }

  function Step(config: Config, buckets: Buckets, call: Call): Buckets {
    var matched := MatchedBy(config, call);
    if Decide(buckets, matched, call.now).Allowed? then Charge(buckets, matched, call.now) else buckets
  }

  /** The buckets after a sequence of calls. */
  function BucketsAfter(config: Config, calls: seq<Call>): Buckets {
    if calls == [] then map[]
    else Step(config, BucketsAfter(config, calls[..|calls| - 1]), calls[|calls| - 1])
  }

  /** An admitted call of one rule: when, and the end of the window it was charged to. */
  datatype Entry = Entry(at: int, reset: int)

  predicate IsAdmitted(config: Config, buckets: Buckets, call: Call, key: BucketKey) {
    Mentions(MatchedBy(config, call), key) && Decide(buckets, MatchedBy(config, call), call.now).Allowed?
  }

  /** The calls that matched the rule and were admitted, oldest first. */
  function Admitted(config: Config, calls: seq<Call>, m: Match): seq<Entry> {
    if calls == [] then []
    else
      var call := calls[|calls| - 1];
      var rest := calls[..|calls| - 1];
      var before := BucketsAfter(config, rest);
      Admitted(config, rest, m)
      + (if IsAdmitted(config, before, call, Key(m))
         then [Entry(call.now, Current(before, Key(m), m.rule, call.now).reset)] else [])
  }

  predicate IsMonotone(calls: seq<Call>) {
    forall i, j :: 0 <= i <= j < |calls| ==> calls[i].now <= calls[j].now
  }

  function Count(log: seq<Entry>, wanted: Entry -> bool): nat {
    if log == [] then 0
    else Count(log[..|log| - 1], wanted) + (if wanted(log[|log| - 1]) then 1 else 0)
  }

  function InWindow(reset: int): Entry -> bool { (e: Entry) => e.reset == reset }

  function Between(lo: int, hi: int): Entry -> bool { (e: Entry) => lo <= e.at < hi }

  function Both(p: Entry -> bool, q: Entry -> bool): Entry -> bool { (e: Entry) => p(e) && q(e) }

  lemma {:induction false} CountCovers(log: seq<Entry>, p: Entry -> bool, q: Entry -> bool, r: Entry -> bool)
    requires forall k :: 0 <= k < |log| && p(log[k]) ==> q(log[k]) || r(log[k])
    ensures Count(log, p) <= Count(log, q) + Count(log, r)
  {
    if log != [] { CountCovers(log[..|log| - 1], p, q, r); }
  }

  lemma {:induction false} CountWithin(log: seq<Entry>, p: Entry -> bool, q: Entry -> bool)
    requires forall k :: 0 <= k < |log| && p(log[k]) ==> q(log[k])
    ensures Count(log, p) <= Count(log, q)
    ensures (exists k :: 0 <= k < |log| && q(log[k]) && !p(log[k])) ==> Count(log, p) < Count(log, q)
  {
    if log != [] { CountWithin(log[..|log| - 1], p, q); }
  }

  lemma {:induction false} CountNone(log: seq<Entry>, p: Entry -> bool)
    requires forall k :: 0 <= k < |log| ==> !p(log[k])
    ensures Count(log, p) == 0
  {
    if log != [] { CountNone(log[..|log| - 1], p); }
  }

  /** A window is opened by a call made exactly one window length before it ends. */
  predicate HasOpener(log: seq<Entry>, reset: int, window: int) {
    exists j :: 0 <= j < |log| && log[j] == Entry(reset - window, reset)
  }

  predicate AreOpened(log: seq<Entry>, window: int) {
    forall k :: 0 <= k < |log| ==> HasOpener(log, log[k].reset, window)
  }

  predicate AreInside(log: seq<Entry>, window: int) {
    forall k :: 0 <= k < |log| ==> log[k].at < log[k].reset <= log[k].at + window
  }

  predicate AreSpaced(log: seq<Entry>, window: int) {
    forall i, j :: 0 <= i <= j < |log| ==> log[i].reset == log[j].reset || log[i].reset + window <= log[j].reset
  }

  /** The windows of one rule: each lasts its length from its first call, and they do not overlap. */
  predicate AreWindows(log: seq<Entry>, window: int) {
    AreInside(log, window) && AreSpaced(log, window) && AreOpened(log, window)
  }

  ghost predicate WithinLimit(log: seq<Entry>, limit: int) {
    forall reset :: Count(log, InWindow(reset)) <= limit
  }

  /** What holds of one rule after every prefix of a run. */
  ghost predicate Inv(buckets: Buckets, log: seq<Entry>, key: BucketKey, rule: Rule) {
    && AreWindows(log, rule.window)
    && (key in buckets <==> log != [])
    && (log != [] ==> buckets[key] == Bucket(Count(log, InWindow(log[|log| - 1].reset)), log[|log| - 1].reset))
    && WithinLimit(log, rule.limit)
  }

  lemma LogStep(config: Config, calls: seq<Call>, m: Match)
    requires calls != [] && IsConfigured(config, m)
    ensures
      var before := BucketsAfter(config, calls[..|calls| - 1]);
      var after := BucketsAfter(config, calls);
      var call := calls[|calls| - 1];
      var log := Admitted(config, calls[..|calls| - 1], m);
      var current := Current(before, Key(m), m.rule, call.now);
      if IsAdmitted(config, before, call, Key(m)) then
        && Key(m) in after && after[Key(m)] == Charged(current)
        && current.count < m.rule.limit
        && Admitted(config, calls, m) == log + [Entry(call.now, current.reset)]
      else
        && (Key(m) in after <==> Key(m) in before) && (Key(m) in after ==> after[Key(m)] == before[Key(m)])
        && Admitted(config, calls, m) == log
  {
    var call := calls[|calls| - 1];
    var before := BucketsAfter(config, calls[..|calls| - 1]);
    var matched := MatchedBy(config, call);
    MatchedUse(config, call, m);
    ChargeAt(before, matched, call.now, Key(m), m.rule);
    AllowedIff(before, matched, call.now);
  }

  lemma CountAppend(log: seq<Entry>, entry: Entry, wanted: Entry -> bool)
    ensures Count(log + [entry], wanted) == Count(log, wanted) + (if wanted(entry) then 1 else 0)
  {
    assert (log + [entry])[..|log|] == log;
  }

  lemma AppendKeepsOpened(log: seq<Entry>, entry: Entry, window: int)
    requires AreOpened(log, window)
    requires (log != [] && entry.reset == log[|log| - 1].reset) || entry.reset == entry.at + window
    ensures AreOpened(log + [entry], window)
  {
    var grown := log + [entry];
    forall k | 0 <= k < |grown| ensures HasOpener(grown, grown[k].reset, window) {
      if k == |log| && entry.reset == entry.at + window {
        assert grown[|log|] == Entry(grown[k].reset - window, grown[k].reset);
      } else {
        var from := if k < |log| then k else |log| - 1;
        assert HasOpener(log, log[from].reset, window);
        var j :| 0 <= j < |log| && log[j] == Entry(log[from].reset - window, log[from].reset);
        assert grown[j] == log[j];
      }
    }
  }

  lemma AppendKeepsSpaced(log: seq<Entry>, entry: Entry, window: int)
    requires AreSpaced(log, window) && window > 0
    requires log != [] ==> entry.reset == log[|log| - 1].reset || log[|log| - 1].reset + window <= entry.reset
    ensures AreSpaced(log + [entry], window)
  {
    var grown := log + [entry];
    forall i, j | 0 <= i <= j < |grown|
      ensures grown[i].reset == grown[j].reset || grown[i].reset + window <= grown[j].reset
    {
      if i < |log| && j == |log| {
        assert log[i].reset == log[|log| - 1].reset || log[i].reset + window <= log[|log| - 1].reset;
      }
    }
  }

  lemma {:induction false} LogIsPast(config: Config, calls: seq<Call>, m: Match, now: int)
    requires forall i :: 0 <= i < |calls| ==> calls[i].now <= now
    ensures forall k :: 0 <= k < |Admitted(config, calls, m)| ==> Admitted(config, calls, m)[k].at <= now
  {
    if calls != [] { LogIsPast(config, calls[..|calls| - 1], m, now); }
  }

  lemma {:induction false} RunKeepsInv(config: Config, calls: seq<Call>, m: Match)
    requires ValidConfig(config) && IsConfigured(config, m) && IsMonotone(calls)
    ensures Inv(BucketsAfter(config, calls), Admitted(config, calls, m), Key(m), m.rule)
  {
    if calls != [] {
      var rest := calls[..|calls| - 1];
      var call := calls[|calls| - 1];
      RunKeepsInv(config, rest, m);
      LogStep(config, calls, m);
      LogIsPast(config, rest, m, call.now);
      var before := BucketsAfter(config, rest);
      if IsAdmitted(config, before, call, Key(m)) {
        StepKeepsInv(before, BucketsAfter(config, calls), Admitted(config, rest, m), Key(m), m.rule, call.now);
      }
    }
  }

  lemma AppendKeepsInside(log: seq<Entry>, entry: Entry, window: int)
    requires AreInside(log, window) && entry.at < entry.reset <= entry.at + window
    ensures AreInside(log + [entry], window)
  {}

  lemma AppendKeepsLimit(log: seq<Entry>, entry: Entry, limit: int)
    requires WithinLimit(log, limit) && Count(log, InWindow(entry.reset)) < limit
    ensures WithinLimit(log + [entry], limit)
  {
    forall reset ensures Count(log + [entry], InWindow(reset)) <= limit {
      CountAppend(log, entry, InWindow(reset));
    }
  }

  lemma StepKeepsInv(before: Buckets, after: Buckets, log: seq<Entry>, key: BucketKey, rule: Rule, now: int)
    requires ValidRule(rule) && Inv(before, log, key, rule)
    requires forall k :: 0 <= k < |log| ==> log[k].at <= now
    requires Current(before, key, rule, now).count < rule.limit
    requires key in after && after[key] == Charged(Current(before, key, rule, now))
    ensures Inv(after, log + [Entry(now, Current(before, key, rule, now).reset)], key, rule)
  {
    var current := Current(before, key, rule, now);
    var entry := Entry(now, current.reset);
    AppendKeepsInside(log, entry, rule.window);
    AppendKeepsOpened(log, entry, rule.window);
    AppendKeepsSpaced(log, entry, rule.window);
    if !(key in before && now < before[key].reset) {
      CountNone(log, InWindow(current.reset));
    }
    AppendKeepsLimit(log, entry, rule.limit);
    CountAppend(log, entry, InWindow(current.reset));
  }

  /** No fixed window admits more than the limit; windows of one rule last at most their length and
      never overlap. */
  lemma WindowAdmitsAtMostLimit(config: Config, calls: seq<Call>, m: Match, reset: int)
    requires ValidConfig(config) && IsConfigured(config, m) && IsMonotone(calls)
    ensures Count(Admitted(config, calls, m), InWindow(reset)) <= m.rule.limit
    ensures AreWindows(Admitted(config, calls, m), m.rule.window)
  {
    RunKeepsInv(config, calls, m);
  }

  lemma ValidRuleOf(config: Config, m: Match)
    requires ValidConfig(config) && IsConfigured(config, m)
    ensures ValidRule(m.rule)
  {}

  /** Two windows met by one interval: the first was opened before the interval began, and there is
      no third. */
  lemma TwoWindows(log: seq<Entry>, window: int, start: int, early: Entry, late: Entry)
    requires AreWindows(log, window) && early in log && late in log
    requires Between(start, start + window)(early) && Between(start, start + window)(late)
    requires early.reset < late.reset
    ensures early.reset - window < start
    ensures forall k :: 0 <= k < |log| && Between(start, start + window)(log[k]) ==>
      log[k].reset in {early.reset, late.reset}
  {
    var i :| 0 <= i < |log| && log[i] == early;
    var j :| 0 <= j < |log| && log[j] == late;
    assert early.reset + window <= late.reset <= late.at + window;
    forall k | 0 <= k < |log| && Between(start, start + window)(log[k]) && log[k].reset != early.reset
      ensures log[k].reset == late.reset
    {
      assert start <= log[k].at < log[k].reset <= log[k].at + window;
      assert early.reset + window <= log[k].reset;
    }
  }

  lemma IntervalBound(log: seq<Entry>, window: int, limit: int, start: int, early: Entry, late: Entry)
    requires AreWindows(log, window) && early in log && late in log
    requires Between(start, start + window)(early) && Between(start, start + window)(late)
    requires early.reset < late.reset
    requires WithinLimit(log, limit)
    ensures Count(log, Between(start, start + window)) < 2 * limit
  {
    var wanted := Between(start, start + window);
    var first := early.reset;
    TwoWindows(log, window, start, early, late);
    CountCovers(log, wanted, Both(InWindow(first), wanted), InWindow(late.reset));
    var k :| 0 <= k < |log| && log[k] == early;
    assert HasOpener(log, log[k].reset, window);
    CountWithin(log, Both(InWindow(first), wanted), InWindow(first));
  }

  lemma WindowsBoundIntervals(log: seq<Entry>, window: int, limit: int, start: int)
    requires AreWindows(log, window) && limit > 0
    requires WithinLimit(log, limit)
    ensures Count(log, Between(start, start + window)) < 2 * limit
  {
    var wanted := Between(start, start + window);
    if one, other :|
      && 0 <= one < |log| && 0 <= other < |log| && wanted(log[one]) && wanted(log[other])
      && log[one].reset < log[other].reset
    {
      IntervalBound(log, window, limit, start, log[one], log[other]);
    } else if one :| 0 <= one < |log| && wanted(log[one]) {
      CountWithin(log, wanted, InWindow(log[one].reset));
    } else {
      CountNone(log, wanted);
    }
  }

  /** Any half-open interval one window long admits fewer than twice the limit. */
  lemma IntervalAdmitsBelowTwiceLimit(config: Config, calls: seq<Call>, m: Match, start: int)
    requires ValidConfig(config) && IsConfigured(config, m) && IsMonotone(calls)
    ensures Count(Admitted(config, calls, m), Between(start, start + m.rule.window)) < 2 * m.rule.limit
  {
    RunKeepsInv(config, calls, m);
    ValidRuleOf(config, m);
    WindowsBoundIntervals(Admitted(config, calls, m), m.rule.window, m.rule.limit, start);
  }

  /** A refusal names a matching rule that is full, and a wait within its window, which is a day at most. */
  lemma RetryAfterIsInRange(config: Config, calls: seq<Call>, call: Call) returns (m: Match)
    requires ValidConfig(config) && IsMonotone(calls + [call])
    requires Decide(BucketsAfter(config, calls), MatchedBy(config, call), call.now).Rejected?
    ensures m in MatchedBy(config, call) && IsFull(BucketsAfter(config, calls), m, call.now)
    ensures Decide(BucketsAfter(config, calls), MatchedBy(config, call), call.now).scope == m.scope
    ensures 0 < Decide(BucketsAfter(config, calls), MatchedBy(config, call), call.now).retryAfter <= m.rule.window
    ensures m.rule.window <= 24 * 60 * 60 * 1_000_000_000
  {
    var k := RejectingRule(BucketsAfter(config, calls), MatchedBy(config, call), call.now);
    m := MatchedBy(config, call)[k];
    MatchedAreConfigured(config, call);
    ValidRuleOf(config, m);
    assert forall i :: 0 <= i < |calls| ==> calls[i] == (calls + [call])[i];
    RunKeepsInv(config, calls, m);
    assert (calls + [call])[|calls|] == call;
    LogIsPast(config, calls, m, call.now);
  }

  /** The bucket of a rule, if it has one. */
  function Stored(buckets: Buckets, m: Match): Option<Bucket> {
    if Key(m) in buckets then Some(buckets[Key(m)]) else None
  }

  /** While a full window lasts, no sequence of calls changes its bucket. */
  lemma {:induction false} FullBucketIsFrozen(config: Config, calls: seq<Call>, more: seq<Call>, m: Match, full: Bucket)
    requires IsConfigured(config, m) && 0 < m.rule.limit <= full.count
    requires Stored(BucketsAfter(config, calls), m) == Some(full)
    requires forall i :: 0 <= i < |more| ==> more[i].now < full.reset
    ensures Stored(BucketsAfter(config, calls + more), m) == Some(full)
  {
    if more == [] {
      assert calls + more == calls;
    } else {
      var shorter := more[..|more| - 1];
      FullBucketIsFrozen(config, calls, shorter, m, full);
      var grown := calls + more;
      assert grown[..|grown| - 1] == calls + shorter && grown[|grown| - 1] == more[|more| - 1];
      LogStep(config, grown, m);
    }
  }

  lemma FullUntilReset(config: Config, calls: seq<Call>, more: seq<Call>, m: Match, now: int)
    requires IsConfigured(config, m) && ValidRule(m.rule) && IsFull(BucketsAfter(config, calls), m, now)
    requires forall i :: 0 <= i < |more| ==>
      more[i].now < Current(BucketsAfter(config, calls), Key(m), m.rule, now).reset
    ensures
      var reset := Current(BucketsAfter(config, calls), Key(m), m.rule, now).reset;
      && Current(BucketsAfter(config, calls + more), Key(m), m.rule, reset).count == 0
      && IsFull(BucketsAfter(config, calls + more), m, reset - 1)
  {
    FullBucketIsFrozen(config, calls, more, m, BucketsAfter(config, calls)[Key(m)]);
  }

  /** After waiting the named delay the refusing rule has its whole limit again, whatever other calls
      were made meanwhile; one instant earlier it is still full. */
  lemma {:induction false} WaitingMakesRoom(config: Config, calls: seq<Call>, call: Call, more: seq<Call>)
    requires ValidConfig(config)
    requires Decide(BucketsAfter(config, calls), MatchedBy(config, call), call.now).Rejected?
    requires forall i :: 0 <= i < |more| ==>
      more[i].now < call.now + Decide(BucketsAfter(config, calls), MatchedBy(config, call), call.now).retryAfter
    ensures
      var decision := Decide(BucketsAfter(config, calls), MatchedBy(config, call), call.now);
      var after := BucketsAfter(config, calls + [call] + more);
      exists m :: m in MatchedBy(config, call) && m.scope == decision.scope
        && Current(after, Key(m), m.rule, call.now + decision.retryAfter).count == 0
        && IsFull(after, m, call.now + decision.retryAfter - 1)
  {
    var buckets := BucketsAfter(config, calls);
    var k := RejectingRule(buckets, MatchedBy(config, call), call.now);
    var m := MatchedBy(config, call)[k];
    MatchedAreConfigured(config, call);
    ValidRuleOf(config, m);
    RejectedChangesNothing(config, calls, call);
    FullUntilReset(config, calls + [call], more, m, call.now);
  }

  /** A refused call is charged to no scope. */
  lemma RejectedChangesNothing(config: Config, calls: seq<Call>, call: Call)
    requires Decide(BucketsAfter(config, calls), MatchedBy(config, call), call.now).Rejected?
    ensures BucketsAfter(config, calls + [call]) == BucketsAfter(config, calls)
  {
    assert (calls + [call])[..|calls|] == calls;
  }
}
