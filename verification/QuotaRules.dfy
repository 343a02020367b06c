/** Which rules apply to a call, and what a run of calls admits, said without the table of buckets. */
module QuotaRules {
  import opened Options
  import opened Quota

  function Qualified(call: Call): string { call.service + " " + call.route }

  /** A service rule applies to calls of its service and a project rule to calls of its project, if they name
      one; a route rule applies to the route of one service, or to the route of every service without such a
      rule; the default applies always. */
  predicate AppliesTo(config: Config, m: Match, call: Call) {
    match m.scope
    case Route => m.selector == Qualified(call) || (m.selector == call.route && Qualified(call) !in config.routes)
    case Service => m.selector == call.service
    case Project => m.selector == call.project != ""
    case Default => true
  }

  /** The rules that are consulted are exactly the configured ones that apply. */
  lemma MatchedIff(config: Config, call: Call, m: Match)
    ensures m in MatchedBy(config, call) <==> IsConfigured(config, m) && AppliesTo(config, m, call)
  {
    match m.scope
    case Route => assert Qualified(call) != call.route by { assert |Qualified(call)| > |call.route|; }
    case Service =>
    case Project =>
    case Default =>
  }

  /** The order in which they are consulted. */
  function Rank(scope: Scope): nat {
    match scope
    case Route => 0
    case Service => 1
    case Project => 2
    case Default => 3
  }

  lemma MatchedAreRanked(config: Config, call: Call)
    ensures
      var matched := MatchedBy(config, call);
      forall i, j :: 0 <= i < j < |matched| ==> Rank(matched[i].scope) < Rank(matched[j].scope)
  {}

  ghost predicate IsFullFor(config: Config, buckets: Buckets, call: Call, m: Match) {
    IsConfigured(config, m) && AppliesTo(config, m, call) && IsFull(buckets, m, call.now)
  }

  /** A call is rejected exactly when a configured rule that applies is full. */
  lemma RejectedIff(config: Config, buckets: Buckets, call: Call)
    ensures Decide(buckets, MatchedBy(config, call), call.now).Rejected?
       <==> exists m :: IsFullFor(config, buckets, call, m)
  {
    var matched := MatchedBy(config, call);
    AllowedIff(buckets, matched, call.now);
    if k :| 0 <= k < |matched| && IsFull(buckets, matched[k], call.now) {
      MatchedIff(config, call, matched[k]);
      assert IsFullFor(config, buckets, call, matched[k]);
    }
    if m :| IsFullFor(config, buckets, call, m) {
      MatchedIff(config, call, m);
    }
  }

  lemma {:induction false} FirstRejecting(buckets: Buckets, matched: seq<Match>, now: int) returns (k: nat)
    requires Decide(buckets, matched, now).Rejected?
    ensures k < |matched| && IsFull(buckets, matched[k], now)
    ensures forall i :: 0 <= i < k ==> !IsFull(buckets, matched[i], now)
    ensures Decide(buckets, matched, now)
         == Rejected(matched[k].scope, Current(buckets, Key(matched[k]), matched[k].rule, now).reset - now)
  {
    k := 0;
    if !IsFull(buckets, matched[0], now) {
      k := FirstRejecting(buckets, matched[1..], now);
      k := k + 1;
    }
  }

  ghost predicate IsFirstFull(config: Config, buckets: Buckets, call: Call, m: Match) {
    && IsFullFor(config, buckets, call, m)
    && forall other :: IsFullFor(config, buckets, call, other) ==> Rank(m.scope) <= Rank(other.scope)
  }

  /** The rejection names the first full rule, of the route, the service, the project or the default in this
      order, and the end of its window. */
  lemma FirstFullRejects(config: Config, buckets: Buckets, call: Call) returns (m: Match)
    requires Decide(buckets, MatchedBy(config, call), call.now).Rejected?
    ensures IsFirstFull(config, buckets, call, m)
    ensures Decide(buckets, MatchedBy(config, call), call.now)
         == Rejected(m.scope, Current(buckets, Key(m), m.rule, call.now).reset - call.now)
  {
    var matched := MatchedBy(config, call);
    var k := FirstRejecting(buckets, matched, call.now);
    m := matched[k];
    MatchedIff(config, call, m);
    forall other | IsFullFor(config, buckets, call, other) ensures Rank(m.scope) <= Rank(other.scope) {
      MatchedIff(config, call, other);
      MatchedAreRanked(config, call);
    }
  }

  // ---------------------------------------------------------------------------------------------
  // Runs
  // ---------------------------------------------------------------------------------------------

  /** The window that the last admitted call of the rule was charged to is still open. */
  predicate IsOpen(log: seq<Entry>, now: int) { log != [] && now < log[|log| - 1].reset }

  /** And it has admitted the limit. */
  predicate IsUsedUp(log: seq<Entry>, rule: Rule, now: int) {
    IsOpen(log, now) && Count(log, InWindow(log[|log| - 1].reset)) >= rule.limit
  }

  /** Some configured rule that applies to the call has admitted its limit in the window that is open. */
  ghost predicate IsBarred(config: Config, calls: seq<Call>, call: Call) {
    exists m :: IsConfigured(config, m) && AppliesTo(config, m, call)
                && IsUsedUp(Admitted(config, calls, m), m.rule, call.now)
  }

  /** After any run a call is rejected exactly when it is barred. */
  lemma RejectedAfterRunIff(config: Config, calls: seq<Call>, call: Call)
    requires ValidConfig(config) && IsMonotone(calls + [call])
    ensures Decide(BucketsAfter(config, calls), MatchedBy(config, call), call.now).Rejected?
       <==> IsBarred(config, calls, call)
  {
    var buckets := BucketsAfter(config, calls);
    PrefixIsMonotone(calls, call);
    RejectedIff(config, buckets, call);
    if m :| IsFullFor(config, buckets, call, m) {
      FullIsUsedUp(config, calls, m, call.now);
    }
    if m :| IsConfigured(config, m) && AppliesTo(config, m, call)
            && IsUsedUp(Admitted(config, calls, m), m.rule, call.now) {
      FullIsUsedUp(config, calls, m, call.now);
      assert IsFullFor(config, buckets, call, m);
    }
  }

  lemma PrefixIsMonotone(calls: seq<Call>, call: Call)
    requires IsMonotone(calls + [call])
    ensures IsMonotone(calls)
  {
    forall i, j | 0 <= i <= j < |calls| ensures calls[i].now <= calls[j].now {
      assert (calls + [call])[i] == calls[i] && (calls + [call])[j] == calls[j];
    }
  }

  lemma FullIsUsedUp(config: Config, calls: seq<Call>, m: Match, now: int)
    requires ValidConfig(config) && IsConfigured(config, m) && IsMonotone(calls)
    ensures IsFull(BucketsAfter(config, calls), m, now) <==> IsUsedUp(Admitted(config, calls, m), m.rule, now)
  {
    RunKeepsInv(config, calls, m);
    ValidRuleOf(config, m);
  }

  /** What a call adds to the admitted ones of a rule: itself, if the rule applies and the call is not barred,
      in the window that is open or in one that it opens. */
  lemma AdmittedStep(config: Config, calls: seq<Call>, call: Call, m: Match)
    requires ValidConfig(config) && IsConfigured(config, m) && IsMonotone(calls + [call])
    ensures
      var log := Admitted(config, calls, m);
      var reset := if IsOpen(log, call.now) then log[|log| - 1].reset else call.now + m.rule.window;
      Admitted(config, calls + [call], m)
      == log + (if AppliesTo(config, m, call) && !IsBarred(config, calls, call) then [Entry(call.now, reset)] else [])
  {
    var grown := calls + [call];
    assert grown[..|grown| - 1] == calls && grown[|grown| - 1] == call;
    AdmittedIff(config, calls, call, m);
    CurrentReset(config, calls, call, m);
    LogStep(config, grown, m);
  }

  lemma AdmittedIff(config: Config, calls: seq<Call>, call: Call, m: Match)
    requires ValidConfig(config) && IsConfigured(config, m) && IsMonotone(calls + [call])
    ensures IsAdmitted(config, BucketsAfter(config, calls), call, Key(m))
       <==> AppliesTo(config, m, call) && !IsBarred(config, calls, call)
  {
    RejectedAfterRunIff(config, calls, call);
    MentionedIff(config, call, m);
  }

  lemma CurrentReset(config: Config, calls: seq<Call>, call: Call, m: Match)
    requires ValidConfig(config) && IsConfigured(config, m) && IsMonotone(calls + [call])
    ensures
      var log := Admitted(config, calls, m);
      Current(BucketsAfter(config, calls), Key(m), m.rule, call.now).reset
      == if IsOpen(log, call.now) then log[|log| - 1].reset else call.now + m.rule.window
  {
    PrefixIsMonotone(calls, call);
    RunKeepsInv(config, calls, m);
  }

  lemma MentionedIff(config: Config, call: Call, m: Match)
    requires IsConfigured(config, m)
    ensures Mentions(MatchedBy(config, call), Key(m)) <==> AppliesTo(config, m, call)
  {
    var matched := MatchedBy(config, call);
    MatchedIff(config, call, m);
    MatchedUse(config, call, m);
    if Mentions(matched, Key(m)) {
      var k :| 0 <= k < |matched| && Key(matched[k]) == Key(m);
      assert matched[k] == m;
    }
  }
}
