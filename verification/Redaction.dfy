/** Redacting diagnostics: forbidden values are cut out until none is left, so that neither joining
    the text around a cut nor appending the truncation marker can form another. */
module Redaction {
  import opened Options

  type Bytes = seq<int>

  // ---------------------------------------------------------------------------------------------
  // Finding
  // ---------------------------------------------------------------------------------------------

  predicate OccursAt(content: Bytes, value: Bytes, at: int) {
    0 <= at && at + |value| <= |content| && content[at..at + |value|] == value
  }

  predicate Occurs(content: Bytes, value: Bytes) {
    exists at :: 0 <= at <= |content| && OccursAt(content, value, at)
  }

  predicate IsClean(content: Bytes, forbidden: seq<Bytes>) {
    forall value :: value in forbidden ==> !Occurs(content, value)
  }

  function FindFrom(content: Bytes, value: Bytes, from: nat): (at: Option<nat>)
    requires from <= |content|
    ensures at.Some? ==> from <= at.value && OccursAt(content, value, at.value)
    decreases |content| - from
  {
    if OccursAt(content, value, from) then Some(from)
    else if from == |content| then None
    else FindFrom(content, value, from + 1)
  }

  /** content.find(value). */
  function Find(content: Bytes, value: Bytes): (at: Option<nat>)
    ensures at.Some? ==> OccursAt(content, value, at.value)
  {
    FindFrom(content, value, 0)
  }

  lemma {:induction false} FindFromIsFirst(content: Bytes, value: Bytes, from: nat)
    requires from <= |content|
    ensures
      var at := FindFrom(content, value, from);
      forall k :: from <= k && (at.Some? ==> k < at.value) ==> !OccursAt(content, value, k)
    decreases |content| - from
  {
    if !OccursAt(content, value, from) && from < |content| {
      FindFromIsFirst(content, value, from + 1);
    }
  }

  /** It is the first place where the value occurs, if there is one. */
  lemma FindIsFirst(content: Bytes, value: Bytes)
    ensures Find(content, value).Some? <==> Occurs(content, value)
    ensures Find(content, value).Some? ==> forall k :: 0 <= k < Find(content, value).value ==>
      !OccursAt(content, value, k)
  {
    FindFromIsFirst(content, value, 0);
  }

  // ---------------------------------------------------------------------------------------------
  // Redacting
  // ---------------------------------------------------------------------------------------------

  datatype Hit = Hit(at: nat, value: Bytes)

  /** The leftmost occurrence of a forbidden value, and the longest there. */
  ghost predicate IsMatch(content: Bytes, forbidden: seq<Bytes>, hit: Hit) {
    && hit.value in forbidden && OccursAt(content, hit.value, hit.at)
    && forall other, k: nat :: other in forbidden && OccursAt(content, other, k) ==>
         hit.at < k || (hit.at == k && |other| <= |hit.value|)
  }

  predicate Improves(start: nat, value: Bytes, best: Option<Hit>) {
    best.None? || start < best.value.at || (start == best.value.at && |value| > |best.value.value|)
  }

  /** What one pass over the forbidden values finds, in the order they are tried. */
  function Best(content: Bytes, forbidden: seq<Bytes>): (best: Option<Hit>)
    ensures best.Some? ==> best.value.value in forbidden && OccursAt(content, best.value.value, best.value.at)
  {
    if forbidden == [] then None
    else
      var best := Best(content, forbidden[..|forbidden| - 1]);
      var value := forbidden[|forbidden| - 1];
      var start := Find(content, value);
      if start.Some? && Improves(start.value, value, best) then Some(Hit(start.value, value)) else best
  }

  lemma {:induction false} BestIsMatch(content: Bytes, forbidden: seq<Bytes>)
    ensures Best(content, forbidden).None? <==> IsClean(content, forbidden)
    ensures Best(content, forbidden).Some? ==> IsMatch(content, forbidden, Best(content, forbidden).value)
  {
    if forbidden != [] {
      var shorter, value := forbidden[..|forbidden| - 1], forbidden[|forbidden| - 1];
      BestIsMatch(content, shorter);
      FindIsFirst(content, value);
      assert forbidden == shorter + [value];
    }
  }

  lemma MatchIsUnique(content: Bytes, a: seq<Bytes>, b: seq<Bytes>, first: Hit, second: Hit)
    requires IsMatch(content, a, first) && IsMatch(content, b, second) && SameValues(a, b)
    ensures first == second
  {}

  ghost predicate SameValues(a: seq<Bytes>, b: seq<Bytes>) {
    forall value :: value in a <==> value in b
  }

  function Without(content: Bytes, at: nat, length: nat): Bytes
    requires at + length <= |content|
  {
    content[..at] + content[at + length..]
  }

  /** redact_all: cut out the match of what is left, until there is none. */
  function Redacted(content: Bytes, forbidden: seq<Bytes>): Bytes
    requires [] !in forbidden
    decreases |content|
  {
    var best := Best(content, forbidden);
    if best.None? then content
    else
      assert best.value.value != [];
      Redacted(Without(content, best.value.at, |best.value.value|), forbidden)
  }

  /** The result depends on the set of forbidden values only, not on the order they are tried in. */
  lemma {:induction false} OrderDoesNotMatter(content: Bytes, a: seq<Bytes>, b: seq<Bytes>)
    requires [] !in a && SameValues(a, b)
    ensures [] !in b && Redacted(content, a) == Redacted(content, b)
    decreases |content|
  {
    BestIsMatch(content, a);
    BestIsMatch(content, b);
    var best := Best(content, a);
    if best.Some? {
      MatchIsUnique(content, a, b, best.value, Best(content, b).value);
      assert best.value.value != [];
      OrderDoesNotMatter(Without(content, best.value.at, |best.value.value|), a, b);
    }
  }

  ghost predicate IsSubsequence(a: Bytes, b: Bytes) {
    if a == [] then true
    else if b == [] then false
    else (a[0] == b[0] && IsSubsequence(a[1..], b[1..])) || IsSubsequence(a, b[1..])
  }

  lemma {:induction false} SubsequenceOfItself(a: Bytes)
    ensures IsSubsequence(a, a)
  {
    if a != [] { SubsequenceOfItself(a[1..]); }
  }

  lemma {:induction false} SubsequenceThroughCut(a: Bytes, b: Bytes, at: nat, length: nat)
    requires at + length <= |b| && IsSubsequence(a, Without(b, at, length))
    ensures IsSubsequence(a, b)
    decreases |b|
  {
    if a == [] {
    } else if at > 0 {
      var cut := Without(b, at, length);
      assert cut[0] == b[0] && cut[1..] == Without(b[1..], at - 1, length);
      if a[0] == cut[0] && IsSubsequence(a[1..], cut[1..]) {
        SubsequenceThroughCut(a[1..], b[1..], at - 1, length);
      } else {
        SubsequenceThroughCut(a, b[1..], at - 1, length);
      }
    } else if length > 0 {
      assert Without(b, 0, length) == Without(b[1..], 0, length - 1);
      SubsequenceThroughCut(a, b[1..], 0, length - 1);
    } else {
      assert Without(b, 0, 0) == b;
    }
  }

  /** Redacted text holds no forbidden value, is made of text that was there, in its order, and is the
      whole text exactly when that was clean. */
  lemma {:induction false} RedactedIsClean(content: Bytes, forbidden: seq<Bytes>)
    requires [] !in forbidden
    ensures IsClean(Redacted(content, forbidden), forbidden)
    ensures IsSubsequence(Redacted(content, forbidden), content) && |Redacted(content, forbidden)| <= |content|
    ensures Redacted(content, forbidden) == content <==> IsClean(content, forbidden)
    decreases |content|
  {
    BestIsMatch(content, forbidden);
    var best := Best(content, forbidden);
    if best.None? {
      SubsequenceOfItself(content);
    } else {
      var hit := best.value;
      assert hit.value != [];
      var cut := Without(content, hit.at, |hit.value|);
      RedactedIsClean(cut, forbidden);
      SubsequenceThroughCut(Redacted(cut, forbidden), content, hit.at, |hit.value|);
    }
  }

  /** The inner loop of redact_all. */
  method FindBest(content: Bytes, forbidden: seq<Bytes>) returns (best: Option<Hit>)
    ensures best == Best(content, forbidden)
  {
    best := None;
    for index := 0 to |forbidden|
      invariant best == Best(content, forbidden[..index])
    {
      var value := forbidden[index];
      assert forbidden[..index + 1][..index] == forbidden[..index];
      var start := Find(content, value);
      if start.Some? && (best.None? || start.value < best.value.at
                         || (start.value == best.value.at && |value| > |best.value.value|)) {
        best := Some(Hit(start.value, value));
      }
    }
    assert forbidden[..|forbidden|] == forbidden;
  }

  method RedactAll(original: Bytes, forbidden: seq<Bytes>) returns (content: Bytes)
    requires [] !in forbidden
    ensures content == Redacted(original, forbidden)
  {
    content := original;
    while true
      invariant Redacted(content, forbidden) == Redacted(original, forbidden)
      decreases |content|
    {
      var best := FindBest(content, forbidden);
      if best.None? {
        return;
      }
      assert best.value.value != [];
      content := Without(content, best.value.at, |best.value.value|);
    }
  }

  // ---------------------------------------------------------------------------------------------
  // Copying
  // ---------------------------------------------------------------------------------------------

  /** A line of the list of forbidden values: whether its label is a non-blank text, and its value. */
  datatype Entry = Entry(labelled: bool, value: Bytes)

  const MAX_VALUE := 4096

  predicate IsEntry(entry: Entry) { entry.labelled && entry.value != [] && |entry.value| <= MAX_VALUE }

  function Longest(forbidden: seq<Bytes>): nat {
    if forbidden == [] then 0
    else
      var longest := Longest(forbidden[..|forbidden| - 1]);
      if longest < |forbidden[|forbidden| - 1]| then |forbidden[|forbidden| - 1]| else longest
  }

  lemma {:induction false} LongestBounds(forbidden: seq<Bytes>)
    ensures forall value :: value in forbidden ==> |value| <= Longest(forbidden)
    ensures forbidden != [] ==> exists value :: value in forbidden && |value| == Longest(forbidden)
  {
    if forbidden != [] {
      var shorter, value := forbidden[..|forbidden| - 1], forbidden[|forbidden| - 1];
      LongestBounds(shorter);
      assert forbidden == shorter + [value];
      assert value in forbidden;
      if Longest(forbidden) != |value| || shorter != [] {
        assert forall other :: other in shorter ==> other in forbidden;
      }
    }
  }

  function Take(content: Bytes, n: int): Bytes {
    if n < 0 then [] else if |content| <= n then content else content[..n]
  }

  /** The bytes written for one file, given how many may be. */
  function Sanitized(content: Bytes, forbidden: seq<Bytes>, limit: int, marker: Bytes): Bytes
    requires [] !in forbidden
  {
    var taken := Read(content, forbidden, limit);
    var redacted := Redacted(taken, forbidden);
    Take(if |taken| > limit then Redacted(redacted + marker, forbidden) else redacted, limit)
  }

  lemma LongestAtMost(a: seq<Bytes>, b: seq<Bytes>)
    requires forall value :: value in a ==> value in b
    ensures Longest(a) <= Longest(b)
  {
    LongestBounds(a);
    LongestBounds(b);
  }

  /** The script keeps a set of values, sorted by length; no choice of order changes what is written. */
  lemma SanitizedDependsOnValues(content: Bytes, a: seq<Bytes>, b: seq<Bytes>, limit: int, marker: Bytes)
    requires [] !in a && SameValues(a, b)
    ensures [] !in b && Sanitized(content, a, limit, marker) == Sanitized(content, b, limit, marker)
  {
    LongestAtMost(a, b);
    LongestAtMost(b, a);
    var taken := Take(content, limit + Longest(a));
    OrderDoesNotMatter(taken, a, b);
    var redacted := Redacted(taken, a);
    OrderDoesNotMatter(redacted + marker, a, b);
  }

  lemma CleanPrefix(content: Bytes, n: nat, forbidden: seq<Bytes>)
    requires n <= |content| && IsClean(content, forbidden)
    ensures IsClean(content[..n], forbidden)
  {
    forall value, at | 0 <= at <= n && OccursAt(content[..n], value, at) ensures OccursAt(content, value, at) {
      assert content[..n][at..at + |value|] == content[at..at + |value|];
    }
  }

  /** Nothing forbidden is written, even where the marker is appended or the text is cut short; and a
      file that fits is written whole but for what redacting removes. */
  lemma SanitizedIsClean(content: Bytes, forbidden: seq<Bytes>, limit: nat, marker: Bytes)
    requires [] !in forbidden
    ensures IsClean(Sanitized(content, forbidden, limit, marker), forbidden)
    ensures |Sanitized(content, forbidden, limit, marker)| <= limit
    ensures |content| <= limit ==> Sanitized(content, forbidden, limit, marker) == Redacted(content, forbidden)
  {
    var taken := Take(content, limit + Longest(forbidden));
    var redacted := Redacted(taken, forbidden);
    RedactedIsClean(taken, forbidden);
    RedactedIsClean(redacted + marker, forbidden);
    var whole := if |taken| > limit then Redacted(redacted + marker, forbidden) else redacted;
    if |whole| > limit {
      CleanPrefix(whole, limit, forbidden);
    }
  }

  // ---------------------------------------------------------------------------------------------
  // Which bytes of a file are written
  // ---------------------------------------------------------------------------------------------

  function Shifted(offsets: seq<nat>, at: nat, length: nat): seq<nat> {
    seq(|offsets|, k requires 0 <= k < |offsets| => if offsets[k] < at then offsets[k] else offsets[k] + length)
  }

  /** The offsets of the bytes that redacting keeps. */
  function Survivors(content: Bytes, forbidden: seq<Bytes>): seq<nat>
    requires [] !in forbidden
    decreases |content|
  {
    var best := Best(content, forbidden);
    if best.None? then seq(|content|, k requires 0 <= k < |content| => k)
    else
      assert best.value.value != [];
      var length := |best.value.value|;
      Shifted(Survivors(Without(content, best.value.at, length), forbidden), best.value.at, length)
  }

  predicate IsAscending(offsets: seq<nat>, end: nat) {
    && (forall i, j :: 0 <= i < j < |offsets| ==> offsets[i] < offsets[j])
    && forall i :: 0 <= i < |offsets| ==> offsets[i] < end
  }

  lemma ShiftedAreKept(content: Bytes, at: nat, length: nat, offsets: seq<nat>, kept: Bytes)
    requires at + length <= |content| && |offsets| == |kept| && IsAscending(offsets, |content| - length)
    requires forall k :: 0 <= k < |kept| ==> Without(content, at, length)[offsets[k]] == kept[k]
    ensures IsAscending(Shifted(offsets, at, length), |content|)
    ensures forall k :: 0 <= k < |kept| ==> content[Shifted(offsets, at, length)[k]] == kept[k]
  {
    var shifted := Shifted(offsets, at, length);
    forall k | 0 <= k < |kept| ensures shifted[k] < |content| && content[shifted[k]] == kept[k] {
      assert Without(content, at, length)[offsets[k]] == content[shifted[k]];
    }
  }

  lemma {:induction false} SurvivorsAreKept(content: Bytes, forbidden: seq<Bytes>)
    requires [] !in forbidden
    ensures IsAscending(Survivors(content, forbidden), |content|)
    ensures |Survivors(content, forbidden)| == |Redacted(content, forbidden)|
    ensures forall k :: 0 <= k < |Survivors(content, forbidden)| ==>
              content[Survivors(content, forbidden)[k]] == Redacted(content, forbidden)[k]
    decreases |content|
  {
    var best := Best(content, forbidden);
    if best.Some? {
      var hit := best.value;
      assert hit.value != [];
      var rest := Without(content, hit.at, |hit.value|);
      SurvivorsAreKept(rest, forbidden);
      ShiftedAreKept(content, hit.at, |hit.value|, Survivors(rest, forbidden), Redacted(rest, forbidden));
    }
  }

  /** Every cut in clean text with a tail reaches into the tail. */
  lemma CutEndsInTail(clean: Bytes, tail: Bytes, hit: Hit, forbidden: seq<Bytes>)
    requires IsClean(clean, forbidden) && hit.value in forbidden && OccursAt(clean + tail, hit.value, hit.at)
    ensures hit.at + |hit.value| > |clean|
  {
    if hit.at + |hit.value| <= |clean| {
      assert (clean + tail)[hit.at..hit.at + |hit.value|] == clean[hit.at..hit.at + |hit.value|];
      assert OccursAt(clean, hit.value, hit.at);
    }
  }

  /** What one cut leaves of the clean text and of the tail. */
  function FrontAfter(clean: Bytes, hit: Hit): Bytes { if hit.at <= |clean| then clean[..hit.at] else clean }

  function TailAfter(clean: Bytes, tail: Bytes, hit: Hit): Bytes
    requires hit.at + |hit.value| <= |clean| + |tail| && hit.at + |hit.value| > |clean|
  {
    if hit.at <= |clean| then Without(tail, 0, hit.at + |hit.value| - |clean|)
    else Without(tail, hit.at - |clean|, |hit.value|)
  }

  lemma CutSplits(clean: Bytes, tail: Bytes, hit: Hit, forbidden: seq<Bytes>)
    requires IsClean(clean, forbidden) && hit.value in forbidden && hit.value != []
    requires OccursAt(clean + tail, hit.value, hit.at) && hit.at + |hit.value| > |clean|
    ensures Without(clean + tail, hit.at, |hit.value|) == FrontAfter(clean, hit) + TailAfter(clean, tail, hit)
    ensures IsClean(FrontAfter(clean, hit), forbidden)
    ensures |TailAfter(clean, tail, hit)| < |tail|
  {
    if hit.at <= |clean| {
      CleanPrefix(clean, hit.at, forbidden);
    }
  }

  /** How much of clean text is left when a tail, here the marker, is appended and all is redacted again. */
  function KeptFront(clean: Bytes, tail: Bytes, forbidden: seq<Bytes>): (kept: nat)
    requires [] !in forbidden && IsClean(clean, forbidden)
    ensures kept <= |clean|
    decreases |tail|
  {
    var best := Best(clean + tail, forbidden);
    if best.None? then |clean|
    else
      assert best.value.value != [];
      CutEndsInTail(clean, tail, best.value, forbidden);
      CutSplits(clean, tail, best.value, forbidden);
      KeptFront(FrontAfter(clean, best.value), TailAfter(clean, tail, best.value), forbidden)
  }

  lemma {:induction false} FrontIsKept(clean: Bytes, tail: Bytes, forbidden: seq<Bytes>)
    requires [] !in forbidden && IsClean(clean, forbidden)
    ensures
      var kept := KeptFront(clean, tail, forbidden);
      var whole := Redacted(clean + tail, forbidden);
      kept <= |whole| && whole[..kept] == clean[..kept] && IsSubsequence(whole[kept..], tail)
    decreases |tail|
  {
    var best := Best(clean + tail, forbidden);
    if best.None? {
      assert (clean + tail)[|clean|..] == tail && (clean + tail)[..|clean|] == clean;
      SubsequenceOfItself(tail);
    } else {
      assert best.value.value != [];
      CutEndsInTail(clean, tail, best.value, forbidden);
      CutSplits(clean, tail, best.value, forbidden);
      FrontIsKept(FrontAfter(clean, best.value), TailAfter(clean, tail, best.value), forbidden);
      RestThroughCut(clean, tail, best.value, forbidden);
    }
  }

  lemma RestThroughCut(clean: Bytes, tail: Bytes, hit: Hit, forbidden: seq<Bytes>)
    requires hit.at + |hit.value| <= |clean| + |tail| && hit.at + |hit.value| > |clean|
    ensures forall rest :: IsSubsequence(rest, TailAfter(clean, tail, hit)) ==> IsSubsequence(rest, tail)
  {
    forall rest | IsSubsequence(rest, TailAfter(clean, tail, hit)) ensures IsSubsequence(rest, tail) {
      if hit.at <= |clean| {
        SubsequenceThroughCut(rest, tail, 0, hit.at + |hit.value| - |clean|);
      } else {
        SubsequenceThroughCut(rest, tail, hit.at - |clean|, |hit.value|);
      }
    }
  }

  function Read(content: Bytes, forbidden: seq<Bytes>, limit: int): Bytes { Take(content, limit + Longest(forbidden)) }

  /** How many of the surviving bytes of a file are written. */
  function WrittenCount(content: Bytes, forbidden: seq<Bytes>, limit: nat, marker: Bytes): nat
    requires [] !in forbidden
  {
    var read := Read(content, forbidden, limit);
    RedactedIsClean(read, forbidden);
    var redacted := Redacted(read, forbidden);
    var kept := if |read| > limit then KeptFront(redacted, marker, forbidden) else |redacted|;
    if kept < limit then kept else limit
  }

  /** The output begins with that many surviving bytes of the file, in their order, and goes on with bytes
      of the marker only, if at all. */
  lemma OutputIsSurvivors(content: Bytes, forbidden: seq<Bytes>, limit: nat, marker: Bytes)
    requires [] !in forbidden
    ensures
      var read := Read(content, forbidden, limit);
      var survivors := Survivors(read, forbidden);
      var count := WrittenCount(content, forbidden, limit, marker);
      var output := Sanitized(content, forbidden, limit, marker);
      && count <= |survivors| && count <= |output| && IsAscending(survivors, |read|)
      && (forall k :: 0 <= k < count ==> output[k] == read[survivors[k]])
      && (|read| <= limit ==> count == |output| == |survivors|)
      && (|read| > limit ==> exists rest :: IsSubsequence(rest, marker) && output[count..] <= rest)
  {
    var read := Read(content, forbidden, limit);
    var redacted := Redacted(read, forbidden);
    SurvivorsAreKept(read, forbidden);
    RedactedIsClean(read, forbidden);
    if |read| > limit {
      TruncatedOutput(redacted, marker, forbidden, limit);
    }
  }

  lemma TruncatedOutput(clean: Bytes, marker: Bytes, forbidden: seq<Bytes>, limit: nat)
    requires [] !in forbidden && IsClean(clean, forbidden)
    ensures
      var kept := KeptFront(clean, marker, forbidden);
      var count := if kept < limit then kept else limit;
      var output := Take(Redacted(clean + marker, forbidden), limit);
      && count <= |clean| && count <= |output| && (forall k :: 0 <= k < count ==> output[k] == clean[k])
      && exists rest :: IsSubsequence(rest, marker) && output[count..] <= rest
  {
    var whole := Redacted(clean + marker, forbidden);
    var kept := KeptFront(clean, marker, forbidden);
    FrontIsKept(clean, marker, forbidden);
    FrontOfTake(whole, kept, limit);
    PrefixElements(whole, clean, kept);
  }

  lemma FrontOfTake(whole: Bytes, kept: nat, limit: nat)
    requires kept <= |whole|
    ensures
      var count := if kept < limit then kept else limit;
      count <= |Take(whole, limit)| && Take(whole, limit)[count..] <= whole[kept..]
      && forall k :: 0 <= k < count ==> Take(whole, limit)[k] == whole[k]
  {}

  lemma PrefixElements(a: Bytes, b: Bytes, n: nat)
    requires n <= |a| && n <= |b| && a[..n] == b[..n]
    ensures forall k :: 0 <= k < n ==> a[k] == b[k]
  {
    forall k | 0 <= k < n ensures a[k] == b[k] {
      assert a[..n][k] == b[..n][k];
    }
  }

  /** Redacting what stands before a hit that fits into it makes the same first cut. */
  lemma PrefixHasSameHit(content: Bytes, k: nat, forbidden: seq<Bytes>, hit: Hit)
    requires k <= |content| && Best(content, forbidden) == Some(hit) && hit.at + |hit.value| <= k
    ensures Best(content[..k], forbidden) == Some(hit)
  {
    var prefix := content[..k];
    BestIsMatch(content, forbidden);
    BestIsMatch(prefix, forbidden);
    assert forall value, at: nat {:trigger OccursAt(prefix, value, at)} :: OccursAt(prefix, value, at) ==>
        prefix[at..at + |value|] == content[at..at + |value|] && OccursAt(content, value, at);
    assert prefix[hit.at..hit.at + |hit.value|] == content[hit.at..hit.at + |hit.value|];
    assert OccursAt(prefix, hit.value, hit.at) && IsMatch(prefix, forbidden, hit);
    MatchIsUnique(prefix, forbidden, forbidden, hit, Best(prefix, forbidden).value);
  }

  lemma RedactedStep(content: Bytes, forbidden: seq<Bytes>, hit: Hit, rest: Bytes)
    requires [] !in forbidden && Best(content, forbidden) == Some(hit)
    requires hit.at + |hit.value| <= |content| && rest == Without(content, hit.at, |hit.value|)
    ensures Redacted(content, forbidden) == Redacted(rest, forbidden)
  {}

  lemma CutOfPrefix(content: Bytes, at: nat, length: nat, j: nat)
    requires at + length <= |content| && j <= |content| - length
    ensures j < at ==> content[..j] == Without(content, at, length)[..j]
    ensures j >= at ==> Without(content[..j + length], at, length) == Without(content, at, length)[..j]
  {}

  /** Text that reaches beyond the first cut is redacted to the same with and without it. */
  lemma PrefixAcrossCut(content: Bytes, forbidden: seq<Bytes>, hit: Hit, k: nat, rest: Bytes)
    requires [] !in forbidden && Best(content, forbidden) == Some(hit) && hit.at + |hit.value| <= k <= |content|
    requires rest == Without(content[..k], hit.at, |hit.value|)
    ensures Redacted(content[..k], forbidden) == Redacted(rest, forbidden)
  {
    PrefixHasSameHit(content, k, forbidden, hit);
    RedactedStep(content[..k], forbidden, hit, rest);
  }

  lemma SurvivorsStep(content: Bytes, forbidden: seq<Bytes>, hit: Hit, rest: Bytes)
    requires [] !in forbidden && Best(content, forbidden) == Some(hit)
    requires hit.at + |hit.value| <= |content| && rest == Without(content, hit.at, |hit.value|)
    ensures Survivors(content, forbidden) == Shifted(Survivors(rest, forbidden), hit.at, |hit.value|)
    ensures |rest| < |content|
  {
    assert hit.value != [];
  }

  /** What comes before a surviving byte is redacted as if nothing came after it: the place of the byte is
      the length of that. */
  lemma {:induction false} SurvivorPlace(content: Bytes, forbidden: seq<Bytes>, i: nat)
    requires [] !in forbidden && i < |Survivors(content, forbidden)|
    ensures Survivors(content, forbidden)[i] < |content|
    ensures |Redacted(content[..Survivors(content, forbidden)[i]], forbidden)| == i
    decreases |content|
  {
    SurvivorsAreKept(content, forbidden);
    var best := Best(content, forbidden);
    if best.None? {
      BestIsMatch(content, forbidden);
      CleanPrefix(content, i, forbidden);
      RedactedIsClean(content[..i], forbidden);
    } else {
      var hit := best.value;
      var rest := Without(content, hit.at, |hit.value|);
      SurvivorsStep(content, forbidden, hit, rest);
      SurvivorPlace(rest, forbidden, i);
      PlaceThroughCut(content, forbidden, hit, rest, Survivors(rest, forbidden)[i], Survivors(content, forbidden)[i]);
    }
  }

  lemma PlaceThroughCut(content: Bytes, forbidden: seq<Bytes>, hit: Hit, rest: Bytes, j: nat, k: nat)
    requires [] !in forbidden && Best(content, forbidden) == Some(hit) && hit.at + |hit.value| <= |content|
    requires rest == Without(content, hit.at, |hit.value|) && j < |rest|
    requires k == (if j < hit.at then j else j + |hit.value|)
    ensures Redacted(content[..k], forbidden) == Redacted(rest[..j], forbidden)
  {
    CutOfPrefix(content, hit.at, |hit.value|, j);
    if j >= hit.at {
      PrefixAcrossCut(content, forbidden, hit, k, rest[..j]);
    }
  }

  /** Which bytes of the file are written: those that survive and before which less survives than is
      written in all. */
  lemma ByteIsWrittenIff(content: Bytes, forbidden: seq<Bytes>, limit: nat, marker: Bytes, k: nat)
    requires [] !in forbidden && k < |Read(content, forbidden, limit)|
    ensures
      var survivors := Survivors(Read(content, forbidden, limit), forbidden);
      var count := WrittenCount(content, forbidden, limit, marker);
      && count <= limit && count <= |survivors|
      && (k in survivors[..count] <==> k in survivors && |Redacted(content[..k], forbidden)| < count)
  {
    CountIsBounded(content, forbidden, limit, marker);
    ReadIsPrefix(content, forbidden, limit, k);
    IsAmongFirstIff(Read(content, forbidden, limit), forbidden, k, WrittenCount(content, forbidden, limit, marker));
  }

  lemma CountIsBounded(content: Bytes, forbidden: seq<Bytes>, limit: nat, marker: Bytes)
    requires [] !in forbidden
    ensures WrittenCount(content, forbidden, limit, marker) <= limit
    ensures WrittenCount(content, forbidden, limit, marker) <= |Survivors(Read(content, forbidden, limit), forbidden)|
  {
    OutputIsSurvivors(content, forbidden, limit, marker);
  }

  lemma ReadIsPrefix(content: Bytes, forbidden: seq<Bytes>, limit: nat, k: nat)
    requires k <= |Read(content, forbidden, limit)|
    ensures k <= |content| && Read(content, forbidden, limit)[..k] == content[..k]
  {}

  lemma IsAmongFirstIff(content: Bytes, forbidden: seq<Bytes>, k: nat, count: nat)
    requires [] !in forbidden && k < |content| && count <= |Survivors(content, forbidden)|
    ensures
      var survivors := Survivors(content, forbidden);
      k in survivors[..count] <==> k in survivors && |Redacted(content[..k], forbidden)| < count
  {
    SurvivorsAreKept(content, forbidden);
    var survivors := Survivors(content, forbidden);
    if k in survivors {
      var i :| 0 <= i < |survivors| && survivors[i] == k;
      SurvivorPlace(content, forbidden, i);
      AmongFirst(survivors, |content|, i, count);
    }
  }

  lemma AmongFirst(offsets: seq<nat>, end: nat, i: nat, count: nat)
    requires IsAscending(offsets, end) && i < |offsets| && count <= |offsets|
    ensures offsets[i] in offsets[..count] <==> i < count
  {
    if i < count {
      assert offsets[..count][i] == offsets[i];
    }
  }

  /** A forbidden value that the end of the read cuts begins beyond the limit. Each of its bytes that was
      read is written exactly when it survives and the file up to it is redacted to less than is written. */
  lemma CutValueIsWrittenIff(content: Bytes, forbidden: seq<Bytes>, limit: nat, marker: Bytes, value: Bytes, at: nat)
    requires [] !in forbidden && value in forbidden && OccursAt(content, value, at)
    requires at < limit + Longest(forbidden) < at + |value|
    ensures at > limit && |Read(content, forbidden, limit)| == limit + Longest(forbidden)
    ensures
      var survivors := Survivors(Read(content, forbidden, limit), forbidden);
      var count := WrittenCount(content, forbidden, limit, marker);
      && count <= limit && count <= |survivors|
      && forall k :: at <= k < limit + Longest(forbidden) ==>
           (k in survivors[..count] <==> k in survivors && |Redacted(content[..k], forbidden)| < count)
  {
    LongestBounds(forbidden);
    var read := Read(content, forbidden, limit);
    var survivors := Survivors(read, forbidden);
    var count := WrittenCount(content, forbidden, limit, marker);
    ByteIsWrittenIff(content, forbidden, limit, marker, at);
    forall k | at <= k < limit + Longest(forbidden)
      ensures k in survivors[..count] <==> k in survivors && |Redacted(content[..k], forbidden)| < count
    {
      ByteIsWrittenIff(content, forbidden, limit, marker, k);
    }
  }

  lemma {:induction false} AscendingRoom(offsets: seq<nat>, end: nat, i: nat)
    requires IsAscending(offsets, end) && i < |offsets|
    ensures offsets[i] + (|offsets| - i) <= end
    decreases |offsets| - i
  {
    if i + 1 < |offsets| {
      AscendingRoom(offsets, end, i + 1);
    }
  }

  /** No byte of the cut value is written if no more is cut out of the whole read than the value begins
      beyond the limit. */
  lemma FewCutsNothingPulled(content: Bytes, forbidden: seq<Bytes>, limit: nat, marker: Bytes, at: nat)
    requires [] !in forbidden && at >= limit
    requires var read := Read(content, forbidden, limit); |read| - |Redacted(read, forbidden)| <= at - limit
    ensures
      var survivors := Survivors(Read(content, forbidden, limit), forbidden);
      var count := WrittenCount(content, forbidden, limit, marker);
      count <= |survivors| && forall k :: at <= k ==> k !in survivors[..count]
  {
    var read := Read(content, forbidden, limit);
    var survivors := Survivors(read, forbidden);
    OutputIsSurvivors(content, forbidden, limit, marker);
    SurvivorsAreKept(read, forbidden);
    forall i | 0 <= i < WrittenCount(content, forbidden, limit, marker) ensures survivors[i] < at {
      AscendingRoom(survivors, |read|, i);
    }
  }

  /** The last bytes of this value stand in the tail and end at this place of it. */
  predicate EndsAt(value: Bytes, tail: Bytes, end: nat)
    requires end <= |tail|
  {
    var length := if |value| < end then |value| else end;
    value[|value| - length..] == tail[end - length..end]
  }

  /** No forbidden value can end inside the tail, whatever stands before it. */
  predicate IsBeyondReach(tail: Bytes, forbidden: seq<Bytes>) {
    forall value, end :: value in forbidden && 0 < end <= |tail| ==> !EndsAt(value, tail, end)
  }

  lemma EndsInTail(front: Bytes, tail: Bytes, value: Bytes, at: nat)
    requires OccursAt(front + tail, value, at) && at + |value| > |front|
    ensures EndsAt(value, tail, at + |value| - |front|)
  {
    var end := at + |value| - |front|;
    var length := if |value| < end then |value| else end;
    var last, part := value[|value| - length..], tail[end - length..end];
    forall k | 0 <= k < length ensures last[k] == part[k] {
      var i := |value| - length + k;
      assert (front + tail)[at..at + |value|][i] == (front + tail)[at + i] == tail[end - length + k];
    }
  }

  lemma OccursInFront(front: Bytes, tail: Bytes, value: Bytes, at: nat)
    requires at + |value| <= |front|
    ensures OccursAt(front + tail, value, at) <==> OccursAt(front, value, at)
  {
    assert (front + tail)[at..at + |value|] == front[at..at + |value|];
  }

  lemma HitStaysInFront(front: Bytes, tail: Bytes, forbidden: seq<Bytes>)
    requires [] !in forbidden && IsBeyondReach(tail, forbidden)
    ensures Best(front + tail, forbidden) == Best(front, forbidden)
  {
    forall value, at: nat | value in forbidden && OccursAt(front + tail, value, at) ensures OccursAt(front, value, at) {
      if at + |value| > |front| {
        EndsInTail(front, tail, value, at);
      } else {
        OccursInFront(front, tail, value, at);
      }
    }
    forall value, at: nat | OccursAt(front, value, at) ensures OccursAt(front + tail, value, at) {
      OccursInFront(front, tail, value, at);
    }
    SameOccurrences(front + tail, front, forbidden);
  }

  lemma SameOccurrences(a: Bytes, b: Bytes, forbidden: seq<Bytes>)
    requires forall value, at: nat :: value in forbidden ==> (OccursAt(a, value, at) <==> OccursAt(b, value, at))
    ensures Best(a, forbidden) == Best(b, forbidden)
  {
    BestIsMatch(a, forbidden);
    BestIsMatch(b, forbidden);
    if Best(b, forbidden).Some? {
      assert IsMatch(a, forbidden, Best(b, forbidden).value);
      MatchIsUnique(a, forbidden, forbidden, Best(a, forbidden).value, Best(b, forbidden).value);
    }
  }

  lemma CleanSurvives(content: Bytes, forbidden: seq<Bytes>)
    requires [] !in forbidden && Best(content, forbidden).None?
    ensures Redacted(content, forbidden) == content
    ensures forall k: nat :: k < |content| ==> k in Survivors(content, forbidden)
  {
    forall k: nat | k < |content| ensures k in Survivors(content, forbidden) {
      assert Survivors(content, forbidden)[k] == k;
    }
  }

  lemma SurvivesShift(offsets: seq<nat>, at: nat, length: nat, k: nat)
    requires k >= at + length && k - length in offsets
    ensures k in Shifted(offsets, at, length)
  {
    var i :| 0 <= i < |offsets| && offsets[i] == k - length;
    assert Shifted(offsets, at, length)[i] == k;
  }

  /** Such a tail survives whole, and what stands before it is redacted as if the tail were not there. */
  lemma {:induction false} TailSurvives(front: Bytes, tail: Bytes, forbidden: seq<Bytes>)
    requires [] !in forbidden && IsBeyondReach(tail, forbidden)
    ensures Redacted(front + tail, forbidden) == Redacted(front, forbidden) + tail
    ensures forall k: nat :: |front| <= k < |front + tail| ==> k in Survivors(front + tail, forbidden)
    decreases |front|
  {
    HitStaysInFront(front, tail, forbidden);
    var best := Best(front, forbidden);
    if best.None? {
      CleanSurvives(front + tail, forbidden);
    } else {
      var at, length := best.value.at, |best.value.value|;
      assert best.value.value != [];
      var rest := Without(front, at, length);
      assert Without(front + tail, at, length) == rest + tail;
      TailSurvives(rest, tail, forbidden);
      forall k: nat | |front| <= k < |front + tail| ensures k in Survivors(front + tail, forbidden) {
        SurvivesShift(Survivors(rest + tail, forbidden), at, length, k);
      }
    }
  }

  lemma PrefixIsBeyondReach(tail: Bytes, n: nat, forbidden: seq<Bytes>)
    requires n <= |tail| && IsBeyondReach(tail, forbidden)
    ensures IsBeyondReach(tail[..n], forbidden)
  {
    forall value, end: nat | value in forbidden && 0 < end <= n ensures !EndsAt(value, tail[..n], end) {
      var length := if |value| < end then |value| else end;
      assert tail[..n][end - length..end] == tail[end - length..end];
      assert !EndsAt(value, tail, end);
    }
  }

  /** Where the cut value is beyond the reach of the forbidden ones, its first bytes are written exactly as
      far as the redacted text before it leaves room below what is written. */
  lemma CutTailIsWrittenIff(content: Bytes, forbidden: seq<Bytes>, limit: nat, marker: Bytes, at: nat, j: nat)
    requires [] !in forbidden && at + j < |Read(content, forbidden, limit)|
    requires IsBeyondReach(Read(content, forbidden, limit)[at..], forbidden)
    ensures
      var survivors := Survivors(Read(content, forbidden, limit), forbidden);
      var count := WrittenCount(content, forbidden, limit, marker);
      && count <= |survivors|
      && (at + j in survivors[..count] <==> |Redacted(content[..at], forbidden)| + j < count)
  {
    var read := Read(content, forbidden, limit);
    TailPlace(read, forbidden, at, j);
    ReadIsPrefix(content, forbidden, limit, at);
    ReadIsPrefix(content, forbidden, limit, at + j);
    ByteIsWrittenIff(content, forbidden, limit, marker, at + j);
  }

  lemma TailPlace(read: Bytes, forbidden: seq<Bytes>, at: nat, j: nat)
    requires [] !in forbidden && at + j < |read| && IsBeyondReach(read[at..], forbidden)
    ensures at + j in Survivors(read, forbidden)
    ensures |Redacted(read[..at + j], forbidden)| == |Redacted(read[..at], forbidden)| + j
  {
    var front, tail := read[..at], read[at..];
    assert read == front + tail;
    TailSurvives(front, tail, forbidden);
    assert read[..at + j] == front + tail[..j];
    PrefixIsBeyondReach(tail, j, forbidden);
    TailSurvives(front, tail[..j], forbidden);
  }

  /** If the marker joins nothing, that is as far as there is room below the limit. */
  lemma CutTailIsWrittenInLimitIff(content: Bytes, forbidden: seq<Bytes>, limit: nat, marker: Bytes, at: nat, j: nat)
    requires [] !in forbidden && at + j < |Read(content, forbidden, limit)|
    requires IsBeyondReach(Read(content, forbidden, limit)[at..], forbidden)
    requires IsClean(Redacted(Read(content, forbidden, limit), forbidden) + marker, forbidden)
    ensures
      var survivors := Survivors(Read(content, forbidden, limit), forbidden);
      var count := WrittenCount(content, forbidden, limit, marker);
      && count <= |survivors|
      && (at + j in survivors[..count] <==> |Redacted(content[..at], forbidden)| + j < limit)
  {
    var read := Read(content, forbidden, limit);
    CutTailIsWrittenIff(content, forbidden, limit, marker, at, j);
    assert read == content[..at] + read[at..];
    TailSurvives(content[..at], read[at..], forbidden);
    RedactedIsClean(read, forbidden);
    AllIsKept(Redacted(read, forbidden), marker, forbidden);
  }

  lemma AllIsKept(clean: Bytes, marker: Bytes, forbidden: seq<Bytes>)
    requires [] !in forbidden && IsClean(clean, forbidden) && IsClean(clean + marker, forbidden)
    ensures KeptFront(clean, marker, forbidden) == |clean|
  {
    BestIsMatch(clean + marker, forbidden);
  }

  function Ascii(text: string): Bytes { seq(|text|, k requires 0 <= k < |text| => text[k] as int) }

  lemma AsciiAppend(a: string, b: string)
    ensures Ascii(a + b) == Ascii(a) + Ascii(b) && Ascii(a + b)[..|a|] == Ascii(a)
  {}

  lemma WithoutAscii(front: string, value: string, back: string)
    ensures OccursAt(Ascii(front + value + back), Ascii(value), |front|)
    ensures Without(Ascii(front + value + back), |front|, |value|) == Ascii(front + back)
  {
    assert Ascii(front + value + back)[|front|..|front| + |value|] == Ascii(value);
  }

  /** A cut of a text at the first place where anything forbidden stands. */
  lemma CutAscii(front: string, value: string, back: string, forbidden: seq<Bytes>)
    requires [] !in forbidden && Ascii(value) in forbidden
    requires forall other, k: nat :: other in forbidden && OccursAt(Ascii(front + value + back), other, k) ==>
               |front| < k || (|front| == k && |other| <= |value|)
    ensures Redacted(Ascii(front + value + back), forbidden) == Redacted(Ascii(front + back), forbidden)
    ensures Survivors(Ascii(front + value + back), forbidden)
         == Shifted(Survivors(Ascii(front + back), forbidden), |front|, |value|)
  {
    var content, hit := Ascii(front + value + back), Hit(|front|, Ascii(value));
    WithoutAscii(front, value, back);
    assert IsMatch(content, forbidden, hit);
    MatchIsCut(content, forbidden, hit);
  }

  lemma MatchIsCut(content: Bytes, forbidden: seq<Bytes>, hit: Hit)
    requires [] !in forbidden && IsMatch(content, forbidden, hit)
    ensures var rest := Without(content, hit.at, |hit.value|);
            && Redacted(content, forbidden) == Redacted(rest, forbidden)
            && Survivors(content, forbidden) == Shifted(Survivors(rest, forbidden), hit.at, |hit.value|)
  {
    BestIsMatch(content, forbidden);
    MatchIsUnique(content, forbidden, forbidden, hit, Best(content, forbidden).value);
  }

  lemma OccursAscii(text: string, value: string, at: nat)
    requires at + |value| <= |text| && text[at..at + |value|] == value
    ensures OccursAt(Ascii(text), Ascii(value), at)
  {
    forall k | 0 <= k < |value| ensures Ascii(text)[at..at + |value|][k] == Ascii(value)[k] {
      assert text[at..at + |value|][k] == text[at + k];
    }
  }

  lemma OccurrenceAt(text: string, value: string, at: nat, i: nat)
    requires OccursAt(Ascii(text), Ascii(value), at) && i < |value|
    ensures at + i < |text| && text[at + i] == value[i]
  {
    assert Ascii(text)[at..at + |value|][i] == Ascii(text)[at + i] == text[at + i] as int;
    assert Ascii(value)[i] == value[i] as int;
    assert text[at + i] as int as char == value[i] as int as char;
  }

  lemma Absent(text: string, value: string, i: nat)
    requires i < |value| && value[i] !in text
    ensures !Occurs(Ascii(text), Ascii(value))
  {
    if Occurs(Ascii(text), Ascii(value)) {
      var at :| 0 <= at <= |Ascii(text)| && OccursAt(Ascii(text), Ascii(value), at);
      OccurrenceAt(text, value, at, i);
      assert false;
    }
  }

  lemma NotBefore(text: string, value: string, n: nat)
    requires n <= |text| && value != "" && forall k :: 0 <= k < n ==> text[k] != value[0]
    ensures forall k: nat :: k < n ==> !OccursAt(Ascii(text), Ascii(value), k)
  {
    forall k: nat | k < n ensures !OccursAt(Ascii(text), Ascii(value), k) {
      if OccursAt(Ascii(text), Ascii(value), k) {
        OccurrenceAt(text, value, k, 0);
        assert false;
      }
    }
  }

  const MARKER := "\n[truncated]\n"

  /** What a file is written as when the read is cut and the marker joins nothing. */
  lemma WrittenAscii(file: string, read: string, text: string, forbidden: seq<Bytes>, limit: nat)
    requires [] !in forbidden && limit < |read| == limit + Longest(forbidden) <= |file| && read == file[..|read|]
    requires Redacted(Ascii(read), forbidden) == Ascii(text) && limit <= |text + MARKER|
    requires IsClean(Ascii(text + MARKER), forbidden)
    ensures Sanitized(Ascii(file), forbidden, limit, Ascii(MARKER)) == Ascii((text + MARKER)[..limit])
  {
    assert Read(Ascii(file), forbidden, limit) == Ascii(read);
    AsciiAppend(text, MARKER);
    RedactedIsClean(Ascii(text + MARKER), forbidden);
    assert Take(Ascii(text + MARKER), limit) == Ascii((text + MARKER)[..limit]);
  }

  /** The end of the read cuts the third value; two whole ones are cut out, and its prefix is written. */
  lemma CutPrefixIsWritten(file: string, forbidden: seq<Bytes>)
    requires file == "SECRETSECRETSECRET" && forbidden == [Ascii("SECRET")]
    ensures [] !in forbidden && OccursAt(Ascii(file), Ascii("SECRET"), 12)
    ensures Sanitized(Ascii(file), forbidden, 10, Ascii(MARKER)) == Ascii("SECR\n[trun")
  {
    var value, text := "SECRET", "SECR";
    OccursAscii(file, value, 12);
    TwoWholeOnes(value, text, forbidden);
    assert value + value + text + "ET" == file && file[..16] == value + value + text;
    CleanOfOne(value, text, forbidden);
    WrittenAscii(file, value + value + text, text, forbidden, 10);
  }

  lemma CleanOfOne(value: string, text: string, forbidden: seq<Bytes>)
    requires value == "SECRET" && text == "SECR" && forbidden == [Ascii(value)]
    ensures IsClean(Ascii(text + MARKER), forbidden) && (text + MARKER)[..10] == "SECR\n[trun"
  {
    Absent(text + MARKER, value, 5);
    assert (text + MARKER)[..10] == text + MARKER[..6] && MARKER[..6] == "\n[trun";
  }

  lemma WholeOne(value: string, back: string, forbidden: seq<Bytes>)
    requires value != "" && forbidden == [Ascii(value)]
    ensures Redacted(Ascii(value + back), forbidden) == Redacted(Ascii(back), forbidden)
  {
    assert Ascii(value) != [];
    assert "" + value + back == value + back && "" + back == back;
    CutAscii("", value, back, forbidden);
  }

  lemma TwoWholeOnes(value: string, text: string, forbidden: seq<Bytes>)
    requires |value| > |text| && forbidden == [Ascii(value)]
    ensures [] !in forbidden && Longest(forbidden) == |value|
    ensures Redacted(Ascii(value + value + text), forbidden) == Ascii(text)
  {
    assert value + value + text == value + (value + text);
    WholeOne(value, value + text, forbidden);
    WholeOne(value, text, forbidden);
    assert !Occurs(Ascii(text), Ascii(value));
    RedactedIsClean(Ascii(text), forbidden);
  }

  /** The end of the read cuts the value at offset 11. Its first byte is cut out with the byte before it,
      and the four bytes after that are written. */
  lemma CutMiddleIsWritten(file: string, forbidden: seq<Bytes>)
    requires file == "SECRETSECRXSECRET" && forbidden == [Ascii("SECRET"), Ascii("XS")]
    ensures [] !in forbidden && OccursAt(Ascii(file), Ascii("SECRET"), 11)
    ensures Survivors(Read(Ascii(file), forbidden, 10), forbidden) == [6, 7, 8, 9, 12, 13, 14, 15]
    ensures Sanitized(Ascii(file), forbidden, 10, Ascii(MARKER)) == Ascii("SECRECRE\n[")
  {
    var secret, xs, between, text := "SECRET", "XS", "SECRXSECRE", "SECRECRE";
    OccursAscii(file, secret, 11);
    assert secret + between + "T" == file && file[..16] == secret + between;
    ReadOfTwo(file, secret, xs, forbidden);
    SurvivorsOfTwo(secret, xs, between, text, forbidden);
    CleanOfTwo(secret, xs, text, forbidden);
    WrittenAscii(file, secret + between, text, forbidden, 10);
  }

  lemma CleanOfTwo(secret: string, xs: string, text: string, forbidden: seq<Bytes>)
    requires secret == "SECRET" && xs == "XS" && forbidden == [Ascii(secret), Ascii(xs)] && text == "SECRECRE"
    ensures IsClean(Ascii(text + MARKER), forbidden) && (text + MARKER)[..10] == "SECRECRE\n["
  {
    Absent(text + MARKER, secret, 5);
    Absent(text + MARKER, xs, 0);
    assert (text + MARKER)[..10] == text + MARKER[..2] && MARKER[..2] == "\n[";
  }

  lemma ReadOfTwo(file: string, secret: string, xs: string, forbidden: seq<Bytes>)
    requires |file| == 17 && |secret| == 6 && |xs| == 2 && forbidden == [Ascii(secret), Ascii(xs)]
    ensures Longest(forbidden) == 6 && Read(Ascii(file), forbidden, 10) == Ascii(file[..16])
  {
    assert forbidden[..1] == [Ascii(secret)] && Longest(forbidden[..1]) == 6;
  }

  lemma SurvivorsOfTwo(secret: string, xs: string, between: string, text: string, forbidden: seq<Bytes>)
    requires secret == "SECRET" && xs == "XS" && forbidden == [Ascii(secret), Ascii(xs)] && [] !in forbidden
    requires between == "SECRXSECRE" && text == "SECRECRE"
    ensures Redacted(Ascii(secret + between), forbidden) == Ascii(text)
    ensures Survivors(Ascii(secret + between), forbidden) == [6, 7, 8, 9, 12, 13, 14, 15]
  {
    FirstOfTwo(secret, xs, secret + between, between, forbidden);
    SecondOfTwo(secret, xs, between, text, forbidden);
    NeitherOfTwo(secret, xs, text, forbidden);
    ShiftedTwice(Survivors(Ascii(text), forbidden));
  }

  lemma FirstOfTwo(secret: string, xs: string, read: string, between: string, forbidden: seq<Bytes>)
    requires secret != "" && xs != "" && forbidden == [Ascii(secret), Ascii(xs)] && [] !in forbidden
    requires read == secret + between && read[0] != xs[0]
    ensures Redacted(Ascii(read), forbidden) == Redacted(Ascii(between), forbidden)
    ensures Survivors(Ascii(read), forbidden) == Shifted(Survivors(Ascii(between), forbidden), 0, |secret|)
  {
    NotBefore(read, xs, 1);
    assert "" + secret + between == read && "" + between == between;
    CutAscii("", secret, between, forbidden);
  }

  lemma SecondOfTwo(secret: string, xs: string, between: string, text: string, forbidden: seq<Bytes>)
    requires secret == "SECRET" && xs == "XS" && forbidden == [Ascii(secret), Ascii(xs)] && [] !in forbidden
    requires between == "SECRXSECRE" && text == "SECRECRE"
    ensures Redacted(Ascii(between), forbidden) == Redacted(Ascii(text), forbidden)
    ensures Survivors(Ascii(between), forbidden) == Shifted(Survivors(Ascii(text), forbidden), 4, 2)
  {
    NotBefore(between, xs, 4);
    Absent(between, secret, 5);
    var front, back := between[..4], between[6..];
    assert front + xs + back == between && front + back == text;
    CutAscii(front, xs, back, forbidden);
  }

  lemma NeitherOfTwo(secret: string, xs: string, text: string, forbidden: seq<Bytes>)
    requires secret == "SECRET" && xs == "XS" && forbidden == [Ascii(secret), Ascii(xs)] && [] !in forbidden
    requires 'T' !in text && 'X' !in text
    ensures Redacted(Ascii(text), forbidden) == Ascii(text)
    ensures Survivors(Ascii(text), forbidden) == seq(|text|, k requires 0 <= k < |text| => k)
  {
    Absent(text, secret, 5);
    Absent(text, xs, 0);
    BestIsMatch(Ascii(text), forbidden);
  }

  lemma ShiftedTwice(offsets: seq<nat>)
    requires |offsets| == 8 && forall k :: 0 <= k < 8 ==> offsets[k] == k
    ensures Shifted(Shifted(offsets, 4, 2), 0, 6) == [6, 7, 8, 9, 12, 13, 14, 15]
  {}

  /** So nothing beyond the limit is written when nothing is cut out of the read. */
  lemma NothingCutNothingPulled(content: Bytes, forbidden: seq<Bytes>, limit: nat, marker: Bytes)
    requires [] !in forbidden && IsClean(Read(content, forbidden, limit), forbidden)
    ensures
      var survivors := Survivors(Read(content, forbidden, limit), forbidden);
      var count := WrittenCount(content, forbidden, limit, marker);
      count <= |survivors| && forall k :: 0 <= k < count ==> survivors[k] < limit
  {
    BestIsMatch(Read(content, forbidden, limit), forbidden);
    OutputIsSurvivors(content, forbidden, limit, marker);
  }

  function Size(copy: Option<Bytes>): nat { if copy.Some? then |copy.value| else 0 }

  function Sizes(written: seq<Option<Bytes>>): nat {
    if written == [] then 0 else Sizes(written[..|written| - 1]) + Size(written[|written| - 1])
  }

  function CopyOf(source: Option<Bytes>, forbidden: seq<Bytes>, limit: int, marker: Bytes): Option<Bytes>
    requires [] !in forbidden
  {
    if source.None? then None else Some(Sanitized(source.value, forbidden, limit, marker))
  }

  function Least(a: int, b: int): int { if a < b then a else b }

  /** What is written for one file, given how many bytes may be. */
  type Copier = (Option<Bytes>, int) -> Option<Bytes>

  function Sanitizer(forbidden: seq<Bytes>, marker: Bytes): Copier
    requires [] !in forbidden
  {
    (source: Option<Bytes>, limit: int) => CopyOf(source, forbidden, limit, marker)
  }

  /** What is written for the first n files, in their order, until no bytes remain; None stands for a
      file that is missing or a link. */
  function Copies(sources: seq<Option<Bytes>>, n: nat, copier: Copier, maxFile: int, maxTotal: int)
    : (copies: seq<Option<Bytes>>)
    requires n <= |sources|
    ensures |copies| <= n
  {
    if n == 0 then []
    else
      var before := Copies(sources, n - 1, copier, maxFile, maxTotal);
      if |before| < n - 1 || Sizes(before) == maxTotal then before
      else before + [copier(sources[n - 1], Least(maxFile, maxTotal - Sizes(before)))]
  }

  lemma {:induction false} StoppedForGood(sources: seq<Option<Bytes>>, n: nat, m: nat, copier: Copier, maxFile: int,
                                          maxTotal: int)
    requires n <= m <= |sources| && Sizes(Copies(sources, n, copier, maxFile, maxTotal)) == maxTotal
    ensures Copies(sources, m, copier, maxFile, maxTotal) == Copies(sources, n, copier, maxFile, maxTotal)
  {
    if n < m {
      StoppedForGood(sources, n, m - 1, copier, maxFile, maxTotal);
    }
  }

  lemma SizesAppend(copies: seq<Option<Bytes>>, copy: Option<Bytes>)
    ensures Sizes(copies + [copy]) == Sizes(copies) + Size(copy)
  {
    assert (copies + [copy])[..|copies|] == copies;
  }

  predicate IsSafe(copy: Option<Bytes>, forbidden: seq<Bytes>) { copy.Some? ==> IsClean(copy.value, forbidden) }

  /** A copier writes safe bytes, no more than it may, and only for files that are there. */
  ghost predicate IsSafeCopier(copier: Copier, safe: Option<Bytes> -> bool) {
    forall source, limit :: limit >= 0 ==>
      safe(copier(source, limit)) && Size(copier(source, limit)) <= limit
        && (copier(source, limit).Some? <==> source.Some?)
  }

  lemma SanitizerIsSafe(forbidden: seq<Bytes>, marker: Bytes)
    requires [] !in forbidden
    ensures IsSafeCopier(Sanitizer(forbidden, marker), copy => IsSafe(copy, forbidden))
  {
    forall source: Option<Bytes>, limit: int | limit >= 0
      ensures IsSafe(CopyOf(source, forbidden, limit, marker), forbidden)
      ensures Size(CopyOf(source, forbidden, limit, marker)) <= limit
    {
      if source.Some? {
        SanitizedIsClean(source.value, forbidden, limit, marker);
      }
    }
  }

  /** Each copy is safe, no longer than a file may be, and stands for a file; together they keep to the
      total, and files are dropped from the end only, once the total is used up. */
  predicate AreSafe(copies: seq<Option<Bytes>>, sources: seq<Option<Bytes>>, n: nat, safe: Option<Bytes> -> bool,
                    maxFile: int, maxTotal: int)
    requires n <= |sources|
  {
    && |copies| <= n && Sizes(copies) <= maxTotal && (|copies| < n ==> Sizes(copies) == maxTotal)
    && forall k :: 0 <= k < |copies| ==>
      safe(copies[k]) && Size(copies[k]) <= maxFile && (copies[k].Some? <==> sources[k].Some?)
  }

  lemma AnotherIsSafe(copies: seq<Option<Bytes>>, sources: seq<Option<Bytes>>, copy: Option<Bytes>,
                      safe: Option<Bytes> -> bool, maxFile: int, maxTotal: int)
    requires |copies| < |sources| && AreSafe(copies, sources, |copies|, safe, maxFile, maxTotal)
    requires safe(copy) && Size(copy) <= Least(maxFile, maxTotal - Sizes(copies))
    requires copy.Some? <==> sources[|copies|].Some?
    ensures AreSafe(copies + [copy], sources, |copies| + 1, safe, maxFile, maxTotal)
  {
    SizesAppend(copies, copy);
  }

  lemma {:induction false} SafeCopiesAreSafe(sources: seq<Option<Bytes>>, n: nat, copier: Copier,
                                             safe: Option<Bytes> -> bool, maxFile: int, maxTotal: int)
    requires n <= |sources| && IsSafeCopier(copier, safe) && maxFile > 0 && maxTotal > 0
    ensures AreSafe(Copies(sources, n, copier, maxFile, maxTotal), sources, n, safe, maxFile, maxTotal)
  {
    if n > 0 {
      SafeCopiesAreSafe(sources, n - 1, copier, safe, maxFile, maxTotal);
      var before := Copies(sources, n - 1, copier, maxFile, maxTotal);
      if |before| == n - 1 && Sizes(before) < maxTotal {
        var copy := copier(sources[n - 1], Least(maxFile, maxTotal - Sizes(before)));
        AnotherIsSafe(before, sources, copy, safe, maxFile, maxTotal);
      }
    }
  }

  /** No written file holds a forbidden value or exceeds its limit, and together they keep to the
      total; files are dropped from the end only, and only once the total is used up. */
  lemma CopiesAreSafe(sources: seq<Option<Bytes>>, forbidden: seq<Bytes>, maxFile: int, maxTotal: int, marker: Bytes)
    requires [] !in forbidden && maxFile > 0 && maxTotal > 0
    ensures AreSafe(Copies(sources, |sources|, Sanitizer(forbidden, marker), maxFile, maxTotal), sources, |sources|,
                    copy => IsSafe(copy, forbidden), maxFile, maxTotal)
  {
    SanitizerIsSafe(forbidden, marker);
    SafeCopiesAreSafe(sources, |sources|, Sanitizer(forbidden, marker), copy => IsSafe(copy, forbidden), maxFile,
                      maxTotal);
  }

  predicate AreAccepted(entries: seq<Entry>) { entries != [] && forall k :: 0 <= k < |entries| ==> IsEntry(entries[k]) }

  function ValuesOf(entries: seq<Entry>): seq<Bytes> {
    seq(|entries|, k requires 0 <= k < |entries| => entries[k].value)
  }

  datatype Outcome = Refused | Written(files: seq<Option<Bytes>>)

  /** main: check the limits and the forbidden values, then copy. */
  method Sanitize(entries: seq<Entry>, sources: seq<Option<Bytes>>, maxFile: int, maxTotal: int, marker: Bytes)
    returns (outcome: Outcome)
    ensures outcome.Written? <==> maxFile > 0 && maxTotal > 0 && AreAccepted(entries)
    ensures outcome.Written? ==> [] !in ValuesOf(entries)
    ensures outcome.Written? ==>
      outcome.files == Copies(sources, |sources|, Sanitizer(ValuesOf(entries), marker), maxFile, maxTotal)
  {
    if maxFile < 1 || maxTotal < 1 {
      return Refused;
    }
    var forbidden: seq<Bytes> := [];
    for index := 0 to |entries|
      invariant forall k :: 0 <= k < index ==> IsEntry(entries[k])
      invariant |forbidden| == index && forall k :: 0 <= k < index ==> forbidden[k] == entries[k].value
    {
      if !IsEntry(entries[index]) {
        return Refused;
      }
      forbidden := forbidden + [entries[index].value];
    }
    if |forbidden| == 0 {
      return Refused;
    }
    assert forbidden == ValuesOf(entries);
    var files := CopyFiles(sources, forbidden, maxFile, maxTotal, marker);
    return Written(files);
  }

  /** The copying loop of main. */
  method CopyFiles(sources: seq<Option<Bytes>>, forbidden: seq<Bytes>, maxFile: int, maxTotal: int, marker: Bytes)
    returns (files: seq<Option<Bytes>>)
    requires [] !in forbidden
    ensures files == Copies(sources, |sources|, Sanitizer(forbidden, marker), maxFile, maxTotal)
  {
    ghost var copier := Sanitizer(forbidden, marker);
    files := [];
    var remaining := maxTotal;
    for index := 0 to |sources|
      invariant |files| == index && files == Copies(sources, index, copier, maxFile, maxTotal)
      invariant remaining == maxTotal - Sizes(files)
    {
      if remaining == 0 {
        StoppedForGood(sources, index, |sources|, copier, maxFile, maxTotal);
        return;
      }
      var copy := CopyFile(sources[index], forbidden, Least(maxFile, remaining), marker);
      NextCopy(sources, copier, maxFile, maxTotal, files, copy);
      files := files + [copy];
      remaining := remaining - Size(copy);
    }
  }

  lemma NextCopy(sources: seq<Option<Bytes>>, copier: Copier, maxFile: int, maxTotal: int, files: seq<Option<Bytes>>,
                 copy: Option<Bytes>)
    requires |files| < |sources| && files == Copies(sources, |files|, copier, maxFile, maxTotal)
      && Sizes(files) != maxTotal
    requires copy == copier(sources[|files|], Least(maxFile, maxTotal - Sizes(files)))
    ensures files + [copy] == Copies(sources, |files| + 1, copier, maxFile, maxTotal)
    ensures Sizes(files + [copy]) == Sizes(files) + Size(copy)
  {
    SizesAppend(files, copy);
  }

  method CopyFile(source: Option<Bytes>, forbidden: seq<Bytes>, limit: int, marker: Bytes) returns (copy: Option<Bytes>)
    requires [] !in forbidden
    ensures copy == Sanitizer(forbidden, marker)(source, limit)
  {
    if source.None? {
      return None;
    }
    var content := Take(source.value, limit + Longest(forbidden));
    var truncated := |content| > limit;
    content := RedactAll(content, forbidden);
    if truncated {
      content := RedactAll(content + marker, forbidden);
    }
    return Some(Take(content, limit));
  }
}
