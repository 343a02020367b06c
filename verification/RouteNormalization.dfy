/** Route labels: every path is rewritten to words of a fixed vocabulary. The rewriting is one pass
    over the segments in place, each step reading the segment before it already rewritten. */
module RouteNormalization {
  import opened Text

  /** The words a label may contain. */
  datatype Vocabulary = Vocabulary(
    collections: set<string>, statics: set<string>, versions: set<string>, actions: set<string>,
    id: string, version: string, unmatched: string, admin: string)

  const MAX_LENGTH := 256

  const PLACES: set<string> := {"projects", "locations", "zones", "regions", "instances", "networks", "subnetworks"}

  const WORKLOADS: set<string> := {
    "functions", "services", "jobs", "versions", "operations", "queues", "tasks", "clusters", "builds"}

  const STORES: set<string> := {"buckets", "topics", "subscriptions", "datasets", "tables", "secrets"}

  const KEYS: set<string> := {"keyRings", "cryptoKeys", "repositories", "packages"}

  const ROOTS: set<string> := {
    "storage", "upload", "bigquery", "compute", "dns", "b", "o", "global", "internal"}

  const FIXTURES: set<string> := {"models", "entries", "serviceAccounts", "managedZones", "healthChecks"}

  const PROXIES: set<string> := {"urlMaps", "targetHttpProxies", "forwardingRules", "backendServices"}

  const VERSIONS: set<string> := {"v1", "v2", "v3", "v4", "v1alpha1", "v1beta1", "v1p1beta1", "v2beta1"}

  const ACTIONS: set<string> := {"publish", "run", "cancel", "getIamPolicy", "setIamPolicy", "testIamPermissions"}

  function Standard(): Vocabulary {
    Vocabulary(PLACES + WORKLOADS + STORES + KEYS, ROOTS + FIXTURES + PROXIES, VERSIONS, ACTIONS,
               "{id}", "{version}", "{unmatched}", "_minisky")
  }

  /** The characters of the vocabulary, and some more: one byte each, no slash, colon or space. */
  predicate IsPlain(c: char) { '0' <= c <= '}' && c != ':' }

  predicate IsToken(word: string) { word != "" && forall i :: 0 <= i < |word| ==> IsPlain(word[i]) }

  /** The fixed words of the vocabulary, whose meaning does not depend on where they stand. */
  predicate IsName(v: Vocabulary, word: string) { word in v.collections || word in v.statics || word in v.versions }

  predicate IsWord(word: string) { IsToken(word) && 'a' <= word[0] <= 'z' }

  predicate IsPlaceholder(word: string) { IsToken(word) && word[0] == '{' && |word| < MAX_LENGTH }

  predicate AreWords(words: set<string>) { forall word :: word in words ==> IsWord(word) }

  /** All that the results below need to know of the vocabulary. */
  predicate IsVocabulary(v: Vocabulary) {
    && AreWords(v.collections) && AreWords(v.statics) && AreWords(v.versions) && AreWords(v.actions)
    && IsPlaceholder(v.id) && IsPlaceholder(v.version) && IsPlaceholder(v.unmatched)
    && v.id != v.version && v.id != v.unmatched && v.version != v.unmatched && |v.id| <= |v.version|
    && IsToken(v.admin) && v.admin[0] == '_'
  }

  lemma PlacesAreWords()
    ensures AreWords(PLACES)
  {}

  lemma WorkloadsAreWords()
    ensures AreWords(WORKLOADS)
  {}

  lemma StoresAreWords()
    ensures AreWords(STORES)
  {}

  lemma KeysAreWords()
    ensures AreWords(KEYS)
  {}

  lemma RootsAreWords()
    ensures AreWords(ROOTS)
  {}

  lemma FixturesAreWords()
    ensures AreWords(FIXTURES)
  {}

  lemma ProxiesAreWords()
    ensures AreWords(PROXIES)
  {}

  lemma VersionsAreWords()
    ensures AreWords(VERSIONS)
  {}

  lemma ActionsAreWords()
    ensures AreWords(ACTIONS)
  {}

  lemma PlaceholdersArePlaceholders()
    ensures IsPlaceholder("{id}") && IsPlaceholder("{version}") && IsPlaceholder("{unmatched}")
    ensures IsToken("_minisky") && "{id}" != "{version}" && "{id}" != "{unmatched}" && "{version}" != "{unmatched}"
  {
    assert |"{id}"| != |"{version}"| && |"{id}"| != |"{unmatched}"| && |"{version}"| != |"{unmatched}"|;
  }

  lemma BuildVocabulary(a: set<string>, b: set<string>, c: set<string>, d: set<string>, e: set<string>, f: set<string>,
                        g: set<string>, v: Vocabulary)
    requires AreWords(a) && AreWords(b) && AreWords(c) && AreWords(d) && AreWords(e) && AreWords(f) && AreWords(g)
    requires AreWords(v.versions) && AreWords(v.actions)
    requires v.collections == a + b + c + d && v.statics == e + f + g
    requires IsPlaceholder(v.id) && IsPlaceholder(v.version) && IsPlaceholder(v.unmatched)
    requires v.id != v.version && v.id != v.unmatched && v.version != v.unmatched && |v.id| <= |v.version|
    requires IsToken(v.admin) && v.admin[0] == '_'
    ensures IsVocabulary(v)
  {}

  /** The standard vocabulary is one that all the results below apply to. */
  lemma StandardIsVocabulary()
    ensures IsVocabulary(Standard())
  {
    PlacesAreWords();
    WorkloadsAreWords();
    StoresAreWords();
    KeysAreWords();
    RootsAreWords();
    FixturesAreWords();
    ProxiesAreWords();
    VersionsAreWords();
    ActionsAreWords();
    PlaceholdersArePlaceholders();
    BuildVocabulary(PLACES, WORKLOADS, STORES, KEYS, ROOTS, FIXTURES, PROXIES, Standard());
  }

  // ---------------------------------------------------------------------------------------------
  // One segment
  // ---------------------------------------------------------------------------------------------

  datatype Cut = Cut(base: string, action: string, found: bool)

  /** strings.Cut(segment, ":"). */
  function CutAtColon(segment: string): Cut {
    if segment == "" then Cut("", "", false)
    else if segment[0] == ':' then Cut("", segment[1..], true)
    else
      var rest := CutAtColon(segment[1..]);
      rest.(base := [segment[0]] + rest.base)
  }

  /** isAPIVersion. */
  predicate IsApiVersion(value: string) {
    |value| >= 2 && value[0] == 'v' && forall i :: 1 <= i < |value| ==> '0' <= value[i] <= '9'
  }

  function WithAction(v: Vocabulary, base: string, cut: Cut): string {
    if cut.found && cut.action in v.actions then base + ":" + cut.action else base
  }

  /** normalizeActionSegment. */
  function ActionSegment(v: Vocabulary, segment: string): string { WithAction(v, v.id, CutAtColon(segment)) }

  /** strings.TrimSuffix(text, ":"). */
  function TrimColon(text: string): string {
    if text != "" && text[|text| - 1] == ':' then text[..|text| - 1] else text
  }

  predicate FollowsCollection(v: Vocabulary, before: seq<string>) {
    before != [] && TrimColon(before[|before| - 1]) in v.collections
  }

  /** What a segment becomes after the segments already rewritten. */
  function Rewritten(v: Vocabulary, before: seq<string>, segment: string): string {
    if FollowsCollection(v, before) then ActionSegment(v, segment)
    else
      var cut := CutAtColon(segment);
      if cut.base in v.versions then WithAction(v, cut.base, cut)
      else if IsApiVersion(cut.base) then WithAction(v, v.version, cut)
      else if cut.base in v.collections || cut.base in v.statics then WithAction(v, cut.base, cut)
      else if segment != "" then v.id
      else segment
  }

  function Pass(v: Vocabulary, parts: seq<string>): (rewritten: seq<string>)
    ensures |rewritten| == |parts|
  {
    if parts == [] then []
    else
      var before := Pass(v, parts[..|parts| - 1]);
      before + [Rewritten(v, before, parts[|parts| - 1])]
  }

  lemma PassStep(v: Vocabulary, parts: seq<string>, i: nat)
    requires i < |parts|
    ensures Pass(v, parts[..i + 1]) == Pass(v, parts[..i]) + [Rewritten(v, Pass(v, parts[..i]), parts[i])]
  {
    assert parts[..i + 1][..i] == parts[..i];
  }

  // ---------------------------------------------------------------------------------------------
  // The whole path
  // ---------------------------------------------------------------------------------------------

  const IS_SLASH: char -> bool := c => c == '/'

  /** The segments that are rewritten; administrative paths lose their first two. */
  function Segments(v: Vocabulary, path: string): seq<string> {
    var parts := Split(Trim(path, IS_SLASH));
    if |parts| >= 2 && parts[0] == v.admin then parts[2..] else parts
  }

  /** The label of rewritten segments, unless it is too long. */
  function Label(v: Vocabulary, rewritten: seq<string>): string {
    var route := "/" + Join(rewritten);
    if |route| > MAX_LENGTH then "/" + v.unmatched else route
  }

  function Route(v: Vocabulary, path: string): string {
    var trimmed := Trim(path, IsSpace);
    if trimmed == "" || Segments(v, trimmed) == [] then "/" else Label(v, Pass(v, Segments(v, trimmed)))
  }

  /** NormalizeRoute. */
  method NormalizeRoute(v: Vocabulary, path: string) returns (route: string)
    ensures route == Route(v, path)
  {
    var trimmed := Trim(path, IsSpace);
    if trimmed == "" {
      return "/";
    }
    var split := Split(Trim(trimmed, IS_SLASH));
    if |split| >= 2 && split[0] == v.admin {
      split := split[2..];
    }
    if |split| == 0 {
      return "/";
    }
    route := NormalizeSegments(v, split);
  }

  method NormalizeSegments(v: Vocabulary, segments: seq<string>) returns (route: string)
    ensures route == Label(v, Pass(v, segments))
  {
    var parts := new string[|segments|](i requires 0 <= i < |segments| => segments[i]);
    assert parts[..] == segments;
    RewriteInPlace(v, parts);
    route := "/" + Join(parts[..]);
    if |route| > MAX_LENGTH {
      route := "/" + v.unmatched;
    }
  }

  /** The body of the loop of NormalizeRoute, up to the assignment. */
  method RewriteOne(v: Vocabulary, parts: array<string>, i: nat) returns (rewritten: string)
    requires i < parts.Length
    ensures rewritten == Rewritten(v, parts[..i], parts[i])
  {
    var segment := parts[i];
    if i > 0 {
      var previous := TrimColon(parts[i - 1]);
      if previous in v.collections {
        return ActionSegment(v, segment);
      }
    }
    var cut := CutAtColon(segment);
    if cut.base in v.versions || IsApiVersion(cut.base) {
      var base := if cut.base in v.versions then cut.base else v.version;
      return WithAction(v, base, cut);
    }
    if cut.base in v.collections {
      return WithAction(v, cut.base, cut);
    }
    if cut.base in v.statics {
      return WithAction(v, cut.base, cut);
    }
    return if segment != "" then v.id else segment;
  }

  /** The loop of NormalizeRoute: each segment is replaced where it stands. */
  method RewriteInPlace(v: Vocabulary, parts: array<string>)
    modifies parts
    ensures parts[..] == Pass(v, old(parts[..]))
  {
    ghost var original := parts[..];
    for i := 0 to parts.Length
      invariant parts[..i] == Pass(v, original[..i])
      invariant parts[i..] == original[i..]
    {
      var rewritten := RewriteOne(v, parts, i);
      PassStep(v, original, i);
      ghost var before := parts[..i];
      parts[i] := rewritten;
      assert parts[..i + 1] == before + [rewritten];
    }
    assert parts[..] == parts[..parts.Length] && original == original[..parts.Length];
  }

  // ---------------------------------------------------------------------------------------------
  // What the pass produces
  // ---------------------------------------------------------------------------------------------

  lemma {:induction false} CutOfToken(base: string, action: string)
    requires forall i :: 0 <= i < |base| ==> base[i] != ':'
    ensures CutAtColon(base) == Cut(base, "", false)
    ensures CutAtColon(base + ":" + action) == Cut(base, action, true)
  {
    if base != "" {
      CutOfToken(base[1..], action);
      assert (base + ":" + action)[1..] == base[1..] + ":" + action;
      assert [base[0]] + base[1..] == base;
    } else {
      assert (base + ":" + action)[1..] == action;
    }
  }

  lemma {:induction false} CutIsWhole(segment: string)
    ensures
      var cut := CutAtColon(segment);
      segment == if cut.found then cut.base + ":" + cut.action else cut.base
  {
    if segment != "" && segment[0] != ':' {
      CutIsWhole(segment[1..]);
      assert segment == [segment[0]] + segment[1..];
    }
  }

  /** A name the pass leaves alone. */
  predicate IsKept(v: Vocabulary, base: string) {
    base in v.versions || (!IsApiVersion(base) && (base in v.collections || base in v.statics))
  }

  predicate IsBase(v: Vocabulary, base: string) { IsKept(v, base) || base == v.version || base == v.id }

  /** A segment of the vocabulary: empty, or a base with at most a known action. */
  predicate IsSegment(v: Vocabulary, segment: string) {
    var cut := CutAtColon(segment);
    segment == "" || (IsBase(v, cut.base) && (cut.found ==> cut.action in v.actions))
  }

  lemma BaseIsToken(v: Vocabulary, base: string)
    requires IsVocabulary(v) && IsBase(v, base)
    ensures IsToken(base) && (base[0] == '{' || 'a' <= base[0] <= 'z')
  {}

  /** Segments are made of plain characters, with one colon at most, which does not come last. */
  lemma SegmentText(v: Vocabulary, segment: string)
    requires IsVocabulary(v) && IsSegment(v, segment) && segment != ""
    ensures IsPlain(segment[|segment| - 1]) && IsPlain(segment[0]) && segment[0] != '_'
    ensures forall i :: 0 <= i < |segment| ==> IsPlain(segment[i]) || segment[i] == ':'
  {
    var cut := CutAtColon(segment);
    CutIsWhole(segment);
    BaseIsToken(v, cut.base);
    assert segment[0] == cut.base[0];
    if cut.found {
      assert IsWord(cut.action);
      assert segment[|segment| - 1] == cut.action[|cut.action| - 1];
      assert forall i :: 0 <= i < |cut.action| ==> segment[|cut.base| + 1 + i] == cut.action[i];
    }
  }

  lemma WithActionIsSegment(v: Vocabulary, base: string, cut: Cut)
    requires IsVocabulary(v) && IsBase(v, base)
    ensures IsSegment(v, WithAction(v, base, cut)) && WithAction(v, base, cut) != ""
    ensures CutAtColon(WithAction(v, base, cut)).base == base
  {
    BaseIsToken(v, base);
    CutOfToken(base, cut.action);
  }

  /** How a segment may stand after another: only an id may follow a collection, and only there may
      it keep an action. */
  predicate MayFollow(v: Vocabulary, collection: bool, segment: string) {
    var cut := CutAtColon(segment);
    if collection then segment != "" && cut.base == v.id else cut.base == v.id ==> !cut.found
  }

  predicate AfterCollection(v: Vocabulary, parts: seq<string>, i: nat)
    requires i <= |parts|
  {
    i > 0 && parts[i - 1] in v.collections
  }

  /** What every pass produces. */
  predicate IsShaped(v: Vocabulary, parts: seq<string>) {
    forall i :: 0 <= i < |parts| ==> IsSegment(v, parts[i]) && MayFollow(v, AfterCollection(v, parts, i), parts[i])
  }

  lemma RewrittenMayFollow(v: Vocabulary, before: seq<string>, segment: string)
    requires IsVocabulary(v)
    ensures IsSegment(v, Rewritten(v, before, segment))
    ensures MayFollow(v, FollowsCollection(v, before), Rewritten(v, before, segment))
    ensures segment != "" ==> Rewritten(v, before, segment) != ""
  {
    var cut := CutAtColon(segment);
    if FollowsCollection(v, before) {
      WithActionIsSegment(v, v.id, cut);
    } else if IsKept(v, cut.base) {
      WithActionIsSegment(v, cut.base, cut);
      BaseIsToken(v, cut.base);
      assert IsName(v, cut.base) && cut.base[0] != '{';
    } else if IsApiVersion(cut.base) {
      WithActionIsSegment(v, v.version, cut);
    } else {
      WithActionIsSegment(v, v.id, Cut(v.id, "", false));
      CutOfToken(v.id, "");
    }
  }

  lemma FollowsIsAfter(v: Vocabulary, parts: seq<string>, i: nat)
    requires IsVocabulary(v) && i <= |parts| && forall k :: 0 <= k < i ==> IsSegment(v, parts[k])
    ensures FollowsCollection(v, parts[..i]) == AfterCollection(v, parts, i)
  {
    if i > 0 && parts[i - 1] != "" {
      SegmentText(v, parts[i - 1]);
    }
  }

  lemma {:induction false} PassIsShaped(v: Vocabulary, parts: seq<string>)
    requires IsVocabulary(v)
    ensures IsShaped(v, Pass(v, parts))
    ensures parts != [] && parts[|parts| - 1] != "" ==> Pass(v, parts)[|parts| - 1] != ""
  {
    if parts != [] {
      var last := |parts| - 1;
      PassIsShaped(v, parts[..last]);
      var before := Pass(v, parts[..last]);
      RewrittenMayFollow(v, before, parts[last]);
      FollowsIsAfter(v, before, last);
      assert before[..last] == before;
      var all := Pass(v, parts);
      forall i | 0 <= i < |all| ensures IsSegment(v, all[i]) && MayFollow(v, AfterCollection(v, all, i), all[i]) {
        assert i < last ==> AfterCollection(v, all, i) == AfterCollection(v, before, i);
      }
    }
  }

  // ---------------------------------------------------------------------------------------------
  // Passing again
  // ---------------------------------------------------------------------------------------------

  /** What a second pass makes of a segment: the version placeholder is not itself in the vocabulary. */
  function Settled(v: Vocabulary, segment: string): string {
    if CutAtColon(segment).base == v.version then v.id else segment
  }

  function AllSettled(v: Vocabulary, parts: seq<string>): (settled: seq<string>)
    ensures |settled| == |parts| && forall i :: 0 <= i < |parts| ==> settled[i] == Settled(v, parts[i])
  {
    seq(|parts|, i requires 0 <= i < |parts| => Settled(v, parts[i]))
  }

  lemma PlaceholdersAreNotNames(v: Vocabulary, word: string)
    requires IsVocabulary(v) && IsPlaceholder(word)
    ensures !IsName(v, word) && !IsApiVersion(word) && CutAtColon(word) == Cut(word, "", false)
  {
    CutOfToken(word, "");
    assert IsName(v, word) ==> IsWord(word);
  }

  lemma SettledIsSegment(v: Vocabulary, segment: string)
    requires IsVocabulary(v) && IsSegment(v, segment)
    ensures IsSegment(v, Settled(v, segment)) && (Settled(v, segment) == "" <==> segment == "")
    ensures |Settled(v, segment)| <= |segment| && Settled(v, Settled(v, segment)) == Settled(v, segment)
    ensures Settled(v, segment) in v.collections <==> segment in v.collections
    ensures forall collection :: MayFollow(v, collection, segment) ==> MayFollow(v, collection, Settled(v, segment))
  {
    PlaceholdersAreNotNames(v, v.id);
    PlaceholdersAreNotNames(v, v.version);
    CutIsWhole(segment);
    if CutAtColon(segment).base == v.version {
      assert segment[0] == v.version[0];
      assert segment in v.collections ==> IsWord(segment);
    }
  }

  lemma WholeSegment(v: Vocabulary, segment: string)
    requires IsSegment(v, segment) && segment != ""
    ensures WithAction(v, CutAtColon(segment).base, CutAtColon(segment)) == segment
  {
    CutIsWhole(segment);
  }

  /** One segment of a shaped list passes to its settled form. */
  lemma RewrittenIsSettled(v: Vocabulary, before: seq<string>, segment: string)
    requires IsVocabulary(v) && IsSegment(v, segment) && MayFollow(v, FollowsCollection(v, before), segment)
    ensures Rewritten(v, before, segment) == Settled(v, segment)
  {
    var cut := CutAtColon(segment);
    if segment == "" {
      assert IsName(v, "") ==> IsWord("");
      assert v.version != "";
    } else {
      WholeSegment(v, segment);
      PlaceholdersAreNotNames(v, v.id);
      PlaceholdersAreNotNames(v, v.version);
      assert IsKept(v, cut.base) ==> IsWord(cut.base);
    }
  }

  lemma TrimColonNothing(v: Vocabulary, segment: string)
    requires IsVocabulary(v) && IsSegment(v, segment)
    ensures TrimColon(segment) == segment
  {
    if segment != "" {
      SegmentText(v, segment);
    }
  }

  lemma SettledFollows(v: Vocabulary, parts: seq<string>, i: nat)
    requires IsVocabulary(v) && IsShaped(v, parts) && i <= |parts|
    ensures FollowsCollection(v, AllSettled(v, parts[..i])) == AfterCollection(v, parts, i)
  {
    if i > 0 {
      var settled := AllSettled(v, parts[..i]);
      assert settled[i - 1] == Settled(v, parts[i - 1]) && IsSegment(v, parts[i - 1]);
      SettledIsSegment(v, parts[i - 1]);
      TrimColonNothing(v, settled[i - 1]);
    }
  }

  /** Each segment of a shaped list, after the settled ones before it, passes to its settled form. */
  ghost predicate SettlesAt(v: Vocabulary, parts: seq<string>, i: nat)
    requires i < |parts|
  {
    Rewritten(v, AllSettled(v, parts[..i]), parts[i]) == Settled(v, parts[i])
  }

  lemma ShapedSettlesAt(v: Vocabulary, parts: seq<string>, i: nat)
    requires IsVocabulary(v) && IsShaped(v, parts) && i < |parts|
    ensures SettlesAt(v, parts, i)
  {
    SettledFollows(v, parts, i);
    assert IsSegment(v, parts[i]) && MayFollow(v, AfterCollection(v, parts, i), parts[i]);
    RewrittenIsSettled(v, AllSettled(v, parts[..i]), parts[i]);
  }

  lemma {:induction false} PassSettlesTo(v: Vocabulary, parts: seq<string>, n: nat)
    requires n <= |parts| && forall i: nat :: i < |parts| ==> SettlesAt(v, parts, i)
    ensures Pass(v, parts[..n]) == AllSettled(v, parts[..n])
  {
    if n > 0 {
      PassSettlesTo(v, parts, n - 1);
      PassStep(v, parts, n - 1);
      assert SettlesAt(v, parts, n - 1);
      assert AllSettled(v, parts[..n]) == AllSettled(v, parts[..n - 1]) + [Settled(v, parts[n - 1])];
    }
  }

  lemma PassSettles(v: Vocabulary, parts: seq<string>)
    requires IsVocabulary(v) && IsShaped(v, parts)
    ensures Pass(v, parts) == AllSettled(v, parts)
  {
    forall i: nat | i < |parts| ensures SettlesAt(v, parts, i) {
      ShapedSettlesAt(v, parts, i);
    }
    PassSettlesTo(v, parts, |parts|);
    assert parts[..|parts|] == parts;
  }

  lemma SettledIsShaped(v: Vocabulary, parts: seq<string>)
    requires IsVocabulary(v) && IsShaped(v, parts)
    ensures IsShaped(v, AllSettled(v, parts)) && AllSettled(v, AllSettled(v, parts)) == AllSettled(v, parts)
  {
    var settled := AllSettled(v, parts);
    forall i | 0 <= i < |parts|
      ensures IsSegment(v, settled[i]) && MayFollow(v, AfterCollection(v, settled, i), settled[i])
      ensures Settled(v, settled[i]) == settled[i]
    {
      SettledIsSegment(v, parts[i]);
      if i > 0 {
        assert IsSegment(v, parts[i - 1]);
        SettledIsSegment(v, parts[i - 1]);
      }
    }
  }

  // ---------------------------------------------------------------------------------------------
  // Reading a label back
  // ---------------------------------------------------------------------------------------------

  function DropEmpties(parts: seq<string>): (kept: seq<string>)
    ensures |kept| <= |parts| && (parts != [] ==> kept != [] && kept[|kept| - 1] == parts[|parts| - 1])
    ensures |kept| > 1 ==> kept[0] != ""
    ensures kept == parts <==> |parts| <= 1 || parts[0] != ""
  {
    if |parts| > 1 && parts[0] == "" then DropEmpties(parts[1..]) else parts
  }

  /** A list of segments a pass can end with: its last segment is not empty, unless it is the only one. */
  predicate IsLabel(v: Vocabulary, parts: seq<string>) {
    parts != [] && IsShaped(v, parts) && (|parts| > 1 ==> parts[|parts| - 1] != "")
  }

  lemma {:induction false} DropKeepsLabel(v: Vocabulary, parts: seq<string>)
    requires IsVocabulary(v) && IsLabel(v, parts)
    ensures IsLabel(v, DropEmpties(parts))
    decreases |parts|
  {
    if |parts| > 1 && parts[0] == "" {
      RestIsLabel(v, parts);
      DropKeepsLabel(v, parts[1..]);
    }
  }

  /** A joined label ends in a plain character. */
  lemma {:induction false} JoinEnd(v: Vocabulary, parts: seq<string>)
    requires IsVocabulary(v) && IsLabel(v, parts)
    ensures Join(parts) != "" <==> parts != [""]
    ensures Join(parts) != "" ==> IsPlain(Join(parts)[|Join(parts)| - 1])
    ensures Join(parts) != "" && parts[0] != "" ==> IsPlain(Join(parts)[0])
  {
    if |parts| == 1 {
      if parts[0] != "" { SegmentText(v, parts[0]); }
    } else {
      var last := |parts| - 1;
      assert parts == parts[..last] + [parts[last]];
      JoinAppend(parts[..last], [parts[last]]);
      SegmentText(v, parts[last]);
      if parts[0] != "" {
        SegmentText(v, parts[0]);
        assert Join(parts)[0] == parts[0][0];
      }
    }
  }

  lemma TrimNothing(text: string, drop: char -> bool)
    requires text != "" ==> !drop(text[0]) && !drop(text[|text| - 1])
    ensures Trim(text, drop) == text
  {}

  /** One slash more in front is trimmed as well. */
  lemma TrimOneSlash(text: string)
    ensures Trim("/" + text, IS_SLASH) == Trim(text, IS_SLASH)
  {
    assert ("/" + text)[1..] == text;
  }

  /** An empty segment in front may be left out. */
  lemma RestIsLabel(v: Vocabulary, parts: seq<string>)
    requires IsVocabulary(v) && IsLabel(v, parts) && |parts| > 1 && parts[0] == ""
    ensures IsLabel(v, parts[1..]) && Join(parts) == "/" + Join(parts[1..])
  {
    var rest := parts[1..];
    assert "" in v.collections ==> IsWord("");
    assert forall i :: 0 <= i < |rest| ==> AfterCollection(v, rest, i) == AfterCollection(v, parts, i + 1);
  }

  lemma {:induction false} TrimSlashes(v: Vocabulary, parts: seq<string>)
    requires IsVocabulary(v) && IsLabel(v, parts)
    ensures Trim("/" + Join(parts), IS_SLASH) == Join(DropEmpties(parts))
    decreases |parts|
  {
    TrimOneSlash(Join(parts));
    if |parts| > 1 && parts[0] == "" {
      RestIsLabel(v, parts);
      TrimSlashes(v, parts[1..]);
    } else {
      JoinEnd(v, parts);
      TrimNothing(Join(parts), IS_SLASH);
    }
  }

  lemma LabelsAreSlashFree(v: Vocabulary, parts: seq<string>)
    requires IsVocabulary(v) && IsShaped(v, parts)
    ensures forall part :: part in parts ==> SlashFree(part)
  {
    forall part | part in parts ensures SlashFree(part) {
      if part != "" { SegmentText(v, part); }
    }
  }

  /** Reading a label back gives its segments, without the empty ones at the front. */
  lemma ReadBack(v: Vocabulary, parts: seq<string>)
    requires IsVocabulary(v) && IsLabel(v, parts)
    ensures Trim("/" + Join(parts), IsSpace) == "/" + Join(parts)
    ensures Segments(v, "/" + Join(parts)) == DropEmpties(parts)
  {
    var kept := DropEmpties(parts);
    JoinEnd(v, parts);
    TrimNothing("/" + Join(parts), IsSpace);
    TrimSlashes(v, parts);
    DropKeepsLabel(v, parts);
    LabelsAreSlashFree(v, kept);
    SplitJoin(kept);
    if kept[0] != "" {
      SegmentText(v, kept[0]);
    }
  }

  // ---------------------------------------------------------------------------------------------
  // What normalization promises
  // ---------------------------------------------------------------------------------------------

  function Joined(parts: seq<string>): string { "/" + Join(parts) }

  /** A label is the overlong marker or is made of vocabulary segments; either way it is short. */
  lemma RouteIsLabel(v: Vocabulary, path: string) returns (parts: seq<string>)
    requires IsVocabulary(v)
    ensures |Route(v, path)| <= MAX_LENGTH
    ensures Route(v, path) == "/" + v.unmatched || (IsLabel(v, parts) && Route(v, path) == Joined(parts))
  {
    var trimmed := Trim(path, IsSpace);
    if trimmed == "" || Segments(v, trimmed) == [] {
      parts := [""];
    } else {
      var segments := Segments(v, trimmed);
      parts := Pass(v, segments);
      PassIsShaped(v, segments);
      SegmentsEnd(v, trimmed);
    }
  }

  lemma SegmentsEnd(v: Vocabulary, path: string)
    ensures |Segments(v, path)| > 1 ==> Segments(v, path)[|Segments(v, path)| - 1] != ""
  {
    var text := Trim(path, IS_SLASH);
    TrimRightEnd(TrimLeft(path, IS_SLASH), IS_SLASH);
    if text != "" {
      SplitEnd(text);
    }
  }

  /** Every label has at most 256 characters, all of one byte, and only vocabulary segments. */
  lemma LabelsAreBounded(v: Vocabulary, path: string)
    requires IsVocabulary(v)
    ensures 1 <= |Route(v, path)| <= 256 && Route(v, path)[0] == '/'
    ensures Route(v, path) != "/" + v.unmatched ==>
      forall segment :: segment in Split(Route(v, path)[1..]) ==> IsSegment(v, segment)
  {
    var parts := RouteIsLabel(v, path);
    if Route(v, path) != "/" + v.unmatched {
      assert Route(v, path)[1..] == Join(parts);
      LabelsAreSlashFree(v, parts);
      SplitJoin(parts);
    }
  }

  lemma {:induction false} JoinLength(a: seq<string>, b: seq<string>)
    requires |a| == |b| && forall i :: 0 <= i < |a| ==> |a[i]| <= |b[i]|
    ensures |Join(a)| <= |Join(b)|
  {
    if |a| > 1 { JoinLength(a[1..], b[1..]); }
  }

  lemma {:induction false} DropLength(parts: seq<string>)
    ensures |Join(DropEmpties(parts))| <= |Join(parts)|
  {
    if |parts| > 1 && parts[0] == "" { DropLength(parts[1..]); }
  }

  /** Normalizing a label settles its segments. */
  lemma NormalizeAgain(v: Vocabulary, parts: seq<string>)
    requires IsVocabulary(v) && IsLabel(v, parts) && |Joined(parts)| <= MAX_LENGTH
    ensures Route(v, Joined(parts)) == Joined(AllSettled(v, DropEmpties(parts)))
  {
    var kept := DropEmpties(parts);
    ReadBack(v, parts);
    DropKeepsLabel(v, parts);
    PassSettles(v, kept);
    DropLength(parts);
    forall i | 0 <= i < |kept| ensures |AllSettled(v, kept)[i]| <= |kept[i]| {
      SettledIsSegment(v, kept[i]);
    }
    JoinLength(AllSettled(v, kept), kept);
  }

  lemma SettledIsLabel(v: Vocabulary, parts: seq<string>)
    requires IsVocabulary(v) && IsLabel(v, parts)
    ensures IsLabel(v, AllSettled(v, parts))
    ensures DropEmpties(parts) == parts ==> DropEmpties(AllSettled(v, parts)) == AllSettled(v, parts)
  {
    SettledIsShaped(v, parts);
    SettledIsSegment(v, parts[0]);
    SettledIsSegment(v, parts[|parts| - 1]);
  }

  lemma NormalizeUnmatched(v: Vocabulary)
    requires IsVocabulary(v)
    ensures Route(v, "/" + v.unmatched) == Joined([v.id]) && IsLabel(v, [v.id]) && AllSettled(v, [v.id]) == [v.id]
  {
    PlaceholdersAreNotNames(v, v.unmatched);
    PlaceholdersAreNotNames(v, v.id);
    ReadOneSegment(v, v.unmatched);
    OneSegmentLabel(v, v.unmatched);
    assert Join([v.id]) == v.id;
  }

  /** Normalizing a third time changes nothing, for every path: labels that are recorded after two
      normalizations are fixed points. */
  lemma ThriceIsTwice(v: Vocabulary, path: string)
    requires IsVocabulary(v)
    ensures Route(v, Route(v, Route(v, path))) == Route(v, Route(v, path))
  {
    var parts := RouteIsLabel(v, path);
    if Route(v, path) == "/" + v.unmatched {
      NormalizeUnmatched(v);
      NormalizeAgain(v, [v.id]);
    } else {
      var kept := DropEmpties(parts);
      NormalizeAgain(v, parts);
      DropKeepsLabel(v, parts);
      SettledIsLabel(v, kept);
      SettledIsShaped(v, kept);
      var again := RouteIsLabel(v, Route(v, path));
      NormalizeAgain(v, AllSettled(v, kept));
    }
  }

  /** A label that a second normalization keeps: not the overlong marker, no version placeholder, and
      no empty segment at the front. */
  predicate IsStable(v: Vocabulary, route: string)
    requires route != ""
  {
    var parts := Split(route[1..]);
    && route != "/" + v.unmatched
    && (|parts| > 1 ==> parts[0] != "")
    && forall i :: 0 <= i < |parts| ==> CutAtColon(parts[i]).base != v.version
  }

  /** A second normalization changes nothing exactly when the first result is stable. */
  lemma StableIff(v: Vocabulary, path: string)
    requires IsVocabulary(v)
    ensures Route(v, path) != "" && (Route(v, Route(v, path)) == Route(v, path) <==> IsStable(v, Route(v, path)))
  {
    var parts := RouteIsLabel(v, path);
    if Route(v, path) == "/" + v.unmatched {
      NormalizeUnmatched(v);
      assert Joined([v.id])[1..] == v.id && ("/" + v.unmatched)[1..] == v.unmatched;
    } else {
      var kept := DropEmpties(parts);
      var settled := AllSettled(v, kept);
      NormalizeAgain(v, parts);
      DropKeepsLabel(v, parts);
      SettledIsShaped(v, kept);
      LabelsAreSlashFree(v, parts);
      LabelsAreSlashFree(v, settled);
      SplitJoin(parts);
      SplitJoin(settled);
      assert Joined(parts)[1..] == Join(parts) && Joined(settled)[1..] == Join(settled);
      assert Route(v, Route(v, path)) == Route(v, path) <==> settled == parts;
      SettledIsSameIff(v, parts);
    }
  }

  lemma SettledIsSameIff(v: Vocabulary, parts: seq<string>)
    requires IsVocabulary(v) && IsLabel(v, parts)
    ensures AllSettled(v, DropEmpties(parts)) == parts
      <==> (|parts| > 1 ==> parts[0] != "") && forall i :: 0 <= i < |parts| ==> CutAtColon(parts[i]).base != v.version
  {
    var settled := AllSettled(v, DropEmpties(parts));
    PlaceholdersAreNotNames(v, v.id);
    if settled == parts {
      assert |DropEmpties(parts)| == |parts|;
      DropAll(parts);
      forall i | 0 <= i < |parts| ensures CutAtColon(parts[i]).base != v.version {
        assert settled[i] == Settled(v, parts[i]);
      }
    }
  }

  lemma {:induction false} DropAll(parts: seq<string>)
    requires |DropEmpties(parts)| == |parts|
    ensures DropEmpties(parts) == parts
  {}

  lemma ReadOneSegment(v: Vocabulary, segment: string)
    requires IsVocabulary(v) && segment != "" && SlashFree(segment)
    requires !IsSpace(segment[|segment| - 1])
    ensures Route(v, "/" + segment) == Label(v, Pass(v, [segment]))
  {
    var path := "/" + segment;
    assert path[1..] == segment && path[|path| - 1] == segment[|segment| - 1];
    TrimNothing(path, IsSpace);
    TrimNothing(segment, IS_SLASH);
    SplitPrefix(segment, "");
    assert Segments(v, path) == [segment];
  }

  lemma OneSegmentLabel(v: Vocabulary, segment: string)
    ensures Pass(v, [segment]) == [Rewritten(v, [], segment)]
  {
    assert [segment][..0] == [];
  }

  /** An unknown API version takes two normalizations to settle. */
  lemma UnknownVersionMoves(v: Vocabulary, value: string)
    requires IsVocabulary(v) && IsApiVersion(value) && value !in v.versions
    ensures Route(v, "/" + value) == "/" + v.version && Route(v, "/" + v.version) == "/" + v.id
  {
    ReadOneSegment(v, value);
    CutOfToken(value, "");
    OneSegmentLabel(v, value);
    assert Join([v.version]) == v.version;
    VersionMoves(v);
  }

  lemma VersionMoves(v: Vocabulary)
    requires IsVocabulary(v)
    ensures Route(v, "/" + v.version) == "/" + v.id
  {
    PlaceholdersAreNotNames(v, v.version);
    ReadOneSegment(v, v.version);
    OneSegmentLabel(v, v.version);
    assert Join([v.id]) == v.id;
  }

  // ---------------------------------------------------------------------------------------------
  // The paths on which normalization is idempotent
  // ---------------------------------------------------------------------------------------------

  /** The segment is a bare collection name that is not itself the item of a collection. */
  predicate IsCollection(v: Vocabulary, segments: seq<string>, i: nat)
    requires i < |segments|
    decreases i, 1
  {
    var cut := CutAtColon(segments[i]);
    && !IsItem(v, segments, i)
    && cut.base in v.collections && (cut.base in v.versions || !IsApiVersion(cut.base))
    && !(cut.found && cut.action in v.actions)
  }

  /** The segment follows a collection, so it is an identifier whatever it says. */
  predicate IsItem(v: Vocabulary, segments: seq<string>, i: nat)
    requires i <= |segments|
    decreases i, 0
  {
    i > 0 && IsCollection(v, segments, i - 1)
  }

  predicate IsUnknownVersion(v: Vocabulary, segments: seq<string>, i: nat)
    requires i < |segments|
  {
    var base := CutAtColon(segments[i]).base;
    !IsItem(v, segments, i) && IsApiVersion(base) && base !in v.versions
  }

  /** What a caller can check before normalizing: the segments are none at all, or their label is not too
      long, the first is not empty unless alone, and no unknown API version stands outside a collection. */
  predicate IsIdempotentPath(v: Vocabulary, path: string) {
    var trimmed := Trim(path, IsSpace);
    var segments := Segments(v, trimmed);
    trimmed == "" || segments == []
    || (&& |Joined(Pass(v, segments))| <= MAX_LENGTH
        && (|segments| > 1 ==> segments[0] != "")
        && forall i :: 0 <= i < |segments| ==> !IsUnknownVersion(v, segments, i))
  }

  lemma {:induction false} PassPrefix(v: Vocabulary, segments: seq<string>, i: nat)
    requires i <= |segments|
    ensures Pass(v, segments)[..i] == Pass(v, segments[..i])
    decreases |segments|
  {
    var last := |segments| - 1;
    if i <= last {
      var shorter := segments[..last];
      PassPrefix(v, shorter, i);
      assert shorter[..i] == segments[..i];
      assert Pass(v, segments)[..i] == Pass(v, shorter)[..i];
    } else {
      assert segments[..i] == segments;
    }
  }

  lemma PassAt(v: Vocabulary, segments: seq<string>, i: nat)
    requires i < |segments|
    ensures Pass(v, segments)[..i] == Pass(v, segments[..i])
    ensures Pass(v, segments)[i] == Rewritten(v, Pass(v, segments[..i]), segments[i])
  {
    PassPrefix(v, segments, i);
    PassPrefix(v, segments, i + 1);
    PassStep(v, segments, i);
    assert Pass(v, segments)[i] == Pass(v, segments)[..i + 1][i];
  }

  lemma {:induction false} ItemIff(v: Vocabulary, segments: seq<string>, i: nat)
    requires IsVocabulary(v) && i <= |segments|
    ensures FollowsCollection(v, Pass(v, segments)[..i]) <==> IsItem(v, segments, i)
    decreases i
  {
    if i > 0 {
      ItemIff(v, segments, i - 1);
      PassAt(v, segments, i - 1);
      PassIsShaped(v, segments);
      FollowsIsAfter(v, Pass(v, segments), i);
      RewrittenCollectionIff(v, Pass(v, segments[..i - 1]), segments[i - 1]);
    }
  }

  lemma RewrittenCollectionIff(v: Vocabulary, before: seq<string>, segment: string)
    requires IsVocabulary(v)
    ensures
      var cut := CutAtColon(segment);
      Rewritten(v, before, segment) in v.collections
      <==> (&& !FollowsCollection(v, before) && cut.base in v.collections
            && (cut.base in v.versions || !IsApiVersion(cut.base))
            && !(cut.found && cut.action in v.actions))
  {
    var cut := CutAtColon(segment);
    PlaceholdersAreNotNames(v, v.id);
    PlaceholdersAreNotNames(v, v.version);
    assert "" in v.collections ==> IsWord("");
    if cut.found && cut.action in v.actions {
      forall base ensures WithAction(v, base, cut) !in v.collections {
        assert WithAction(v, base, cut)[|base|] == ':';
      }
    }
  }

  /** The version placeholder comes from the unknown API versions and from nothing else. */
  lemma VersionIff(v: Vocabulary, segments: seq<string>, i: nat)
    requires IsVocabulary(v) && i < |segments|
    ensures CutAtColon(Pass(v, segments)[i]).base == v.version <==> IsUnknownVersion(v, segments, i)
  {
    var before, cut := Pass(v, segments[..i]), CutAtColon(segments[i]);
    PassAt(v, segments, i);
    ItemIff(v, segments, i);
    PlaceholdersAreNotNames(v, v.id);
    PlaceholdersAreNotNames(v, v.version);
    WithActionIsSegment(v, v.id, cut);
    WithActionIsSegment(v, v.version, cut);
    if IsKept(v, cut.base) {
      WithActionIsSegment(v, cut.base, cut);
      assert IsName(v, cut.base);
    }
  }

  lemma FirstIsEmptyIff(v: Vocabulary, segments: seq<string>)
    requires IsVocabulary(v) && segments != []
    ensures Pass(v, segments)[0] == "" <==> segments[0] == ""
  {
    PassAt(v, segments, 0);
    RewrittenMayFollow(v, [], segments[0]);
    assert IsName(v, "") ==> IsWord("");
  }

  /** A label made of vocabulary segments is not the overlong marker. */
  lemma LabelIsNotMarker(v: Vocabulary, parts: seq<string>)
    requires IsVocabulary(v) && IsLabel(v, parts)
    ensures Joined(parts) != "/" + v.unmatched
  {
    LabelsAreSlashFree(v, parts);
    SplitJoin(parts);
    SplitPrefix(v.unmatched, "");
    PlaceholdersAreNotNames(v, v.unmatched);
    assert IsSegment(v, parts[0]) && !IsSegment(v, v.unmatched);
    assert Joined(parts)[1..] == Join(parts) && ("/" + v.unmatched)[1..] == v.unmatched;
  }

  /** Normalization is not idempotent; on these paths, and on no others, a second one changes nothing. */
  lemma IdempotentIff(v: Vocabulary, path: string)
    requires IsVocabulary(v)
    ensures Route(v, Route(v, path)) == Route(v, path) <==> IsIdempotentPath(v, path)
  {
    var trimmed := Trim(path, IsSpace);
    var segments := Segments(v, trimmed);
    StableIff(v, path);
    if trimmed == "" || segments == [] {
      assert Route(v, path)[1..] == "" && IsToken(v.unmatched);
      assert IsToken(v.version);
    } else {
      var parts := Pass(v, segments);
      PassIsShaped(v, segments);
      SegmentsEnd(v, trimmed);
      FirstIsEmptyIff(v, segments);
      forall i | 0 <= i < |segments|
        ensures CutAtColon(parts[i]).base == v.version <==> IsUnknownVersion(v, segments, i)
      {
        VersionIff(v, segments, i);
      }
      LabelIsNotMarker(v, parts);
      LabelsAreSlashFree(v, parts);
      SplitJoin(parts);
      assert Joined(parts)[1..] == Join(parts);
    }
  }
}
