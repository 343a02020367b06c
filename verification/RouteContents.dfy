/** What a route label says of its path, segment by segment. */
module RouteContents {
  import opened Text
  import opened RouteNormalization

  /** The colon that cuts a segment is its first. */
  lemma {:induction false} CutIsFirst(segment: string)
    ensures
      var cut := CutAtColon(segment);
      && segment == (if cut.found then cut.base + ":" + cut.action else cut.base)
      && (forall i :: 0 <= i < |cut.base| ==> cut.base[i] != ':')
  {
    CutIsWhole(segment);
    if segment != "" && segment[0] != ':' {
      CutIsFirst(segment[1..]);
    }
  }

  /** An API version is a "v" and a number. */
  lemma VersionNumberIff(value: string)
    ensures IsApiVersion(value)
       <==> exists digits :: value == "v" + digits && digits != "" && forall c :: c in digits ==> '0' <= c <= '9'
  {
    if IsApiVersion(value) {
      assert value == "v" + value[1..];
    }
    if digits :| value == "v" + digits && digits != "" && forall c :: c in digits ==> '0' <= c <= '9' {
      forall i | 1 <= i < |value| ensures '0' <= value[i] <= '9' {
        assert value[i] == digits[i - 1] && digits[i - 1] in digits;
      }
    }
  }

  /** The action that a segment keeps, with its colon. */
  function Suffix(v: Vocabulary, segment: string): string {
    var cut := CutAtColon(segment);
    if cut.found && cut.action in v.actions then ":" + cut.action else ""
  }

  /** What a segment shows: an item its placeholder, an unknown version its own, each with a known action; a name
      itself, with a known action; and anything else a placeholder, or nothing if it was nothing. */
  function ShownAs(v: Vocabulary, segment: string, item: bool): string {
    var base := CutAtColon(segment).base;
    if item then v.id + Suffix(v, segment)
    else if IsApiVersion(base) && base !in v.versions then v.version + Suffix(v, segment)
    else if IsName(v, base) then base + Suffix(v, segment)
    else if segment == "" then "" else v.id
  }

  function Shown(v: Vocabulary, segments: seq<string>, i: nat): string
    requires i < |segments|
  {
    ShownAs(v, segments[i], IsItem(v, segments, i))
  }

  lemma RewrittenIsShown(v: Vocabulary, before: seq<string>, segment: string)
    ensures Rewritten(v, before, segment) == ShownAs(v, segment, FollowsCollection(v, before))
  {
    var cut := CutAtColon(segment);
    forall base ensures WithAction(v, base, cut) == base + Suffix(v, segment) {}
  }

  lemma SegmentContent(v: Vocabulary, segments: seq<string>, i: nat)
    requires IsVocabulary(v) && i < |segments|
    ensures Pass(v, segments)[i] == Shown(v, segments, i)
  {
    PassAt(v, segments, i);
    ItemIff(v, segments, i);
    RewrittenIsShown(v, Pass(v, segments[..i]), segments[i]);
  }

  /** Two lists of segments that differ in identifiers only. */
  predicate DifferInItems(v: Vocabulary, a: seq<string>, b: seq<string>) {
    |a| == |b| && forall i :: 0 <= i < |a| ==>
      a[i] == b[i] || (IsItem(v, a, i) && Suffix(v, a[i]) == Suffix(v, b[i]))
  }

  lemma {:induction false} SameItems(v: Vocabulary, a: seq<string>, b: seq<string>, i: nat)
    requires DifferInItems(v, a, b) && i <= |a|
    ensures IsItem(v, a, i) == IsItem(v, b, i)
  {
    if i > 0 { SameItems(v, a, b, i - 1); }
  }

  /** Identifiers do not show: such lists have one label. */
  lemma ItemsDoNotShow(v: Vocabulary, a: seq<string>, b: seq<string>)
    requires IsVocabulary(v) && DifferInItems(v, a, b)
    ensures Pass(v, a) == Pass(v, b)
  {
    forall i | 0 <= i < |a| ensures Pass(v, a)[i] == Pass(v, b)[i] {
      SegmentContent(v, a, i);
      SegmentContent(v, b, i);
      SameItems(v, a, b, i);
    }
  }

  /** A path between slashes or not, without space around it, whose first and last segments are not empty. */
  predicate IsPathOf(path: string, parts: seq<string>) {
    && parts != [] && (forall part :: part in parts ==> SlashFree(part))
    && parts[0] != "" && parts[|parts| - 1] != "" && path == "/" + Join(parts) && !IsSpace(path[|path| - 1])
  }

  lemma {:induction false} JoinEnds(parts: seq<string>)
    requires parts != [] && (forall part :: part in parts ==> SlashFree(part))
    requires parts[0] != "" && parts[|parts| - 1] != ""
    ensures Join(parts) != "" && Join(parts)[0] != '/' && Join(parts)[|Join(parts)| - 1] != '/'
    decreases |parts|
  {
    assert parts[0] in parts && parts[0][0] in parts[0];
    if |parts| == 1 {
      assert parts[0][|parts[0]| - 1] in parts[0];
    } else {
      LastIsNotSlash(parts);
    }
  }

  lemma {:induction false} LastIsNotSlash(parts: seq<string>)
    requires parts != [] && (forall part :: part in parts ==> SlashFree(part)) && parts[|parts| - 1] != ""
    ensures Join(parts) != "" && Join(parts)[|Join(parts)| - 1] != '/'
    decreases |parts|
  {
    var last := parts[|parts| - 1];
    assert last in parts && last[|last| - 1] in last;
    if |parts| > 1 { LastIsNotSlash(parts[1..]); }
  }

  lemma SegmentsOfPath(v: Vocabulary, path: string, parts: seq<string>)
    requires IsPathOf(path, parts)
    ensures Trim(path, IsSpace) == path
    ensures Segments(v, path) == if |parts| >= 2 && parts[0] == v.admin then parts[2..] else parts
  {
    JoinEnds(parts);
    SplitJoin(parts);
    TrimNothing(path, IsSpace);
    TrimOneSlash(Join(parts));
  }

  /** The label of such a path: what its segments show, or the marker if that is too long. */
  lemma RouteOfPath(v: Vocabulary, path: string, parts: seq<string>)
    requires IsVocabulary(v) && IsPathOf(path, parts) && parts[0] != v.admin
    ensures
      var shown := seq(|parts|, i requires 0 <= i < |parts| => Shown(v, parts, i));
      Route(v, path) == if |Joined(shown)| > 256 then "/" + v.unmatched else Joined(shown)
  {
    SegmentsOfPath(v, path, parts);
    var shown := seq(|parts|, i requires 0 <= i < |parts| => Shown(v, parts, i));
    forall i | 0 <= i < |parts| ensures Pass(v, parts)[i] == shown[i] {
      SegmentContent(v, parts, i);
    }
    assert Pass(v, parts) == shown;
  }

  /** An administrative path has the label of what follows its first two segments. */
  lemma RouteOfAdministration(v: Vocabulary, path: string, scope: string, rest: seq<string>)
    requires IsVocabulary(v) && IsPathOf(path, [v.admin, scope] + rest)
    ensures rest == [] ==> Route(v, path) == "/"
    ensures rest != [] && rest[0] != "" && rest[0] != v.admin ==>
              IsPathOf("/" + Join(rest), rest) && Route(v, path) == Route(v, "/" + Join(rest))
  {
    var parts := [v.admin, scope] + rest;
    SegmentsOfPath(v, path, parts);
    assert parts[2..] == rest;
    if rest != [] && rest[0] != "" {
      forall part | part in rest ensures SlashFree(part) {
        assert part in parts;
      }
      assert rest[|rest| - 1] == parts[|parts| - 1];
      JoinAppend([v.admin, scope], rest);
      JoinEnds(rest);
      SegmentsOfPath(v, "/" + Join(rest), rest);
    }
  }

  /** A name of the vocabulary that is not an unknown version stands for itself. */
  lemma NameCut(v: Vocabulary, name: string)
    requires IsVocabulary(v) && IsName(v, name)
    ensures CutAtColon(name) == Cut(name, "", false)
  {
    CutOfToken(name, "");
  }

  /** The path of a resource: its collections show, and its identifiers do not. */
  lemma ResourceShows(v: Vocabulary, version: string, first: string, item: string, second: string, other: string)
    requires IsVocabulary(v) && version in v.versions && first in v.collections && second in v.collections
    requires !IsApiVersion(first) && !IsApiVersion(second) && ':' !in item && ':' !in other
    requires version !in v.collections
    ensures Pass(v, [version, first, item, second, other]) == [version, first, v.id, second, v.id]
  {
    var segments := [version, first, item, second, other];
    NameCut(v, version);
    NameCut(v, first);
    NameCut(v, second);
    CutOfToken(item, "");
    CutOfToken(other, "");
    assert !IsItem(v, segments, 1) && IsItem(v, segments, 2) && !IsItem(v, segments, 3) && IsItem(v, segments, 4);
    forall i | 0 <= i < 5 ensures Pass(v, segments)[i] == [version, first, v.id, second, v.id][i] {
      SegmentContent(v, segments, i);
    }
  }

  /** Two instances of two projects, of any names. */
  lemma InstancesShareALabel(project: string, instance: string)
    requires ':' !in project && ':' !in instance
    ensures Pass(Standard(), ["v1", "projects", project, "instances", instance])
         == ["v1", "projects", "{id}", "instances", "{id}"]
  {
    StandardIsVocabulary();
    var v := Standard();
    assert "v1" in VERSIONS && "projects" in PLACES && "instances" in PLACES;
    VersionIsNoCollection();
    ResourceShows(v, "v1", "projects", project, "instances", instance);
  }

  lemma VersionIsNoCollection()
    ensures "v1" !in Standard().collections
  {
    forall word | word in Standard().collections ensures word != "v1" {
      LongWords(word);
    }
  }

  lemma LongWords(word: string)
    requires word in PLACES || word in WORKLOADS || word in STORES || word in KEYS
    ensures |word| > 2
  {}
}
