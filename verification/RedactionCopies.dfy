/** What the written files hold of their sources. */
module RedactionCopies {
  import opened Options
  import opened Redaction

  /** How much of a file may be written after these copies. */
  function Room(copies: seq<Option<Bytes>>, maxFile: int, maxTotal: int): int {
    Least(maxFile, maxTotal - Sizes(copies))
  }

  /** Each copy is made of the source in its place, with the room that the copies before it have left. */
  lemma {:induction false} CopyAt(sources: seq<Option<Bytes>>, n: nat, k: nat, copier: Copier, maxFile: int,
                                  maxTotal: int)
    requires n <= |sources| && k < |Copies(sources, n, copier, maxFile, maxTotal)|
    ensures
      var copies := Copies(sources, n, copier, maxFile, maxTotal);
      copies[k] == copier(sources[k], Room(copies[..k], maxFile, maxTotal)) && Sizes(copies[..k]) != maxTotal
  {
    var before := Copies(sources, n - 1, copier, maxFile, maxTotal);
    var copies := Copies(sources, n, copier, maxFile, maxTotal);
    if k < |before| {
      CopyAt(sources, n - 1, k, copier, maxFile, maxTotal);
      assert copies[..k] == before[..k];
    } else {
      assert copies[..k] == before;
    }
  }

  lemma {:induction false} PrefixSizes(copies: seq<Option<Bytes>>, k: nat)
    requires k <= |copies|
    ensures Sizes(copies[..k]) <= Sizes(copies)
    decreases |copies|
  {
    if k < |copies| {
      PrefixSizes(copies[..|copies| - 1], k);
      assert copies[..|copies| - 1][..k] == copies[..k];
    } else {
      assert copies[..k] == copies;
    }
  }

  /** The copy is the source with the forbidden values cut out: clean, in its order, and the source itself
      exactly when that was clean. */
  ghost predicate IsRedactionOf(copy: Bytes, source: Bytes, forbidden: seq<Bytes>)
    requires [] !in forbidden
  {
    && copy == Redacted(source, forbidden) && IsClean(copy, forbidden) && IsSubsequence(copy, source)
    && (copy == source <==> IsClean(source, forbidden))
  }

  /** The copy begins with this many surviving bytes of the source, in their order, and goes on with bytes of
      the marker. */
  ghost predicate IsCutOf(copy: Bytes, source: Bytes, forbidden: seq<Bytes>, limit: nat, marker: Bytes)
    requires [] !in forbidden
  {
    var survivors := Survivors(Read(source, forbidden, limit), forbidden);
    var count := WrittenCount(source, forbidden, limit, marker);
    && count <= |survivors| && count <= |copy| <= limit && IsAscending(survivors, |source|)
    && (forall i :: 0 <= i < count ==> copy[i] == source[survivors[i]])
    && exists rest :: IsSubsequence(rest, marker) && copy[count..] <= rest
  }

  /** Every file that is written holds its own source: all of it but what redacting cuts out, if it fits, and
      else surviving bytes of it and then of the marker. */
  lemma CopiesHoldTheirSources(sources: seq<Option<Bytes>>, forbidden: seq<Bytes>, maxFile: int, maxTotal: int,
                               marker: Bytes, k: nat)
    requires [] !in forbidden && maxFile > 0 && maxTotal > 0
    requires k < |Copies(sources, |sources|, Sanitizer(forbidden, marker), maxFile, maxTotal)|
    ensures
      var copies := Copies(sources, |sources|, Sanitizer(forbidden, marker), maxFile, maxTotal);
      var limit := Room(copies[..k], maxFile, maxTotal);
      && limit > 0 && (copies[k].Some? <==> sources[k].Some?)
      && (sources[k].Some? ==>
            if |sources[k].value| <= limit then IsRedactionOf(copies[k].value, sources[k].value, forbidden)
            else IsCutOf(copies[k].value, sources[k].value, forbidden, limit, marker))
  {
    var copier := Sanitizer(forbidden, marker);
    var copies := Copies(sources, |sources|, copier, maxFile, maxTotal);
    var limit := Room(copies[..k], maxFile, maxTotal);
    CopyAt(sources, |sources|, k, copier, maxFile, maxTotal);
    CopiesAreSafe(sources, forbidden, maxFile, maxTotal, marker);
    PrefixSizes(copies, k);
    if sources[k].Some? {
      CopyHoldsSource(sources[k].value, forbidden, limit, marker);
    }
  }

  lemma CopyHoldsSource(source: Bytes, forbidden: seq<Bytes>, limit: nat, marker: Bytes)
    requires [] !in forbidden && limit > 0
    ensures
      var copy := Sanitized(source, forbidden, limit, marker);
      if |source| <= limit then IsRedactionOf(copy, source, forbidden)
      else IsCutOf(copy, source, forbidden, limit, marker)
  {
    SanitizedIsClean(source, forbidden, limit, marker);
    if |source| <= limit {
      RedactedIsClean(source, forbidden);
    } else {
      OutputIsSurvivors(source, forbidden, limit, marker);
      LongerIsRead(source, forbidden, limit);
      if |Read(source, forbidden, limit)| <= limit {
        var copy := Sanitized(source, forbidden, limit, marker);
        assert IsSubsequence([], marker) && copy[WrittenCount(source, forbidden, limit, marker)..] <= [];
      }
    }
  }

  lemma LongerIsRead(source: Bytes, forbidden: seq<Bytes>, limit: nat)
    requires [] !in forbidden && |source| > limit
    ensures |Read(source, forbidden, limit)| <= |source|
    ensures |Read(source, forbidden, limit)| == limit ==> Longest(forbidden) == 0
    ensures forall i :: 0 <= i < |Read(source, forbidden, limit)| ==> Read(source, forbidden, limit)[i] == source[i]
  {}

  /** A file that is too long, and in whose read nothing is forbidden, with the marker or without, is cut at
      the limit. */
  lemma CleanFileIsCut(source: Bytes, forbidden: seq<Bytes>, limit: nat, marker: Bytes)
    requires [] !in forbidden && |source| > limit && Longest(forbidden) > 0
    requires IsClean(Read(source, forbidden, limit) + marker, forbidden)
    ensures Sanitized(source, forbidden, limit, marker) == source[..limit]
  {
    var read := Read(source, forbidden, limit);
    assert (read + marker)[..|read|] == read;
    CleanPrefix(read + marker, |read|, forbidden);
    RedactedIsClean(read, forbidden);
    RedactedIsClean(read + marker, forbidden);
    assert (read + marker)[..limit] == source[..limit];
  }

  /** A file that is too long ends in the marker if what is left of it makes room. */
  lemma RoomForMarker(source: Bytes, forbidden: seq<Bytes>, limit: nat, marker: Bytes)
    requires [] !in forbidden && |source| > limit && Longest(forbidden) > 0
    requires
      var redacted := Redacted(Read(source, forbidden, limit), forbidden);
      IsClean(redacted + marker, forbidden) && |redacted| + |marker| <= limit
    ensures Sanitized(source, forbidden, limit, marker) == Redacted(Read(source, forbidden, limit), forbidden) + marker
  {
    RedactedIsClean(Redacted(Read(source, forbidden, limit), forbidden) + marker, forbidden);
  }
}
