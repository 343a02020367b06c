/** Canonical operation names and the polling paths that resolve them. */
module OperationNames {
  import opened Options
  import opened Text
  import opened Operations

  function CanonicalParts(project: string, location: string, id: string): seq<string> {
    if project != "" && location != "" then ["projects", project, "locations", location, "operations", id]
    else if project != "" then ["projects", project, "operations", id]
    else ["operations", id]
  }

  /** canonicalOperationName, with the random identifier as a parameter. */
  function CanonicalName(project: string, location: string, id: string): string {
    Join(CanonicalParts(project, location, id))
  }

  datatype PathScope = PathScope(name: string, project: string, location: string)

  predicate IsRoot(part: string) { part == "projects" || part == "locations" || part == "operations" }

  predicate IsPlace(part: string) { part == "locations" || part == "regions" || part == "zones" }

  /** The switch of operationPathScope over the parts that remain. */
  function ScopeOfParts(parts: seq<string>): Option<PathScope> {
    if |parts| == 6 && parts[0] == "projects" && IsPlace(parts[2]) && parts[4] == "operations" then
      Some(PathScope(Join(parts), parts[1], parts[3]))
    else if |parts| == 4 && parts[0] == "projects" && parts[2] == "operations" then
      Some(PathScope(Join(parts), parts[1], ""))
    else if |parts| == 4 && parts[0] == "locations" && parts[2] == "operations" then
      Some(PathScope(Join(parts[2..]), "", parts[1]))
    else if |parts| == 2 && parts[0] == "operations" then
      Some(PathScope(Join(parts), "", ""))
    else None
  }

  function WithoutVersion(parts: seq<string>): seq<string>
    requires parts != []
  {
    if IsRoot(parts[0]) then parts else parts[1..]
  }

  /** operationPathScope; None stands for the empty name. */
  function ScopeOfPath(path: string): Option<PathScope> {
    var trimmed := if path != "" && path[0] == '/' then path[1..] else path;
    if trimmed == "" || trimmed[|trimmed| - 1] == '/' then None
    else
      var parts := Split(trimmed);
      if exists part :: part in parts && part == "" then None
      else ScopeOfParts(WithoutVersion(parts))
  }

  function LastSegment(name: string): string {
    var parts := Split(name);
    parts[|parts| - 1]
  }

  /** GetScoped: an empty scope component matches anything. */
  function GetScoped(ops: Snapshot, name: string, serviceKind: string, project: string,
                     location: string): Option<Operation>
  {
    if name !in ops then None
    else
      var id := ops[name].identity;
      if || (serviceKind != "" && id.serviceKind != serviceKind)
         || (project != "" && id.project != project)
         || (location != "" && id.location != location)
      then None else Some(ops[name])
  }

  /** PollScoped: the whole name first, then its last segment. */
  function Poll(ops: Snapshot, path: string, serviceKind: string): Option<Operation> {
    match ScopeOfPath(path)
    case None => None
    case Some(scope) =>
      var whole := GetScoped(ops, scope.name, serviceKind, scope.project, scope.location);
      var found := if whole.Some? then whole
                   else GetScoped(ops, LastSegment(scope.name), serviceKind, scope.project, scope.location);
      if found.None? || found.value.identity.project != scope.project || found.value.identity.location != scope.location
      then None
      else Some(found.value.(identity := found.value.identity.(name := scope.name)))
  }

  // ---------------------------------------------------------------------------------------------
  // Which paths name which scope
  // ---------------------------------------------------------------------------------------------

  /** The parts of a path that asks for this operation, without the version segment. */
  ghost predicate Asks(parts: seq<string>, scope: PathScope, id: string) {
    || (exists place :: IsPlace(place) && scope.project != "" && scope.location != ""
                        && parts == ["projects", scope.project, place, scope.location, "operations", id]
                        && scope.name == Join(parts))
    || (scope.project != "" && scope.location == "" && parts == ["projects", scope.project, "operations", id]
        && scope.name == Join(parts))
    || (scope.project == "" && scope.location != "" && parts == ["locations", scope.location, "operations", id]
        && scope.name == Join(["operations", id]))
    || (scope.project == "" && scope.location == "" && parts == ["operations", id] && scope.name == Join(parts))
  }

  lemma ScopeOfPartsIff(parts: seq<string>, scope: PathScope)
    requires forall part :: part in parts ==> Component(part)
    ensures ScopeOfParts(parts) == Some(scope) <==> exists id :: Asks(parts, scope, id)
  {
    forall k | 0 <= k < |parts| ensures parts[k] != "" {
      assert Component(parts[k]);
    }
    if ScopeOfParts(parts) == Some(scope) {
      var id := parts[|parts| - 1];
      if |parts| == 6 {
        assert parts == ["projects", scope.project, parts[2], scope.location, "operations", id];
      } else if |parts| == 4 {
        assert parts[2..] == ["operations", id];
        assert parts == [parts[0], parts[1], "operations", id];
      } else {
        assert parts == ["operations", id];
      }
      assert Asks(parts, scope, id);
    }
    if id :| Asks(parts, scope, id) {
      if |parts| == 4 { assert parts[2..] == ["operations", id]; }
    }
  }

  /** The path is these parts, with or without a leading slash. */
  predicate IsPathOf(path: string, parts: seq<string>) {
    && parts != [] && (forall part :: part in parts ==> Component(part))
    && (path == Join(parts) || path == "/" + Join(parts))
  }

  lemma LeadingSlashIsOptional(path: string)
    requires path == "" || path[0] != '/'
    ensures ScopeOfPath("/" + path) == ScopeOfPath(path)
  {
    assert ("/" + path)[1..] == path;
  }

  /** operationPathScope accepts exactly the joins of one of four shapes, with at most one segment
      before them, and reports the project and the location that stand in the path. */
  lemma ScopeOfPathIff(path: string, parts: seq<string>, scope: PathScope)
    requires IsPathOf(path, parts)
    ensures ScopeOfPath(path) == Some(scope) <==> exists id :: Asks(WithoutVersion(parts), scope, id)
  {
    FirstCharacter(parts);
    LeadingSlashIsOptional(Join(parts));
    SplitJoin(parts);
    LastCharacter(parts);
    ScopeOfPartsIff(WithoutVersion(parts), scope);
  }

  lemma FirstCharacter(parts: seq<string>)
    requires parts != [] && forall part :: part in parts ==> Component(part)
    ensures Join(parts) != "" && Join(parts)[0] != '/'
  {
    assert parts[0] in parts;
    assert parts[0][0] in parts[0];
  }

  lemma {:induction false} LastCharacter(parts: seq<string>)
    requires parts != [] && forall part :: part in parts ==> Component(part)
    ensures Join(parts) != "" && Join(parts)[|Join(parts)| - 1] != '/'
  {
    if |parts| == 1 {
      assert parts[0] in parts;
      assert parts[0][|parts[0]| - 1] in parts[0];
    } else {
      LastCharacter(parts[1..]);
    }
  }

  /** Conversely an accepted path is such a join, with or without its leading slash. */
  lemma AcceptedPathIsJoin(path: string)
    requires ScopeOfPath(path).Some?
    ensures exists parts :: IsPathOf(path, parts)
  {
    var trimmed := if path[0] == '/' then path[1..] else path;
    var parts := Split(trimmed);
    JoinSplit(trimmed);
    assert path[0] == '/' ==> path == "/" + trimmed;
    assert IsPathOf(path, parts);
  }

  // ---------------------------------------------------------------------------------------------
  // Round trip
  // ---------------------------------------------------------------------------------------------

  predicate Registered(op: Operation, project: string, location: string, id: string) {
    && op.identity.name == CanonicalName(project, location, id)
    && op.identity.project == project && op.identity.location == location
    && (project == "" || Component(project)) && (location == "" || Component(location)) && Component(id)
  }

  lemma WordsAreComponents()
    ensures Component("projects") && Component("operations")
    ensures Component("locations") && Component("regions") && Component("zones")
  {}

  lemma CanonicalPartsAreComponents(project: string, location: string, id: string, version: string)
    requires (project == "" || Component(project)) && (location == "" || Component(location)) && Component(id)
    requires Component(version)
    ensures
      var parts := CanonicalParts(project, location, id);
      && (forall part :: part in parts ==> Component(part))
      && (forall part :: part in [version] + parts ==> Component(part))
  {
    WordsAreComponents();
  }

  /** What a version segment and a canonical name resolve to: without a project the location is lost. */
  lemma CanonicalPathResolves(project: string, location: string, id: string, version: string)
    requires (project == "" || Component(project)) && (location == "" || Component(location)) && Component(id)
    requires Component(version) && !IsRoot(version)
    ensures var name := CanonicalName(project, location, id);
            && ScopeOfPath("/" + version + "/" + name)
               == Some(PathScope(name, project, if project == "" then "" else location))
            && LastSegment(name) == id
  {
    var parts := CanonicalParts(project, location, id);
    var all := [version] + parts;
    var scope := PathScope(Join(parts), project, if project == "" then "" else location);
    JoinAppend([version], parts);
    assert all[0] == version && WithoutVersion(all) == parts;
    assert "/" + version + "/" + Join(parts) == "/" + Join(all);
    CanonicalAsks(project, location, id, scope);
    CanonicalPartsAreComponents(project, location, id, version);
    ScopeOfPathIff("/" + Join(all), all, scope);
    SplitJoin(parts);
  }

  lemma CanonicalAsks(project: string, location: string, id: string, scope: PathScope)
    requires scope == PathScope(CanonicalName(project, location, id), project, if project == "" then "" else location)
    ensures Asks(CanonicalParts(project, location, id), scope, id)
  {
    assert IsPlace("locations");
  }

  /** Polling a version segment and the canonical name finds the operation just registered, exactly
      when it has a project or has no location: the canonical name of an operation with a location
      alone does not mention it. */
  lemma PollFindsRegisteredIff(ops: Snapshot, op: Operation, project: string, location: string, id: string,
                               version: string)
    requires Registered(op, project, location, id)
    requires Component(version) && !IsRoot(version)
    requires op.identity.name in ops && ops[op.identity.name] == op
    ensures var answer := Poll(ops, "/" + version + "/" + op.identity.name, op.identity.serviceKind);
            (answer == Some(op) <==> project != "" || location == "")
              && (answer == None <==> project == "" && location != "")
  {
    CanonicalPathResolves(project, location, id, version);
  }

  lemma LocationPathResolves(location: string, id: string, version: string)
    requires Component(location) && Component(id) && Component(version) && !IsRoot(version)
    ensures ScopeOfPath("/" + Join([version, "locations", location, "operations", id]))
      == Some(PathScope(CanonicalName("", location, id), "", location))
  {
    var all := [version, "locations", location, "operations", id];
    var scope := PathScope(CanonicalName("", location, id), "", location);
    assert all[0] == version && Asks(WithoutVersion(all), scope, id);
    ScopeOfPathIff("/" + Join(all), all, scope);
  }

  /** An operation with a location alone is found under its location. */
  lemma PollFindsLocationOnly(ops: Snapshot, op: Operation, location: string, id: string, version: string)
    requires Registered(op, "", location, id) && location != ""
    requires Component(version) && !IsRoot(version)
    requires op.identity.name in ops && ops[op.identity.name] == op
    ensures Poll(ops, "/" + Join([version, "locations", location, "operations", id]), op.identity.serviceKind)
      == Some(op)
  {
    LocationPathResolves(location, id, version);
  }

  /** The path that names an operation's own project and location. */
  function OwnPath(version: string, project: string, location: string, id: string): string {
    if project == "" && location != "" then "/" + Join([version, "locations", location, "operations", id])
    else "/" + version + "/" + CanonicalName(project, location, id)
  }

  lemma OwnPathResolves(version: string, project: string, location: string, id: string)
    requires (project == "" || Component(project)) && (location == "" || Component(location)) && Component(id)
    requires Component(version) && !IsRoot(version)
    ensures
      var name := CanonicalName(project, location, id);
      ScopeOfPath(OwnPath(version, project, location, id)) == Some(PathScope(name, project, location))
        && LastSegment(name) == id
  {
    CanonicalPathResolves(project, location, id, version);
    if project == "" && location != "" {
      LocationPathResolves(location, id, version);
    }
  }

  /** A legacy operation, whose name is the bare identifier, is found under the path with its own project
      and location, or with neither, and answers with the name in the path. */
  lemma PollFindsLegacy(ops: Snapshot, op: Operation, version: string)
    requires
      var identity := op.identity;
      && Component(identity.name) && identity.name in ops && ops[identity.name] == op
      && (identity.project == "" || Component(identity.project))
        && (identity.location == "" || Component(identity.location))
      && GetScoped(ops, CanonicalName(identity.project, identity.location, identity.name), identity.serviceKind,
                   identity.project, identity.location).None?
    requires Component(version) && !IsRoot(version)
    ensures
      var identity := op.identity;
      var name := CanonicalName(identity.project, identity.location, identity.name);
      Poll(ops, OwnPath(version, identity.project, identity.location, identity.name), identity.serviceKind)
        == Some(op.(identity := identity.(name := name)))
  {
    OwnPathResolves(version, op.identity.project, op.identity.location, op.identity.name);
  }

  /** Whatever the registry holds and whatever the path, a successful poll returns an operation of the asked
      service whose project and location are those in the path, under the name in the path. */
  lemma PollStaysInScope(ops: Snapshot, path: string, serviceKind: string)
    requires Poll(ops, path, serviceKind).Some?
    ensures
      var id := Poll(ops, path, serviceKind).value.identity;
      && (serviceKind != "" ==> id.serviceKind == serviceKind)
      && exists parts, last :: IsPathOf(path, parts)
                               && Asks(WithoutVersion(parts), PathScope(id.name, id.project, id.location), last)
  {
    AcceptedPathIsJoin(path);
    var parts :| IsPathOf(path, parts);
    var scope, id := ScopeOfPath(path).value, Poll(ops, path, serviceKind).value.identity;
    ScopeOfPathIff(path, parts, scope);
    var last :| Asks(WithoutVersion(parts), scope, last);
    assert scope == PathScope(id.name, id.project, id.location);
  }

  /** Under this name the registry holds an operation with every component that is asked for. */
  predicate Holds(ops: Snapshot, name: string, serviceKind: string, scope: PathScope) {
    && name in ops && serviceKind in ["", ops[name].identity.serviceKind]
    && scope.project in ["", ops[name].identity.project] && scope.location in ["", ops[name].identity.location]
  }

  /** A poll looks under the last segment only if nothing is held under the whole name; what it finds must then
      have exactly the project and the location of the path. */
  lemma PollIff(ops: Snapshot, path: string, serviceKind: string, scope: PathScope)
    requires ScopeOfPath(path) == Some(scope)
    ensures
      var name := if Holds(ops, scope.name, serviceKind, scope) then scope.name else LastSegment(scope.name);
      var answer := Poll(ops, path, serviceKind);
      && (answer.Some? <==> && Holds(ops, name, serviceKind, scope) && ops[name].identity.project == scope.project
                            && ops[name].identity.location == scope.location)
      && (answer.Some? ==> answer.value == ops[name].(identity := ops[name].identity.(name := scope.name)))
  {
    forall name ensures GetScoped(ops, name, serviceKind, scope.project, scope.location)
                     == if Holds(ops, name, serviceKind, scope) then Some(ops[name]) else None {}
  }

  /** The places a path may name, and no other. */
  lemma PlacesAre(version: string, project: string, place: string, location: string, id: string)
    requires Component(version) && !IsRoot(version) && Component(project) && Component(place) && Component(location)
    requires Component(id)
    ensures
      var parts := ["projects", project, place, location, "operations", id];
      ScopeOfPath("/" + Join([version] + parts))
      == if place in ["locations", "regions", "zones"] then Some(PathScope(Join(parts), project, location)) else None
  {
    var parts := ["projects", project, place, location, "operations", id];
    var all := [version] + parts;
    var path := "/" + Join(all);
    assert all[0] == version && WithoutVersion(all) == parts;
    assert IsPathOf(path, all) by {
      WordsAreComponents();
      assert all == [version, "projects", project, place, location, "operations", id];
    }
    if place in ["locations", "regions", "zones"] {
      assert Asks(parts, PathScope(Join(parts), project, location), id);
      ScopeOfPathIff(path, all, PathScope(Join(parts), project, location));
    } else if ScopeOfPath(path).Some? {
      ScopeOfPathIff(path, all, ScopeOfPath(path).value);
    }
  }

  function PlacePath(identity: Identity, place: string): string {
    Join(["projects", identity.project, place, identity.location, "operations", identity.name])
  }

  lemma PlacePathResolves(identity: Identity, version: string, place: string)
    requires Component(identity.name) && Component(identity.project) && Component(identity.location)
    requires Component(version) && !IsRoot(version) && place in ["locations", "regions", "zones"]
    ensures ScopeOfPath("/" + version + "/" + PlacePath(identity, place))
         == Some(PathScope(PlacePath(identity, place), identity.project, identity.location))
  {
    PlaceIsComponent(place);
    PlacesAre(version, identity.project, place, identity.location, identity.name);
    JoinedVersion(version, ["projects", identity.project, place, identity.location, "operations", identity.name]);
  }

  lemma PlacePathEnds(identity: Identity, place: string)
    requires Component(identity.name) && Component(identity.project) && Component(identity.location)
    requires place in ["locations", "regions", "zones"]
    ensures LastSegment(PlacePath(identity, place)) == identity.name
  {
    PlaceIsComponent(place);
    SplitJoin(["projects", identity.project, place, identity.location, "operations", identity.name]);
  }

  lemma PlaceIsComponent(place: string)
    requires place in ["locations", "regions", "zones"]
    ensures Component(place)
  {
    WordsAreComponents();
  }

  lemma JoinedVersion(version: string, parts: seq<string>)
    requires parts != []
    ensures "/" + Join([version] + parts) == "/" + version + "/" + Join(parts)
  {
    JoinAppend([version], parts);
  }

  lemma PollByLastSegment(ops: Snapshot, op: Operation, path: string, scope: PathScope)
    requires ScopeOfPath(path) == Some(scope) && scope.name !in ops && LastSegment(scope.name) == op.identity.name
    requires op.identity.name in ops && ops[op.identity.name] == op
    requires scope.project == op.identity.project && scope.location == op.identity.location
    ensures Poll(ops, path, op.identity.serviceKind) == Some(op.(identity := op.identity.(name := scope.name)))
  {}

  /** A legacy operation with a project and a location is found under each of them. */
  lemma PollFindsEachPlace(ops: Snapshot, op: Operation, version: string, place: string)
    requires
      var identity := op.identity;
      && Component(identity.name) && Component(identity.project) && Component(identity.location)
      && identity.name in ops && ops[identity.name] == op
    requires Component(version) && !IsRoot(version) && place in ["locations", "regions", "zones"]
    requires PlacePath(op.identity, place) !in ops
    ensures Poll(ops, "/" + version + "/" + PlacePath(op.identity, place), op.identity.serviceKind)
         == Some(op.(identity := op.identity.(name := PlacePath(op.identity, place))))
  {
    PlacePathResolves(op.identity, version, place);
    PlacePathEnds(op.identity, place);
    PollByLastSegment(ops, op, "/" + version + "/" + PlacePath(op.identity, place),
                      PathScope(PlacePath(op.identity, place), op.identity.project, op.identity.location));
  }

  // ---------------------------------------------------------------------------------------------
  // Which names the barrier finalizer accepts
  // ---------------------------------------------------------------------------------------------

  lemma JoinedTail(id: string)
    ensures Join(["operations", id]) == "operations/" + id
  {
    assert ["operations", id][1..] == [id];
  }

  lemma ProjectIsScoped(project: string, location: string, id: string)
    requires project != ""
    ensures Contains(CanonicalName(project, location, id), "/operations/")
  {
    var front := if location != "" then ["projects", project, "locations", location] else ["projects", project];
    assert CanonicalParts(project, location, id) == front + ["operations", id];
    JoinAppend(front, ["operations", id]);
    JoinedTail(id);
    assert "/" + "operations/" == "/operations/";
    ContainsAfter(Join(front), "operations/", id);
  }

  /** A canonical name counts as scoped exactly when it has a project, so the barrier finalizer
      answers "not found" for every operation registered without one. */
  lemma CanonicalNameIsScopedIff(identity: Identity, project: string, location: string, id: string)
    requires identity.name == CanonicalName(project, location, id) && identity.serviceKind != "" && Component(id)
    ensures IsScoped(identity) <==> project != ""
  {
    if project != "" {
      ProjectIsScoped(project, location, id);
    } else {
      JoinedTail(id);
      OneSlash(id);
    }
  }

  lemma ContainsAfter(front: string, tail: string, back: string)
    ensures Contains(front + "/" + (tail + back), "/" + tail)
  {
    var text := front + "/" + (tail + back);
    assert text[|front|..] == "/" + tail + back;
  }

  lemma OneSlash(id: string)
    requires SlashFree(id)
    ensures !Contains("operations/" + id, "/operations/")
  {
    var name := "operations/" + id;
    forall i | 0 <= i <= |name| ensures !("/operations/" <= name[i..]) {
      if i + 11 < |name| {
        assert name[i..][11] == name[i + 11] == id[i];
        assert "/operations/"[11] == '/';
      }
    }
  }
}
