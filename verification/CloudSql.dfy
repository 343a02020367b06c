/** The Cloud SQL backend: provision, reconcile and delete one database container and its volume for
    one ownership fingerprint. Containers are addressed by immutable identity, volumes by name. */
module CloudSql {
  import opened Options
  import opened OwnershipLabels
  import opened Docker

  datatype Spec = Spec(
    project: string, instance: string, databaseVersion: string, fingerprint: string, bootstrapPolicy: string,
    image: string, imageId: string, volumeIdentity: string, imageAcquisitionIntent: bool, creationIntent: bool)

  datatype Runtime = Runtime(image: string, port: string, mountTarget: string)

  const BOOTSTRAP_POLICY := "minisky-fixed-v1"

  /** The pattern of immutable image and volume identities. */
  predicate IsDigest(text: string) {
    |text| == 71 && text[..7] == "sha256:" && WellFormedId(text[7..])
  }

  datatype Resolved = Resolved(spec: Spec, runtime: Runtime)

  /** What a spec must say to be resolved: the engine is known and the rest is absent or well formed. */
  predicate IsResolvable(runtimeOf: string -> Option<Runtime>, spec: Spec) {
    && spec.project != "" && spec.instance != "" && WellFormedId(spec.fingerprint)
    && spec.bootstrapPolicy == BOOTSTRAP_POLICY
    && (match runtimeOf(spec.databaseVersion)
        case None => false
        case Some(runtime) => runtime.image != "" && spec.image in {"", runtime.image})
    && (spec.imageId == "" || IsDigest(spec.imageId)) && (spec.volumeIdentity == "" || IsDigest(spec.volumeIdentity))
  }

  /** resolveCloudSQLBackendSpec; the table of engine images is a parameter. */
  function Resolve(runtimeOf: string -> Option<Runtime>, spec: Spec): (resolved: Option<Resolved>)
    ensures resolved.Some? <==> IsResolvable(runtimeOf, spec)
    ensures resolved.Some? ==> && Some(resolved.value.runtime) == runtimeOf(spec.databaseVersion)
                               && resolved.value.spec == spec.(image := resolved.value.runtime.image)
  {
    if spec.project == "" || spec.instance == "" then None
    else if !WellFormedId(spec.fingerprint) then None
    else if spec.bootstrapPolicy != BOOTSTRAP_POLICY then None
    else match runtimeOf(spec.databaseVersion)
      case None => None
      case Some(runtime) =>
        if spec.image != "" && spec.image != runtime.image then None
        else if runtime.image == "" then None
        else if spec.imageId != "" && !IsDigest(spec.imageId) then None
        else if spec.volumeIdentity != "" && !IsDigest(spec.volumeIdentity) then None
        else Some(Resolved(spec.(image := runtime.image), runtime))
  }

  /** cloudSQLLabels. */
  function LabelsOf(profile: string, spec: Spec): Labels {
    map["managed-by" := "minisky", "minisky.profile" := profile, "minisky.service" := "cloudsql",
        "minisky.resource" := profile + "/" + spec.project + "/" + spec.instance,
        "minisky.project" := spec.project, "minisky.instance" := spec.instance,
        "minisky.database-version" := spec.databaseVersion, "minisky.ownership" := spec.fingerprint,
        "minisky.bootstrap-policy" := spec.bootstrapPolicy, "minisky.image" := spec.image,
        "minisky.image-id" := spec.imageId,
        "minisky.creation-intent" := if spec.creationIntent then "true" else "false"]
  }

  /** Labels that are exactly those of two specs belong to one fingerprint. */
  lemma LabelsSeparateFingerprints(profile: string, actual: Labels, a: Spec, b: Spec)
    requires ExactLabels(actual, LabelsOf(profile, a)) && ExactLabels(actual, LabelsOf(profile, b))
    ensures a.fingerprint == b.fingerprint
  {
    assert LabelsOf(profile, a)["minisky.ownership"] == a.fingerprint;
    assert LabelsOf(profile, b)["minisky.ownership"] == b.fingerprint;
  }

  /** And to one profile, instance, engine, policy, image and intent. */
  lemma LabelsIdentifySpec(profile: string, actual: Labels, a: Spec, other: string, b: Spec)
    requires ExactLabels(actual, LabelsOf(profile, a)) && ExactLabels(actual, LabelsOf(other, b))
    ensures profile == other && a.project == b.project && a.instance == b.instance
    ensures a.databaseVersion == b.databaseVersion && a.bootstrapPolicy == b.bootstrapPolicy
    ensures a.image == b.image && a.imageId == b.imageId && a.creationIntent == b.creationIntent
  {
    SameResource(profile, actual, a, other, b);
    SameRuntime(profile, actual, a, other, b);
  }

  lemma SameResource(profile: string, actual: Labels, a: Spec, other: string, b: Spec)
    requires ExactLabels(actual, LabelsOf(profile, a)) && ExactLabels(actual, LabelsOf(other, b))
    ensures profile == other && a.project == b.project && a.instance == b.instance
  {
    var x, y := LabelsOf(profile, a), LabelsOf(other, b);
    SameLabel(actual, x, y, "minisky.profile");
    SameLabel(actual, x, y, "minisky.project");
    SameLabel(actual, x, y, "minisky.instance");
  }

  lemma SameRuntime(profile: string, actual: Labels, a: Spec, other: string, b: Spec)
    requires ExactLabels(actual, LabelsOf(profile, a)) && ExactLabels(actual, LabelsOf(other, b))
    ensures a.databaseVersion == b.databaseVersion && a.bootstrapPolicy == b.bootstrapPolicy
    ensures a.image == b.image && a.imageId == b.imageId && a.creationIntent == b.creationIntent
  {
    var x, y := LabelsOf(profile, a), LabelsOf(other, b);
    SameLabel(actual, x, y, "minisky.database-version");
    SameLabel(actual, x, y, "minisky.bootstrap-policy");
    SameLabel(actual, x, y, "minisky.image");
    SameLabel(actual, x, y, "minisky.image-id");
    SameLabel(actual, x, y, "minisky.creation-intent");
  }

  lemma SameLabel(actual: Labels, a: Labels, b: Labels, key: string)
    requires ExactLabels(actual, a) && ExactLabels(actual, b) && key in a && key in b
    ensures a[key] == b[key]
  {}

  /** Labels that a request by name may meet: the owner's, or ones that other actors planted meanwhile. */
  predicate Expected(actual: Labels, labels: Labels, quiet: bool, planted: Labels -> bool) {
    ExactLabels(actual, labels) || (!quiet && planted(actual))
  }

  /** What a request may have done on behalf of the owner of these labels; "sparing" callers remove no
      volume at all. Containers go by identity and are safe whatever others do; volumes go by name. */
  predicate Permitted(event: Event, labels: Labels, quiet: bool, planted: Labels -> bool, sparing: bool) {
    match event
    case Creation(fixed, _, mounted, _) =>
      fixed.labels == labels
      && forall k :: 0 <= k < |mounted| ==>
           Expected(mounted[k], labels, quiet, planted) || (!quiet && mounted[k] == map[])
    case Start(_, started, _) => started.Some? ==> ExactLabels(started.value, labels)
    case Removal(_, removed) => removed.Some? ==> ExactLabels(removed.value, labels)
    case VolumeCreation(given) => given == labels
    case VolumeRemoval(_, gone) => !sparing && (gone.Some? ==> Expected(gone.value, labels, quiet, planted))
  }

  /** When the log had this many events, the daemon showed this container with these labels. */
  ghost predicate Saw(looks: seq<Look>, at: nat, id: string, labels: Labels) {
    exists look :: look in looks && look.ContainerLook? && look.at == at && look.id == id
                   && ExactLabels(look.container.fixed.labels, labels)
  }

  ghost predicate SawVolume(looks: seq<Look>, at: nat, volume: string, labels: Labels) {
    exists look :: look in looks && look.VolumeLook? && look.at == at && look.volume == volume
                   && ExactLabels(look.found.labels, labels)
  }

  /** The event at this position is no start and no removal, or nothing was changed by a request since a
      look that found the owner's labels. */
  ghost predicate FollowsLook(event: Event, at: nat, looks: seq<Look>, labels: Labels) {
    match event
    case Start(id, _, _) => Saw(looks, at, id, labels)
    case Removal(id, _) => Saw(looks, at, id, labels)
    case VolumeRemoval(volume, _) => SawVolume(looks, at, volume, labels)
    case _ => true
  }

  ghost predicate AllPermitted(log: seq<Event>, looks: seq<Look>, start: nat, labels: Labels, quiet: bool,
                               planted: Labels -> bool, sparing: bool)
  {
    forall k :: start <= k < |log| ==>
      Permitted(log[k], labels, quiet, planted, sparing) && FollowsLook(log[k], k, looks, labels)
  }

  lemma OnePermitted(log0: seq<Event>, log: seq<Event>, looks: seq<Look>, labels: Labels, quiet: bool,
                     planted: Labels -> bool, sparing: bool)
    requires |log| == |log0| + 1 && Permitted(log[|log0|], labels, quiet, planted, sparing)
    requires FollowsLook(log[|log0|], |log0|, looks, labels)
    ensures AllPermitted(log, looks, |log0|, labels, quiet, planted, sparing)
  {}

  lemma SawGrows(event: Event, at: nat, looks1: seq<Look>, looks2: seq<Look>, labels: Labels)
    requires looks1 <= looks2 && FollowsLook(event, at, looks1, labels)
    ensures FollowsLook(event, at, looks2, labels)
  {
    assert forall look :: look in looks1 ==> look in looks2;
  }

  lemma PermittedChain(log0: seq<Event>, log1: seq<Event>, log2: seq<Event>, looks1: seq<Look>, looks2: seq<Look>,
                       labels: Labels, quiet: bool, planted: Labels -> bool, sparing: bool)
    requires log0 <= log1 <= log2 && looks1 <= looks2
    requires AllPermitted(log1, looks1, |log0|, labels, quiet, planted, sparing)
    requires AllPermitted(log2, looks2, |log1|, labels, quiet, planted, sparing)
    ensures AllPermitted(log2, looks2, |log0|, labels, quiet, planted, sparing)
  {
    forall k | |log0| <= k < |log2|
      ensures Permitted(log2[k], labels, quiet, planted, sparing) && FollowsLook(log2[k], k, looks2, labels)
    {
      if k < |log1| {
        assert log2[k] == log1[k];
        SawGrows(log1[k], k, looks1, looks2, labels);
      }
    }
  }

  lemma LooksGrow(log: seq<Event>, looks1: seq<Look>, looks2: seq<Look>, start: nat, labels: Labels, quiet: bool,
                  planted: Labels -> bool, sparing: bool)
    requires looks1 <= looks2 && AllPermitted(log, looks1, start, labels, quiet, planted, sparing)
    ensures AllPermitted(log, looks2, start, labels, quiet, planted, sparing)
  {
    forall k | start <= k < |log|
      ensures Permitted(log[k], labels, quiet, planted, sparing) && FollowsLook(log[k], k, looks2, labels)
    {
      SawGrows(log[k], k, looks1, looks2, labels);
    }
  }

  /** Containers that carry other labels are as they were. */
  predicate ForeignUntouched(before: map<string, Container>, after: map<string, Container>, labels: Labels) {
    forall id :: id in before && !ExactLabels(before[id].fixed.labels, labels) ==>
      id in after && after[id] == before[id]
  }

  datatype VolumeCheck = VolumeError | VolumeAbsent | VolumeExact(volume: Volume)

  /** One call's resolved view of a spec. */
  datatype Target = Target(spec: Spec, runtime: Runtime, containerName: string, volumeName: string, labels: Labels)

  /** validateCloudSQLContainer. */
  predicate Validates(container: Container, t: Target) {
    && ExactLabels(container.fixed.labels, t.labels)
    && (container.fixed.image == t.runtime.image || container.fixed.image == t.spec.imageId)
    && container.fixed.imageId == t.spec.imageId
    && container.fixed.mounts == [Mount("volume", t.volumeName, t.runtime.mountTarget)]
  }

  /** The check of inspectExactCloudSQLVolume. */
  predicate OwnsVolume(volumes: map<string, Volume>, name: string, labels: Labels) {
    && name in volumes && ExactLabels(volumes[name].labels, labels)
    && volumes[name].createdAt != "" && volumes[name].mountpoint != ""
  }

  /** It can be brought to serve. */
  predicate IsRevivable(container: Container, t: Target) {
    Validates(container, t) && (IsStopped(container) || IsServing(container))
  }

  /** The last thing that happened is that a container of this target was found ready at this endpoint. */
  ghost predicate IsProbed(looks: seq<Look>, at: nat, t: Target, endpoint: Binding) {
    exists look :: look in looks && look.ReadyLook? && look.at == at && Endpoint(look.container) == Some(endpoint)
                   && Validates(look.container, t)
  }

  /** The daemon said "created" to some create request from this position on. */
  ghost predicate Told(log: seq<Event>, start: nat) {
    exists k :: start <= k < |log| && log[k].Creation? && log[k].told
  }

  lemma ToldFirst(log0: seq<Event>, log1: seq<Event>, log2: seq<Event>)
    requires |log1| == |log0| + 1 && log1 <= log2 && log1[|log0|].Creation?
    ensures Told(log1, |log0|) <==> log1[|log0|].told
    ensures log1[|log0|].told ==> Told(log2, |log0|)
  {}

  lemma ToldChain(log0: seq<Event>, log1: seq<Event>, log2: seq<Event>)
    requires log0 <= log1 <= log2 && !Told(log1, |log0|)
    ensures Told(log2, |log0|) <==> Told(log2, |log1|)
  {
    if k :| |log0| <= k < |log2| && log2[k].Creation? && log2[k].told {
      assert k < |log1| ==> log1[k] == log2[k];
    }
  }

  /** One start of this container was asked for if it was due, and nothing else. */
  predicate StartsIf(log0: seq<Event>, log: seq<Event>, id: string, due: bool) {
    if due then |log| == |log0| + 1 && log[|log0|].Start? && log[|log0|].id == id else log == log0
  }

  /** What a spec must say to be reconciled or deleted. */
  predicate IsComplete(spec: Spec) {
    spec.image != "" && spec.imageId != "" && (spec.volumeIdentity != "" || spec.creationIntent)
  }

  /** The owned volume is there, with the identity of the spec or, under a creation intent, any. */
  predicate KeepsVolume(t: Target, volumes: map<string, Volume>, identityOf: (string, Volume) -> string) {
    && OwnsVolume(volumes, t.volumeName, t.labels)
    && (identityOf(t.volumeName, volumes[t.volumeName]) == t.spec.volumeIdentity
        || (t.spec.volumeIdentity == "" && t.spec.creationIntent))
  }

  /** The container that a create of this target asks for. */
  function CreatedFor(t: Target): Container {
    Container(Fixed(t.labels, t.spec.imageId, t.spec.imageId, [Mount("volume", t.volumeName, t.runtime.mountTarget)]),
              "created", [])
  }

  /** At most this container's state differs. */
  predicate OnlyContainer(before: map<string, Container>, after: map<string, Container>, id: string) {
    after.Keys == before.Keys && forall other :: other in before && other != id ==> after[other] == before[other]
  }

  lemma ForeignChain(before: map<string, Container>, between: map<string, Container>, after: map<string, Container>,
                     labels: Labels)
    requires ForeignUntouched(before, between, labels) && ForeignUntouched(between, after, labels)
    ensures ForeignUntouched(before, after, labels)
  {}

  /** Every volume is as it was; new ones may exist. */
  predicate VolumesKept(before: map<string, Volume>, after: map<string, Volume>) {
    forall volume :: volume in before ==> volume in after && after[volume] == before[volume]
  }

  /** A container of this target is reachable at this endpoint. */
  predicate Serves(containers: map<string, Container>, id: string, t: Target, endpoint: Binding) {
    && id in containers && containers[id].bindings == [endpoint] && endpoint.loopback && 1 <= endpoint.port <= 65535
    && var fixed := containers[id].fixed;
       && ExactLabels(fixed.labels, t.labels) && fixed.image in [t.runtime.image, t.spec.imageId]
       && fixed.imageId == t.spec.imageId
       && fixed.mounts == [Mount("volume", t.volumeName, t.runtime.mountTarget)]
  }

  /** A create of this target, whose mount met this table of volumes. */
  predicate MountsFrom(event: Event, t: Target, table: map<string, Volume>) {
    && event.Creation? && event.fixed.labels == t.labels
    && event.fixed.mounts == [Mount("volume", t.volumeName, t.runtime.mountTarget)]
    && event.mounted == MountLabels(event.fixed.mounts, table)
  }

  lemma CreationIsPermitted(event: Event, t: Target, before: map<string, Volume>, table: map<string, Volume>,
                            quiet: bool, planted: Labels -> bool)
    requires MountsFrom(event, t, table) && Interfered(before, table, planted)
    requires quiet ==> event.mounted == MountLabels(event.fixed.mounts, before)
    requires t.volumeName in before && ExactLabels(before[t.volumeName].labels, t.labels)
    ensures Permitted(event, t.labels, quiet, planted, true)
  {
    assert |event.mounted| == 1;
  }

  lemma RemovalIsPermitted(event: Event, name: string, labels: Labels, before: map<string, Volume>,
                           table: map<string, Volume>, after: map<string, Volume>, quiet: bool,
                           planted: Labels -> bool)
    requires Interfered(before, table, planted) && (quiet ==> table == before)
    requires RemovesVolume(table, name, event, after)
    requires name in before && ExactLabels(before[name].labels, labels)
    ensures Permitted(event, labels, quiet, planted, false)
  {}

  /** The checks of deleteCloudSQLVolume on what its look was told. */
  predicate AsksRemoval(reply: VolumeReply, name: string, labels: Labels, identity: string,
                        identityOf: (string, Volume) -> string)
  {
    && reply.VolumeFound? && ExactLabels(reply.volume.labels, labels)
    && (identity != "" ==> && reply.name == name && reply.volume.createdAt != "" && reply.volume.mountpoint != ""
                           && identityOf(name, reply.volume) == identity)
  }

  /** What one run of deleteCloudSQLVolume does to the volumes when its look meets one table and its
      removal, if it asks for one, another. */
  predicate RunsOn(reply: VolumeReply, atLook: map<string, Volume>, atRemoval: map<string, Volume>, name: string,
                   labels: Labels, identity: string, identityOf: (string, Volume) -> string,
                   events: seq<Event>, after: map<string, Volume>)
  {
    && Answers(reply, name, atLook)
    && if AsksRemoval(reply, name, labels, identity, identityOf)
       then |events| == 1 && RemovesVolume(atRemoval, name, events[0], after)
       else events == [] && after == atLook
  }

  /** A run of deleteCloudSQLVolume in which other actors act before the look and between the look and
      the removal. */
  ghost predicate DeleteVolumeRun(before: map<string, Volume>, planted: Labels -> bool, name: string, labels: Labels,
                                  identity: string, identityOf: (string, Volume) -> string,
                                  events: seq<Event>, after: map<string, Volume>)
  {
    exists reply, atLook, atRemoval ::
      && Interfered(before, atLook, planted) && Interfered(atLook, atRemoval, planted)
      && RunsOn(reply, atLook, atRemoval, name, labels, identity, identityOf, events, after)
  }

  class Backend {
    const daemon: Daemon
    const runtimeOf: string -> Option<Runtime>
    const containerNameOf: (string, string) -> string
    const volumeNameOf: (string, string) -> string
    const labelsOf: Spec -> Labels
    const identityOf: (string, Volume) -> string    // the digest of name, creation time and mountpoint

    ghost predicate Valid()
      reads daemon
    {
      daemon.Valid() && forall project, instance :: !WellFormedId(containerNameOf(project, instance))
    }

    constructor (daemon: Daemon, profile: string, runtimeOf: string -> Option<Runtime>,
                 containerNameOf: (string, string) -> string, volumeNameOf: (string, string) -> string,
                 identityOf: (string, Volume) -> string)
      requires daemon.Valid() && forall project, instance :: !WellFormedId(containerNameOf(project, instance))
      ensures Valid() && this.daemon == daemon
      ensures this.runtimeOf == runtimeOf && this.containerNameOf == containerNameOf
        && this.volumeNameOf == volumeNameOf
      ensures forall spec :: labelsOf(spec) == LabelsOf(profile, spec)
    {
      this.daemon, this.runtimeOf, this.identityOf := daemon, runtimeOf, identityOf;
      this.containerNameOf, this.volumeNameOf := containerNameOf, volumeNameOf;
      labelsOf := spec => LabelsOf(profile, spec);
    }

    function TargetOf(resolved: Resolved): Target {
      var spec := resolved.spec;
      Target(spec, resolved.runtime, containerNameOf(spec.project, spec.instance),
             volumeNameOf(spec.project, spec.instance), labelsOf(spec))
    }

    /** inspectCloudSQLContainer. */
    method Inspect(identity: string) returns (reply: InspectReply)
      requires Valid()
      modifies daemon
      ensures Valid() && daemon.Grew() && daemon.log == old(daemon.log)
      ensures daemon.quiet ==> daemon.Kept()
      ensures reply.Missing? ==> daemon.Resolve(identity) == None
      ensures reply.Found? ==> && WellFormedId(reply.id) && daemon.Resolve(identity) == Some(reply.id)
                               && reply.id in daemon.containers && daemon.containers[reply.id] == reply.container
                               && reply.id in daemon.birth && daemon.birth[reply.id] == reply.container.fixed
                               && (WellFormedId(identity) ==> reply.id == identity)
      ensures reply.Found? ==>
        daemon.looks == old(daemon.looks) + [ContainerLook(|daemon.log|, reply.id, reply.container)]
      ensures daemon.answers ==> !reply.InspectFailed?
    {
      reply := daemon.Inspect(identity);
      if reply.Found? && !WellFormedId(reply.id) {
        reply := InspectFailed;
      }
    }

    /** inspectExactCloudSQLVolume. */
    method InspectExactVolume(name: string, labels: Labels) returns (check: VolumeCheck)
      requires Valid()
      modifies daemon
      ensures Valid() && daemon.Grew() && daemon.log == old(daemon.log)
      ensures daemon.quiet ==> daemon.Kept()
      ensures check.VolumeAbsent? ==> name !in daemon.volumes
      ensures check.VolumeExact? ==>
        OwnsVolume(daemon.volumes, name, labels) && daemon.volumes[name] == check.volume
      ensures daemon.answers ==> && (check.VolumeAbsent? <==> name !in daemon.volumes)
                                 && (check.VolumeExact? <==> OwnsVolume(daemon.volumes, name, labels))
    {
      var reply := daemon.InspectVolume(name);
      match reply {
        case VolumeFailed => return VolumeError;
        case VolumeMissing => return VolumeAbsent;
        case VolumeFound(given, volume) =>
          if given != name || volume.createdAt == "" || volume.mountpoint == "" || !ExactLabels(volume.labels, labels) {
            return VolumeError;
          }
          return VolumeExact(volume);
      }
    }

    /** removeCreatedCloudSQLContainer: only a container that never ran and carries these labels. */
    method RemoveCreated(id: string, labels: Labels)
      requires Valid() && WellFormedId(id)
      modifies daemon
      ensures Valid() && daemon.Grew()
      // The one removal directly follows a look that found this container, ours and never run.
      ensures daemon.log == old(daemon.log)
              || (&& |daemon.log| == |old(daemon.log)| + 1 && |daemon.looks| == |old(daemon.looks)| + 1
                  && daemon.log[|old(daemon.log)|].Removal? && daemon.log[|old(daemon.log)|].id == id
                  && var look := daemon.looks[|old(daemon.looks)|];
                     && look.ContainerLook? && look.at == |old(daemon.log)| && look.id == id
                     && look.container.status == "created" && ExactLabels(look.container.fixed.labels, labels)
                     && (daemon.quiet ==>
                           id in old(daemon.containers) && old(daemon.containers)[id] == look.container))
      ensures daemon.quiet && daemon.containers != old(daemon.containers) ==> daemon.log != old(daemon.log)
      ensures daemon.Obliges() && id in old(daemon.containers) ==>
                var found := old(daemon.containers)[id];
                found.status == "created" && ExactLabels(found.fixed.labels, labels) ==> id !in daemon.containers
      ensures AllPermitted(daemon.log, daemon.looks, |old(daemon.log)|, labels, daemon.quiet, daemon.planted, true)
      ensures daemon.quiet ==> daemon.volumes == old(daemon.volumes)
                               && ForeignUntouched(old(daemon.containers), daemon.containers, labels)
    {
      var reply := Inspect(id);
      if !reply.Found? {
        return;
      }
      if reply.container.status != "created" || !ExactLabels(reply.container.fixed.labels, labels) {
        return;
      }
      assert daemon.looks[|old(daemon.looks)|] in daemon.looks;
      var _ := daemon.Remove(id);
      OnePermitted(old(daemon.log), daemon.log, daemon.looks, labels, daemon.quiet, daemon.planted, true);
    }

    /** Start by identity and look again. */
    method StartAndInspect(id: string, t: Target) returns (started: Option<Container>)
      requires Valid() && WellFormedId(id) && id in daemon.birth && ExactLabels(daemon.birth[id].labels, t.labels)
      requires Saw(daemon.looks, |daemon.log|, id, t.labels)
      modifies daemon
      ensures Valid() && daemon.Grew()
      ensures AllPermitted(daemon.log, daemon.looks, |old(daemon.log)|, t.labels, daemon.quiet, daemon.planted, true)
      ensures daemon.quiet ==> && daemon.volumes == old(daemon.volumes) && daemon.names == old(daemon.names)
                               && OnlyContainer(old(daemon.containers), daemon.containers, id)
      ensures started.Some? ==> && id in daemon.containers && daemon.containers[id] == started.value
                                && ContainerLook(|daemon.log|, id, started.value) in daemon.looks
      ensures StartsIf(old(daemon.log), daemon.log, id, true)
      ensures started.Some? ==> daemon.log[|old(daemon.log)|].told
      ensures daemon.Obliges() && id in old(daemon.containers) ==>
                started.Some? && IsServing(started.value) && started.value.fixed == old(daemon.containers)[id].fixed
    {
      var ok := daemon.StartContainer(id);
      OnePermitted(old(daemon.log), daemon.log, daemon.looks, t.labels, daemon.quiet, daemon.planted, true);
      if !ok {
        return None;
      }
      ghost var looks := daemon.looks;
      var reply := Inspect(id);
      LooksGrow(daemon.log, looks, daemon.looks, |old(daemon.log)|, t.labels, daemon.quiet, daemon.planted, true);
      if !reply.Found? {
        return None;
      }
      return Some(reply.container);
    }

    /** The two readiness probes, which change nothing. */
    method Probe(container: Container) returns (endpoint: Option<Binding>)
      modifies daemon`looks
      ensures old(daemon.looks) <= daemon.looks
      ensures endpoint.Some? ==>
                endpoint == Endpoint(container) && ReadyLook(|daemon.log|, container) in daemon.looks
      ensures daemon.obliging ==> endpoint == Endpoint(container)
    {
      var ready := daemon.Probe(container);
      return if ready then Endpoint(container) else None;
    }

    /** The part of activateCloudSQLContainer that follows the last look. */
    method ProbeRunning(container: Container, t: Target) returns (endpoint: Option<Binding>)
      modifies daemon`looks
      ensures old(daemon.looks) <= daemon.looks
      ensures endpoint.Some? ==>
                && Validates(container, t) && container.status == "running" && endpoint == Endpoint(container)
                && IsProbed(daemon.looks, |daemon.log|, t, endpoint.value)
      ensures daemon.obliging && Validates(container, t) && container.status == "running" ==>
                endpoint == Endpoint(container)
    {
      if !Validates(container, t) || container.status != "running" {
        return None;
      }
      endpoint := Probe(container);
    }

    /** activateCloudSQLContainer. */
    method Activate(id: string, container: Container, t: Target) returns (endpoint: Option<Binding>)
      requires Valid() && WellFormedId(id) && id in daemon.birth && daemon.birth[id] == container.fixed
      requires ContainerLook(|daemon.log|, id, container) in daemon.looks
      modifies daemon
      ensures Valid() && daemon.Grew()
      ensures AllPermitted(daemon.log, daemon.looks, |old(daemon.log)|, t.labels, daemon.quiet, daemon.planted, true)
      ensures daemon.quiet ==> && daemon.volumes == old(daemon.volumes) && daemon.names == old(daemon.names)
                               && OnlyContainer(old(daemon.containers), daemon.containers, id)
      ensures daemon.quiet && !ExactLabels(container.fixed.labels, t.labels) ==> unchanged(daemon)
      ensures daemon.quiet && endpoint.Some? ==>
                id in old(daemon.containers) && old(daemon.containers[id]) == container ==>
                  Serves(daemon.containers, id, t, endpoint.value) && daemon.containers[id].status == "running"
      ensures endpoint.Some? ==> IsProbed(daemon.looks, |daemon.log|, t, endpoint.value)
      // A stopped container of this target is started once, and nothing else is asked for.
      ensures StartsIf(old(daemon.log), daemon.log, id, Validates(container, t) && IsStopped(container))
      ensures endpoint.Some? ==>
                Validates(container, t) && (IsStopped(container) ==> daemon.log[|old(daemon.log)|].told)
      ensures daemon.Obliges() && id in old(daemon.containers) && old(daemon.containers)[id] == container ==>
                (endpoint.Some? <==> IsRevivable(container, t))
    {
      if !Validates(container, t) {
        return None;
      }
      var running := Some(container);
      if container.status == "created" || container.status == "exited" {
        running := StartAndInspect(id, t);
      }
      if running.None? {
        return None;
      }
      ghost var log, looks := daemon.log, daemon.looks;
      endpoint := ProbeRunning(running.value, t);
      LooksGrow(log, looks, daemon.looks, |old(daemon.log)|, t.labels, daemon.quiet, daemon.planted, true);
    }

    /** What recreateCloudSQLContainer and ProvisionCloudSQLVM do with a captured identity up to the
        look after the start: check the container, check the volume again, and only then start. */
    method Launch(id: string, t: Target, identity: string) returns (started: Option<Container>)
      requires Valid() && WellFormedId(id)
      modifies daemon
      ensures Valid() && daemon.Grew()
      ensures AllPermitted(daemon.log, daemon.looks, |old(daemon.log)|, t.labels, daemon.quiet, daemon.planted, true)
      ensures daemon.quiet ==> daemon.volumes == old(daemon.volumes)
                               && ForeignUntouched(old(daemon.containers), daemon.containers, t.labels)
      ensures started.Some? ==>
                && id in daemon.containers && daemon.containers[id] == started.value
                && ContainerLook(|daemon.log|, id, started.value) in daemon.looks
                && (daemon.quiet ==> && daemon.names == old(daemon.names)
                                     && t.volumeName in daemon.volumes
                                       && ExactLabels(daemon.volumes[t.volumeName].labels, t.labels)
                                     && identityOf(t.volumeName, daemon.volumes[t.volumeName]) == identity)
      ensures daemon.Obliges() && id in old(daemon.containers) && Validates(old(daemon.containers)[id], t)
              && OwnsVolume(old(daemon.volumes), t.volumeName, t.labels)
              && identityOf(t.volumeName, old(daemon.volumes)[t.volumeName]) == identity ==>
                started.Some? && IsServing(started.value) && Validates(started.value, t)
      // What was created and cannot be used is removed again.
      ensures daemon.Obliges() && id in old(daemon.containers) && started.None? ==>
                var found := old(daemon.containers)[id];
                found.status == "created" && ExactLabels(found.fixed.labels, t.labels) ==> id !in daemon.containers
    {
      var reply := Inspect(id);
      if !reply.Found? || !Validates(reply.container, t) {
        RemoveCreated(id, t.labels);
        return None;
      }
      assert daemon.looks[|old(daemon.looks)|] in daemon.looks;
      var check := InspectExactVolume(t.volumeName, t.labels);
      if !check.VolumeExact? || identityOf(t.volumeName, check.volume) != identity {
        RemoveCreated(id, t.labels);
        return None;
      }
      started := StartAndInspect(id, t);
    }

    /** The create request that both paths send. The flag tells whether the daemon said "created". */
    method CreateContainer(t: Target) returns (captured: Option<string>, created: bool)
      requires Valid() && !WellFormedId(t.containerName)
      requires t.volumeName in daemon.volumes && ExactLabels(daemon.volumes[t.volumeName].labels, t.labels)
      modifies daemon
      ensures Valid() && daemon.Grew()
      ensures AllPermitted(daemon.log, daemon.looks, |old(daemon.log)|, t.labels, daemon.quiet, daemon.planted, true)
      ensures daemon.quiet ==> daemon.volumes == old(daemon.volumes)
                               && ForeignUntouched(old(daemon.containers), daemon.containers, t.labels)
      ensures |daemon.log| == |old(daemon.log)| + 1 && exists table ::
        Interfered(old(daemon.volumes), table, daemon.planted) && MountsFrom(daemon.log[|old(daemon.log)|], t, table)
      ensures created == daemon.log[|old(daemon.log)|].told
      ensures captured.Some? ==> WellFormedId(captured.value) && created
      ensures daemon.quiet && captured.Some? ==>
                t.containerName in daemon.names && daemon.names[t.containerName] == captured.value
      ensures daemon.quiet && captured.Some? ==>
                captured.value in daemon.containers && daemon.containers[captured.value] == CreatedFor(t)
      ensures daemon.Obliges() && t.containerName !in old(daemon.names) && daemon.CanIssue(old(daemon.birth)) ==>
                captured.Some?
    {
      var mount := Mount("volume", t.volumeName, t.runtime.mountTarget);
      var reply := daemon.Create(t.containerName, Fixed(t.labels, t.spec.imageId, t.spec.imageId, [mount]));
      assert CreatedFor(t).fixed == Fixed(t.labels, t.spec.imageId, t.spec.imageId, [mount]);
      ghost var table :| && Interfered(old(daemon.volumes), table, daemon.planted)
                         && daemon.log[|old(daemon.log)|].mounted == MountLabels([mount], table);
      assert MountsFrom(daemon.log[|old(daemon.log)|], t, table);
      CreationIsPermitted(daemon.log[|old(daemon.log)|], t, old(daemon.volumes), table, daemon.quiet, daemon.planted);
      OnePermitted(old(daemon.log), daemon.log, daemon.looks, t.labels, daemon.quiet, daemon.planted, true);
      created := reply.Accepted? || reply.Undecodable?;
      captured := if reply.Accepted? && WellFormedId(reply.id) then Some(reply.id) else None;
    }

    /** recreateCloudSQLContainer. */
    method Recreate(t: Target, identity: string) returns (endpoint: Option<Binding>)
      requires Valid() && !WellFormedId(t.containerName)
      requires t.volumeName in daemon.volumes && ExactLabels(daemon.volumes[t.volumeName].labels, t.labels)
      modifies daemon
      ensures Valid() && daemon.Grew()
      ensures AllPermitted(daemon.log, daemon.looks, |old(daemon.log)|, t.labels, daemon.quiet, daemon.planted, true)
      ensures daemon.quiet ==> daemon.volumes == old(daemon.volumes)
                               && ForeignUntouched(old(daemon.containers), daemon.containers, t.labels)
      ensures endpoint.Some? ==> IsProbed(daemon.looks, |daemon.log|, t, endpoint.value)
      ensures daemon.quiet && endpoint.Some? ==>
                && t.containerName in daemon.names
                  && Serves(daemon.containers, daemon.names[t.containerName], t, endpoint.value)
                && identityOf(t.volumeName, daemon.volumes[t.volumeName]) == identity
      ensures daemon.Obliges() && t.containerName !in old(daemon.names) && daemon.CanIssue(old(daemon.birth))
              && OwnsVolume(old(daemon.volumes), t.volumeName, t.labels)
              && identityOf(t.volumeName, old(daemon.volumes)[t.volumeName]) == identity ==>
                (endpoint.Some? <==> daemon.imageIds(t.spec.image) == t.spec.imageId)
    {
      var imageId := daemon.InspectImage(t.spec.image);
      if imageId != Some(t.spec.imageId) {
        return None;
      }
      ghost var log, looks, before := daemon.log, daemon.looks, daemon.containers;
      var captured, _ := CreateContainer(t);
      if captured.None? {
        return None;
      }
      ghost var log1, looks1, between := daemon.log, daemon.looks, daemon.containers;
      endpoint := LaunchAndActivate(captured.value, t, identity);
      PermittedChain(log, log1, daemon.log, looks1, daemon.looks, t.labels, daemon.quiet, daemon.planted, true);
      if daemon.quiet { ForeignChain(before, between, daemon.containers, t.labels); }
    }

    /** The part of recreateCloudSQLContainer that follows the capture of the identity. */
    method LaunchAndActivate(id: string, t: Target, identity: string) returns (endpoint: Option<Binding>)
      requires Valid() && WellFormedId(id)
      modifies daemon
      ensures Valid() && daemon.Grew()
      ensures AllPermitted(daemon.log, daemon.looks, |old(daemon.log)|, t.labels, daemon.quiet, daemon.planted, true)
      ensures daemon.quiet ==> daemon.volumes == old(daemon.volumes)
                               && ForeignUntouched(old(daemon.containers), daemon.containers, t.labels)
      ensures endpoint.Some? ==> IsProbed(daemon.looks, |daemon.log|, t, endpoint.value)
      ensures daemon.quiet && endpoint.Some? ==>
                && daemon.names == old(daemon.names) && Serves(daemon.containers, id, t, endpoint.value)
                && t.volumeName in daemon.volumes
                && identityOf(t.volumeName, daemon.volumes[t.volumeName]) == identity
      ensures daemon.Obliges() && id in old(daemon.containers) && Validates(old(daemon.containers)[id], t)
              && OwnsVolume(old(daemon.volumes), t.volumeName, t.labels)
              && identityOf(t.volumeName, old(daemon.volumes)[t.volumeName]) == identity ==>
                endpoint.Some?
    {
      var started := Launch(id, t, identity);
      if started.None? {
        return None;
      }
      ghost var log1, looks1, launched := daemon.log, daemon.looks, daemon.containers;
      endpoint := Activate(id, started.value, t);
      PermittedChain(old(daemon.log), log1, daemon.log, looks1, daemon.looks, t.labels, daemon.quiet, daemon.planted,
                     true);
      if daemon.quiet { ForeignChain(old(daemon.containers), launched, daemon.containers, t.labels); }
    }

    /** With a daemon that shows what is there: without the owned volume of the persisted identity nothing is
        asked for; with it, a container under the name is started if it is stopped. If every request works, it
        serves if it can be brought to, and a missing one is made again. */
    ghost predicate Reconciles(before: map<string, Container>, names: map<string, string>,
                               volumes: map<string, Volume>, birth: map<string, Fixed>, log0: seq<Event>,
                               log: seq<Event>, persisted: Spec, t: Target, served: bool)
    {
      if !IsComplete(persisted) || !KeepsVolume(t, volumes, identityOf) then !served && log == log0
      else if t.containerName in names then
        var id := names[t.containerName];
        id in before ==>
          && StartsIf(log0, log, id, Validates(before[id], t) && IsStopped(before[id]))
          && (daemon.obliging ==> (served <==> IsRevivable(before[id], t)))
      else daemon.obliging && daemon.CanIssue(birth) ==> (served <==> daemon.imageIds(t.spec.image) == t.spec.imageId)
    }

    /** ReconcileCloudSQLVMResolved. */
    method Reconcile(persisted: Spec) returns (endpoint: Option<Binding>, spec: Spec)
      requires Valid()
      modifies daemon
      ensures Valid() && daemon.Grew()
      ensures var resolved := Resolve(runtimeOf, persisted);
              if resolved.None? then endpoint.None? && unchanged(daemon)
              else
                var t := TargetOf(resolved.value);
                && AllPermitted(daemon.log, daemon.looks, |old(daemon.log)|, t.labels, daemon.quiet, daemon.planted,
                                true)
                && (daemon.quiet ==> daemon.volumes == old(daemon.volumes)
                                     && ForeignUntouched(old(daemon.containers), daemon.containers, t.labels))
                && (endpoint.Some? ==> IsProbed(daemon.looks, |daemon.log|, t, endpoint.value))
                && (daemon.quiet && endpoint.Some? ==>
                      && t.containerName in daemon.names
                        && Serves(daemon.containers, daemon.names[t.containerName], t, endpoint.value)
                      && t.volumeName in daemon.volumes && ExactLabels(daemon.volumes[t.volumeName].labels, t.labels)
                      && spec == t.spec.(volumeIdentity := identityOf(t.volumeName, daemon.volumes[t.volumeName]))
                      && (persisted.volumeIdentity == "" ==> persisted.creationIntent)
                      && (persisted.volumeIdentity != "" ==> spec.volumeIdentity == persisted.volumeIdentity))
      ensures daemon.Shows() && Resolve(runtimeOf, persisted).Some? ==>
                Reconciles(old(daemon.containers), old(daemon.names), old(daemon.volumes), old(daemon.birth),
                           old(daemon.log), daemon.log, persisted, TargetOf(Resolve(runtimeOf, persisted).value),
                           endpoint.Some?)
    {
      var resolved := Resolve(runtimeOf, persisted);
      if resolved.None? {
        return None, persisted;
      }
      var t := TargetOf(resolved.value);
      spec := t.spec;
      if persisted.image == "" || persisted.imageId == ""
        || (persisted.volumeIdentity == "" && !persisted.creationIntent) {
        return None, spec;
      }
      var reply := Inspect(t.containerName);
      if reply.InspectFailed? {
        return None, spec;
      }
      var identity;
      spec, identity := BindVolume(t);
      if identity.None? {
        return None, spec;
      }
      assert reply.Found? ==>
        daemon.looks[|old(daemon.looks)|] == ContainerLook(|daemon.log|, reply.id, reply.container);
      endpoint := Bring(reply, t, identity.value);
    }

    /** The part of ReconcileCloudSQLVMResolved that captures the identity of the volume, or compares it. */
    method BindVolume(t: Target) returns (spec: Spec, identity: Option<string>)
      requires Valid() && IsComplete(t.spec)
      modifies daemon
      ensures Valid() && daemon.Grew() && daemon.log == old(daemon.log)
      ensures daemon.quiet ==> daemon.Kept()
      ensures identity.Some? ==>
                && KeepsVolume(t, daemon.volumes, identityOf)
                && identity.value == identityOf(t.volumeName, daemon.volumes[t.volumeName])
                && spec == t.spec.(volumeIdentity := identity.value)
      ensures daemon.answers && KeepsVolume(t, daemon.volumes, identityOf) ==> identity.Some?
    {
      spec := t.spec;
      var check := InspectExactVolume(t.volumeName, t.labels);
      if check.VolumeError? {
        return spec, None;
      }
      if check.VolumeAbsent? {
        return spec, None;
      }
      var found := identityOf(t.volumeName, check.volume);
      if spec.volumeIdentity == "" && spec.creationIntent {
        spec := spec.(volumeIdentity := found);
      }
      if found != spec.volumeIdentity {
        return spec, None;
      }
      return spec, Some(found);
    }

    /** The tail of the reconciliation: activate what was found, or recreate what is missing. */
    method Bring(reply: InspectReply, t: Target, identity: string) returns (endpoint: Option<Binding>)
      requires Valid() && !WellFormedId(t.containerName)
      requires reply.Found? ==>
                 && WellFormedId(reply.id) && reply.id in daemon.birth
                 && daemon.birth[reply.id] == reply.container.fixed
                 && ContainerLook(|daemon.log|, reply.id, reply.container) in daemon.looks
      requires && t.volumeName in daemon.volumes && ExactLabels(daemon.volumes[t.volumeName].labels, t.labels)
               && identityOf(t.volumeName, daemon.volumes[t.volumeName]) == identity
      requires daemon.quiet && reply.Found? ==>
        t.containerName in daemon.names && daemon.names[t.containerName] == reply.id
                                                && reply.id in daemon.containers
                                                  && daemon.containers[reply.id] == reply.container
      modifies daemon
      ensures Valid() && daemon.Grew()
      ensures AllPermitted(daemon.log, daemon.looks, |old(daemon.log)|, t.labels, daemon.quiet, daemon.planted, true)
      ensures daemon.quiet ==> daemon.volumes == old(daemon.volumes)
                               && ForeignUntouched(old(daemon.containers), daemon.containers, t.labels)
      ensures endpoint.Some? ==> IsProbed(daemon.looks, |daemon.log|, t, endpoint.value)
      ensures daemon.quiet && endpoint.Some? ==>
                t.containerName in daemon.names
                  && Serves(daemon.containers, daemon.names[t.containerName], t, endpoint.value)
      // What was found and is stopped is started once; nothing else is asked for.
      ensures reply.Found? ==>
                StartsIf(old(daemon.log), daemon.log, reply.id,
                         Validates(reply.container, t) && IsStopped(reply.container))
      ensures daemon.Obliges() && reply.Found? ==> (endpoint.Some? <==> IsRevivable(reply.container, t))
      ensures daemon.Obliges() && reply.Missing? && t.containerName !in old(daemon.names)
              && daemon.CanIssue(old(daemon.birth)) && OwnsVolume(old(daemon.volumes), t.volumeName, t.labels) ==>
                (endpoint.Some? <==> daemon.imageIds(t.spec.image) == t.spec.imageId)
    {
      if reply.Found? {
        endpoint := Activate(reply.id, reply.container, t);
      } else {
        endpoint := Recreate(t, identity);
      }
    }

    /** ensureCloudSQLVolume: an existing volume must carry the labels; a missing one is created. */
    method EnsureVolume(name: string, labels: Labels) returns (ok: bool)
      requires Valid()
      modifies daemon
      ensures Valid() && daemon.Grew()
      ensures AllPermitted(daemon.log, daemon.looks, |old(daemon.log)|, labels, daemon.quiet, daemon.planted, true)
      ensures daemon.quiet ==> && daemon.containers == old(daemon.containers) && daemon.names == old(daemon.names)
                               && daemon.birth == old(daemon.birth) && VolumesKept(old(daemon.volumes), daemon.volumes)
      ensures daemon.quiet && ok && name in old(daemon.volumes) ==>
        ExactLabels(old(daemon.volumes)[name].labels, labels)
      ensures daemon.quiet && name in old(daemon.volumes) ==> daemon.volumes == old(daemon.volumes)
      ensures !Told(daemon.log, |old(daemon.log)|)
      ensures daemon.Obliges() ==>
                if name in old(daemon.volumes) then ok <==> ExactLabels(old(daemon.volumes)[name].labels, labels)
                else ok && OwnsVolume(daemon.volumes, name, labels)
    {
      var reply := daemon.InspectVolume(name);
      match reply {
        case VolumeFailed => return false;
        case VolumeFound(_, volume) => return ExactLabels(volume.labels, labels);
        case VolumeMissing =>
          ok := daemon.CreateVolume(name, labels);
          OnePermitted(old(daemon.log), daemon.log, daemon.looks, labels, daemon.quiet, daemon.planted, true);
      }
    }

    /** The part of ProvisionCloudSQLVM that makes sure of the volume and captures its identity. */
    method ClaimVolume(t: Target) returns (identity: Option<string>)
      requires Valid()
      modifies daemon
      ensures Valid() && daemon.Grew()
      ensures AllPermitted(daemon.log, daemon.looks, |old(daemon.log)|, t.labels, daemon.quiet, daemon.planted, true)
      ensures daemon.quiet ==> && daemon.containers == old(daemon.containers) && daemon.names == old(daemon.names)
                               && VolumesKept(old(daemon.volumes), daemon.volumes)
      ensures identity.Some? ==>
                && t.volumeName in daemon.volumes && ExactLabels(daemon.volumes[t.volumeName].labels, t.labels)
                && identity.value == identityOf(t.volumeName, daemon.volumes[t.volumeName])
                && OwnsVolume(daemon.volumes, t.volumeName, t.labels)
      ensures !Told(daemon.log, |old(daemon.log)|)
      ensures daemon.quiet ==> daemon.birth == old(daemon.birth)
      ensures daemon.Obliges() ==>
                (identity.Some? <==> t.volumeName !in old(daemon.volumes)
                                     || OwnsVolume(old(daemon.volumes), t.volumeName, t.labels))
    {
      var ensured := EnsureVolume(t.volumeName, t.labels);
      if !ensured {
        return None;
      }
      ghost var log, looks := daemon.log, daemon.looks;
      var check := InspectExactVolume(t.volumeName, t.labels);
      PermittedChain(old(daemon.log), log, daemon.log, looks, daemon.looks, t.labels, daemon.quiet, daemon.planted,
                     true);
      if !check.VolumeExact? {
        return None;
      }
      return Some(identityOf(t.volumeName, check.volume));
    }

    predicate MayProvision(names: map<string, string>, volumes: map<string, Volume>, requested: Spec, t: Target) {
      && t.containerName !in names && requested.creationIntent && requested.imageId != ""
      && daemon.imageIds(t.spec.image) == requested.imageId
      && (t.volumeName !in volumes || OwnsVolume(volumes, t.volumeName, t.labels))
    }

    /** ProvisionCloudSQLVM. */
    method Provision(requested: Spec) returns (endpoint: Option<Binding>, spec: Spec, created: bool)
      requires Valid()
      modifies daemon
      ensures Valid() && daemon.Grew()
      ensures var resolved := Resolve(runtimeOf, requested);
              if resolved.None? then endpoint.None? && !created && unchanged(daemon)
              else
                var t := TargetOf(resolved.value);
                && AllPermitted(daemon.log, daemon.looks, |old(daemon.log)|, t.labels, daemon.quiet, daemon.planted,
                                true)
                && (daemon.quiet ==> VolumesKept(old(daemon.volumes), daemon.volumes)
                                     && ForeignUntouched(old(daemon.containers), daemon.containers, t.labels))
                && (endpoint.Some? ==> created && requested.creationIntent && requested.imageId != "")
                && (endpoint.Some? ==> IsProbed(daemon.looks, |daemon.log|, t, endpoint.value))
                && (created <==> Told(daemon.log, |old(daemon.log)|))
                && (daemon.quiet && endpoint.Some? ==>
                      && t.containerName !in old(daemon.names)
                      && t.containerName in daemon.names
                        && Serves(daemon.containers, daemon.names[t.containerName], t, endpoint.value)
                      && t.volumeName in daemon.volumes && ExactLabels(daemon.volumes[t.volumeName].labels, t.labels)
                      && spec == t.spec.(volumeIdentity := identityOf(t.volumeName, daemon.volumes[t.volumeName])))
      // With a daemon that obliges: a container is provisioned exactly under a free name, for the requested
      // image, on a volume that is free or owned.
      ensures daemon.Obliges() && Resolve(runtimeOf, requested).Some? && daemon.CanIssue(old(daemon.birth)) ==>
                (endpoint.Some? <==>
                 MayProvision(old(daemon.names), old(daemon.volumes), requested,
                              TargetOf(Resolve(runtimeOf, requested).value)))
    {
      var resolved := Resolve(runtimeOf, requested);
      if resolved.None? {
        return None, requested, false;
      }
      var t := TargetOf(resolved.value);
      spec := t.spec;
      var existing := daemon.Inspect(t.containerName);
      if !existing.Missing? || !requested.creationIntent || requested.imageId == "" {
        return None, spec, false;
      }
      var imageId := daemon.InspectImage(spec.image);
      if imageId != Some(requested.imageId) {
        return None, spec, false;
      }
      var identity := ClaimVolume(t);
      if identity.None? {
        return None, spec, false;
      }
      spec := spec.(volumeIdentity := identity.value);
      ghost var log, looks := daemon.log, daemon.looks;
      endpoint, created := CreateAndLaunch(t, spec.volumeIdentity);
      ToldChain(old(daemon.log), log, daemon.log);
      PermittedChain(old(daemon.log), log, daemon.log, looks, daemon.looks, t.labels, daemon.quiet, daemon.planted,
                     true);
    }

    /** The part of ProvisionCloudSQLVM that creates and starts the container. */
    method CreateAndLaunch(t: Target, identity: string) returns (endpoint: Option<Binding>, created: bool)
      requires Valid() && !WellFormedId(t.containerName)
      requires t.volumeName in daemon.volumes && ExactLabels(daemon.volumes[t.volumeName].labels, t.labels)
      modifies daemon
      ensures Valid() && daemon.Grew()
      ensures AllPermitted(daemon.log, daemon.looks, |old(daemon.log)|, t.labels, daemon.quiet, daemon.planted, true)
      ensures daemon.quiet ==> daemon.volumes == old(daemon.volumes)
                               && ForeignUntouched(old(daemon.containers), daemon.containers, t.labels)
      ensures endpoint.Some? ==> created && IsProbed(daemon.looks, |daemon.log|, t, endpoint.value)
      ensures created <==> Told(daemon.log, |old(daemon.log)|)
      ensures daemon.Obliges() && t.containerName !in old(daemon.names) && daemon.CanIssue(old(daemon.birth))
              && OwnsVolume(old(daemon.volumes), t.volumeName, t.labels)
              && identityOf(t.volumeName, old(daemon.volumes)[t.volumeName]) == identity ==>
                endpoint.Some?
      ensures daemon.quiet && endpoint.Some? ==>
                && t.containerName in daemon.names
                  && Serves(daemon.containers, daemon.names[t.containerName], t, endpoint.value)
                && identityOf(t.volumeName, daemon.volumes[t.volumeName]) == identity
    {
      ghost var log, looks, before := daemon.log, daemon.looks, daemon.containers;
      var captured: Option<string>;
      captured, created := CreateContainer(t);
      ToldFirst(log, daemon.log, daemon.log);
      if captured.None? {
        return None, created;
      }
      ghost var log1, looks1, between := daemon.log, daemon.looks, daemon.containers;
      endpoint := LaunchAndProbe(captured.value, t, identity);
      PermittedChain(log, log1, daemon.log, looks1, daemon.looks, t.labels, daemon.quiet, daemon.planted, true);
      if daemon.quiet { ForeignChain(before, between, daemon.containers, t.labels); }
      ToldFirst(log, log1, daemon.log);
      return endpoint, true;
    }

    /** The part of it that follows the capture of the identity. */
    method LaunchAndProbe(id: string, t: Target, identity: string) returns (endpoint: Option<Binding>)
      requires Valid() && WellFormedId(id)
      modifies daemon
      ensures Valid() && daemon.Grew()
      ensures AllPermitted(daemon.log, daemon.looks, |old(daemon.log)|, t.labels, daemon.quiet, daemon.planted, true)
      ensures daemon.quiet ==> daemon.volumes == old(daemon.volumes)
                               && ForeignUntouched(old(daemon.containers), daemon.containers, t.labels)
      ensures endpoint.Some? ==> IsProbed(daemon.looks, |daemon.log|, t, endpoint.value)
      ensures daemon.quiet && endpoint.Some? ==>
                && daemon.names == old(daemon.names) && Serves(daemon.containers, id, t, endpoint.value)
                && t.volumeName in daemon.volumes
                && identityOf(t.volumeName, daemon.volumes[t.volumeName]) == identity
      ensures daemon.Obliges() && id in old(daemon.containers) && Validates(old(daemon.containers)[id], t)
              && OwnsVolume(old(daemon.volumes), t.volumeName, t.labels)
              && identityOf(t.volumeName, old(daemon.volumes)[t.volumeName]) == identity ==>
                endpoint.Some?
    {
      var started := Launch(id, t, identity);
      if started.None? || !Validates(started.value, t) {
        return None;
      }
      ghost var log, looks := daemon.log, daemon.looks;
      endpoint := Probe(started.value);
      LooksGrow(daemon.log, looks, daemon.looks, |old(daemon.log)|, t.labels, daemon.quiet, daemon.planted, true);
    }

    /** The volume is absent, or deleteCloudSQLVolume would ask for its removal. */
    predicate IsGoneOr(volumes: map<string, Volume>, name: string, labels: Labels, identity: string) {
      name in volumes ==> AsksRemoval(VolumeFound(name, volumes[name]), name, labels, identity, identityOf)
    }

    /** deleteCloudSQLVolume. */
    method DeleteVolume(name: string, labels: Labels, identity: string) returns (ok: bool)
      requires Valid()
      modifies daemon
      ensures Valid() && daemon.Grew()
      ensures AllPermitted(daemon.log, daemon.looks, |old(daemon.log)|, labels, daemon.quiet, daemon.planted, false)
      ensures ok ==> name !in daemon.volumes
      ensures daemon.Obliges() ==>
                (ok <==> IsGoneOr(old(daemon.volumes), name, labels, identity))
      ensures DeleteVolumeRun(old(daemon.volumes), daemon.planted, name, labels, identity, identityOf,
                              daemon.log[|old(daemon.log)|..], daemon.volumes)
      // The one removal directly follows a look that found a volume of these labels and this identity.
      ensures daemon.log == old(daemon.log)
              || (&& |daemon.log| == |old(daemon.log)| + 1 && |daemon.looks| == |old(daemon.looks)| + 1
                  && var look := daemon.looks[|old(daemon.looks)|];
                     && look.VolumeLook? && look.at == |old(daemon.log)| && look.volume == name
                     && ExactLabels(look.found.labels, labels)
                     && (identity != "" ==> identityOf(name, look.found) == identity))
      ensures daemon.quiet ==>
                && daemon.containers == old(daemon.containers) && daemon.names == old(daemon.names)
                && (daemon.volumes == old(daemon.volumes)
                    || (&& name in old(daemon.volumes) && ExactLabels(old(daemon.volumes)[name].labels, labels)
                        && (identity != "" ==> identityOf(name, old(daemon.volumes)[name]) == identity)
                        && daemon.volumes == old(daemon.volumes) - {name}))
    {
      var reply := daemon.InspectVolume(name);
      ghost var atLook, looks := daemon.volumes, daemon.looks;
      assert daemon.log[|old(daemon.log)|..] == [];
      assert !AsksRemoval(reply, name, labels, identity, identityOf) ==>
               RunsOn(reply, atLook, atLook, name, labels, identity, identityOf, [], atLook);
      match reply {
        case VolumeFailed => return false;
        case VolumeMissing => return true;
        case VolumeFound(given, volume) =>
          if !ExactLabels(volume.labels, labels) {
            return false;
          }
          if identity != "" {
            if given != name || volume.createdAt == "" || volume.mountpoint == ""
              || identityOf(given, volume) != identity {
              return false;
            }
          }
          ok := daemon.RemoveVolume(name);
          ghost var event := daemon.log[|old(daemon.log)|];
          ghost var atRemoval :| Interfered(atLook, atRemoval, daemon.planted) && (daemon.quiet ==> atRemoval == atLook)
                                 && RemovesVolume(atRemoval, name, event, daemon.volumes);
          assert daemon.log[|old(daemon.log)|..] == [event];
          assert RunsOn(reply, atLook, atRemoval, name, labels, identity, identityOf, [event], daemon.volumes);
          assert looks[|old(daemon.looks)|] in looks;
          RemovalIsPermitted(event, name, labels, atLook, atRemoval, daemon.volumes, daemon.quiet, daemon.planted);
          OnePermitted(old(daemon.log), daemon.log, daemon.looks, labels, daemon.quiet, daemon.planted, false);
      }
    }

    /** Under a free name there is nothing to do; the removal of a validated container is asked for, and another
        is refused. */
    ghost predicate RemovesContainer(before: map<string, Container>, names: map<string, string>, log0: seq<Event>,
                                     log: seq<Event>, t: Target, ok: bool)
    {
      if t.containerName !in names then ok && log == log0
      else
        names[t.containerName] in before ==>
          if Validates(before[names[t.containerName]], t) then
            && |log| == |log0| + 1 && log[|log0|].Removal? && log[|log0|].id == names[t.containerName]
            && (daemon.obliging ==> ok)
          else !ok && log == log0
    }

    /** The container half of DeleteCloudSQLVMContext: remove, by the identity that was validated. */
    method DeleteContainer(t: Target) returns (ok: bool)
      requires Valid() && !WellFormedId(t.containerName)
      modifies daemon
      ensures Valid() && daemon.Grew()
      ensures AllPermitted(daemon.log, daemon.looks, |old(daemon.log)|, t.labels, daemon.quiet, daemon.planted, false)
      ensures daemon.quiet ==> daemon.volumes == old(daemon.volumes)
                               && ForeignUntouched(old(daemon.containers), daemon.containers, t.labels)
      ensures daemon.quiet && ok ==> t.containerName !in daemon.names
      ensures daemon.Shows() ==>
                RemovesContainer(old(daemon.containers), old(daemon.names), old(daemon.log), daemon.log, t, ok)
    {
      var reply := Inspect(t.containerName);
      match reply {
        case InspectFailed => return false;
        case Missing => return true;
        case Found(id, container) =>
          if !Validates(container, t) {
            return false;
          }
          ghost var names := daemon.names;
          ok := daemon.Remove(id);
          OnePermitted(old(daemon.log), daemon.log, daemon.looks, t.labels, daemon.quiet, daemon.planted, false);
          if daemon.quiet && ok {
            assert forall name :: name in daemon.names ==> name in names && daemon.names[name] == names[name];
            assert names[t.containerName] == id && id !in daemon.containers;
          }
      }
    }

    predicate MayDelete(containers: map<string, Container>, names: map<string, string>, volumes: map<string, Volume>,
                        requested: Spec, t: Target)
    {
      && IsComplete(requested) && (t.volumeName in volumes ==> KeepsVolume(t, volumes, identityOf))
      && MayDeleteContainer(containers, names, t)
    }

    predicate MayDeleteContainer(containers: map<string, Container>, names: map<string, string>, t: Target) {
      t.containerName in names ==>
        names[t.containerName] in containers ==> Validates(containers[names[t.containerName]], t)
    }

    /** DeleteCloudSQLVMContext. */
    method Delete(requested: Spec) returns (ok: bool)
      requires Valid()
      modifies daemon
      ensures Valid() && daemon.Grew()
      ensures var resolved := Resolve(runtimeOf, requested);
              if resolved.None? then !ok && unchanged(daemon)
              else
                var t := TargetOf(resolved.value);
                && AllPermitted(daemon.log, daemon.looks, |old(daemon.log)|, t.labels, daemon.quiet, daemon.planted,
                                false)
                && (ok ==> t.volumeName !in daemon.volumes)
                && (daemon.quiet && ok ==> t.containerName !in daemon.names)
                && (daemon.quiet ==>
                      && ForeignUntouched(old(daemon.containers), daemon.containers, t.labels)
                      && (forall volume :: volume in old(daemon.volumes)
                                           && !(volume == t.volumeName
                                                && ExactLabels(old(daemon.volumes)[volume].labels, t.labels)) ==>
                            volume in daemon.volumes && daemon.volumes[volume] == old(daemon.volumes)[volume]))
                && (daemon.quiet && requested.volumeIdentity != "" && t.volumeName in old(daemon.volumes)
                    && identityOf(t.volumeName, old(daemon.volumes)[t.volumeName]) != requested.volumeIdentity
                    ==> !ok && daemon.containers == old(daemon.containers) && daemon.volumes == old(daemon.volumes))
      // With a daemon that obliges: all is deleted exactly for a complete spec whose volume, if there is one, is
      // the owned one of its identity, and whose container, if there is one, is validated.
      ensures daemon.Obliges() && Resolve(runtimeOf, requested).Some? ==>
                (ok <==> MayDelete(old(daemon.containers), old(daemon.names), old(daemon.volumes), requested,
                                   TargetOf(Resolve(runtimeOf, requested).value)))
      ensures daemon.Shows() && Resolve(runtimeOf, requested).Some? ==>
                !MayDelete(old(daemon.containers), old(daemon.names), old(daemon.volumes), requested,
                           TargetOf(Resolve(runtimeOf, requested).value)) ==>
                  !ok && daemon.log == old(daemon.log)
    {
      var resolved := Resolve(runtimeOf, requested);
      if resolved.None? {
        return false;
      }
      var t := TargetOf(resolved.value);
      if requested.image == "" || requested.imageId == ""
        || (requested.volumeIdentity == "" && !requested.creationIntent) {
        return false;
      }
      var check := InspectExactVolume(t.volumeName, t.labels);
      if check.VolumeError? {
        return false;
      }
      var identity := t.spec.volumeIdentity;
      if check.VolumeExact? {
        if identity == "" && t.spec.creationIntent {
          identity := identityOf(t.volumeName, check.volume);
        }
        if identityOf(t.volumeName, check.volume) != identity {
          return false;
        }
      }
      ok := DeleteBoth(t, identity);
    }

    /** The part of DeleteCloudSQLVMContext that removes: the container first, then the volume. */
    method DeleteBoth(t: Target, identity: string) returns (ok: bool)
      requires Valid() && !WellFormedId(t.containerName)
      modifies daemon
      ensures Valid() && daemon.Grew()
      ensures AllPermitted(daemon.log, daemon.looks, |old(daemon.log)|, t.labels, daemon.quiet, daemon.planted, false)
      ensures ok ==> t.volumeName !in daemon.volumes
      ensures daemon.quiet && ok ==> t.containerName !in daemon.names
      ensures daemon.quiet ==> ForeignUntouched(old(daemon.containers), daemon.containers, t.labels)
      ensures daemon.quiet ==>
                (daemon.volumes == old(daemon.volumes)
                 || (&& t.volumeName in old(daemon.volumes)
                     && ExactLabels(old(daemon.volumes)[t.volumeName].labels, t.labels)
                     && daemon.volumes == old(daemon.volumes) - {t.volumeName}))
      ensures daemon.Shows() && !MayDeleteContainer(old(daemon.containers), old(daemon.names), t) ==>
                !ok && daemon.log == old(daemon.log)
      ensures daemon.Obliges() ==>
                (ok <==> && MayDeleteContainer(old(daemon.containers), old(daemon.names), t)
                         && IsGoneOr(old(daemon.volumes), t.volumeName, t.labels, identity))
    {
      var removed := DeleteContainer(t);
      if !removed {
        return false;
      }
      ghost var log1, looks1 := daemon.log, daemon.looks;
      ok := DeleteVolume(t.volumeName, t.labels, identity);
      PermittedChain(old(daemon.log), log1, daemon.log, looks1, daemon.looks, t.labels, daemon.quiet, daemon.planted,
                     false);
    }
  }

  // ---------------------------------------------------------------------------------------------
  // Two owners of one name
  // ---------------------------------------------------------------------------------------------

  datatype Call = ProvisionCall(spec: Spec) | ReconcileCall(spec: Spec) | DeleteCall(spec: Spec)

  /** The event starts or removes a container that carries exactly these labels. */
  predicate TouchesContainer(event: Event, labels: Labels) {
    match event
    case Start(_, started, _) => started.Some? && ExactLabels(started.value, labels)
    case Removal(_, removed) => removed.Some? && ExactLabels(removed.value, labels)
    case _ => false
  }

  /** The event mounts or removes a volume that carries exactly these labels. */
  predicate TouchesVolume(event: Event, labels: Labels) {
    match event
    case Creation(_, _, mounted, _) => exists k :: 0 <= k < |mounted| && ExactLabels(mounted[k], labels)
    case VolumeRemoval(_, gone) => gone.Some? && ExactLabels(gone.value, labels)
    case _ => false
  }

  /** Nobody puts a volume with these labels anywhere within a call; what happens between calls is not
      restricted. */
  ghost predicate PlantsNone(planted: Labels -> bool, labels: Labels) {
    forall actual :: planted(actual) ==> !ExactLabels(actual, labels)
  }

  /** No labels are exactly both, and to have no labels is to have neither. */
  ghost predicate Apart(labels: Labels, others: Labels) {
    && (forall actual :: !(ExactLabels(actual, labels) && ExactLabels(actual, others)))
    && !ExactLabels(map[], others)
  }

  lemma FingerprintsAreApart(profile: string, mine: Spec, other: Spec)
    requires mine.fingerprint != other.fingerprint
    ensures Apart(LabelsOf(profile, mine), LabelsOf(profile, other))
  {
    forall actual | ExactLabels(actual, LabelsOf(profile, mine)) && ExactLabels(actual, LabelsOf(profile, other))
      ensures false
    {
      LabelsSeparateFingerprints(profile, actual, mine, other);
    }
    assert "minisky.ownership" in LabelsOf(profile, other);
  }

  /** What one fingerprint is permitted never touches a container of another, nor a volume of another
      unless somebody plants one of those within the call. */
  lemma PermittedSparesOthers(profile: string, event: Event, mine: Spec, other: Spec, quiet: bool,
                              planted: Labels -> bool, sparing: bool)
    requires mine.fingerprint != other.fingerprint
    requires Permitted(event, LabelsOf(profile, mine), quiet, planted, sparing)
    ensures !TouchesContainer(event, LabelsOf(profile, other))
    ensures quiet || PlantsNone(planted, LabelsOf(profile, other)) ==> !TouchesVolume(event, LabelsOf(profile, other))
  {
    FingerprintsAreApart(profile, mine, other);
  }

  /** Where a deletion finds its own volume, it can remove one of another fingerprint if and only if
      somebody may plant one of those within the call. */
  lemma RemovalHitsOtherIff(profile: string, mine: Spec, other: Spec, before: map<string, Volume>,
                            planted: Labels -> bool, name: string, identity: string,
                            identityOf: (string, Volume) -> string)
    requires mine.fingerprint != other.fingerprint
    requires name in before
      && AsksRemoval(VolumeFound(name, before[name]), name, LabelsOf(profile, mine), identity, identityOf)
    ensures (exists events, after ::
               && DeleteVolumeRun(before, planted, name, LabelsOf(profile, mine), identity, identityOf, events, after)
               && !SparesVolumes(events, 0, LabelsOf(profile, other)))
       <==> !PlantsNone(planted, LabelsOf(profile, other))
  {
    var labels, others := LabelsOf(profile, mine), LabelsOf(profile, other);
    FingerprintsAreApart(profile, mine, other);
    if actual :| planted(actual) && ExactLabels(actual, others) {
      RunHitsPlanted(labels, others, actual, before, planted, name, identity, identityOf);
    } else {
      forall events, after | DeleteVolumeRun(before, planted, name, labels, identity, identityOf, events, after)
        ensures SparesVolumes(events, 0, others)
      {
        RunSparesOthers(labels, others, before, planted, name, identity, identityOf, events, after);
      }
    }
  }

  /** The look finds the own volume, a planted one replaces it, and the removal takes that one. */
  lemma RunHitsPlanted(labels: Labels, others: Labels, actual: Labels, before: map<string, Volume>,
                       planted: Labels -> bool, name: string, identity: string,
                       identityOf: (string, Volume) -> string)
    requires name in before && AsksRemoval(VolumeFound(name, before[name]), name, labels, identity, identityOf)
    requires planted(actual) && ExactLabels(actual, others)
    ensures exists events, after :: DeleteVolumeRun(before, planted, name, labels, identity, identityOf, events, after)
                                    && !SparesVolumes(events, 0, others)
  {
    var atRemoval := before[name := Volume(actual, "", "")];
    var events, after := [VolumeRemoval(name, Some(actual))], atRemoval - {name};
    assert Interfered(before, before, planted) && Interfered(before, atRemoval, planted);
    assert RunsOn(VolumeFound(name, before[name]), before, atRemoval, name, labels, identity, identityOf, events,
                  after);
    assert DeleteVolumeRun(before, planted, name, labels, identity, identityOf, events, after);
    assert TouchesVolume(events[0], others);
  }

  /** Whatever the deletion finds: without planting it spares the volumes of other fingerprints. */
  lemma RunSparesOthers(labels: Labels, others: Labels, before: map<string, Volume>, planted: Labels -> bool,
                        name: string, identity: string, identityOf: (string, Volume) -> string, events: seq<Event>,
                        after: map<string, Volume>)
    requires Apart(labels, others) && PlantsNone(planted, others)
    requires DeleteVolumeRun(before, planted, name, labels, identity, identityOf, events, after)
    ensures SparesVolumes(events, 0, others)
  {
    var reply, atLook: map<string, Volume>, atRemoval: map<string, Volume> :|
      && Interfered(before, atLook, planted) && Interfered(atLook, atRemoval, planted)
      && RunsOn(reply, atLook, atRemoval, name, labels, identity, identityOf, events, after);
  }

  /** The same for the create: its mount can meet a volume of another fingerprint if and only if
      somebody may plant one of those between the look and the create. */
  lemma MountHitsOtherIff(profile: string, t: Target, other: Spec, before: map<string, Volume>,
                          planted: Labels -> bool)
    requires t.spec.fingerprint != other.fingerprint && t.labels == LabelsOf(profile, t.spec)
    requires t.volumeName in before && ExactLabels(before[t.volumeName].labels, t.labels)
    ensures (exists event, table :: && Interfered(before, table, planted) && MountsFrom(event, t, table)
                                    && TouchesVolume(event, LabelsOf(profile, other)))
       <==> !PlantsNone(planted, LabelsOf(profile, other))
  {
    FingerprintsAreApart(profile, t.spec, other);
    MountHits(t, LabelsOf(profile, other), before, planted);
  }

  lemma MountHits(t: Target, others: Labels, before: map<string, Volume>, planted: Labels -> bool)
    requires Apart(t.labels, others)
    requires t.volumeName in before && ExactLabels(before[t.volumeName].labels, t.labels)
    ensures (exists event, table :: && Interfered(before, table, planted) && MountsFrom(event, t, table)
                                    && TouchesVolume(event, others))
       <==> !PlantsNone(planted, others)
  {
    var mounts := [Mount("volume", t.volumeName, t.runtime.mountTarget)];
    if actual :| planted(actual) && ExactLabels(actual, others) {
      var table := before[t.volumeName := Volume(actual, "", "")];
      var event := Creation(Fixed(t.labels, t.spec.imageId, t.spec.imageId, mounts), None, MountLabels(mounts, table),
                            false);
      assert Interfered(before, table, planted) && MountsFrom(event, t, table);
      assert event.mounted[0] == actual && TouchesVolume(event, others);
    } else {
      forall event, table | Interfered(before, table, planted) && MountsFrom(event, t, table)
        ensures !TouchesVolume(event, others)
      {
        assert |event.mounted| == 1;
      }
    }
  }

  /** Such a run: the look finds the own volume, another fingerprint replaces it, and the removal takes
      that one. */
  lemma PlantedVolumeIsRemoved(profile: string, mine: Spec, other: Spec, name: string,
                               identityOf: (string, Volume) -> string)
    requires mine.fingerprint != other.fingerprint
    ensures var own := Volume(LabelsOf(profile, mine), "today", "/data");
            DeleteVolumeRun(map[name := own], actual => actual == LabelsOf(profile, other), name,
                            LabelsOf(profile, mine), identityOf(name, own), identityOf,
                            [VolumeRemoval(name, Some(LabelsOf(profile, other)))], map[])
  {
    var labels, others := LabelsOf(profile, mine), LabelsOf(profile, other);
    var own, planted := Volume(labels, "today", "/data"), actual => actual == others;
    var before, atRemoval := map[name := own], map[name := Volume(others, "today", "/data")];
    assert Interfered(before, before, planted) && Interfered(before, atRemoval, planted);
    assert atRemoval - {name} == map[];
    assert RunsOn(VolumeFound(name, own), before, atRemoval, name, labels, identityOf(name, own), identityOf,
                  [VolumeRemoval(name, Some(others))], map[]);
  }

  ghost predicate SparesContainers(log: seq<Event>, start: nat, labels: Labels) {
    forall k :: start <= k < |log| ==> !TouchesContainer(log[k], labels)
  }

  ghost predicate SparesVolumes(log: seq<Event>, start: nat, labels: Labels) {
    forall k :: start <= k < |log| ==> !TouchesVolume(log[k], labels)
  }

  ghost predicate RemovesNoVolume(log: seq<Event>, start: nat) {
    forall k :: start <= k < |log| ==> !log[k].VolumeRemoval?
  }

  lemma AllPermittedSpares(profile: string, log: seq<Event>, looks: seq<Look>, start: nat, mine: Spec, other: Spec,
                           quiet: bool, planted: Labels -> bool, sparing: bool)
    requires mine.fingerprint != other.fingerprint
    requires AllPermitted(log, looks, start, LabelsOf(profile, mine), quiet, planted, sparing)
    ensures SparesContainers(log, start, LabelsOf(profile, other))
    ensures quiet || PlantsNone(planted, LabelsOf(profile, other)) ==>
              SparesVolumes(log, start, LabelsOf(profile, other))
    ensures sparing ==> RemovesNoVolume(log, start)
  {
    forall k | start <= k < |log|
      ensures !TouchesContainer(log[k], LabelsOf(profile, other))
      ensures quiet || PlantsNone(planted, LabelsOf(profile, other)) ==>
                !TouchesVolume(log[k], LabelsOf(profile, other))
    {
      PermittedSparesOthers(profile, log[k], mine, other, quiet, planted, sparing);
    }
  }

  /** The event follows a look that found labels of one of the called specs. */
  ghost predicate Authorized(event: Event, at: nat, looks: seq<Look>, profile: string,
                             runtimeOf: string -> Option<Runtime>, calls: seq<Call>)
  {
    exists call :: call in calls && Resolve(runtimeOf, call.spec).Some?
                   && FollowsLook(event, at, looks, LabelsOf(profile, Resolve(runtimeOf, call.spec).value.spec))
  }

  ghost predicate AllAuthorized(log: seq<Event>, start: nat, looks: seq<Look>, profile: string,
                                runtimeOf: string -> Option<Runtime>, calls: seq<Call>)
  {
    forall k :: start <= k < |log| ==> Authorized(log[k], k, looks, profile, runtimeOf, calls)
  }

  method Perform(backend: Backend, profile: string, call: Call, ghost other: Spec)
    requires backend.Valid() && forall spec :: backend.labelsOf(spec) == LabelsOf(profile, spec)
    requires call.spec.fingerprint != other.fingerprint
    modifies backend.daemon
    ensures backend.Valid() && backend.daemon.Grew()
    ensures SparesContainers(backend.daemon.log, |old(backend.daemon.log)|, LabelsOf(profile, other))
    ensures backend.daemon.quiet || PlantsNone(backend.daemon.planted, LabelsOf(profile, other)) ==>
              SparesVolumes(backend.daemon.log, |old(backend.daemon.log)|, LabelsOf(profile, other))
    ensures !call.DeleteCall? ==> RemovesNoVolume(backend.daemon.log, |old(backend.daemon.log)|)
    ensures AllAuthorized(backend.daemon.log, |old(backend.daemon.log)|, backend.daemon.looks, profile,
                          backend.runtimeOf, [call])
  {
    ghost var resolved := Resolve(backend.runtimeOf, call.spec);
    match call {
      case ProvisionCall(spec) =>
        var _, _, _ := backend.Provision(spec);
      case ReconcileCall(spec) =>
        var _, _ := backend.Reconcile(spec);
      case DeleteCall(spec) =>
        var _ := backend.Delete(spec);
    }
    if resolved.Some? {
      assert call in [call];
      AllPermittedSpares(profile, backend.daemon.log, backend.daemon.looks, |old(backend.daemon.log)|,
                         resolved.value.spec, other, backend.daemon.quiet, backend.daemon.planted, !call.DeleteCall?);
    }
  }

  lemma AuthorizedGrows(event: Event, at: nat, looks1: seq<Look>, looks2: seq<Look>, profile: string,
                        runtimeOf: string -> Option<Runtime>, calls1: seq<Call>, calls2: seq<Call>)
    requires looks1 <= looks2 && forall call :: call in calls1 ==> call in calls2
    requires Authorized(event, at, looks1, profile, runtimeOf, calls1)
    ensures Authorized(event, at, looks2, profile, runtimeOf, calls2)
  {
    var call :| call in calls1 && Resolve(runtimeOf, call.spec).Some?
                && FollowsLook(event, at, looks1, LabelsOf(profile, Resolve(runtimeOf, call.spec).value.spec));
    SawGrows(event, at, looks1, looks2, LabelsOf(profile, Resolve(runtimeOf, call.spec).value.spec));
  }

  lemma AuthorizedChain(log0: seq<Event>, log1: seq<Event>, log2: seq<Event>, looks1: seq<Look>, looks2: seq<Look>,
                        profile: string, runtimeOf: string -> Option<Runtime>, calls: seq<Call>, call: Call)
    requires log0 <= log1 <= log2 && looks1 <= looks2 && call in calls
    requires AllAuthorized(log1, |log0|, looks1, profile, runtimeOf, calls)
    requires AllAuthorized(log2, |log1|, looks2, profile, runtimeOf, [call])
    ensures AllAuthorized(log2, |log0|, looks2, profile, runtimeOf, calls)
  {
    forall k | |log0| <= k < |log2| ensures Authorized(log2[k], k, looks2, profile, runtimeOf, calls) {
      if k < |log1| {
        assert log2[k] == log1[k];
        AuthorizedGrows(log1[k], k, looks1, looks2, profile, runtimeOf, calls, calls);
      } else {
        AuthorizedGrows(log2[k], k, looks2, looks2, profile, runtimeOf, [call], calls);
      }
    }
  }

  /** Any sequence of calls for other fingerprints, with other actors interfering between and within
      the calls: no container of this fingerprint is ever started or removed, and without a delete call
      no volume is removed at all. Nor is a volume of this fingerprint mounted or removed, even of the
      same instance, unless somebody plants one within a call. Every start and every removal directly
      follows, among the requests of these calls, a look that found labels of a called spec. */
  method AnySchedule(backend: Backend, profile: string, calls: seq<Call>, ghost other: Spec)
    requires backend.Valid() && forall spec :: backend.labelsOf(spec) == LabelsOf(profile, spec)
    requires forall i :: 0 <= i < |calls| ==> calls[i].spec.fingerprint != other.fingerprint
    modifies backend.daemon
    ensures backend.Valid() && backend.daemon.Grew()
    ensures SparesContainers(backend.daemon.log, |old(backend.daemon.log)|, LabelsOf(profile, other))
    ensures backend.daemon.quiet || PlantsNone(backend.daemon.planted, LabelsOf(profile, other)) ==>
              SparesVolumes(backend.daemon.log, |old(backend.daemon.log)|, LabelsOf(profile, other))
    ensures (forall i :: 0 <= i < |calls| ==> !calls[i].DeleteCall?) ==>
              RemovesNoVolume(backend.daemon.log, |old(backend.daemon.log)|)
    ensures AllAuthorized(backend.daemon.log, |old(backend.daemon.log)|, backend.daemon.looks, profile,
                          backend.runtimeOf, calls)
  {
    for i := 0 to |calls|
      invariant backend.Valid() && backend.daemon.Grew()
      invariant SparesContainers(backend.daemon.log, |old(backend.daemon.log)|, LabelsOf(profile, other))
      invariant backend.daemon.quiet || PlantsNone(backend.daemon.planted, LabelsOf(profile, other)) ==>
                  SparesVolumes(backend.daemon.log, |old(backend.daemon.log)|, LabelsOf(profile, other))
      invariant (forall j :: 0 <= j < |calls| ==> !calls[j].DeleteCall?) ==>
                  RemovesNoVolume(backend.daemon.log, |old(backend.daemon.log)|)
      invariant AllAuthorized(backend.daemon.log, |old(backend.daemon.log)|, backend.daemon.looks, profile,
                              backend.runtimeOf, calls)
    {
      backend.daemon.Interfere();
      ghost var log, looks := backend.daemon.log, backend.daemon.looks;
      Perform(backend, profile, calls[i], other);
      AuthorizedChain(old(backend.daemon.log), log, backend.daemon.log, looks, backend.daemon.looks, profile,
                      backend.runtimeOf, calls, calls[i]);
      assert forall k :: 0 <= k < |log| ==> backend.daemon.log[k] == log[k];
    }
  }
}
