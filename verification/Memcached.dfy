/** The Memcached backend: provision with compensation, reconcile and delete, against a daemon whose
    replies may be lost and whose names other actors may change between any two calls. */
module Memcached {
  import opened Options
  import opened OwnershipLabels
  import opened Docker

  const NAME_PREFIX := "minisky-memcached-"

  /** A changing request is permitted when it is aimed at an identity that was created with exactly
      these labels, and what it did, if anything, was done to such a container. */
  predicate Permitted(event: Event, birth: map<string, Fixed>, labels: Labels) {
    match event
    case Creation(fixed, _, _, _) => fixed.labels == labels && fixed.mounts == []
    case Start(id, started, _) =>
      id in birth && ExactLabels(birth[id].labels, labels) && (started.Some? ==> started.value == birth[id].labels)
    case Removal(id, removed) =>
      id in birth && ExactLabels(birth[id].labels, labels) && (removed.Some? ==> removed.value == birth[id].labels)
    case VolumeCreation(_) => false
    case VolumeRemoval(_, _) => false
  }

  ghost predicate AllPermitted(log: seq<Event>, start: nat, birth: map<string, Fixed>, labels: Labels) {
    forall k :: start <= k < |log| ==> Permitted(log[k], birth, labels)
  }

  lemma OnePermitted(log0: seq<Event>, log: seq<Event>, birth: map<string, Fixed>, labels: Labels)
    requires |log| == |log0| + 1 && Permitted(log[|log0|], birth, labels)
    ensures AllPermitted(log, |log0|, birth, labels)
  {}

  lemma PermittedChain(log0: seq<Event>, log1: seq<Event>, log2: seq<Event>, birth1: map<string, Fixed>,
                       birth2: map<string, Fixed>, labels: Labels)
    requires log0 <= log1 <= log2 && forall id :: id in birth1 ==> id in birth2 && birth2[id] == birth1[id]
    requires AllPermitted(log1, |log0|, birth1, labels) && AllPermitted(log2, |log1|, birth2, labels)
    ensures AllPermitted(log2, |log0|, birth2, labels)
  {
    forall k | |log0| <= k < |log2| ensures Permitted(log2[k], birth2, labels) {
      if k < |log1| { assert log2[k] == log1[k]; }
    }
  }

  /** The request at this position created the container with this new identity. */
  predicate Captures(log: seq<Event>, at: nat, id: string, birth: map<string, Fixed>) {
    at < |log| && log[at].Creation? && log[at].created == Some(id) && id !in birth
  }

  lemma ForeignChain(before: map<string, Container>, between: map<string, Container>, after: map<string, Container>,
                     labels: Labels)
    requires ForeignUntouched(before, between, labels) && ForeignUntouched(between, after, labels)
    ensures ForeignUntouched(before, after, labels)
  {}

  /** The containers this resource does not own are as they were. */
  predicate ForeignUntouched(before: map<string, Container>, after: map<string, Container>, labels: Labels) {
    forall id :: id in before && !ExactLabels(before[id].fixed.labels, labels) ==>
      id in after && after[id] == before[id]
  }

  /** memcachedDockerName; the digest is a parameter. */
  function DockerNameOf(digest: string -> string, profile: string, resource: string): (name: string)
    ensures !WellFormedId(name)
  {
    assert NAME_PREFIX[0] == 'm';
    var name := NAME_PREFIX + digest(profile + "\0" + resource);
    assert name[0] == 'm';
    name
  }

  /** memcachedLabels. */
  function LabelsOf(profile: string, resource: string): Labels {
    map["managed-by" := "minisky", "minisky.profile" := profile,
        "minisky.service" := "memorystore-memcached", "minisky.resource" := resource]
  }

  /** One start of this container was asked for if it was due, and nothing else. */
  predicate StartsIf(log0: seq<Event>, log: seq<Event>, id: string, due: bool) {
    if due then |log| == |log0| + 1 && log[|log0|].Start? && log[|log0|].id == id else log == log0
  }

  /** At most this container's state differs. */
  predicate OnlyContainer(before: map<string, Container>, after: map<string, Container>, id: string) {
    after.Keys == before.Keys && forall other :: other in before && other != id ==> after[other] == before[other]
  }

  class ServiceManager {
    const daemon: Daemon
    const DockerName: string -> string
    const OwnLabels: string -> Labels
    var uncertain: set<string>     // the keys of memcacheUncertain

    ghost predicate Valid()
      reads daemon
    {
      daemon.Valid() && forall resource :: !WellFormedId(DockerName(resource))
    }

    constructor (daemon: Daemon, profile: string, digest: string -> string)
      requires daemon.Valid()
      ensures Valid() && this.daemon == daemon && uncertain == {}
      ensures forall resource :: DockerName(resource) == DockerNameOf(digest, profile, resource)
      ensures forall resource :: OwnLabels(resource) == LabelsOf(profile, resource)
    {
      this.daemon, uncertain := daemon, {};
      DockerName := resource => DockerNameOf(digest, profile, resource);
      OwnLabels := resource => LabelsOf(profile, resource);
    }

    /** A reply that may be believed names a live container. */
    ghost predicate Known(id: string, container: Container)
      reads daemon
    {
      WellFormedId(id) && id in daemon.birth && daemon.birth[id] == container.fixed
    }

    /** The container is there. */
    ghost predicate Stands(id: string, container: Container)
      reads daemon
    {
      id in daemon.containers && daemon.containers[id] == container
    }

    /** inspectMemcachedContainer: a malformed identity is an error. */
    method Inspect(identity: string) returns (reply: InspectReply)
      requires Valid()
      modifies daemon
      ensures Valid() && daemon.Grew() && daemon.log == old(daemon.log)
      ensures daemon.quiet ==> daemon.Kept()
      ensures reply.Missing? ==> daemon.Resolve(identity) == None
      ensures reply.Found? ==> Known(reply.id, reply.container) && daemon.Resolve(identity) == Some(reply.id)
      ensures reply.Found? ==> reply.id in daemon.containers && daemon.containers[reply.id] == reply.container
      ensures daemon.answers ==> !reply.InspectFailed?
    {
      reply := daemon.Inspect(identity);
      if reply.Found? && !WellFormedId(reply.id) {
        reply := InspectFailed;
      }
    }

    /** The checks activateMemcachedContainer makes before and after a start. */
    predicate Acceptable(container: Container, resource: string, image: string) {
      ExactLabels(container.fixed.labels, OwnLabels(resource)) && container.fixed.image == image
    }

    /** A start of it is due, or it can be brought to serve at all. */
    predicate IsDue(container: Container, resource: string, image: string) {
      image != "" && Acceptable(container, resource, image) && IsStopped(container)
    }

    predicate IsRevivable(container: Container, resource: string, image: string) {
      image != "" && Acceptable(container, resource, image) && (IsStopped(container) || IsServing(container))
    }

    /** Whether the container under the name is reported as owned, and what is asked of the daemon. */
    ghost predicate Revives(before: map<string, Container>, names: map<string, string>, log0: seq<Event>,
                            log: seq<Event>, resource: string, image: string, owned: bool)
    {
      var name := DockerName(resource);
      name in names && names[name] in before ==>
        var found := before[names[name]];
        && (owned <==> ExactLabels(found.fixed.labels, OwnLabels(resource)))
        && StartsIf(log0, log, names[name], IsDue(found, resource, image))
    }

    /** Whether it can be brought to serve. */
    predicate CanServe(before: map<string, Container>, names: map<string, string>, resource: string, image: string) {
      var name := DockerName(resource);
      name in names && names[name] in before && IsRevivable(before[names[name]], resource, image)
    }

    /** The last thing that happened is that a running container of this resource was found ready at this
        endpoint. */
    ghost predicate IsProbed(looks: seq<Look>, at: nat, resource: string, image: string, endpoint: Binding) {
      exists look ::
        && look in looks && look.ReadyLook? && look.at == at && look.container.status == "running"
        && Acceptable(look.container, resource, image) && Endpoint(look.container) == Some(endpoint)
    }

    /** Start a stopped container and look again. */
    method Restart(id: string, resource: string, image: string) returns (running: Option<Container>)
      requires Valid() && id in daemon.birth && WellFormedId(id)
        && ExactLabels(daemon.birth[id].labels, OwnLabels(resource))
      modifies daemon
      ensures Valid() && daemon.Grew()
      ensures |daemon.log| == |old(daemon.log)| + 1 && daemon.log[|old(daemon.log)|].Start?
      ensures Permitted(daemon.log[|old(daemon.log)|], daemon.birth, OwnLabels(resource))
      ensures daemon.quiet ==> && daemon.names == old(daemon.names) && daemon.birth == old(daemon.birth)
                               && OnlyContainer(old(daemon.containers), daemon.containers, id)
      ensures running.Some? ==> Acceptable(running.value, resource, image) && daemon.log[|old(daemon.log)|].told
      ensures daemon.quiet && id in old(daemon.containers) && running.Some? ==> daemon.containers[id] == running.value
      ensures daemon.log[|old(daemon.log)|].id == id
      ensures daemon.Obliges() && id in old(daemon.containers) ==>
                Acceptable(old(daemon.containers[id]), resource, image) ==>
                  running.Some? && IsServing(running.value)
    {
      var started := daemon.StartContainer(id);
      if !started {
        return None;
      }
      var reply := Inspect(id);
      if !reply.Found? || !Acceptable(reply.container, resource, image) {
        return None;
      }
      return Some(reply.container);
    }

    /** Start a container that is not running yet. */
    method Wake(id: string, container: Container, resource: string, image: string) returns (running: Option<Container>)
      requires Valid() && Known(id, container) && Acceptable(container, resource, image)
      modifies daemon
      ensures Valid() && daemon.Grew()
      ensures AllPermitted(daemon.log, |old(daemon.log)|, daemon.birth, OwnLabels(resource))
      ensures forall k :: |old(daemon.log)| <= k < |daemon.log| ==> daemon.log[k].Start?
      ensures daemon.quiet ==> && daemon.names == old(daemon.names) && daemon.birth == old(daemon.birth)
                               && OnlyContainer(old(daemon.containers), daemon.containers, id)
      ensures running.Some? ==> Acceptable(running.value, resource, image)
      ensures StartsIf(old(daemon.log), daemon.log, id, IsStopped(container))
      ensures IsStopped(container) && running.Some? ==> daemon.log[|old(daemon.log)|].told
      ensures daemon.quiet && running.Some? && old(Stands(id, container)) ==>
                  daemon.containers[id] == running.value
      ensures !IsStopped(container) ==> running == Some(container)
      ensures daemon.Obliges() && old(Stands(id, container)) && IsStopped(container) ==>
                running.Some? && IsServing(running.value)
    {
      if container.status == "created" || container.status == "exited" {
        running := Restart(id, resource, image);
        assert Permitted(daemon.log[|old(daemon.log)|], daemon.birth, OwnLabels(resource));
      } else {
        running := Some(container);
      }
    }

    /** activateMemcachedContainer: start a stopped container, look again, then probe it. */
    method Activate(id: string, container: Container, resource: string, image: string)
      returns (endpoint: Option<Binding>)
      requires Valid() && Known(id, container)
      modifies daemon
      ensures Valid() && daemon.Grew()
      ensures AllPermitted(daemon.log, |old(daemon.log)|, daemon.birth, OwnLabels(resource))
      ensures endpoint.Some? ==> IsProbed(daemon.looks, |daemon.log|, resource, image, endpoint.value)
      ensures forall k :: |old(daemon.log)| <= k < |daemon.log| ==> daemon.log[k].Start?
      ensures daemon.quiet ==> && daemon.names == old(daemon.names) && daemon.birth == old(daemon.birth)
                               && OnlyContainer(old(daemon.containers), daemon.containers, id)
      ensures daemon.quiet && !ExactLabels(container.fixed.labels, OwnLabels(resource)) ==> unchanged(daemon)
      ensures endpoint.Some? ==> Acceptable(container, resource, image)
      ensures StartsIf(old(daemon.log), daemon.log, id, IsDue(container, resource, image))
      ensures endpoint.Some? && IsDue(container, resource, image) ==> daemon.log[|old(daemon.log)|].told
      ensures daemon.quiet && endpoint.Some? && old(Stands(id, container)) ==>
                  Serves(daemon.containers, id, resource, image, endpoint.value)
      ensures daemon.Obliges() && old(Stands(id, container)) ==>
                (endpoint.Some? <==> IsRevivable(container, resource, image))
    {
      if image == "" || !Acceptable(container, resource, image) {
        return None;
      }
      var running := Wake(id, container, resource, image);
      if running.None? || running.value.status != "running" {
        return None;
      }
      var ready := daemon.Probe(running.value);
      return if ready then Endpoint(running.value) else None;
    }

    /** Owned, of the requested image, running, and reachable at this endpoint. */
    predicate Serves(containers: map<string, Container>, id: string, resource: string, image: string,
                     endpoint: Binding)
    {
      && id in containers && ExactLabels(containers[id].fixed.labels, OwnLabels(resource))
      && containers[id].fixed.image == image && containers[id].status == "running"
      && containers[id].bindings == [endpoint] && endpoint.loopback && 1 <= endpoint.port <= 65535
    }

    /** provisionMemcache; None is an error. */
    method Provision(resource: string, image: string)
      returns (endpoint: Option<Binding>, owned: bool, exists_: bool, ghost captured: Option<string>)
      requires Valid()
      modifies this, daemon
      ensures Valid() && daemon.Grew()
      // Whatever other actors do, every start and every removal is aimed at a container created for
      // this resource.
      ensures AllPermitted(daemon.log, |old(daemon.log)|, daemon.birth, OwnLabels(resource))
      ensures owned ==> exists_
      ensures endpoint.Some? ==> IsProbed(daemon.looks, |daemon.log|, resource, image, endpoint.value)
      ensures uncertain - {resource} == old(uncertain) - {resource}
      ensures endpoint.Some? ==> owned && exists_
      // A failure that reports absence has removed the container whose identity the create returned.
      ensures captured.Some? ==> Captures(daemon.log, |old(daemon.log)|, captured.value, old(daemon.birth))
      ensures captured.Some? && endpoint.None? && !exists_ ==> captured.value !in daemon.containers
      // Without interference: nobody else's container changes, a success serves what was asked for,
      // and a failure that reports absence has left nothing behind.
      ensures daemon.quiet ==> ForeignUntouched(old(daemon.containers), daemon.containers, OwnLabels(resource))
      ensures daemon.quiet && endpoint.Some? ==>
                && DockerName(resource) in daemon.names
                && Serves(daemon.containers, daemon.names[DockerName(resource)], resource, image, endpoint.value)
                && (DockerName(resource) in old(daemon.names) ==> resource !in uncertain)
      ensures daemon.quiet && endpoint.None? && !exists_ ==>
                daemon.containers == old(daemon.containers) && daemon.names == old(daemon.names)
      // If looks are answered as well: a stopped container of the resource is started, another is left
      // alone, and one that was created behind a lost reply is found and started.
      ensures daemon.Shows() && DockerName(resource) in old(daemon.names) ==>
                exists_ && Revives(old(daemon.containers), old(daemon.names), old(daemon.log), daemon.log, resource,
                                   image, owned)
      ensures daemon.Shows() && DockerName(resource) !in old(daemon.names) && captured.None? ==>
                daemon.log != old(daemon.log) ==>
                  Recovers(old(daemon.log), daemon.log, endpoint, owned, exists_)
      ensures daemon.Shows() && DockerName(resource) !in old(daemon.names) && image == "" ==>
                endpoint.None? && !owned && !exists_ && daemon.log == old(daemon.log)
      // If every request works, there is a success exactly where there can be one.
      ensures daemon.Obliges() && DockerName(resource) in old(daemon.names) ==>
                (endpoint.Some? <==> CanServe(old(daemon.containers), old(daemon.names), resource, image))
      ensures daemon.Obliges() && DockerName(resource) !in old(daemon.names) && daemon.CanIssue(old(daemon.birth)) ==>
                (endpoint.Some? <==> image != "")
    {
      captured := None;
      var reply := Inspect(DockerName(resource));
      match reply {
        case InspectFailed => return None, false, false, None;
        case Found(id, container) => endpoint, owned, exists_ := Adopt(id, container, resource, image);
        case Missing =>
          var imageId := daemon.InspectImage(image);
          if image == "" || imageId.None? {
            return None, false, false, None;
          }
          endpoint, owned, exists_, captured := CreateNew(resource, image);
      }
    }

    /** The branch of provisionMemcache that found a container under the name. */
    method Adopt(id: string, container: Container, resource: string, image: string)
      returns (endpoint: Option<Binding>, owned: bool, exists_: bool)
      requires Valid() && Known(id, container)
      modifies this, daemon
      ensures Valid() && daemon.Grew()
      ensures AllPermitted(daemon.log, |old(daemon.log)|, daemon.birth, OwnLabels(resource))
      ensures endpoint.Some? ==> IsProbed(daemon.looks, |daemon.log|, resource, image, endpoint.value)
      ensures uncertain - {resource} == old(uncertain) - {resource}
      ensures exists_ && (endpoint.Some? ==> owned && resource !in uncertain)
      ensures endpoint.None? && owned ==> resource in uncertain
      ensures owned <==> ExactLabels(container.fixed.labels, OwnLabels(resource))
      ensures StartsIf(old(daemon.log), daemon.log, id, IsDue(container, resource, image))
      ensures daemon.Obliges() && old(Stands(id, container)) ==>
                (endpoint.Some? <==> IsRevivable(container, resource, image))
      ensures daemon.quiet ==> && daemon.containers.Keys == old(daemon.containers).Keys
                               && daemon.names == old(daemon.names)
                               && ForeignUntouched(old(daemon.containers), daemon.containers, OwnLabels(resource))
      ensures daemon.quiet && endpoint.Some? && old(Stands(id, container)) ==>
                  Serves(daemon.containers, id, resource, image, endpoint.value)
    {
      exists_ := true;
      owned := ExactLabels(container.fixed.labels, OwnLabels(resource));
      endpoint := Activate(id, container, resource, image);
      if endpoint.None? && owned {
        uncertain := uncertain + {resource};
      }
      if endpoint.Some? {
        uncertain := uncertain - {resource};
      }
    }

    /** After a create without a usable reply: what it created, if anything, is found, owned, and started. */
    ghost predicate Recovers(log0: seq<Event>, log: seq<Event>, endpoint: Option<Binding>, owned: bool, exists_: bool) {
      && |log| > |log0| && log[|log0|].Creation?
      && match log[|log0|].created
         case None => endpoint.None? && !owned && !exists_ && |log| == |log0| + 1
         case Some(id) =>
           && owned && exists_ && |log| == |log0| + 2 && log[|log0| + 1].Start? && log[|log0| + 1].id == id
    }

    /** The branch that creates, with the deferred compensation once an identity was captured. */
    method CreateNew(resource: string, image: string)
      returns (endpoint: Option<Binding>, owned: bool, exists_: bool, ghost captured: Option<string>)
      requires Valid() && (daemon.quiet ==> DockerName(resource) !in daemon.names)
      modifies this, daemon
      ensures Valid() && daemon.Grew()
      ensures AllPermitted(daemon.log, |old(daemon.log)|, daemon.birth, OwnLabels(resource))
      ensures owned ==> exists_
      ensures endpoint.Some? ==> IsProbed(daemon.looks, |daemon.log|, resource, image, endpoint.value)
      ensures uncertain - {resource} == old(uncertain) - {resource}
      ensures endpoint.Some? ==> owned && exists_
      ensures captured.Some? ==> Captures(daemon.log, |old(daemon.log)|, captured.value, old(daemon.birth))
      ensures captured.Some? && endpoint.None? && !exists_ ==> captured.value !in daemon.containers
      ensures daemon.quiet ==> ForeignUntouched(old(daemon.containers), daemon.containers, OwnLabels(resource))
      ensures daemon.quiet && endpoint.Some? ==>
                && DockerName(resource) in daemon.names
                && Serves(daemon.containers, daemon.names[DockerName(resource)], resource, image, endpoint.value)
      ensures daemon.quiet && endpoint.None? && !exists_ ==>
                daemon.containers == old(daemon.containers) && daemon.names == old(daemon.names)
      ensures |daemon.log| > |old(daemon.log)|
      ensures daemon.Shows() && DockerName(resource) !in old(daemon.names) && image != "" && captured.None? ==>
                Recovers(old(daemon.log), daemon.log, endpoint, owned, exists_)
      ensures daemon.Obliges() && image != "" && daemon.CanIssue(old(daemon.birth)) ==> endpoint.Some?
    {
      ghost var before, names, log := daemon.containers, daemon.names, daemon.log;
      var create := daemon.Create(DockerName(resource), Fixed(OwnLabels(resource), image, "", []));
      ghost var between, birth, log' := daemon.containers, daemon.birth, daemon.log;
      assert AllPermitted(log', |log|, birth, OwnLabels(resource));
      assert daemon.quiet ==> ForeignUntouched(before, between, OwnLabels(resource));
      ghost var created := log'[|log|].created;
      endpoint, owned, exists_, captured := Continue(create, created, resource, image);
      if daemon.quiet && endpoint.None? && !exists_ && captured.Some? {
        DropRestores(before, names, captured.value, DockerName(resource), between[captured.value], daemon.containers,
                     daemon.names);
      }
      PermittedChain(log, log', daemon.log, birth, daemon.birth, OwnLabels(resource));
      if daemon.quiet { ForeignChain(before, between, daemon.containers, OwnLabels(resource)); }
    }

    /** What a create has left, if it created this container. */
    ghost predicate IsCreated(created: Option<string>, resource: string, image: string)
      reads daemon
    {
      var name := DockerName(resource);
      match created
      case None => name !in daemon.names
      case Some(id) =>
        && name in daemon.names && daemon.names[name] == id && id in daemon.containers
        && daemon.containers[id] == Container(Fixed(OwnLabels(resource), image, "", []), "created", [])
    }

    /** The part that follows the reply to the create. */
    method Continue(create: CreateReply, ghost created: Option<string>, resource: string, image: string)
      returns (endpoint: Option<Binding>, owned: bool, exists_: bool, ghost captured: Option<string>)
      requires Valid() && (daemon.quiet ==> IsCreated(created, resource, image))
      requires create.Accepted? && WellFormedId(create.id) ==> created == Some(create.id)
      modifies this, daemon
      ensures Valid() && daemon.Grew()
      ensures AllPermitted(daemon.log, |old(daemon.log)|, daemon.birth, OwnLabels(resource))
      ensures owned ==> exists_
      ensures endpoint.Some? ==> IsProbed(daemon.looks, |daemon.log|, resource, image, endpoint.value)
      ensures uncertain - {resource} == old(uncertain) - {resource}
      ensures endpoint.Some? ==> owned && exists_
      ensures captured == if create.Accepted? && WellFormedId(create.id) then Some(create.id) else None
      ensures captured.Some? && endpoint.None? && !exists_ ==> captured.value !in daemon.containers
      ensures daemon.quiet ==> ForeignUntouched(old(daemon.containers), daemon.containers, OwnLabels(resource))
      ensures daemon.quiet && endpoint.Some? ==>
                && DockerName(resource) in daemon.names
                && Serves(daemon.containers, daemon.names[DockerName(resource)], resource, image, endpoint.value)
      ensures daemon.quiet && endpoint.None? && !exists_ ==>
                if captured.Some? then
                  Dropped(old(daemon.containers), old(daemon.names), daemon.containers, daemon.names, captured.value)
                else
                  && created.None? && daemon.containers == old(daemon.containers) && daemon.names == old(daemon.names)
      ensures daemon.Shows() && captured.None? && created.None? ==>
                endpoint.None? && !owned && !exists_ && daemon.log == old(daemon.log)
      ensures daemon.Shows() && captured.None? && created.Some? && image != "" ==>
                owned && exists_ && StartsIf(old(daemon.log), daemon.log, created.value, true)
      ensures daemon.Obliges() && captured.Some? && !create.closeFailed && image != "" ==> endpoint.Some?
    {
      if !create.Accepted? || !WellFormedId(create.id) {
        captured := None;
        endpoint, owned, exists_ := Recover(resource, image);
      } else {
        captured := Some(create.id);
        endpoint, owned, exists_ := Finish(create.id, create.closeFailed, resource, image);
      }
    }

    /** Activate the captured identity, or compensate. */
    method Finish(captured: string, closeFailed: bool, resource: string, image: string)
      returns (endpoint: Option<Binding>, owned: bool, exists_: bool)
      requires Valid() && WellFormedId(captured)
      modifies daemon
      ensures Valid() && daemon.Grew()
      ensures AllPermitted(daemon.log, |old(daemon.log)|, daemon.birth, OwnLabels(resource))
      ensures owned ==> exists_
      ensures endpoint.Some? ==> IsProbed(daemon.looks, |daemon.log|, resource, image, endpoint.value)
      ensures endpoint.Some? ==> owned && exists_
      ensures endpoint.None? && !exists_ ==> captured !in daemon.containers
      ensures daemon.quiet ==> ForeignUntouched(old(daemon.containers), daemon.containers, OwnLabels(resource))
      ensures daemon.quiet && endpoint.Some? && captured in old(daemon.containers) ==>
                daemon.names == old(daemon.names)
                  && Serves(daemon.containers, captured, resource, image, endpoint.value)
      ensures daemon.quiet && endpoint.None? && !exists_ && captured in old(daemon.containers) ==>
                Dropped(old(daemon.containers), old(daemon.names), daemon.containers, daemon.names, captured)
      ensures closeFailed ==> endpoint.None?
      ensures daemon.Obliges() && captured in old(daemon.containers) ==>
                if !closeFailed && IsRevivable(old(daemon.containers[captured]), resource, image) then endpoint.Some?
                else
                  endpoint.None?
                  && (ExactLabels(old(daemon.containers[captured]).fixed.labels, OwnLabels(resource)) <==> !exists_)
    {
      endpoint := None;
      if !closeFailed {
        var created := Inspect(captured);
        if created.Found? {
          endpoint := Activate(created.id, created.container, resource, image);
        }
      }
      if endpoint.Some? {
        return endpoint, true, true;
      }
      owned, exists_ := Compensate(captured, resource);
    }

    /** recoverUncapturedMemcacheCreate: the create may or may not have happened. */
    method Recover(resource: string, image: string) returns (endpoint: Option<Binding>, owned: bool, exists_: bool)
      requires Valid()
      modifies this, daemon
      ensures Valid() && daemon.Grew()
      ensures AllPermitted(daemon.log, |old(daemon.log)|, daemon.birth, OwnLabels(resource))
      ensures owned ==> exists_
      ensures endpoint.Some? ==> IsProbed(daemon.looks, |daemon.log|, resource, image, endpoint.value)
      ensures uncertain - {resource} == old(uncertain) - {resource}
      ensures endpoint.Some? ==> owned && exists_
      ensures endpoint.None? && owned ==> resource in uncertain
      ensures endpoint.Some? || !owned ==> resource !in uncertain
      ensures daemon.quiet ==> && daemon.containers.Keys == old(daemon.containers).Keys
                               && daemon.names == old(daemon.names)
                               && ForeignUntouched(old(daemon.containers), daemon.containers, OwnLabels(resource))
      ensures daemon.quiet && !exists_ ==>
                DockerName(resource) !in daemon.names && daemon.containers == old(daemon.containers)
      ensures daemon.Shows() && DockerName(resource) !in old(daemon.names) ==>
                endpoint.None? && !owned && !exists_ && daemon.log == old(daemon.log)
      ensures daemon.Shows() && DockerName(resource) in old(daemon.names) ==>
                exists_ && Revives(old(daemon.containers), old(daemon.names), old(daemon.log), daemon.log, resource,
                                   image, owned)
      ensures daemon.quiet && endpoint.Some? ==>
                && DockerName(resource) in daemon.names
                && Serves(daemon.containers, daemon.names[DockerName(resource)], resource, image, endpoint.value)
      ensures daemon.Obliges() && DockerName(resource) in old(daemon.names) ==>
                (endpoint.Some? <==> CanServe(old(daemon.containers), old(daemon.names), resource, image))
    {
      endpoint := None;
      var reply := Inspect(DockerName(resource));
      if reply.InspectFailed? {
        uncertain := uncertain + {resource};
        return None, true, true;
      }
      if reply.Missing? {
        uncertain := uncertain - {resource};
        return None, false, false;
      }
      if !ExactLabels(reply.container.fixed.labels, OwnLabels(resource)) {
        uncertain := uncertain - {resource};
        return None, false, true;
      }
      endpoint := Activate(reply.id, reply.container, resource, image);
      uncertain := if endpoint.None? then uncertain + {resource} else uncertain - {resource};
      return endpoint, true, true;
    }

    /** The removal of a container that was inspected to be this resource's. */
    method RemoveOwned(id: string, resource: string) returns (ok: bool)
      requires Valid() && WellFormedId(id) && id in daemon.birth
        && ExactLabels(daemon.birth[id].labels, OwnLabels(resource))
      modifies daemon
      ensures Valid() && daemon.Grew() && |daemon.log| == |old(daemon.log)| + 1
      ensures Permitted(daemon.log[|old(daemon.log)|], daemon.birth, OwnLabels(resource))
      ensures daemon.log[|old(daemon.log)|].Removal? && daemon.log[|old(daemon.log)|].id == id
      ensures ok ==> id !in daemon.containers
      ensures daemon.obliging ==> ok
      ensures daemon.quiet ==> ForeignUntouched(old(daemon.containers), daemon.containers, OwnLabels(resource))
      ensures daemon.quiet && ok ==>
        Dropped(old(daemon.containers), old(daemon.names), daemon.containers, daemon.names, id)
    {
      ok := daemon.Remove(id);
    }

    /** compensateMemcacheCreate: only the captured identity, only if it is still ours. */
    method Compensate(captured: string, resource: string) returns (owned: bool, exists_: bool)
      requires Valid()
      modifies daemon
      ensures Valid() && daemon.Grew()
      ensures AllPermitted(daemon.log, |old(daemon.log)|, daemon.birth, OwnLabels(resource))
      ensures !exists_ ==> !owned && captured !in daemon.containers
      ensures daemon.quiet ==> ForeignUntouched(old(daemon.containers), daemon.containers, OwnLabels(resource))
      ensures daemon.quiet && !exists_ ==>
                Dropped(old(daemon.containers), old(daemon.names), daemon.containers, daemon.names, captured)
      ensures daemon.Shows() && WellFormedId(captured) && captured in old(daemon.containers) ==>
                if ExactLabels(old(daemon.containers[captured]).fixed.labels, OwnLabels(resource)) then
                  && |daemon.log| == |old(daemon.log)| + 1 && daemon.log[|old(daemon.log)|].Removal?
                  && daemon.log[|old(daemon.log)|].id == captured
                else !owned && exists_ && daemon.log == old(daemon.log)
      ensures daemon.Obliges() && WellFormedId(captured) && captured in old(daemon.containers) ==>
                (ExactLabels(old(daemon.containers[captured]).fixed.labels, OwnLabels(resource)) <==> !exists_)
    {
      if !WellFormedId(captured) {
        return true, true;
      }
      var reply := Inspect(captured);
      match reply {
        case InspectFailed => return true, true;
        case Missing => return false, false;
        case Found(id, container) =>
          if !ExactLabels(container.fixed.labels, OwnLabels(resource)) {
            return false, true;
          }
          if id != captured {
            return true, true;
          }
          ghost var log := daemon.log;
          var removed := RemoveOwned(id, resource);
          OnePermitted(log, daemon.log, daemon.birth, OwnLabels(resource));
          if !removed {
            return true, true;
          }
          return false, false;
      }
    }

    /** reconcileMemcache: it creates nothing and removes nothing. The flag ok is false on an error. */
    method Reconcile(resource: string, image: string)
      returns (endpoint: Option<Binding>, owned: bool, exists_: bool, ok: bool)
      requires Valid()
      modifies this, daemon
      ensures Valid() && daemon.Grew()
      ensures AllPermitted(daemon.log, |old(daemon.log)|, daemon.birth, OwnLabels(resource))
      ensures owned ==> exists_
      ensures endpoint.Some? ==> IsProbed(daemon.looks, |daemon.log|, resource, image, endpoint.value)
      ensures forall k :: |old(daemon.log)| <= k < |daemon.log| ==> daemon.log[k].Start?
      ensures uncertain - {resource} == old(uncertain) - {resource}
      ensures owned && !ok ==> resource in uncertain
      ensures ok || (exists_ && !owned) ==> resource !in uncertain
      ensures ok ==> (endpoint.Some? <==> exists_)
      ensures daemon.quiet ==> && daemon.containers.Keys == old(daemon.containers).Keys
                               && daemon.names == old(daemon.names)
                               && ForeignUntouched(old(daemon.containers), daemon.containers, OwnLabels(resource))
      ensures daemon.quiet && exists_ ==> DockerName(resource) in daemon.names
      ensures daemon.quiet && ok && !exists_ ==> DockerName(resource) !in daemon.names
      ensures endpoint.Some? ==> ok && owned && exists_
      ensures daemon.quiet && endpoint.Some? ==>
                && DockerName(resource) in daemon.names
                && Serves(daemon.containers, daemon.names[DockerName(resource)], resource, image, endpoint.value)
      // If looks are answered as well: a stopped container of the resource is started, another is left
      // alone; and if every request works, there is a success exactly where there can be one.
      ensures daemon.Shows() && DockerName(resource) in old(daemon.names) ==>
                exists_ && Revives(old(daemon.containers), old(daemon.names), old(daemon.log), daemon.log, resource,
                                   image, owned)
      ensures daemon.Shows() && DockerName(resource) !in old(daemon.names) ==>
                ok && !owned && !exists_ && daemon.log == old(daemon.log)
      ensures daemon.Obliges() && DockerName(resource) in old(daemon.names) ==>
                (ok <==> CanServe(old(daemon.containers), old(daemon.names), resource, image))
    {
      endpoint, owned, exists_, ok := None, false, false, false;
      var reply := Inspect(DockerName(resource));
      match reply {
        case InspectFailed => return;
        case Missing =>
          uncertain := uncertain - {resource};
          return None, false, false, true;
        case Found(id, container) =>
          if !ExactLabels(container.fixed.labels, OwnLabels(resource)) {
            uncertain := uncertain - {resource};
            return None, false, true, false;
          }
          endpoint := Activate(id, container, resource, image);
          if endpoint.None? {
            uncertain := uncertain + {resource};
            return None, true, true, false;
          }
          uncertain := uncertain - {resource};
          return endpoint, true, true, true;
      }
    }

    /** Under a free name there is nothing to do; the removal of an owned container is asked for, and another
        is refused. */
    ghost predicate Deletes(before: map<string, Container>, names: map<string, string>, log0: seq<Event>,
                            log: seq<Event>, resource: string, ok: bool)
    {
      var name := DockerName(resource);
      if name !in names then ok && log == log0
      else
        names[name] in before ==>
          if ExactLabels(before[names[name]].fixed.labels, OwnLabels(resource)) then
            && |log| == |log0| + 1 && log[|log0|].Removal? && log[|log0|].id == names[name]
            && (daemon.obliging ==> ok)
          else !ok && log == log0
    }

    /** DeleteMemcache. */
    method Delete(resource: string) returns (ok: bool)
      requires Valid()
      modifies daemon
      ensures Valid() && daemon.Grew()
      // While ownership is uncertain nothing is asked of the daemon at all.
      ensures resource in uncertain ==> !ok && unchanged(daemon)
      ensures AllPermitted(daemon.log, |old(daemon.log)|, daemon.birth, OwnLabels(resource))
      ensures |daemon.log| <= |old(daemon.log)| + 1
      ensures forall k :: |old(daemon.log)| <= k < |daemon.log| ==> daemon.log[k].Removal?
      ensures daemon.quiet ==> ForeignUntouched(old(daemon.containers), daemon.containers, OwnLabels(resource))
      ensures daemon.quiet && ok ==> DockerName(resource) !in daemon.names
      ensures daemon.Shows() && resource !in uncertain ==>
                Deletes(old(daemon.containers), old(daemon.names), old(daemon.log), daemon.log, resource, ok)
    {
      if resource in uncertain {
        return false;
      }
      ok := DeleteByName(resource);
    }

    method DeleteByName(resource: string) returns (ok: bool)
      requires Valid()
      modifies daemon
      ensures Valid() && daemon.Grew()
      ensures daemon.log == old(daemon.log)
              || (|daemon.log| == |old(daemon.log)| + 1 && daemon.log[|old(daemon.log)|].Removal?)
      ensures AllPermitted(daemon.log, |old(daemon.log)|, daemon.birth, OwnLabels(resource))
      ensures daemon.quiet ==> ForeignUntouched(old(daemon.containers), daemon.containers, OwnLabels(resource))
      ensures daemon.quiet && ok ==> DockerName(resource) !in daemon.names
      ensures daemon.Shows() ==>
                Deletes(old(daemon.containers), old(daemon.names), old(daemon.log), daemon.log, resource, ok)
    {
      var reply := Inspect(DockerName(resource));
      if reply.InspectFailed? {
        return false;
      }
      if reply.Missing? {
        return true;
      }
      if !ExactLabels(reply.container.fixed.labels, OwnLabels(resource)) {
        return false;
      }
      ghost var log, names := daemon.log, daemon.names;
      ok := RemoveOwned(reply.id, resource);
      OnePermitted(log, daemon.log, daemon.birth, OwnLabels(resource));
      assert names[DockerName(resource)] == reply.id;
    }
  }

  /** Labels that are exactly those of one resource of one profile are not exactly another's. */
  lemma LabelsIdentifyResource(profile: string, actual: Labels, resource: string, other: string, another: string)
    requires ExactLabels(actual, LabelsOf(profile, resource)) && ExactLabels(actual, LabelsOf(other, another))
    ensures profile == other && resource == another
  {
    assert LabelsOf(profile, resource)["minisky.resource"] == resource;
    assert LabelsOf(other, another)["minisky.resource"] == another;
    assert LabelsOf(profile, resource)["minisky.profile"] == profile;
    assert LabelsOf(other, another)["minisky.profile"] == other;
  }

  /** With a digest that keeps texts apart, two resources have two names, also across profiles. */
  lemma NamesIdentifyResource(digest: string -> string, profile: string, resource: string, other: string,
                              another: string)
    requires forall a, b :: digest(a) == digest(b) ==> a == b
    requires '\0' !in profile && '\0' !in other
    requires DockerNameOf(digest, profile, resource) == DockerNameOf(digest, other, another)
    ensures profile == other && resource == another
  {
    var x, y := digest(profile + "\0" + resource), digest(other + "\0" + another);
    assert x == (NAME_PREFIX + x)[|NAME_PREFIX|..] && y == (NAME_PREFIX + y)[|NAME_PREFIX|..];
    SplitAtZero(profile, resource, other, another);
  }

  lemma SplitAtZero(profile: string, resource: string, other: string, another: string)
    requires '\0' !in profile && '\0' !in other && profile + "\0" + resource == other + "\0" + another
    ensures profile == other && resource == another
  {
    var x, y := profile + "\0" + resource, other + "\0" + another;
    assert x[|profile|] == '\0' && y[|other|] == '\0';
    forall k | 0 <= k < |profile| ensures x[k] != '\0' {
      assert x[k] == profile[k] && profile[k] in profile;
    }
    forall k | 0 <= k < |other| ensures y[k] != '\0' {
      assert y[k] == other[k] && other[k] in other;
    }
    assert x[..|profile|] == profile && y[..|other|] == other;
    assert x[|profile| + 1..] == resource && y[|other| + 1..] == another;
  }

  datatype Call =
    | ProvisionCall(resource: string, image: string)
    | ReconcileCall(resource: string, image: string)
    | DeleteCall(resource: string)

  ghost predicate Authorized(event: Event, birth: map<string, Fixed>, calls: seq<Call>, ownLabels: string -> Labels) {
    exists call :: call in calls && Permitted(event, birth, ownLabels(call.resource))
  }

  /** Any schedule of calls, with other actors interfering between and within them: every start and
      every removal in the whole log is aimed at an identity created for one of these resources. */
  method AnySchedule(manager: ServiceManager, calls: seq<Call>)
    requires manager.Valid()
    modifies manager, manager.daemon
    ensures manager.Valid() && manager.daemon.Grew()
    ensures forall k :: |old(manager.daemon.log)| <= k < |manager.daemon.log| ==>
              Authorized(manager.daemon.log[k], manager.daemon.birth, calls, manager.OwnLabels)
  {
    for i := 0 to |calls|
      invariant manager.Valid() && manager.daemon.Grew()
      invariant forall k :: |old(manager.daemon.log)| <= k < |manager.daemon.log| ==>
                  Authorized(manager.daemon.log[k], manager.daemon.birth, calls, manager.OwnLabels)
    {
      manager.daemon.Interfere();
      ghost var log, birth := manager.daemon.log, manager.daemon.birth;
      match calls[i] {
        case ProvisionCall(resource, image) => var _, _, _, _ := manager.Provision(resource, image);
        case ReconcileCall(resource, image) => var _, _, _, _ := manager.Reconcile(resource, image);
        case DeleteCall(resource) => var _ := manager.Delete(resource);
      }
      assert AllPermitted(manager.daemon.log, |log|, manager.daemon.birth, manager.OwnLabels(calls[i].resource));
      forall k | |old(manager.daemon.log)| <= k < |manager.daemon.log|
        ensures Authorized(manager.daemon.log[k], manager.daemon.birth, calls, manager.OwnLabels)
      {
        if k < |log| {
          assert manager.daemon.log[k] == log[k];
        } else {
          assert calls[i] in calls;
        }
      }
    }
  }
}
