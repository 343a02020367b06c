/** The Docker daemon as its clients meet it: containers under immutable identities, a table of
    names, named volumes, other actors between calls, and replies that may be lost or garbled. */
module Docker {
  import opened Options
  import opened OwnershipLabels

  // ---------------------------------------------------------------------------------------------
  // The daemon
  // ---------------------------------------------------------------------------------------------

  /** The pattern of an immutable container identity: 64 lower-case hexadecimal digits. */
  predicate WellFormedId(id: string) {
    |id| == 64 && forall k :: 0 <= k < 64 ==> '0' <= id[k] <= '9' || 'a' <= id[k] <= 'f'
  }

  datatype Mount = Mount(kind: string, name: string, destination: string)

  /** What never changes while a container lives. */
  datatype Fixed = Fixed(labels: Labels, image: string, imageId: string, mounts: seq<Mount>)

  datatype Binding = Binding(address: string, loopback: bool, port: int)

  datatype Container = Container(fixed: Fixed, status: string, bindings: seq<Binding>)

  /** A container is reachable at its one loopback binding, if that has a valid port. */
  function Endpoint(container: Container): Option<Binding> {
    if |container.bindings| == 1 && container.bindings[0].loopback && 1 <= container.bindings[0].port <= 65535
    then Some(container.bindings[0]) else None
  }

  /** Created or exited, so that a start is due. */
  predicate IsStopped(container: Container) { container.status == "created" || container.status == "exited" }

  predicate IsServing(container: Container) { container.status == "running" && Endpoint(container).Some? }

  datatype Volume = Volume(labels: Labels, createdAt: string, mountpoint: string)

  /** A request that changes something, with what it did: None when it met nothing or failed before
      it took effect. The success of a creation or a start may be told by the reply, or not. */
  datatype Event =
    | Creation(fixed: Fixed, created: Option<string>, mounted: seq<Labels>, told: bool)
    | Start(id: string, started: Option<Labels>, told: bool)
    | Removal(id: string, removed: Option<Labels>)
    | VolumeCreation(labels: Labels)
    | VolumeRemoval(volume: string, gone: Option<Labels>)

  /** A request that only looks, answered when the log had this many events, with what was there; and a
      probe of a container that found it ready. */
  datatype Look =
    | ContainerLook(at: nat, id: string, container: Container)
    | VolumeLook(at: nat, volume: string, found: Volume)
    | ReadyLook(at: nat, container: Container)

  datatype InspectReply = InspectFailed | Missing | Found(id: string, container: Container)

  datatype CreateReply = RequestFailed | Rejected | Undecodable | Accepted(id: string, closeFailed: bool)

  datatype VolumeReply = VolumeFailed | VolumeMissing | VolumeFound(name: string, volume: Volume)

  /** The labels of the volumes behind the mounts; a missing volume has none. */
  function MountLabels(mounts: seq<Mount>, volumes: map<string, Volume>): seq<Labels> {
    seq(|mounts|, k requires 0 <= k < |mounts| =>
      if mounts[k].name in volumes then volumes[mounts[k].name].labels else map[])
  }

  /** What other actors may do to the volumes within a call: remove them, and put volumes with planted
      labels, or with the labels that stood there, under any name. */
  predicate Interfered(before: map<string, Volume>, after: map<string, Volume>, planted: Labels -> bool) {
    forall name :: name in after ==>
      (name in before && after[name].labels == before[name].labels) || planted(after[name].labels)
  }

  /** What a look at a volume may be told when it meets this table. */
  predicate Answers(reply: VolumeReply, name: string, table: map<string, Volume>) {
    match reply
    case VolumeFailed => true
    case VolumeMissing => name !in table
    case VolumeFound(_, volume) => name in table && volume == table[name]
  }

  /** A removal that met this table of volumes took effect or not. */
  predicate RemovesVolume(table: map<string, Volume>, name: string, event: Event, after: map<string, Volume>) {
    || (event == VolumeRemoval(name, None) && after == table)
    || (name in table && event == VolumeRemoval(name, Some(table[name].labels)) && after == table - {name})
  }

  /** This container and its names are gone, and nothing else changed. */
  ghost predicate Dropped(before: map<string, Container>, namesBefore: map<string, string>,
                          after: map<string, Container>, namesAfter: map<string, string>, id: string)
  {
    && after.Keys == before.Keys - {id}
    && (forall other :: other in after ==> after[other] == before[other])
    && (forall name :: name in namesAfter <==> name in namesBefore && namesBefore[name] != id)
    && (forall name :: name in namesAfter ==> namesAfter[name] == namesBefore[name])
  }

  /** Dropping a container that was just added under a free name restores what was there. */
  lemma DropRestores(containers: map<string, Container>, names: map<string, string>, id: string, name: string,
                     fixed: Container,
                     after: map<string, Container>, namesAfter: map<string, string>)
    requires id !in containers && name !in names && forall other :: other in names ==> names[other] in containers
    requires Dropped(containers[id := fixed], names[name := id], after, namesAfter, id)
    ensures after == containers && namesAfter == names
  {
    assert after.Keys == containers.Keys;
    assert namesAfter.Keys == names.Keys;
  }

  class Daemon {
    /** No other actor interferes within a call. */
    const quiet: bool
    /** The labels that other actors may put on volumes within a call. */
    const planted: Labels -> bool
    /** Every look at a container or a volume is answered, and its reply is whole. */
    const answers: bool
    /** So is every other request, and it takes effect if it can; what is started runs and is reachable, and
        what is probed is ready. */
    const obliging: bool
    const imageIds: string -> string    // the identities of the images that are there
    const nextId: map<string, Fixed> -> string    // the identity it issues next, unless it runs out of them
    var containers: map<string, Container>
    var names: map<string, string>
    var volumes: map<string, Volume>
    var birth: map<string, Fixed>    // every identity ever issued, with what it was created with
    var log: seq<Event>
    ghost var looks: seq<Look>       // every look that was answered with something

    ghost predicate Valid()
      reads this
    {
      Plausible(containers, names, birth) && (obliging ==> answers)
    }

    /** Docker issues hexadecimal identities and never reuses one, nobody names a container like an
        identity, and a name belongs to a live container. */
    static predicate Plausible(containers: map<string, Container>, names: map<string, string>,
                               birth: map<string, Fixed>)
    {
      && (forall id :: id in containers ==> WellFormedId(id) && id in birth && containers[id].fixed == birth[id])
      && (forall name :: name in names ==> !WellFormedId(name) && names[name] in containers)
    }

    /** What time can do: issue identities, and let containers die for good. */
    static predicate Later(containers: map<string, Container>, birth: map<string, Fixed>,
                           containers': map<string, Container>, birth': map<string, Fixed>)
    {
      && (forall id :: id in birth ==> id in birth' && birth'[id] == birth[id])
      && (forall id :: id in birth && id !in containers ==> id !in containers')
    }

    twostate predicate Grew()
      reads this
    {
      Later(old(containers), old(birth), containers, birth) && old(log) <= log && old(looks) <= looks
    }

    /** Nothing has changed; looks are not changes. */
    twostate predicate Kept()
      reads this
    {
      && containers == old(containers) && names == old(names) && volumes == old(volumes) && birth == old(birth)
      && log == old(log)
    }

    /** Nobody interferes within a call, and every look is answered. */
    predicate Shows() { quiet && answers }

    /** Nobody interferes within a call, and every request works. */
    predicate Obliges() { quiet && obliging }

    /** It has not run out of identities. */
    predicate CanIssue(birth: map<string, Fixed>) { WellFormedId(nextId(birth)) && nextId(birth) !in birth }

    function Resolve(identity: string): Option<string>
      reads this
    {
      if identity in containers then Some(identity)
      else if identity in names then Some(names[identity])
      else None
    }

    constructor (quiet: bool, planted: Labels -> bool, answers: bool, obliging: bool, imageIds: string -> string,
                 nextId: map<string, Fixed> -> string, containers: map<string, Container>, names: map<string, string>,
                 volumes: map<string, Volume>, birth: map<string, Fixed>)
      requires Plausible(containers, names, birth) && (obliging ==> answers)
      ensures Valid() && this.quiet == quiet && this.planted == planted && log == [] && looks == []
      ensures this.answers == answers && this.obliging == obliging && this.imageIds == imageIds && this.nextId == nextId
      ensures this.containers == containers && this.names == names && this.volumes == volumes && this.birth == birth
    {
      this.quiet, this.planted, this.answers := quiet, planted, answers;
      this.obliging, this.imageIds, this.nextId := obliging, imageIds, nextId;
      this.containers, this.names, this.volumes, this.birth := containers, names, volumes, birth;
      log, looks := [], [];
    }

    /** Other actors create, rename, start and remove whatever they like. */
    method Interfere()
      requires Valid()
      modifies this
      ensures Valid() && Grew() && log == old(log) && looks == old(looks)
    {
      var c, n, b :| Plausible(c, n, b) && Later(containers, birth, c, b);
      var v: map<string, Volume> := *;
      containers, names, volumes, birth := c, n, v, b;
    }

    /** The same within a call, where the volumes they put there are planted ones. */
    method Intrude()
      requires Valid()
      modifies this
      ensures Valid() && Grew() && log == old(log) && looks == old(looks)
      ensures quiet ==> unchanged(this)
      ensures Interfered(old(volumes), volumes, planted)
    {
      if !quiet {
        var v :| Interfered(volumes, v, planted);
        Interfere();
        volumes := v;
      }
    }

    /** GET /containers/{identity}/json. The reply may fail, or carry a garbled identity. */
    method Inspect(identity: string) returns (reply: InspectReply)
      requires Valid()
      modifies this
      ensures Valid() && Grew() && log == old(log)
      ensures quiet ==> Kept()
      ensures Interfered(old(volumes), volumes, planted)
      ensures reply.Missing? ==> Resolve(identity) == None
      ensures reply.Found? && WellFormedId(reply.id) ==>
                && Resolve(identity) == Some(reply.id)
                && reply.id in containers && containers[reply.id] == reply.container
                && looks == old(looks) + [ContainerLook(|log|, reply.id, reply.container)]
      ensures answers ==> !reply.InspectFailed? && (reply.Found? ==> WellFormedId(reply.id))
    {
      Intrude();
      var answered: bool := *;
      if !answered && !answers {
        return InspectFailed;
      }
      match Resolve(identity)
      case None => return Missing;
      case Some(id) =>
        var garbled: string := *;
        looks := looks + [ContainerLook(|log|, id, containers[id])];
        return Found(if WellFormedId(garbled) || answers then id else garbled, containers[id]);
    }

    /** POST /containers/create. A taken name is refused; otherwise the container may exist whatever
        the reply says. Only a reply with a well-formed identity is to be believed. */
    method Create(name: string, fixed: Fixed) returns (reply: CreateReply)
      requires Valid() && !WellFormedId(name)
      modifies this
      ensures Valid() && Grew() && |log| == |old(log)| + 1 && looks == old(looks)
      ensures var event := log[|old(log)|];
              && event.Creation? && event.fixed == fixed
              && (exists table ::
                    Interfered(old(volumes), table, planted) && event.mounted == MountLabels(fixed.mounts, table))
              && (quiet ==> event.mounted == MountLabels(fixed.mounts, old(volumes)))
              && (quiet && event.created.None? ==>
                    containers == old(containers) && names == old(names) && volumes == old(volumes)
                      && birth == old(birth))
              && (quiet && event.created.Some? ==>
                    && event.created.value !in old(birth) && name !in old(names)
                    && containers == old(containers)[event.created.value := Container(fixed, "created", [])]
                    && names == old(names)[name := event.created.value]
                    && birth == old(birth)[event.created.value := fixed]
                    && ((forall k :: 0 <= k < |fixed.mounts| ==> fixed.mounts[k].name in old(volumes)) ==>
                      volumes == old(volumes)))
              && (event.created.Some? ==> && event.created.value !in old(birth)
                                          && event.created.value in birth && birth[event.created.value] == fixed)
              && (reply.Accepted? && WellFormedId(reply.id) ==> event.created == Some(reply.id))
              && (reply.Accepted? || reply.Undecodable? <==> event.told) && (event.told ==> event.created.Some?)
      ensures Obliges() && name !in old(names) && CanIssue(old(birth)) ==>
                reply.Accepted? && WellFormedId(reply.id) && !reply.closeFailed
    {
      Intrude();
      ghost var table := volumes;
      assert Interfered(old(volumes), table, planted);
      var id: string := *;
      var effect: bool := *;
      if obliging {
        id, effect := nextId(birth), true;
      }
      if name in names || !effect || !WellFormedId(id) || id in birth {
        log := log + [Creation(fixed, None, MountLabels(fixed.mounts, volumes), false)];
        var answered: bool := *;
        return if answered then Rejected else RequestFailed;
      }
      var told: bool := *;
      told := told || obliging;
      Place(name, id, fixed, told);
      var garbled: string := *;
      var closeFailed: bool := *;
      reply := *;
      if reply.Accepted? || obliging {
        reply := Accepted(if WellFormedId(garbled) || obliging then id else garbled, closeFailed && !obliging);
      }
      if told != (reply.Accepted? || reply.Undecodable?) {
        reply := if told then Undecodable else RequestFailed;
      }
    }

    /** The effect of a create; a mounted volume that is missing is created without labels. */
    method Place(name: string, id: string, fixed: Fixed, told: bool)
      requires Valid() && !WellFormedId(name) && name !in names && WellFormedId(id) && id !in birth
      modifies this
      ensures Valid() && Grew() && looks == old(looks)
      ensures log == old(log) + [Creation(fixed, Some(id), MountLabels(fixed.mounts, old(volumes)), told)]
      ensures containers == old(containers)[id := Container(fixed, "created", [])]
      ensures names == old(names)[name := id] && birth == old(birth)[id := fixed]
      ensures (forall k :: 0 <= k < |fixed.mounts| ==> fixed.mounts[k].name in old(volumes)) ==> volumes == old(volumes)
    {
      log := log + [Creation(fixed, Some(id), MountLabels(fixed.mounts, volumes), told)];
      for k := 0 to |fixed.mounts|
        invariant containers == old(containers) && names == old(names) && birth == old(birth) && looks == old(looks)
        invariant log == old(log) + [Creation(fixed, Some(id), MountLabels(fixed.mounts, old(volumes)), told)]
        invariant (forall i :: 0 <= i < |fixed.mounts| ==> fixed.mounts[i].name in old(volumes)) ==>
          volumes == old(volumes)
      {
        if fixed.mounts[k].name !in volumes {
          var stamp: string := *;
          volumes := volumes[fixed.mounts[k].name := Volume(map[], stamp, stamp)];
        }
      }
      containers := containers[id := Container(fixed, "created", [])];
      names := names[name := id];
      birth := birth[id := fixed];
    }

    /** POST /containers/{id}/start. */
    method StartContainer(id: string) returns (ok: bool)
      requires Valid() && WellFormedId(id)
      modifies this
      ensures Valid() && Grew() && |log| == |old(log)| + 1 && looks == old(looks)
      ensures log[|old(log)|] == Start(id, None, ok)
              || (id in birth && log[|old(log)|] == Start(id, Some(birth[id].labels), ok))
      ensures quiet ==> && containers.Keys == old(containers).Keys && names == old(names) && volumes == old(volumes)
                        && birth == old(birth)
                        && (forall other :: other in containers && other != id ==>
                          containers[other] == old(containers)[other])
                        && (log[|old(log)|].started == None ==> containers == old(containers))
      ensures log[|old(log)|].started.Some? && id in old(containers) && quiet ==>
                containers[id].fixed == old(containers)[id].fixed
      ensures Obliges() && id in old(containers) ==> ok && id in containers && IsServing(containers[id])
    {
      Intrude();
      var effect: bool := *;
      if id !in containers || (!effect && !obliging) {
        ok := *;
        ok := ok && id in containers;
        log := log + [Start(id, None, ok)];
        return;
      }
      var status: string := *;
      var bindings: seq<Binding> := *;
      if obliging {
        var address: string := *;
        status, bindings := "running", [Binding(address, true, 1)];
      }
      ok := *;
      ok := ok || obliging;
      log := log + [Start(id, Some(containers[id].fixed.labels), ok)];
      containers := containers[id := containers[id].(status := status, bindings := bindings)];
    }

    /** DELETE /containers/{id}; true for 204 and for 404. */
    method Remove(id: string) returns (ok: bool)
      requires Valid() && WellFormedId(id)
      modifies this
      ensures Valid() && Grew() && |log| == |old(log)| + 1 && looks == old(looks)
      ensures log[|old(log)|] == Removal(id, None)
              || (id in birth && log[|old(log)|] == Removal(id, Some(birth[id].labels)))
      ensures ok ==> id !in containers
      ensures obliging ==> ok
      ensures quiet ==> && volumes == old(volumes) && birth == old(birth)
                        && ((containers == old(containers) && names == old(names)
                             && log[|old(log)|] == Removal(id, None))
                            || Dropped(old(containers), old(names), containers, names, id))
    {
      Intrude();
      if id !in containers {
        log := log + [Removal(id, None)];
        ok := *;
        ok := ok || obliging;
        return;
      }
      var effect: bool := *;
      if !effect && !obliging {
        log := log + [Removal(id, None)];
        return false;
      }
      Drop(id);
      ok := *;
      ok := ok || obliging;
    }

    /** The effect of a removal: the container is gone, and its names with it. */
    method Drop(id: string)
      requires Valid() && id in containers
      modifies this
      ensures Valid() && Grew() && looks == old(looks) && volumes == old(volumes) && birth == old(birth)
      ensures log == old(log) + [Removal(id, Some(birth[id].labels))]
      ensures Dropped(old(containers), old(names), containers, names, id)
    {
      log := log + [Removal(id, Some(containers[id].fixed.labels))];
      containers := containers - {id};
      names := map name | name in names && names[name] != id :: names[name];
    }

    /** GET /images/{image}/json: the identity of the image, if it is there. */
    method InspectImage(image: string) returns (imageId: Option<string>)
      ensures obliging ==> imageId == Some(imageIds(image))
    {
      imageId := *;
      imageId := if obliging then Some(imageIds(image)) else imageId;
    }

    /** A readiness probe of a container at its endpoint. */
    method Probe(container: Container) returns (ready: bool)
      modifies this`looks
      ensures looks == if ready then old(looks) + [ReadyLook(|log|, container)] else old(looks)
      ensures obliging ==> ready
    {
      ready := *;
      ready := ready || obliging;
      if ready {
        looks := looks + [ReadyLook(|log|, container)];
      }
    }

    /** GET /volumes/{name}. The name in the reply may be garbled. */
    method InspectVolume(name: string) returns (reply: VolumeReply)
      requires Valid()
      modifies this
      ensures Valid() && Grew() && log == old(log)
      ensures quiet ==> Kept()
      ensures Interfered(old(volumes), volumes, planted)
      ensures Answers(reply, name, volumes)
      ensures reply.VolumeFound? ==> looks == old(looks) + [VolumeLook(|log|, name, reply.volume)]
      ensures answers ==> !reply.VolumeFailed? && (reply.VolumeFound? ==> reply.name == name)
    {
      Intrude();
      var answered: bool := *;
      if !answered && !answers {
        return VolumeFailed;
      }
      if name !in volumes {
        return VolumeMissing;
      }
      var garbled: string := *;
      looks := looks + [VolumeLook(|log|, name, volumes[name])];
      return VolumeFound(if answers then name else garbled, volumes[name]);
    }

    /** POST /volumes/create: an existing volume is left as it is. */
    method CreateVolume(name: string, labels: Labels) returns (ok: bool)
      requires Valid()
      modifies this
      ensures Valid() && Grew() && log == old(log) + [VolumeCreation(labels)] && looks == old(looks)
      ensures quiet ==> && containers == old(containers) && names == old(names) && birth == old(birth)
                        && (volumes == old(volumes)
                            || (&& name !in old(volumes) && name in volumes && volumes[name].labels == labels
                                && volumes == old(volumes)[name := volumes[name]]))
      ensures obliging ==> ok && (quiet && name !in old(volumes) ==>
                name in volumes && volumes[name].createdAt != "" && volumes[name].mountpoint != "")
    {
      Intrude();
      log := log + [VolumeCreation(labels)];
      var effect: bool := *;
      if name !in volumes && (effect || obliging) {
        var stamp: string := *;
        stamp := if stamp == "" && obliging then "today" else stamp;
        volumes := volumes[name := Volume(labels, stamp, stamp)];
      }
      ok := *;
      ok := ok || obliging;
    }

    /** DELETE /volumes/{name}: whatever stands under the name when the request arrives. */
    method RemoveVolume(name: string) returns (ok: bool)
      requires Valid()
      modifies this
      ensures Valid() && Grew() && |log| == |old(log)| + 1 && looks == old(looks)
      ensures exists table :: && Interfered(old(volumes), table, planted) && (quiet ==> table == old(volumes))
                              && RemovesVolume(table, name, log[|old(log)|], volumes)
      ensures quiet ==> containers == old(containers) && names == old(names) && birth == old(birth)
      ensures ok ==> name !in volumes
      ensures obliging ==> ok
    {
      Intrude();
      ghost var table := volumes;
      assert Interfered(old(volumes), table, planted);
      var effect: bool := *;
      if name !in volumes || (!effect && !obliging) {
        log := log + [VolumeRemoval(name, None)];
        ok := *;
        ok := (ok || obliging) && name !in volumes;
      } else {
        log := log + [VolumeRemoval(name, Some(volumes[name].labels))];
        volumes := volumes - {name};
        ok := *;
        ok := ok || obliging;
      }
      assert RemovesVolume(table, name, log[|old(log)|], volumes);
    }
  }
}
