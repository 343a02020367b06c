/** Owned VPC bridges in exclusive use of the daemon: ensure and delete, with creates and deletes whose
    reply is lost. */
module VpcNetwork {
  import opened Options
  import opened VpcCidr
  import opened OwnershipLabels
  import Text

  datatype Identity = Identity(project: string, network: string)

  predicate IsLower(c: char) { 'a' <= c <= 'z' }

  predicate IsAlphanumeric(c: char) { IsLower(c) || '0' <= c <= '9' }

  /** Both identity patterns: a letter, then letters, digits and dashes, no dash at the end. */
  predicate IsName(text: string, shortest: nat) {
    && shortest <= |text| <= 63 && |text| > 0
    && IsLower(text[0]) && IsAlphanumeric(text[|text| - 1])
    && forall k :: 0 <= k < |text| ==> IsAlphanumeric(text[k]) || text[k] == '-'
  }

  predicate IsMiddle(text: string) {
    |text| <= 61 && forall k :: 0 <= k < |text| ==> IsAlphanumeric(text[k]) || text[k] == '-'
  }

  /** A letter, at most 61 letters, digits or dashes, and a letter or a digit. */
  ghost predicate IsLongName(text: string) {
    exists first, middle, last ::
      text == [first] + middle + [last] && IsLower(first) && IsMiddle(middle) && IsAlphanumeric(last)
  }

  /** The pattern of projects is that, and the pattern of networks allows a single letter too. */
  lemma NamesIff(text: string)
    ensures IsName(text, 2) <==> IsLongName(text)
    ensures IsName(text, 1) <==> IsLongName(text) || (|text| == 1 && IsLower(text[0]))
  {
    if IsName(text, 2) {
      var middle := text[1..|text| - 1];
      assert text == [text[0]] + middle + [text[|text| - 1]] && IsMiddle(middle);
    }
    if first, middle, last :| text == [first] + middle + [last] && IsLower(first) && IsMiddle(middle)
                              && IsAlphanumeric(last) {
      forall k | 0 <= k < |text| ensures IsAlphanumeric(text[k]) || text[k] == '-' {
        assert 0 < k < |text| - 1 ==> text[k] == middle[k - 1];
      }
    }
  }

  predicate IsValid(identity: Identity) { IsName(identity.project, 2) && IsName(identity.network, 1) }

  function CanonicalResource(identity: Identity): string {
    Text.Join(["projects", identity.project, "global", "networks", identity.network])
  }

  /** Two valid identities with one canonical resource are the same identity. */
  lemma CanonicalResourceIsInjective(a: Identity, b: Identity)
    requires IsValid(a) && IsValid(b) && CanonicalResource(a) == CanonicalResource(b)
    ensures a == b
  {
    var x := ["projects", a.project, "global", "networks", a.network];
    var y := ["projects", b.project, "global", "networks", b.network];
    Text.SplitJoin(x);
    Text.SplitJoin(y);
    assert x[1] == y[1] && x[4] == y[4];
  }

  function LabelsOf(profile: string, identity: Identity): Labels {
    map["managed-by" := "minisky", "minisky.profile" := profile, "minisky.service" := "compute-network",
        "minisky.project" := identity.project, "minisky.network" := identity.network,
        "minisky.canonical-resource" := CanonicalResource(identity)]
  }

  /** The filter of the list request, which the loop checks again. */
  predicate IsListed(profile: string, labels: Labels) {
    && Lookup(labels, "managed-by") == "minisky" && Lookup(labels, "minisky.profile") == profile
    && Lookup(labels, "minisky.service") == "compute-network"
  }

  datatype Network = Network(name: string, labels: Labels, driver: string, subnets: seq<Cidr>)

  predicate HasValidCidrs(network: Network) {
    forall k :: 0 <= k < |network.subnets| ==> ValidCidr(network.subnets[k])
  }

  /** exactNetworkCIDR. */
  function ExactCidr(network: Network): Option<Prefix>
    requires HasValidCidrs(network)
  {
    if |network.subnets| != 1 then None else NormalizeSpec(network.subnets[0])
  }

  /** The address lies in the one acceptable prefix of the network. */
  predicate InRange(network: Network, address: nat) {
    HasValidCidrs(network) && ExactCidr(network).Some? && Covers(ExactCidr(network).value, address)
  }

  predicate Apart(prefix: Prefix, network: Network)
    requires prefix.bits <= 32 && HasValidCidrs(network)
  {
    ExactCidr(network).Some? && !Overlaps(prefix, ExactCidr(network).value)
  }

  datatype InspectReply = InspectFailed | Missing | Found(id: string, network: Network)
  datatype ListReply = ListFailed | Listed(networks: seq<Network>)
  datatype CreateReply = RequestFailed | Conflicted | Refused | Created(id: string)

  class NetworkDaemon {
    /** Every look is answered, and its reply is whole. */
    const answers: bool
    /** So is every other request, and it takes effect if it can. */
    const obliging: bool
    var networks: map<string, Network>

    predicate Valid()
      reads this
    {
      "" !in networks && (obliging ==> answers) && forall id :: id in networks ==> HasValidCidrs(networks[id])
    }

    constructor (answers: bool, obliging: bool, networks: map<string, Network>)
      requires "" !in networks && (obliging ==> answers) && forall id :: id in networks ==> HasValidCidrs(networks[id])
      ensures Valid() && this.answers == answers && this.obliging == obliging && this.networks == networks
    {
      this.answers, this.obliging, this.networks := answers, obliging, networks;
    }

    /** GET /networks/{name}; the identity in the reply may be missing. */
    method Inspect(name: string) returns (reply: InspectReply)
      requires Valid()
      ensures reply.Missing? ==> forall id :: id in networks ==> networks[id].name != name
      ensures reply.Found? ==> && reply.network.name == name && HasValidCidrs(reply.network)
                               && (exists id :: id in networks && networks[id] == reply.network)
                               && (reply.id != "" ==> reply.id in networks && networks[reply.id] == reply.network)
      ensures answers ==> !reply.InspectFailed? && (reply.Found? ==> reply.id in networks)
    {
      var answered: bool := *;
      if !answered && !answers {
        return InspectFailed;
      }
      if id :| id in networks && networks[id].name == name {
        var garbled: bool := *;
        return Found(if garbled && !answers then "" else id, networks[id]);
      }
      return Missing;
    }

    ghost predicate IsAmong(network: Network)
      reads this
    {
      exists id :: id in networks && networks[id] == network
    }

    /** GET /networks with the label filter. */
    method List(listed: Labels -> bool) returns (reply: ListReply)
      requires Valid()
      ensures reply.Listed? ==>
                && (forall k :: 0 <= k < |reply.networks| ==> HasValidCidrs(reply.networks[k]))
                && (forall id :: id in networks && listed(networks[id].labels) ==> networks[id] in reply.networks)
                && (forall k :: 0 <= k < |reply.networks| ==> IsAmong(reply.networks[k]))
      ensures answers ==> reply.Listed?
    {
      var answered: bool := *;
      if !answered && !answers {
        return ListFailed;
      }
      var rest, result := networks.Keys, [];
      while rest != {}
        invariant rest <= networks.Keys
        invariant forall k :: 0 <= k < |result| ==> HasValidCidrs(result[k]) && IsAmong(result[k])
        invariant forall id :: id in networks && id !in rest && listed(networks[id].labels) ==> networks[id] in result
        decreases rest
      {
        var id :| id in rest;
        rest := rest - {id};
        if listed(networks[id].labels) {
          result := result + [networks[id]];
        }
      }
      return Listed(result);
    }

    /** POST /networks/create: the bridge may exist whatever the reply says, and the identity may be
        missing from a reply that says "created". */
    method Create(network: Network) returns (reply: CreateReply)
      requires Valid() && HasValidCidrs(network)
      modifies this
      ensures Valid()
      ensures networks == old(networks)
              || exists id :: id !in old(networks) && networks == old(networks)[id := network]
      ensures reply.Created? && reply.id != "" ==> reply.id in networks && networks[reply.id] == network
      ensures reply.Created? ==> exists id :: id in networks && networks[id] == network
      ensures reply.Created? && reply.id != "" ==>
                reply.id !in old(networks) && networks == old(networks)[reply.id := network]
      ensures obliging ==> reply.Created? && reply.id != ""
    {
      var id: string := *;
      var effect: bool := *;
      if obliging {
        assert FreshKey(networks.Keys + {""}) !in networks.Keys + {""};
        var unused :| unused !in networks.Keys + {""};
        id, effect := unused, true;
      }
      if id in networks || id == "" || !effect {
        reply := *;
        if reply.Created? {
          reply := RequestFailed;
        }
        return;
      }
      networks := networks[id := network];
      assert id !in old(networks) && networks == old(networks)[id := network] && networks[id] == network;
      var garbled: bool := *;
      reply := *;
      if reply.Created? || obliging {
        reply := Created(if garbled && !obliging then "" else id);
      }
    }

    /** DELETE /networks/{id}. */
    method Remove(id: string) returns (ok: bool)
      requires Valid()
      modifies this
      ensures Valid() && (networks == old(networks) || networks == old(networks) - {id})
      ensures ok ==> networks == old(networks) - {id}
      ensures obliging ==> ok
    {
      var effect: bool := *;
      if effect || obliging {
        networks := networks - {id};
      }
      ok := *;
      ok := obliging || (ok && id !in networks);
    }
  }

  datatype State = State(name: string, id: string, cidr: Prefix, created: bool)

  class VpcManager {
    const daemon: NetworkDaemon
    const nameOf: Identity -> string       // DockerName, with its digest
    const labelsOf: Identity -> Labels
    const listed: Labels -> bool
    const resourceOf: Labels -> string

    ghost predicate Valid()
      reads daemon
    {
      && daemon.Valid()
      && forall identity :: listed(labelsOf(identity)) && resourceOf(labelsOf(identity)) == CanonicalResource(identity)
    }

    constructor (daemon: NetworkDaemon, profile: string, nameOf: Identity -> string)
      requires daemon.Valid()
      ensures Valid() && this.daemon == daemon && this.nameOf == nameOf
      ensures forall identity :: labelsOf(identity) == LabelsOf(profile, identity)
    {
      this.daemon, this.nameOf := daemon, nameOf;
      labelsOf := identity => LabelsOf(profile, identity);
      listed := labels => IsListed(profile, labels);
      resourceOf := labels => Lookup(labels, "minisky.canonical-resource");
    }

    /** The prefix of an acceptable request. */
    function Asked(identity: Identity, cidr: Cidr): Option<Prefix>
      requires ValidCidr(cidr)
    {
      if IsValid(identity) then NormalizeSpec(cidr) else None
    }

    ghost predicate Owned(network: Network, identity: Identity) {
      IsValid(identity) && network.labels == labelsOf(identity)
    }

    /** Every owned bridge stands under its name with one acceptable prefix, and the prefixes of two
        owned bridges do not overlap. */
    ghost predicate Inv(networks: map<string, Network>) {
      && (forall id :: id in networks ==> HasValidCidrs(networks[id]))
      && (forall id, identity :: id in networks && Owned(networks[id], identity) ==>
            networks[id].name == nameOf(identity) && ExactCidr(networks[id]).Some?)
      && (forall x, y, a, b ::
            x in networks && y in networks && x != y && Owned(networks[x], a) && Owned(networks[y], b) ==>
            ExactCidr(networks[x]).Some? && Apart(ExactCidr(networks[x]).value, networks[y]))
    }

    /** The bridge that was asked for. */
    ghost predicate Matches(network: Network, identity: Identity, prefix: Prefix) {
      && network.name == nameOf(identity) && ExactLabels(network.labels, labelsOf(identity))
        && network.driver == "bridge"
      && HasValidCidrs(network) && ExactCidr(network) == Some(prefix)
    }

    ghost predicate IsPresent(networks: map<string, Network>, identity: Identity, prefix: Prefix) {
      exists id :: id in networks && Matches(networks[id], identity, prefix)
    }

    /** No bridge stands under the name. */
    ghost predicate IsFree(networks: map<string, Network>, identity: Identity) {
      forall id :: id in networks ==> networks[id].name != nameOf(identity)
    }

    /** Docker does not keep network names apart: whatever stands under this one is the bridge asked for. */
    ghost predicate OnlyMatches(networks: map<string, Network>, identity: Identity, prefix: Prefix) {
      forall id :: id in networks && networks[id].name == nameOf(identity) ==> Matches(networks[id], identity, prefix)
    }

    function BridgeFor(identity: Identity, cidr: Cidr): Network {
      Network(nameOf(identity), labelsOf(identity), "bridge", [cidr])
    }

    /** What a success reports about the bridges that are there now. */
    ghost predicate Reports(state: State, networks: map<string, Network>, identity: Identity, prefix: Prefix) {
      && state.name == nameOf(identity) && state.cidr == prefix && IsPresent(networks, identity, prefix)
      && (state.id != "" ==> state.id in networks && Matches(networks[state.id], identity, prefix))
    }

    /** An inspect of the name may, or can only, find the bridge asked for. */
    ghost predicate MayBeFound(networks: map<string, Network>, identity: Identity, asked: Option<Prefix>) {
      asked.Some? && IsPresent(networks, identity, asked.value)
    }

    ghost predicate MustBeFound(networks: map<string, Network>, identity: Identity, asked: Option<Prefix>) {
      asked.Some? && !IsFree(networks, identity) && OnlyMatches(networks, identity, asked.value)
    }

    /** The check on a found bridge that ensure, its two reconciliations and delete share. */
    method IsExact(network: Network, identity: Identity, prefix: Prefix) returns (exact: bool)
      requires HasValidCidrs(network) && network.name == nameOf(identity)
      ensures exact <==> Matches(network, identity, prefix)
    {
      exact := ExactLabels(network.labels, labelsOf(identity)) && network.driver == "bridge"
        && ExactCidr(network) == Some(prefix);
    }

    /** The prefix is apart from every other owned bridge. */
    ghost predicate IsClear(networks: map<string, Network>, identity: Identity, prefix: Prefix)
      requires prefix.bits <= 32 && forall id :: id in networks ==> HasValidCidrs(networks[id])
    {
      forall id :: id in networks && listed(networks[id].labels)
                   && resourceOf(networks[id].labels) != CanonicalResource(identity) ==>
        Apart(prefix, networks[id])
    }

    /** rejectOwnedVPCOverlap; true lets the create go on. */
    method NoOwnedOverlap(identity: Identity, prefix: Prefix) returns (ok: bool)
      requires Valid() && prefix.bits <= 32
      ensures ok ==> IsClear(daemon.networks, identity, prefix)
      ensures daemon.answers && IsClear(daemon.networks, identity, prefix) ==> ok
    {
      var reply := daemon.List(listed);
      if reply.ListFailed? {
        return false;
      }
      for k := 0 to |reply.networks|
        invariant forall i :: 0 <= i < k && listed(reply.networks[i].labels)
                              && resourceOf(reply.networks[i].labels) != CanonicalResource(identity) ==>
                    Apart(prefix, reply.networks[i])
      {
        var network := reply.networks[k];
        if listed(network.labels) && resourceOf(network.labels) != CanonicalResource(identity) {
          var cidr := ExactCidr(network);
          if cidr.None? || Overlaps(prefix, cidr.value) {
            return false;
          }
        }
      }
      return true;
    }

    /** EnsureVPCNetworkIPAM. */
    method Ensure(identity: Identity, cidr: Cidr) returns (state: Option<State>, ghost refused: bool)
      requires Valid() && ValidCidr(cidr) && Inv(daemon.networks)
      modifies daemon
      ensures Valid() && Inv(daemon.networks)
      ensures state.Some? ==>
                && Asked(identity, cidr).Some?
                && Reports(state.value, daemon.networks, identity, Asked(identity, cidr).value)
                && (state.value.created ==>
                      && IsFree(old(daemon.networks), identity) && state.value.id !in old(daemon.networks)
                      && daemon.networks == old(daemon.networks)[state.value.id := BridgeFor(identity, cidr)])
      ensures daemon.networks == old(daemon.networks)
              || exists id :: id !in old(daemon.networks)
                              && daemon.networks == old(daemon.networks)[id := BridgeFor(identity, cidr)]
      ensures Asked(identity, cidr).None? ==> state.None? && daemon.networks == old(daemon.networks)
      // If looks are answered: a prefix that overlaps another owned bridge is refused, a bridge that was made
      // is found behind any reply but a refusal, and a taken name is accepted where only the bridge asked for
      // stands under it.
      ensures daemon.answers && Asked(identity, cidr).Some? ==>
                var prefix := Asked(identity, cidr).value;
                if IsFree(old(daemon.networks), identity) then
                  && (!IsClear(old(daemon.networks), identity, prefix) ==>
                        state.None? && daemon.networks == old(daemon.networks))
                  && (daemon.networks != old(daemon.networks) && !refused ==> state.Some?)
                else
                  && daemon.networks == old(daemon.networks)
                  && (MustBeFound(old(daemon.networks), identity, Some(prefix)) ==> state.Some?)
                  && (state.Some? ==> !state.value.created)
      // If every request works, a free name is taken exactly where the prefix is apart from the others.
      ensures daemon.obliging && Asked(identity, cidr).Some? && IsFree(old(daemon.networks), identity) ==>
                && (state.Some? <==> IsClear(old(daemon.networks), identity, Asked(identity, cidr).value))
                && (state.Some? ==> state.value.created)
    {
      if !IsValid(identity) {
        return None, false;
      }
      var normalized := Normalize(cidr);
      if normalized.None? {
        return None, false;
      }
      var prefix := normalized.value;
      var name := nameOf(identity);
      var existing := daemon.Inspect(name);
      match existing {
        case InspectFailed => return None, false;
        case Found(id, network) =>
          var exact := IsExact(network, identity, prefix);
          return if exact then Some(State(name, id, prefix, false)) else None, false;
        case Missing =>
          var clear := NoOwnedOverlap(identity, prefix);
          if !clear {
            return None, false;
          }
          state, refused := CreateBridge(identity, cidr, prefix);
      }
    }

    /** The create request and its three ways to be in doubt. */
    method CreateBridge(identity: Identity, cidr: Cidr, prefix: Prefix)
      returns (state: Option<State>, ghost refused: bool)
      requires Valid() && IsValid(identity) && ValidCidr(cidr) && NormalizeSpec(cidr) == Some(prefix)
        && Inv(daemon.networks)
      requires IsFree(daemon.networks, identity) && IsClear(daemon.networks, identity, prefix)
      modifies daemon
      ensures Valid() && Inv(daemon.networks)
      ensures state.Some? ==>
                && Reports(state.value, daemon.networks, identity, prefix)
                && (state.value.created ==>
                      && state.value.id !in old(daemon.networks)
                      && daemon.networks == old(daemon.networks)[state.value.id := BridgeFor(identity, cidr)])
      ensures daemon.networks == old(daemon.networks)
              || exists id :: id !in old(daemon.networks)
                              && daemon.networks == old(daemon.networks)[id := BridgeFor(identity, cidr)]
      ensures daemon.answers && daemon.networks != old(daemon.networks) && !refused ==> state.Some?
      ensures daemon.obliging ==> state.Some? && state.value.created
    {
      var network := BridgeFor(identity, cidr);
      ghost var before := daemon.networks;
      var reply := daemon.Create(network);
      AddedBridgeKeepsInv(before, daemon.networks, identity, network, prefix);
      state, refused := None, reply.Refused?;
      match reply {
        case RequestFailed => state := ReconcileCreate(identity, prefix);
        case Refused =>
        case Conflicted =>
          var raced := daemon.Inspect(nameOf(identity));
          if raced.Found? {
            var exact := IsExact(raced.network, identity, prefix);
            state := if exact then Some(State(raced.network.name, raced.id, prefix, false)) else None;
          }
        case Created(id) =>
          if id == "" {
            state := ReconcileCreate(identity, prefix);
          } else {
            assert Matches(daemon.networks[id], identity, prefix);
            state := Some(State(nameOf(identity), id, prefix, true));
          }
      }
    }

    /** reconcileAmbiguousVPCNetworkCreate. */
    method ReconcileCreate(identity: Identity, prefix: Prefix) returns (state: Option<State>)
      requires Valid()
      ensures state.Some? ==> Reports(state.value, daemon.networks, identity, prefix) && !state.value.created
      ensures daemon.answers && MustBeFound(daemon.networks, identity, Some(prefix)) ==> state.Some?
    {
      var reply := daemon.Inspect(nameOf(identity));
      if !reply.Found? || reply.id == "" {
        return None;
      }
      var exact := IsExact(reply.network, identity, prefix);
      return if exact then Some(State(reply.network.name, reply.id, prefix, false)) else None;
    }

    /** Whether or not the create took effect. */
    lemma AddedBridgeKeepsInv(before: map<string, Network>, after: map<string, Network>, identity: Identity,
                              network: Network, prefix: Prefix)
      requires forall other :: listed(labelsOf(other)) && resourceOf(labelsOf(other)) == CanonicalResource(other)
      requires Inv(before) && IsValid(identity)
      requires after == before || exists id :: id !in before && after == before[id := network]
      requires network.name == nameOf(identity) && network.labels == labelsOf(identity)
      requires HasValidCidrs(network) && ExactCidr(network) == Some(prefix)
      requires IsFree(before, identity) && IsClear(before, identity, prefix)
      ensures Inv(after)
    {
      forall id, owner | id in before && Owned(before[id], owner)
        ensures Apart(prefix, before[id])
        ensures Apart(ExactCidr(before[id]).value, network)
      {
        if CanonicalResource(owner) == CanonicalResource(identity) {
          CanonicalResourceIsInjective(owner, identity);
          assert false;
        }
      }
      forall owner | Owned(network, owner) ensures owner == identity {
        assert resourceOf(labelsOf(owner)) == CanonicalResource(owner);
        assert resourceOf(labelsOf(identity)) == CanonicalResource(identity);
        CanonicalResourceIsInjective(owner, identity);
      }
    }

    /** One matching bridge is gone, and nothing else has changed. */
    ghost predicate IsWithoutMatch(before: map<string, Network>, after: map<string, Network>, identity: Identity,
                                   asked: Option<Prefix>)
    {
      asked.Some? && exists id :: id in before && Matches(before[id], identity, asked.value) && after == before - {id}
    }

    /** DeleteVPCNetworkIPAM. */
    method Delete(identity: Identity, cidr: Cidr) returns (ok: bool)
      requires Valid() && ValidCidr(cidr) && Inv(daemon.networks)
      modifies daemon
      ensures Valid() && Inv(daemon.networks)
      ensures daemon.networks == old(daemon.networks)
              || IsWithoutMatch(old(daemon.networks), daemon.networks, identity, Asked(identity, cidr))
      // A success means that the bridge was there and has just been removed.
      ensures ok ==> IsWithoutMatch(old(daemon.networks), daemon.networks, identity, Asked(identity, cidr))
      // A bridge that is not exactly the one asked for is refused.
      ensures !MayBeFound(old(daemon.networks), identity, Asked(identity, cidr)) ==>
                !ok && daemon.networks == old(daemon.networks)
      ensures daemon.obliging && MustBeFound(old(daemon.networks), identity, Asked(identity, cidr)) ==> ok
    {
      if !IsValid(identity) {
        return false;
      }
      var normalized := Normalize(cidr);
      if normalized.None? {
        return false;
      }
      var reply := daemon.Inspect(nameOf(identity));
      if !reply.Found? {
        return false;
      }
      var exact := IsExact(reply.network, identity, normalized.value);
      if !exact || reply.id == "" {
        return false;
      }
      ok := daemon.Remove(reply.id);
    }
  }

  /** What the invariant means for addresses: the ranges of two owned bridges share none, and no range
      holds one of the prohibited addresses. */
  ghost predicate Disjoint(manager: VpcManager, networks: map<string, Network>) {
    && (forall id, identity, address ::
          id in networks && manager.Owned(networks[id], identity) && InRange(networks[id], address) ==>
            !InProhibitedRange(address))
    && (forall x, y, a, b, address ::
          x in networks && y in networks && x != y && manager.Owned(networks[x], a) && manager.Owned(networks[y], b) ==>
            !(InRange(networks[x], address) && InRange(networks[y], address)))
  }

  lemma InvMeansDisjoint(manager: VpcManager, networks: map<string, Network>)
    requires manager.Inv(networks)
    ensures Disjoint(manager, networks)
  {
    forall id, identity, address | id in networks && manager.Owned(networks[id], identity)
      && InRange(networks[id], address)
      ensures !InProhibitedRange(address)
    {
      NormalizeIff(networks[id].subnets[0]);
    }
    forall x, y, a, b, address |
      x in networks && y in networks && x != y && manager.Owned(networks[x], a) && manager.Owned(networks[y], b)
      ensures !(InRange(networks[x], address) && InRange(networks[y], address))
    {
      OverlapsIff(ExactCidr(networks[x]).value, ExactCidr(networks[y]).value);
    }
  }

  datatype Call = EnsureCall(identity: Identity, cidr: Cidr) | DeleteCall(identity: Identity, cidr: Cidr)

  /** Starting from no owned bridge, after any calls with any lost replies. */
  method AnySchedule(manager: VpcManager, calls: seq<Call>)
    requires manager.Valid() && forall i :: 0 <= i < |calls| ==> ValidCidr(calls[i].cidr)
    requires forall id, identity :: id in manager.daemon.networks ==>
      !manager.Owned(manager.daemon.networks[id], identity)
    modifies manager.daemon
    ensures manager.Valid() && manager.Inv(manager.daemon.networks) && Disjoint(manager, manager.daemon.networks)
  {
    for i := 0 to |calls|
      invariant manager.Valid() && manager.Inv(manager.daemon.networks)
    {
      match calls[i] {
        case EnsureCall(identity, cidr) => var _, _ := manager.Ensure(identity, cidr);
        case DeleteCall(identity, cidr) => var _ := manager.Delete(identity, cidr);
      }
    }
    InvMeansDisjoint(manager, manager.daemon.networks);
  }
}
