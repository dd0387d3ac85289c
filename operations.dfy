/** The store's transitions as functions of the state: what the server form, the service
    form, the delete buttons and the drop zones do to `state` (src/scripts/main.js). The
    class in store.dfy performs them in place and is proved to agree with these. */
module Operations {
  import opened Seqs
  import opened Text
  import opened Ipv4
  import opened Records

  /** Why a form submit is refused; the program shows a toast and changes nothing. */
  datatype Rejection = NameRequired | InvalidIp | ServerRequired | TargetUnavailable

  /** What a form submit did. `EditTargetMissing`: the edited record is gone, so nothing
      is written, but the modal still closes. */
  datatype SubmitOutcome = Rejected(reason: Rejection) | Created(id: string) | Updated | EditTargetMissing

  /** What a delete request did; `cascaded` is the count the toast reports. */
  datatype DeleteOutcome = Cancelled | ServerDeleted(cascaded: nat) | ServiceDeleted

  /** What a drop on a server's zone did. */
  datatype DropOutcome = UnknownService | TargetRejected | AlreadyThere | Moved

  /** The modal is editing a record of this kind. */
  predicate Editing(st: State, kind: Kind) {
    st.editMode.Some? && st.editMode.value.kind == kind
  }

  /** The reference rule of the service form and of the drop zones: the first server
      with that identity exists and is not inactive. */
  predicate AcceptsServices(servers: seq<Server>, id: string) {
    match ServerIndex(servers, id)
    case None => false
    case Some(i) => servers[i].status != INACTIVE
  }

  /** The `forEach` that marks every service of a server inactive. */
  function DeactivateServicesOf(services: seq<Service>, serverId: string): seq<Service> {
    seq(|services|, k requires 0 <= k < |services| =>
      if services[k].serverId == serverId then services[k].(status := INACTIVE) else services[k])
  }

  /** `handleServerSubmit` (src/scripts/main.js:364-405) with the form's raw fields. An
      empty trimmed name or an invalid trimmed address is refused with no change;
      otherwise the modal closes. */
  function SubmitServer(st: State, name: string, ip: string, note: string, status: string, freshId: string)
    : (r: (State, SubmitOutcome))
    ensures r.1.Rejected? <==> Trim(name) == [] || !IpValid(Trim(ip))
    ensures Trim(name) == [] ==> r.1 == Rejected(NameRequired)
    ensures Trim(name) != [] && !IpValid(Trim(ip)) ==> r.1 == Rejected(InvalidIp)
    ensures r.1.Rejected? ==> r.0 == st
    ensures !r.1.Rejected? ==> r.0.editMode == None
    ensures r.1 == Updated <==> !r.1.Rejected? && Editing(st, ServerKind) && HasServer(st.servers, st.editMode.value.id)
    ensures r.1.Created? <==> !r.1.Rejected? && !Editing(st, ServerKind)
    ensures r.1.Created? ==> r.1.id == freshId
    ensures r.1 == EditTargetMissing ==> r.0 == st.(editMode := None)
  {
    var n, a, nt := Trim(name), Trim(ip), Trim(note);
    if n == [] then (st, Rejected(NameRequired))
    else if !IpValid(a) then (st, Rejected(InvalidIp))
    else if Editing(st, ServerKind) then
      match ServerIndex(st.servers, st.editMode.value.id)
      case None => (st.(editMode := None), EditTargetMissing)
      case Some(i) =>
        var services := if status == INACTIVE then DeactivateServicesOf(st.services, st.servers[i].id) else st.services;
        (State(st.servers[i := Server(st.servers[i].id, n, a, nt, status)], services, None), Updated)
    else
      (State(st.servers + [Server(freshId, n, a, nt, status)], st.services, None), Created(freshId))
  }

  /** Editing a server to `inactive` marks every one of its services inactive, and changes
      nothing else: no other service, no other server, and no other field. */
  lemma ServerDeactivationCascades(st: State, name: string, ip: string, note: string, freshId: string, i: nat)
    requires Editing(st, ServerKind) && ServerIndex(st.servers, st.editMode.value.id) == Some(i)
    requires Trim(name) != [] && IpValid(Trim(ip))
    ensures var r := SubmitServer(st, name, ip, note, INACTIVE, freshId);
      && r.1 == Updated
      && |r.0.servers| == |st.servers| && |r.0.services| == |st.services|
      && r.0.servers[i] == Server(st.servers[i].id, Trim(name), Trim(ip), Trim(note), INACTIVE)
      && (forall k :: 0 <= k < |st.servers| && k != i ==> r.0.servers[k] == st.servers[k])
      && (forall k :: 0 <= k < |st.services| && st.services[k].serverId == st.servers[i].id ==>
            r.0.services[k] == st.services[k].(status := INACTIVE))
      && (forall k :: 0 <= k < |st.services| && st.services[k].serverId != st.servers[i].id ==>
            r.0.services[k] == st.services[k])
  {
  }

  /** Editing a server to any status but `inactive` leaves every service as it was: a
      server brought back to `active` does not bring its services back. */
  lemma ServerReactivationLeavesServices(st: State, name: string, ip: string, note: string, status: string, freshId: string)
    requires status != INACTIVE
    ensures SubmitServer(st, name, ip, note, status, freshId).0.services == st.services
  {
  }

  /** A valid submit with no server edit open creates a server: it is appended after the
      existing ones with the trimmed fields and is found by its fresh identity. */
  lemma CreatedServerIsFound(st: State, name: string, ip: string, note: string, status: string, freshId: string)
    requires IdUnused(st, freshId)
    requires Trim(name) != [] && IpValid(Trim(ip)) && !Editing(st, ServerKind)
    ensures var r := SubmitServer(st, name, ip, note, status, freshId);
      && r.1 == Created(freshId)
      && |r.0.servers| == |st.servers| + 1
      && r.0.servers[..|st.servers|] == st.servers
      && ServerIndex(r.0.servers, freshId) == Some(|st.servers|)
      && r.0.servers[|st.servers|] == Server(freshId, Trim(name), Trim(ip), Trim(note), status)
      && r.0.services == st.services
  {
    var r := SubmitServer(st, name, ip, note, status, freshId);
    var servers := r.0.servers;
    assert servers == st.servers + [Server(freshId, Trim(name), Trim(ip), Trim(note), status)];
    assert servers[..|st.servers|] == st.servers;
    FindIndexFirst(servers, (s: Server) => s.id == freshId, |st.servers|);
  }

  /** A valid submit while editing a server that is found rewrites that server's fields
      under its identity, whatever the status, and leaves every other server as it was. */
  lemma EditedServerIsRewritten(st: State, name: string, ip: string, note: string, status: string, freshId: string, i: nat)
    requires Editing(st, ServerKind) && ServerIndex(st.servers, st.editMode.value.id) == Some(i)
    requires Trim(name) != [] && IpValid(Trim(ip))
    ensures var r := SubmitServer(st, name, ip, note, status, freshId);
      && r.1 == Updated
      && |r.0.servers| == |st.servers|
      && r.0.servers[i] == Server(st.servers[i].id, Trim(name), Trim(ip), Trim(note), status)
      && (forall k :: 0 <= k < |st.servers| && k != i ==> r.0.servers[k] == st.servers[k])
  {
  }

  /** Replacing a server's record by one with the same identity, and cascading when the
      new status is `inactive`, keeps the store consistent. */
  lemma ServerUpdateKeepsConsistency(st: State, i: nat, srv: Server, e: Option<EditContext>)
    requires Consistent(st) && i < |st.servers| && srv.id == st.servers[i].id
    ensures var services := if srv.status == INACTIVE then DeactivateServicesOf(st.services, srv.id) else st.services;
      Consistent(State(st.servers[i := srv], services, e))
  {
    var services := if srv.status == INACTIVE then DeactivateServicesOf(st.services, srv.id) else st.services;
    var st' := State(st.servers[i := srv], services, e);
    assert forall k :: 0 <= k < |st'.servers| ==> st'.servers[k].id == st.servers[k].id;
    assert forall k :: 0 <= k < |st'.services| ==>
      st'.services[k].id == st.services[k].id && st'.services[k].serverId == st.services[k].serverId;
    assert IdsDistinct(st') by {
      forall a, b | 0 <= a < b < |st'.servers| ensures ServerId(st'.servers[a]) != ServerId(st'.servers[b]) {
        assert ServerId(st.servers[a]) != ServerId(st.servers[b]);
      }
      forall a, b | 0 <= a < b < |st'.services| ensures ServiceId(st'.services[a]) != ServiceId(st'.services[b]) {
        assert ServiceId(st.services[a]) != ServiceId(st.services[b]);
      }
    }
    assert ReferencesResolve(st') by {
      forall j | 0 <= j < |st'.services| ensures HasServer(st'.servers, st'.services[j].serverId) {
        assert HasServer(st.servers, st.services[j].serverId);
        var w :| 0 <= w < |st.servers| && st.servers[w].id == st.services[j].serverId;
        assert st'.servers[w].id == st'.services[j].serverId;
      }
    }
    assert LiveOnLive(st') by {
      forall a, j | 0 <= a < |st'.servers| && 0 <= j < |st'.services| &&
        st'.services[j].serverId == st'.servers[a].id && st'.services[j].status != INACTIVE
        ensures st'.servers[a].status != INACTIVE
      {
        if a != i {
          assert st'.services[j].status == st.services[j].status;
        }
      }
    }
  }

  /** Appending a server whose identity is unused keeps the store consistent. */
  lemma ServerAppendKeepsConsistency(st: State, srv: Server, e: Option<EditContext>)
    requires Consistent(st) && IdUnused(st, srv.id)
    ensures Consistent(State(st.servers + [srv], st.services, e))
  {
    var st' := State(st.servers + [srv], st.services, e);
    var n := |st.servers|;
    assert IdsDistinct(st') by {
      forall a, b | 0 <= a < b < |st'.servers| ensures ServerId(st'.servers[a]) != ServerId(st'.servers[b]) {
        if b < n {
          assert ServerId(st.servers[a]) != ServerId(st.servers[b]);
        }
      }
    }
    assert ReferencesResolve(st') by {
      forall j | 0 <= j < |st'.services| ensures HasServer(st'.servers, st'.services[j].serverId) {
        assert HasServer(st.servers, st.services[j].serverId);
        var w :| 0 <= w < |st.servers| && st.servers[w].id == st.services[j].serverId;
        assert st'.servers[w] == st.servers[w];
      }
    }
    assert LiveOnLive(st');
  }

  /** The server form keeps the store consistent, given that a created server gets an
      identity not in use. */
  lemma SubmitServerPreservesConsistency(st: State, name: string, ip: string, note: string, status: string, freshId: string)
    requires Consistent(st) && IdUnused(st, freshId)
    ensures Consistent(SubmitServer(st, name, ip, note, status, freshId).0)
  {
    if Trim(name) != [] && IpValid(Trim(ip)) {
      if Editing(st, ServerKind) {
        match ServerIndex(st.servers, st.editMode.value.id)
        case None =>
        case Some(i) =>
          var srv := Server(st.servers[i].id, Trim(name), Trim(ip), Trim(note), status);
          ServerUpdateKeepsConsistency(st, i, srv, None);
      } else {
        ServerAppendKeepsConsistency(st, Server(freshId, Trim(name), Trim(ip), Trim(note), status), None);
      }
    }
  }

  /** `handleServiceSubmit` (src/scripts/main.js:407-447). An empty trimmed name, an empty
      server choice, or a server that is missing or inactive refuses the submit with no
      change; otherwise the modal closes. */
  function SubmitService(st: State, name: string, desc: string, serverId: string, status: string, freshId: string)
    : (r: (State, SubmitOutcome))
    ensures r.1.Rejected? <==> Trim(name) == [] || serverId == [] || !AcceptsServices(st.servers, serverId)
    ensures Trim(name) == [] ==> r.1 == Rejected(NameRequired)
    ensures Trim(name) != [] && serverId == [] ==> r.1 == Rejected(ServerRequired)
    ensures Trim(name) != [] && serverId != [] && !AcceptsServices(st.servers, serverId) ==> r.1 == Rejected(TargetUnavailable)
    ensures r.1.Rejected? ==> r.0 == st
    ensures !r.1.Rejected? ==> r.0.editMode == None && r.0.servers == st.servers
    ensures r.1 == Updated <==>
              !r.1.Rejected? && Editing(st, ServiceKind) && ServiceIndex(st.services, st.editMode.value.id).Some?
    ensures r.1.Created? <==> !r.1.Rejected? && !Editing(st, ServiceKind)
    ensures r.1.Created? ==> r.1.id == freshId
    ensures r.1 == EditTargetMissing ==> r.0 == st.(editMode := None)
  {
    var n, d := Trim(name), Trim(desc);
    if n == [] then (st, Rejected(NameRequired))
    else if serverId == [] then (st, Rejected(ServerRequired))
    else if !AcceptsServices(st.servers, serverId) then (st, Rejected(TargetUnavailable))
    else if Editing(st, ServiceKind) then
      match ServiceIndex(st.services, st.editMode.value.id)
      case None => (st.(editMode := None), EditTargetMissing)
      case Some(j) =>
        var svc := Service(st.services[j].id, n, d, serverId, status);
        (State(st.servers, st.services[j := svc], None), Updated)
    else
      (State(st.servers, st.services + [Service(freshId, n, d, serverId, status)], None), Created(freshId))
  }

  /** A valid submit with no service edit open creates a service: it is appended after the
      existing ones with the trimmed fields, on the chosen server. */
  lemma CreatedServiceIsAppended(st: State, name: string, desc: string, serverId: string, status: string, freshId: string)
    requires Trim(name) != [] && serverId != [] && AcceptsServices(st.servers, serverId)
    requires !Editing(st, ServiceKind)
    ensures var r := SubmitService(st, name, desc, serverId, status, freshId);
      && r.1 == Created(freshId)
      && |r.0.services| == |st.services| + 1
      && r.0.services[..|st.services|] == st.services
      && r.0.services[|st.services|] == Service(freshId, Trim(name), Trim(desc), serverId, status)
  {
    var services := SubmitService(st, name, desc, serverId, status, freshId).0.services;
    assert services[..|st.services|] == st.services;
  }

  /** A valid submit while editing a service that is found rewrites that service's fields
      under its identity, and leaves every other service as it was. */
  lemma EditedServiceIsRewritten(st: State, name: string, desc: string, serverId: string, status: string, freshId: string, j: nat)
    requires Trim(name) != [] && serverId != [] && AcceptsServices(st.servers, serverId)
    requires Editing(st, ServiceKind) && ServiceIndex(st.services, st.editMode.value.id) == Some(j)
    ensures var r := SubmitService(st, name, desc, serverId, status, freshId);
      && r.1 == Updated
      && |r.0.services| == |st.services|
      && r.0.services[j] == Service(st.services[j].id, Trim(name), Trim(desc), serverId, status)
      && (forall k :: 0 <= k < |st.services| && k != j ==> r.0.services[k] == st.services[k])
  {
  }

  /** With distinct identities, a server that accepts services is the only server with
      that identity, so it is the one every service pointing at it refers to. */
  lemma AcceptingServerIsUnique(servers: seq<Server>, id: string, a: nat)
    requires KeysDistinct(servers, ServerId) && AcceptsServices(servers, id)
    requires a < |servers| && servers[a].id == id
    ensures servers[a].status != INACTIVE
  {
    ServerIndexFindsUnique(servers, a);
  }

  /** The service form keeps the store consistent, given that a created service gets an
      identity not in use: its reference rule is what keeps every service on an
      existing server that is not inactive. */
  lemma SubmitServicePreservesConsistency(st: State, name: string, desc: string, serverId: string, status: string, freshId: string)
    requires Consistent(st) && IdUnused(st, freshId)
    ensures Consistent(SubmitService(st, name, desc, serverId, status, freshId).0)
  {
    var r := SubmitService(st, name, desc, serverId, status, freshId);
    var st' := r.0;
    if !r.1.Rejected? && r.1 != EditTargetMissing {
      var t := ServerIndex(st.servers, serverId).value;
      assert HasServer(st.servers, serverId) by {
        assert st.servers[t].id == serverId;
      }
      // every changed or new service is the one at position m, pointing at serverId
      var m := if r.1 == Updated then ServiceIndex(st.services, st.editMode.value.id).value else |st.services|;
      assert m < |st'.services| && st'.services[m].serverId == serverId;
      assert |st'.services| == |st.services| || |st'.services| == |st.services| + 1;
      assert forall k :: 0 <= k < |st'.services| && k != m ==> st'.services[k] == st.services[k];
      assert m < |st.services| ==> st'.services[m].id == st.services[m].id;
      assert m == |st.services| ==> st'.services[m].id == freshId;
      assert IdsDistinct(st') by {
        forall a, b | 0 <= a < b < |st'.services| ensures ServiceId(st'.services[a]) != ServiceId(st'.services[b]) {
          if b < |st.services| {
            assert ServiceId(st.services[a]) != ServiceId(st.services[b]);
          }
        }
      }
      assert ReferencesResolve(st');
      assert LiveOnLive(st') by {
        forall a, j | 0 <= a < |st'.servers| && 0 <= j < |st'.services| &&
          st'.services[j].serverId == st'.servers[a].id && st'.services[j].status != INACTIVE
          ensures st'.servers[a].status != INACTIVE
        {
          if j == m {
            AcceptingServerIsUnique(st.servers, serverId, a);
          }
        }
      }
    }
  }

  /** `window.deleteItem` (src/scripts/main.js:336-361), with the confirmation dialog's
      answer as a parameter. A declined confirmation changes nothing; deleting a service
      never touches the servers; the edit context is kept. */
  function Delete(st: State, kind: Kind, id: string, confirmed: bool): (r: (State, DeleteOutcome))
    ensures !confirmed ==> r == (st, Cancelled)
    ensures r.0.editMode == st.editMode
    ensures kind == ServiceKind ==> r.0.servers == st.servers
  {
    if !confirmed then (st, Cancelled)
    else if kind == ServerKind then
      var cascaded := |Filter(st.services, (s: Service) => s.serverId == id)|;
      (st.(servers := Filter(st.servers, (s: Server) => s.id != id),
           services := Filter(st.services, (s: Service) => s.serverId != id)),
       ServerDeleted(cascaded))
    else
      (st.(services := Filter(st.services, (s: Service) => s.id != id)), ServiceDeleted)
  }

  /** Deleting server `id` removes that server and exactly the services whose `serverId`
      is `id`; the reported count is the number of services removed, and what is removed
      plus what is kept is what there was. */
  lemma DeleteServerCascades(st: State, id: string)
    ensures var r := Delete(st, ServerKind, id, true);
      && (forall s :: s in r.0.servers <==> s in st.servers && s.id != id)
      && (forall s :: s in r.0.services <==> s in st.services && s.serverId != id)
      && r.1 == ServerDeleted(|st.services| - |r.0.services|)
      && multiset(r.0.services) + multiset(Filter(st.services, (s: Service) => s.serverId == id))
         == multiset(st.services)
      && SelectsInOrder(r.0.servers, st.servers, (s: Server) => s.id != id)
      && SelectsInOrder(r.0.services, st.services, (s: Service) => s.serverId != id)
  {
    var r := Delete(st, ServerKind, id, true);
    var onIt := (s: Service) => s.serverId == id;
    var offIt := (s: Service) => s.serverId != id;
    assert r.0.services == Filter(st.services, offIt);
    assert forall s :: s in r.0.servers <==> s in st.servers && s.id != id by {
      FilterMembership(st.servers, (s: Server) => s.id != id);
    }
    assert forall s :: s in r.0.services <==> s in st.services && s.serverId != id by {
      FilterMembership(st.services, offIt);
    }
    assert |Filter(st.services, onIt)| + |r.0.services| == |st.services|
        && multiset(r.0.services) + multiset(Filter(st.services, onIt)) == multiset(st.services) by {
      assert forall k :: 0 <= k < |st.services| ==> offIt(st.services[k]) == !onIt(st.services[k]);
      FilterPartition(st.services, onIt, offIt);
    }
    FilterSelectsInOrder(st.servers, (s: Server) => s.id != id);
    FilterSelectsInOrder(st.services, offIt);
  }

  /** Deleting service `id` removes exactly the services with that identity and keeps the
      others in store order; an unknown `id` leaves the services as they were. */
  lemma DeleteServiceRemovesIt(st: State, id: string)
    ensures var r := Delete(st, ServiceKind, id, true);
      && r.1 == ServiceDeleted
      && (forall s :: s in r.0.services <==> s in st.services && s.id != id)
      && SelectsInOrder(r.0.services, st.services, (s: Service) => s.id != id)
      && ((forall s :: s in st.services ==> s.id != id) ==> r.0.services == st.services)
  {
    var p := (s: Service) => s.id != id;
    FilterMembership(st.services, p);
    FilterSelectsInOrder(st.services, p);
    if forall s :: s in st.services ==> s.id != id {
      forall k | 0 <= k < |st.services| ensures p(st.services[k]) {
        assert st.services[k] in st.services;
      }
      FilterKeepsAll(st.services, p);
    }
  }

  /** Deleting a server that sits between `before` and `after` leaves exactly
      `before + after`, in their order, when no other server has its identity. */
  lemma DeleteServerKeepsOthersInOrder(st: State, before: seq<Server>, x: Server, after: seq<Server>)
    requires st.servers == before + [x] + after && IdsDistinct(st)
    ensures Delete(st, ServerKind, x.id, true).0.servers == before + after
  {
    var p := (s: Server) => s.id != x.id;
    forall k | 0 <= k < |before| ensures p(before[k]) {
      assert ServerId(st.servers[k]) != ServerId(st.servers[|before|]);
    }
    forall k | 0 <= k < |after| ensures p(after[k]) {
      assert ServerId(st.servers[|before|]) != ServerId(st.servers[|before| + 1 + k]);
    }
    FilterRemovesOne(before, x, after, p);
  }

  /** Deleting a service that sits between `before` and `after` leaves exactly
      `before + after`, in their order, when no other service has its identity. */
  lemma DeleteServiceKeepsOthersInOrder(st: State, before: seq<Service>, x: Service, after: seq<Service>)
    requires st.services == before + [x] + after && IdsDistinct(st)
    ensures Delete(st, ServiceKind, x.id, true).0.services == before + after
  {
    var p := (s: Service) => s.id != x.id;
    forall k | 0 <= k < |before| ensures p(before[k]) {
      assert ServiceId(st.services[k]) != ServiceId(st.services[|before|]);
    }
    forall k | 0 <= k < |after| ensures p(after[k]) {
      assert ServiceId(st.services[|before|]) != ServiceId(st.services[|before| + 1 + k]);
    }
    FilterRemovesOne(before, x, after, p);
  }

  /** Deletion keeps the store consistent: the cascade leaves no service referring to a
      deleted server. */
  lemma DeletePreservesConsistency(st: State, kind: Kind, id: string, confirmed: bool)
    requires Consistent(st)
    ensures Consistent(Delete(st, kind, id, confirmed).0)
  {
    var st' := Delete(st, kind, id, confirmed).0;
    if confirmed {
      if kind == ServerKind {
        FilterKeepsKeysDistinct(st.servers, (s: Server) => s.id != id, ServerId);
        FilterKeepsKeysDistinct(st.services, (s: Service) => s.serverId != id, ServiceId);
        FilterMembership(st.servers, (s: Server) => s.id != id);
        FilterMembership(st.services, (s: Service) => s.serverId != id);
      } else {
        FilterKeepsKeysDistinct(st.services, (s: Service) => s.id != id, ServiceId);
        FilterMembership(st.services, (s: Service) => s.id != id);
      }
      assert ReferencesResolve(st') by {
        forall j | 0 <= j < |st'.services| ensures HasServer(st'.servers, st'.services[j].serverId) {
          var svc := st'.services[j];
          assert svc in st.services;
          var j0 :| 0 <= j0 < |st.services| && st.services[j0] == svc;
          assert HasServer(st.servers, svc.serverId);
          var w :| 0 <= w < |st.servers| && st.servers[w].id == svc.serverId;
          assert st.servers[w] in st'.servers;
        }
      }
      assert LiveOnLive(st') by {
        forall a, j | 0 <= a < |st'.servers| && 0 <= j < |st'.services| &&
          st'.services[j].serverId == st'.servers[a].id && st'.services[j].status != INACTIVE
          ensures st'.servers[a].status != INACTIVE
        {
          assert st'.servers[a] in st.servers && st'.services[j] in st.services;
          var a0 :| 0 <= a0 < |st.servers| && st.servers[a0] == st'.servers[a];
          var j0 :| 0 <= j0 < |st.services| && st.services[j0] == st'.services[j];
        }
      }
    }
  }

  /** The drop handler of a server's zone (src/scripts/main.js:184-207): move the dragged
      service to the zone's server. Only the services can change, and only the moved
      service's `serverId`; any other outcome changes nothing. */
  function Drop(st: State, serviceId: string, targetId: string): (r: (State, DropOutcome))
    ensures r.0.servers == st.servers && r.0.editMode == st.editMode
    ensures r.1 != Moved ==> r.0 == st
    ensures r.1 == UnknownService <==> ServiceIndex(st.services, serviceId).None?
    ensures r.1 == TargetRejected <==> ServiceIndex(st.services, serviceId).Some? && !AcceptsServices(st.servers, targetId)
    ensures r.1 == Moved <==>
              && ServiceIndex(st.services, serviceId).Some? && AcceptsServices(st.servers, targetId)
              && st.services[ServiceIndex(st.services, serviceId).value].serverId != targetId
    ensures r.1 == Moved ==>
              var j := ServiceIndex(st.services, serviceId).value;
              && AcceptsServices(st.servers, targetId) && st.services[j].serverId != targetId
              && r.0.services == st.services[j := st.services[j].(serverId := targetId)]
  {
    match ServiceIndex(st.services, serviceId)
    case None => (st, UnknownService)
    case Some(j) =>
      if !AcceptsServices(st.servers, targetId) then (st, TargetRejected)
      else if st.services[j].serverId != targetId then
        (st.(services := st.services[j := st.services[j].(serverId := targetId)]), Moved)
      else (st, AlreadyThere)
  }

  /** A drop keeps the store consistent: the target passed the reference rule. */
  lemma DropPreservesConsistency(st: State, serviceId: string, targetId: string)
    requires Consistent(st)
    ensures Consistent(Drop(st, serviceId, targetId).0)
  {
    var r := Drop(st, serviceId, targetId);
    if r.1 == Moved {
      var st' := r.0;
      var j := ServiceIndex(st.services, serviceId).value;
      var t := ServerIndex(st.servers, targetId).value;
      assert forall k :: 0 <= k < |st.services| ==> st'.services[k].id == st.services[k].id;
      assert IdsDistinct(st') by {
        forall a, b | 0 <= a < b < |st'.services| ensures ServiceId(st'.services[a]) != ServiceId(st'.services[b]) {
          assert ServiceId(st.services[a]) != ServiceId(st.services[b]);
        }
      }
      assert ReferencesResolve(st') by {
        assert st.servers[t].id == targetId;
      }
      assert LiveOnLive(st') by {
        forall a, k | 0 <= a < |st'.servers| && 0 <= k < |st'.services| &&
          st'.services[k].serverId == st'.servers[a].id && st'.services[k].status != INACTIVE
          ensures st'.servers[a].status != INACTIVE
        {
          if k == j {
            AcceptingServerIsUnique(st.servers, targetId, a);
          }
        }
      }
    }
  }

  /** The drag-start guard of a service card (src/scripts/main.js:161-166): an inactive
      service cannot be dragged; any other drag carries the service's identity. */
  function DragPayload(svc: Service): (r: Option<string>)
    ensures r.None? <==> svc.status == INACTIVE
    ensures r.Some? ==> r.value == svc.id
  {
    if svc.status == INACTIVE then None else Some(svc.id)
  }

  /** A whole drag-and-drop gesture: drag the card of `svc`, drop it on the zone of `targetId`. */
  function DragAndDrop(st: State, svc: Service, targetId: string): State {
    match DragPayload(svc)
    case None => st
    case Some(id) => Drop(st, id, targetId).0
  }

  /** A drag-and-drop gesture never moves an inactive service: it changes nothing, and
      when an active service is dragged, no inactive service changes server. */
  lemma DragNeverMovesInactiveServices(st: State, svc: Service, targetId: string)
    requires IdsDistinct(st) && svc in st.services
    ensures svc.status == INACTIVE ==> DragAndDrop(st, svc, targetId) == st
    ensures forall k :: 0 <= k < |st.services| && st.services[k].status == INACTIVE ==>
              DragAndDrop(st, svc, targetId).services[k] == st.services[k]
  {
    if svc.status != INACTIVE {
      var j0 :| 0 <= j0 < |st.services| && st.services[j0] == svc;
      ServiceIndexFindsUnique(st.services, j0);
    }
  }
}
