/** The mutable `state` object of src/scripts/main.js:2-6 and the handlers that update it
    in place. Each method is proved to leave the store in the state the corresponding
    function of Operations, Persistence or Seed describes, so every property proved about
    those functions holds of the store. */
module StoreClass {
  import opened Seqs
  import opened Text
  import opened Ipv4
  import opened Records
  import Operations
  import Persistence
  import Seed
  import Views

  class Store {
    var servers: seq<Server>
    var services: seq<Service>
    var editMode: Option<EditContext>

    /** The store's current value. */
    function Snapshot(): State
      reads this
    {
      State(servers, services, editMode)
    }

    /** The initial `state`: no servers, no services, no edit open. */
    constructor()
      ensures Snapshot() == State([], [], None)
    {
      servers, services, editMode := [], [], None;
    }

    /** `load()`: the assignments run in order, and an exception stops them where it
        happens. */
    method Load(raw: Option<Persistence.Stored>)
      modifies this
      ensures Snapshot() == Persistence.Load(old(Snapshot()), raw)
    {
      if raw.None? || raw.value.Unparseable? || raw.value.servers.Malformed? {
        return;
      }
      var stored := Persistence.Items(raw.value.servers);
      servers := seq(|stored|, k requires 0 <= k < |stored| => Persistence.MigrateServer(stored[k]));
      if raw.value.services.Malformed? {
        return;
      }
      var storedServices := Persistence.Items(raw.value.services);
      services := seq(|storedServices|, k requires 0 <= k < |storedServices| => Persistence.MigrateService(storedServices[k]));
    }

    /** `seedIfEmpty()`, with the seven drawn identities as a parameter. */
    method SeedIfEmpty(ids: Seed.SeedIds)
      modifies this
      ensures Snapshot() == Seed.SeedIfEmpty(old(Snapshot()), ids)
    {
      if |servers| == 0 {
        servers := servers + Seed.SeedServers(ids);
        services := services + Seed.SeedServices(ids);
      }
    }

    /** `init()`: load, then seed a store left without servers. */
    method Init(raw: Option<Persistence.Stored>, ids: Seed.SeedIds)
      modifies this
      ensures Snapshot() == Seed.SeedIfEmpty(Persistence.Load(old(Snapshot()), raw), ids)
    {
      Load(raw);
      SeedIfEmpty(ids);
    }

    /** The "add" button: open the modal with no edit context, on the tab DefaultTab picks. */
    method OpenAdd() returns (tab: Views.Tab)
      modifies this
      ensures tab == Views.DefaultTab(old(Snapshot()))
      ensures Snapshot() == old(Snapshot()).(editMode := None)
    {
      editMode := None;
      tab := if Any(servers, Views.ServerActive) then Views.ServiceTab else Views.ServerTab;
    }

    /** `editItem(type, id)`: open the modal on a record. */
    method EditItem(kind: Kind, id: string)
      modifies this
      ensures Snapshot() == old(Snapshot()).(editMode := Some(EditContext(kind, id)))
    {
      editMode := Some(EditContext(kind, id));
    }

    /** `closeModal()`: cancel, backdrop click, Escape. */
    method CloseModal()
      modifies this
      ensures Snapshot() == old(Snapshot()).(editMode := None)
    {
      editMode := None;
    }

    /** The `forEach` of the server form that marks every service of server `id` inactive. */
    method DeactivateServicesOf(id: string)
      modifies this
      ensures services == Operations.DeactivateServicesOf(old(services), id)
      ensures servers == old(servers) && editMode == old(editMode)
    {
      var k := 0;
      while k < |services|
        invariant 0 <= k <= |services| == |old(services)|
        invariant services[..k] == Operations.DeactivateServicesOf(old(services), id)[..k]
        invariant services[k..] == old(services)[k..]
        invariant servers == old(servers) && editMode == old(editMode)
      {
        if services[k].serverId == id {
          services := services[k := services[k].(status := INACTIVE)];
        }
        k := k + 1;
      }
    }

    /** `handleServerSubmit`, with the form's raw fields and the identity `uid()` would draw. */
    method SubmitServer(name: string, ip: string, note: string, status: string, freshId: string)
      returns (outcome: Operations.SubmitOutcome)
      modifies this
      ensures (Snapshot(), outcome) == Operations.SubmitServer(old(Snapshot()), name, ip, note, status, freshId)
    {
      var n, a, nt := Trim(name), Trim(ip), Trim(note);
      if n == [] {
        return Operations.Rejected(Operations.NameRequired);
      }
      if !IpValid(a) {
        return Operations.Rejected(Operations.InvalidIp);
      }
      ghost var st := Snapshot();
      ghost var expected := Operations.SubmitServer(st, name, ip, note, status, freshId);
      if editMode.Some? && editMode.value.kind == ServerKind {
        var found := ServerIndex(servers, editMode.value.id);
        if found.Some? {
          var i := found.value;
          var id := servers[i].id;
          servers := servers[i := Server(id, n, a, nt, status)];
          if status == INACTIVE {
            DeactivateServicesOf(id);
          }
          outcome := Operations.Updated;
        } else {
          outcome := Operations.EditTargetMissing;
        }
      } else {
        servers := servers + [Server(freshId, n, a, nt, status)];
        outcome := Operations.Created(freshId);
      }
      CloseModal();
      assert (Snapshot(), outcome) == expected;
    }

    /** `handleServiceSubmit`, with the form's raw fields and the identity `uid()` would draw. */
    method SubmitService(name: string, desc: string, serverId: string, status: string, freshId: string)
      returns (outcome: Operations.SubmitOutcome)
      modifies this
      ensures (Snapshot(), outcome) == Operations.SubmitService(old(Snapshot()), name, desc, serverId, status, freshId)
    {
      var n, d := Trim(name), Trim(desc);
      if n == [] {
        return Operations.Rejected(Operations.NameRequired);
      }
      if serverId == [] {
        return Operations.Rejected(Operations.ServerRequired);
      }
      var target := ServerIndex(servers, serverId);
      if target.None? || servers[target.value].status == INACTIVE {
        return Operations.Rejected(Operations.TargetUnavailable);
      }
      if editMode.Some? && editMode.value.kind == ServiceKind {
        var found := ServiceIndex(services, editMode.value.id);
        if found.Some? {
          var j := found.value;
          services := services[j := Service(services[j].id, n, d, serverId, status)];
          outcome := Operations.Updated;
        } else {
          outcome := Operations.EditTargetMissing;
        }
      } else {
        services := services + [Service(freshId, n, d, serverId, status)];
        outcome := Operations.Created(freshId);
      }
      CloseModal();
    }

    /** `deleteItem(type, id)`, with the confirmation dialog's answer as a parameter. */
    method DeleteItem(kind: Kind, id: string, confirmed: bool) returns (outcome: Operations.DeleteOutcome)
      modifies this
      ensures (Snapshot(), outcome) == Operations.Delete(old(Snapshot()), kind, id, confirmed)
    {
      if !confirmed {
        return Operations.Cancelled;
      }
      if kind == ServerKind {
        var count := |Filter(services, (s: Service) => s.serverId == id)|;
        servers := Filter(servers, (s: Server) => s.id != id);
        services := Filter(services, (s: Service) => s.serverId != id);
        outcome := Operations.ServerDeleted(count);
      } else {
        services := Filter(services, (s: Service) => s.id != id);
        outcome := Operations.ServiceDeleted;
      }
    }

    /** The drop handler of the zone of server `targetId`, receiving the identity the
        drag carried. */
    method Drop(serviceId: string, targetId: string) returns (outcome: Operations.DropOutcome)
      modifies this
      ensures (Snapshot(), outcome) == Operations.Drop(old(Snapshot()), serviceId, targetId)
    {
      var found := ServiceIndex(services, serviceId);
      if found.None? {
        return Operations.UnknownService;
      }
      var j := found.value;
      var target := ServerIndex(servers, targetId);
      if target.None? || servers[target.value].status == INACTIVE {
        return Operations.TargetRejected;
      }
      if services[j].serverId != targetId {
        services := services[j := services[j].(serverId := targetId)];
        outcome := Operations.Moved;
      } else {
        outcome := Operations.AlreadyThere;
      }
    }
  }
}
