/** The inventory's data: the `state` object of src/scripts/main.js:2-6, with its server
    and service records, the edit context, and the referential invariants the store keeps. */
module Records {
  import opened Seqs

  /** The two status values the forms offer. A status is kept as the string the
      program stores, since loaded data may hold any string. */
  const ACTIVE := "active"
  const INACTIVE := "inactive"

  /** `{id, name, ip, note, status}` */
  datatype Server = Server(id: string, name: string, ip: string, note: string, status: string)

  /** `{id, name, desc, serverId, status}` */
  datatype Service = Service(id: string, name: string, desc: string, serverId: string, status: string)

  /** The `type` of an edit context and of a delete request: `'server'` or `'service'`. */
  datatype Kind = ServerKind | ServiceKind

  /** `editMode`: `{type, id}` of the record the modal is editing. */
  datatype EditContext = EditContext(kind: Kind, id: string)

  /** The whole store: `state.servers`, `state.services`, `state.editMode` (null is `None`). */
  datatype State = State(servers: seq<Server>, services: seq<Service>, editMode: Option<EditContext>)

  /** The first server with identity `id`, as `state.servers.find(s => s.id === id)` picks it. */
  function ServerIndex(servers: seq<Server>, id: string): Option<nat> {
    FindIndex(servers, (s: Server) => s.id == id)
  }

  /** The first service with identity `id`. */
  function ServiceIndex(services: seq<Service>, id: string): Option<nat> {
    FindIndex(services, (s: Service) => s.id == id)
  }

  predicate HasServer(servers: seq<Server>, id: string) {
    exists i :: 0 <= i < |servers| && servers[i].id == id
  }

  function ServerId(s: Server): string { s.id }

  function ServiceId(s: Service): string { s.id }

  /** No two servers share an identity, and no two services do. */
  predicate IdsDistinct(st: State) {
    KeysDistinct(st.servers, ServerId) && KeysDistinct(st.services, ServiceId)
  }

  /** With distinct identities, looking a server up by its identity finds that server. */
  lemma ServerIndexFindsUnique(servers: seq<Server>, i: nat)
    requires KeysDistinct(servers, ServerId) && i < |servers|
    ensures ServerIndex(servers, servers[i].id) == Some(i)
  {
  }

  /** With distinct identities, looking a service up by its identity finds that service. */
  lemma ServiceIndexFindsUnique(services: seq<Service>, j: nat)
    requires KeysDistinct(services, ServiceId) && j < |services|
    ensures ServiceIndex(services, services[j].id) == Some(j)
  {
  }

  /** Every service refers to an existing server. */
  predicate ReferencesResolve(st: State) {
    forall j :: 0 <= j < |st.services| ==> HasServer(st.servers, st.services[j].serverId)
  }

  /** A store whose references resolve has no service unless it has a server. */
  lemma ServicesNeedServers(st: State)
    requires ReferencesResolve(st)
    ensures |st.services| > 0 ==> |st.servers| > 0
  {
    if |st.services| > 0 {
      assert HasServer(st.servers, st.services[0].serverId);
      var i :| 0 <= i < |st.servers| && st.servers[i].id == st.services[0].serverId;
    }
  }

  /** A service that is not inactive never sits on an inactive server. */
  predicate LiveOnLive(st: State) {
    forall i, j ::
      0 <= i < |st.servers| && 0 <= j < |st.services| &&
      st.services[j].serverId == st.servers[i].id && st.services[j].status != INACTIVE
      ==> st.servers[i].status != INACTIVE
  }

  /** The referential invariants the store operations keep. */
  predicate Consistent(st: State) {
    IdsDistinct(st) && ReferencesResolve(st) && LiveOnLive(st)
  }

  /** Every status is one of the two the forms offer. */
  predicate StatusesWellFormed(st: State) {
    && (forall i :: 0 <= i < |st.servers| ==> st.servers[i].status in {ACTIVE, INACTIVE})
    && (forall j :: 0 <= j < |st.services| ==> st.services[j].status in {ACTIVE, INACTIVE})
  }

  /** `id` is not yet the identity of any record: what a fresh `uid()` is assumed to give. */
  predicate IdUnused(st: State, id: string) {
    && (forall i :: 0 <= i < |st.servers| ==> st.servers[i].id != id)
    && (forall j :: 0 <= j < |st.services| ==> st.services[j].id != id)
  }

  /** With statuses well formed, the invariant takes its usual form: every active service
      refers to an active server. */
  lemma ActiveServicesOnActiveServers(st: State, j: nat)
    requires Consistent(st) && StatusesWellFormed(st)
    requires j < |st.services| && st.services[j].status == ACTIVE
    ensures exists i :: 0 <= i < |st.servers| && st.servers[i].id == st.services[j].serverId
                        && st.servers[i].status == ACTIVE
  {
    assert HasServer(st.servers, st.services[j].serverId);
    var i :| 0 <= i < |st.servers| && st.servers[i].id == st.services[j].serverId;
    assert st.servers[i].status != INACTIVE;
  }
}
