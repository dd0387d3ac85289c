/** `save` and `load` (src/scripts/main.js:36-55): the store is written to browser storage
    as JSON under one key, and read back at start-up with a migration that gives every
    record without a status the status `active`. */
module Persistence {
  import opened Seqs
  import opened Records

  /** A stored server as JSON gives it back. `status` is `None` when the property is
      missing or holds a falsy value other than a string (`null`, `false`, `0`). */
  datatype StoredServer = StoredServer(id: string, name: string, ip: string, note: string, status: Option<string>)

  /** A stored service as JSON gives it back; `status` as for servers. */
  datatype StoredService = StoredService(id: string, name: string, desc: string, serverId: string, status: Option<string>)

  /** One list property of the stored object. `Absent`: missing or falsy, so `|| []`
      substitutes an empty list. `Malformed`: a truthy value that is not an array, on
      which `.map` throws. */
  datatype Field<T> = Absent | Present(items: seq<T>) | Malformed

  /** What the storage key holds once read: text that `JSON.parse` rejects or that parses
      to `null` (reading a property of it throws), or a parsed object. */
  datatype Stored = Unparseable | Parsed(servers: Field<StoredServer>, services: Field<StoredService>)

  /** The records of a list property, as `(data.x || [])` gives them. */
  function Items<T>(f: Field<T>): seq<T>
    requires !f.Malformed?
  {
    if f.Present? then f.items else []
  }

  /** `status: s.status || 'active'`: a stored status that is a non-empty string is kept,
      anything else becomes `active`, so a loaded record always has a status. */
  function MigrateStatus(status: Option<string>): (r: string)
    ensures r != []
    ensures status.Some? && status.value != [] ==> r == status.value
    ensures status.None? || status.value == [] ==> r == ACTIVE
  {
    if status.Some? && status.value != [] then status.value else ACTIVE
  }

  function MigrateServer(x: StoredServer): Server {
    Server(x.id, x.name, x.ip, x.note, MigrateStatus(x.status))
  }

  function MigrateService(x: StoredService): Service {
    Service(x.id, x.name, x.desc, x.serverId, MigrateStatus(x.status))
  }

  /** `load()`, given what the key holds (`None`: no entry, or an empty one). Any
      exception leaves what was already assigned: a malformed server list changes
      nothing, but a malformed service list comes after the servers were replaced. The
      edit context is never read back. */
  function Load(st: State, raw: Option<Stored>): (r: State)
    ensures r.editMode == st.editMode
    ensures raw.None? || raw.value.Unparseable? ==> r == st
    ensures raw.Some? && raw.value.Parsed? && raw.value.servers.Malformed? ==> r == st
  {
    match raw
    case None => st
    case Some(Unparseable) => st
    case Some(Parsed(servers, services)) =>
      if servers.Malformed? then st
      else
        var withServers := st.(servers := seq(|Items(servers)|, k requires 0 <= k < |Items(servers)| => MigrateServer(Items(servers)[k])));
        if services.Malformed? then withServers
        else withServers.(services := seq(|Items(services)|, k requires 0 <= k < |Items(services)| => MigrateService(Items(services)[k])))
  }

  /** Every loaded record keeps its stored fields, in stored order, and a stored status
      that is a non-empty string; every other status reads as `active`. A missing list
      loads as empty. */
  lemma LoadMigratesRecords(st: State, servers: Field<StoredServer>, services: Field<StoredService>)
    requires !servers.Malformed? && !services.Malformed?
    ensures var r := Load(st, Some(Parsed(servers, services)));
      && |r.servers| == |Items(servers)| && |r.services| == |Items(services)|
      && (servers.Absent? ==> r.servers == []) && (services.Absent? ==> r.services == [])
      && (forall k :: 0 <= k < |r.servers| ==>
            var x := Items(servers)[k];
            && r.servers[k].id == x.id && r.servers[k].name == x.name && r.servers[k].ip == x.ip
            && r.servers[k].note == x.note
            && r.servers[k].status == (if x.status.Some? && x.status.value != [] then x.status.value else ACTIVE))
      && (forall k :: 0 <= k < |r.services| ==>
            var x := Items(services)[k];
            && r.services[k].id == x.id && r.services[k].name == x.name && r.services[k].desc == x.desc
            && r.services[k].serverId == x.serverId
            && r.services[k].status == (if x.status.Some? && x.status.value != [] then x.status.value else ACTIVE))
  {
  }

  /** A service list that is a truthy value but not an array (an object, a non-empty
      string, a non-zero number, `true`) makes `load` stop half-way: the servers have
      already been replaced by the stored ones, while the services stay as they were. */
  lemma LoadIsNotAtomic(st: State, servers: seq<StoredServer>)
    ensures var r := Load(st, Some(Parsed(Present(servers), Malformed)));
      && |r.servers| == |servers| && (forall k :: 0 <= k < |servers| ==> r.servers[k] == MigrateServer(servers[k]))
      && r.services == st.services
  {
  }

  /** Every status is a non-empty string. */
  predicate StatusesPresent(st: State) {
    && (forall i :: 0 <= i < |st.servers| ==> st.servers[i].status != [])
    && (forall j :: 0 <= j < |st.services| ==> st.services[j].status != [])
  }

  /** After `load`, no record is without a status, whatever the storage held. */
  lemma LoadLeavesStatusesPresent(st: State, raw: Option<Stored>)
    requires StatusesPresent(st)
    ensures StatusesPresent(Load(st, raw))
  {
  }

  /** `save()`: `JSON.stringify(state)`, read back as `load` sees it. */
  function Save(st: State): Stored {
    Parsed(
      Present(seq(|st.servers|, i requires 0 <= i < |st.servers| =>
        var s := st.servers[i]; StoredServer(s.id, s.name, s.ip, s.note, Some(s.status)))),
      Present(seq(|st.services|, j requires 0 <= j < |st.services| =>
        var s := st.services[j]; StoredService(s.id, s.name, s.desc, s.serverId, Some(s.status)))))
  }

  /** Loading what was saved gives the saved records back unchanged, in order, when every
      status is a non-empty string (which every status set by the forms, the seed or a
      load is); only the edit context is the loader's own. */
  lemma LoadSaveRoundTrip(saved: State, st: State)
    requires StatusesPresent(saved)
    ensures Load(st, Some(Save(saved))) == saved.(editMode := st.editMode)
  {
    var r := Load(st, Some(Save(saved)));
    assert r.servers == saved.servers;
    assert r.services == saved.services;
  }

  /** With an empty status the round trip is lost: the server or service comes back
      `active`. */
  lemma SaveLoadRepairsEmptyStatus(st: State)
    ensures var r := Load(st, Some(Save(st)));
      && (forall i :: 0 <= i < |st.servers| && st.servers[i].status == [] ==> r.servers[i].status == ACTIVE)
      && (forall j :: 0 <= j < |st.services| && st.services[j].status == [] ==> r.services[j].status == ACTIVE)
  {
  }
}
