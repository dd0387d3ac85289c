/** `seedIfEmpty` (src/scripts/main.js:483-541): a store without servers receives three
    example servers and four example services. The identities `uid()` would draw are
    parameters. */
module Seed {
  import opened Seqs
  import opened Text
  import opened Ipv4
  import opened Records

  /** The seven identities drawn, in the order the program draws them. */
  datatype SeedIds = SeedIds(app: string, db: string, test: string, api: string, web: string, pg: string, redis: string)

  function AllIds(ids: SeedIds): seq<string> {
    [ids.app, ids.db, ids.test, ids.api, ids.web, ids.pg, ids.redis]
  }

  /** The seven identities differ from each other and from every record of the store. */
  predicate FreshFor(ids: SeedIds, st: State) {
    var all := AllIds(ids);
    && (forall a, b :: 0 <= a < b < |all| ==> all[a] != all[b])
    && (forall a :: 0 <= a < |all| ==> IdUnused(st, all[a]))
  }

  function SeedServers(ids: SeedIds): seq<Server> {
    [ Server(ids.app, "srv-app-01", "192.168.1.10", "Aplicaciones", ACTIVE),
      Server(ids.db, "srv-db-01", "192.168.1.20", "Base de datos", ACTIVE),
      Server(ids.test, "srv-test-01", "192.168.1.30", "Testing", INACTIVE) ]
  }

  function SeedServices(ids: SeedIds): seq<Service> {
    [ Service(ids.api, "API Pedidos", "Node.js", ids.app, ACTIVE),
      Service(ids.web, "Sitio Web", "Nginx + React", ids.app, ACTIVE),
      Service(ids.pg, "PostgreSQL", "v15", ids.db, ACTIVE),
      Service(ids.redis, "Redis Cache", "v7.0", ids.db, INACTIVE) ]
  }

  /** `seedIfEmpty()`: only a store without servers is seeded, and the examples are
      appended to what is there. */
  function SeedIfEmpty(st: State, ids: SeedIds): (r: State)
    ensures |st.servers| > 0 ==> r == st
    ensures |st.servers| == 0 ==> |r.servers| == 3 && |r.services| == |st.services| + 4
    ensures r.services[..|st.services|] == st.services && r.editMode == st.editMode
  {
    if |st.servers| == 0 then
      st.(servers := st.servers + SeedServers(ids), services := st.services + SeedServices(ids))
    else st
  }

  lemma SeedIdsDistinct(ids: SeedIds, e: Option<EditContext>)
    requires FreshFor(ids, State([], [], None))
    ensures IdsDistinct(State(SeedServers(ids), SeedServices(ids), e))
  {
    var all := AllIds(ids);
    assert ids.app == all[0] && ids.db == all[1] && ids.test == all[2];
    assert ids.api == all[3] && ids.web == all[4] && ids.pg == all[5] && ids.redis == all[6];
  }

  lemma SeedReferencesResolve(ids: SeedIds, e: Option<EditContext>)
    ensures ReferencesResolve(State(SeedServers(ids), SeedServices(ids), e))
  {
    var servers := SeedServers(ids);
    assert HasServer(servers, ids.app) by { assert servers[0].id == ids.app; }
    assert HasServer(servers, ids.db) by { assert servers[1].id == ids.db; }
  }

  lemma SeedLiveOnLive(ids: SeedIds, e: Option<EditContext>)
    requires FreshFor(ids, State([], [], None))
    ensures LiveOnLive(State(SeedServers(ids), SeedServices(ids), e))
  {
    var all := AllIds(ids);
    assert ids.app == all[0] && ids.db == all[1] && ids.test == all[2];
  }

  /** Seeding a consistent store without servers gives a consistent store whose
      statuses are all `active` or `inactive`: a consistent store without servers has no
      services either, and each example service refers to an example server, the active
      ones to active servers. */
  lemma SeedIsConsistent(st: State, ids: SeedIds)
    requires Consistent(st) && FreshFor(ids, st) && st.servers == []
    ensures Consistent(SeedIfEmpty(st, ids)) && StatusesWellFormed(SeedIfEmpty(st, ids))
  {
    ServicesNeedServers(st);
    assert st == State([], [], st.editMode);
    assert SeedIfEmpty(st, ids) == State(SeedServers(ids), SeedServices(ids), st.editMode);
    SeedIdsDistinct(ids, st.editMode);
    SeedReferencesResolve(ids, st.editMode);
    SeedLiveOnLive(ids, st.editMode);
  }

  /** An address `192.168.1.x` passes the address check when `x` is an octet. */
  lemma PrivateAddressIsValid(ip: string, last: string)
    requires IsOctetText(last) && ip == Join(["192", "168", "1", last], '.')
    ensures IpValid(ip)
  {
    DecimalValueOfShortNumeral('1', '9', '2');
    DecimalValueOfShortNumeral('1', '6', '8');
    JoinedOctetsAreValid(["192", "168", "1", last]);
  }

  /** The address of example server `i` passes the server form's address check. */
  lemma SeedAddressIsValid(ids: SeedIds, i: nat)
    requires i < 3
    ensures IpValid(SeedServers(ids)[i].ip)
  {
    var last := ["10", "20", "30"][i];
    DecimalValueOfShortNumeral(last[0], last[1], '0');
    assert [last[0], last[1]] == last;
    var ip := SeedServers(ids)[i].ip;
    assert ip == "192.168.1." + last by {
      if i == 0 {
        assert ip == "192.168.1.10";
      } else if i == 1 {
        assert ip == "192.168.1.20";
      } else {
        assert ip == "192.168.1.30";
      }
    }
    JoinFour("192", "168", "1", last, '.');
    assert "192" + "." + "168" + "." + "1" + "." == "192.168.1.";
    PrivateAddressIsValid(ip, last);
  }
}
