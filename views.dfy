/** What the render functions derive from the store (src/scripts/main.js:77-115 and
    209-262): the counters, the server dropdown of the service form, the tab the "add"
    button opens, and the order of the server boards with the services on each. */
module Views {
  import opened Seqs
  import opened Text
  import opened Records

  predicate ServerActive(s: Server) { s.status == ACTIVE }
  predicate ServerInactive(s: Server) { s.status == INACTIVE }
  predicate ServiceActive(s: Service) { s.status == ACTIVE }

  /** The four numbers of the header. */
  datatype Stats = Stats(activeServers: nat, servers: nat, activeServices: nat, services: nat)

  /** `updateStats()`: records whose status is exactly `active`, out of all records. */
  function StatsOf(st: State): (r: Stats)
    ensures r.servers == |st.servers| && r.services == |st.services|
    ensures r.activeServers <= r.servers && r.activeServices <= r.services
    ensures r.activeServers == 0 <==> forall i :: 0 <= i < |st.servers| ==> !ServerActive(st.servers[i])
    ensures r.activeServers == |Positions(st.servers, ServerActive)|
    ensures r.activeServices == |Positions(st.services, ServiceActive)|
  {
    var active := Filter(st.servers, ServerActive);
    FilterLengthCounts(st.servers, ServerActive);
    FilterLengthCounts(st.services, ServiceActive);
    FilterMembership(st.servers, ServerActive);
    assert active == [] <==> forall i :: 0 <= i < |st.servers| ==> !ServerActive(st.servers[i]) by {
      if active != [] {
        assert active[0] in active;
      }
    }
    Stats(|active|, |st.servers|, |Filter(st.services, ServiceActive)|, |st.services|)
  }

  /** The header text, `a/b servidores · c/d servicios`. */
  function StatsText(s: Stats): string {
    Decimal(s.activeServers) + "/" + Decimal(s.servers) + " servidores · "
    + Decimal(s.activeServices) + "/" + Decimal(s.services) + " servicios"
  }

  /** When every status is `active` or `inactive`, the inactive records are exactly what
      the counters leave out. */
  lemma StatsCountTheRest(st: State)
    requires StatusesWellFormed(st)
    ensures StatsOf(st).servers - StatsOf(st).activeServers == |Filter(st.servers, ServerInactive)|
  {
    FilterPartition(st.servers, ServerActive, ServerInactive);
  }

  /** One `<option>` of the server dropdown. `enabled` says whether it can be chosen in
      the view as drawn: the placeholder `<option>` is itself not disabled, but the
      `<select>` holding it is, so it is recorded as not selectable. */
  datatype SelectOption = SelectOption(value: string, text: string, enabled: bool)

  /** The dropdown: its options in order, and whether the control itself is disabled. */
  datatype ServerSelect = ServerSelect(options: seq<SelectOption>, disabled: bool)

  const NO_ACTIVE_SERVERS := "— No hay servidores activos —"

  function ServerLabel(s: Server): string {
    s.name + " (" + s.ip + ")"
  }

  /** The option of an active server. */
  function ActiveOption(s: Server): SelectOption {
    SelectOption(s.id, ServerLabel(s), true)
  }

  /** The disabled option of an inactive server. */
  function InactiveOption(s: Server): SelectOption {
    SelectOption(s.id, ServerLabel(s) + " - Inactivo", false)
  }

  function Options(servers: seq<Server>, option: Server -> SelectOption): (r: seq<SelectOption>)
    ensures |r| == |servers| && forall k :: 0 <= k < |r| ==> r[k] == option(servers[k])
  {
    seq(|servers|, k requires 0 <= k < |servers| => option(servers[k]))
  }

  /** `updateServerSelect()`. Without an active server the control is disabled and holds
      only a placeholder whose value is empty. Otherwise it lists the active servers, and,
      while any edit is open, the inactive ones after them as disabled options. */
  function ServerSelectView(st: State): (r: ServerSelect)
    ensures r.disabled <==> !Any(st.servers, ServerActive)
    ensures r.disabled ==> r.options == [SelectOption("", NO_ACTIVE_SERVERS, false)]
  {
    var active := Filter(st.servers, ServerActive);
    var inactive := Filter(st.servers, ServerInactive);
    FilterMembership(st.servers, ServerActive);
    if active == [] then
      assert !Any(st.servers, ServerActive) by {
        forall i | 0 <= i < |st.servers| ensures !ServerActive(st.servers[i]) {
          assert st.servers[i] in st.servers;
        }
      }
      ServerSelect([SelectOption("", NO_ACTIVE_SERVERS, false)], true)
    else
      assert active[0] in active;
      var extra := if |inactive| > 0 && st.editMode.Some? then Options(inactive, InactiveOption) else [];
      ServerSelect(Options(active, ActiveOption) + extra, false)
  }

  /** An enabled option of the dropdown stands for an active server. */
  lemma EnabledOptionIsActiveServer(st: State, o: SelectOption)
    requires o in ServerSelectView(st).options && o.enabled
    ensures exists i :: 0 <= i < |st.servers| && ServerActive(st.servers[i]) && o == ActiveOption(st.servers[i])
  {
    var active := Filter(st.servers, ServerActive);
    var inactive := Filter(st.servers, ServerInactive);
    var shown := Options(active, ActiveOption);
    var extra := if |inactive| > 0 && st.editMode.Some? then Options(inactive, InactiveOption) else [];
    FilterMembership(st.servers, ServerActive);
    assert ServerSelectView(st).options == shown + extra;
    assert o in shown;
    var k :| 0 <= k < |active| && shown[k] == o;
    assert active[k] in st.servers;
  }

  /** Every active server is offered by an enabled option. */
  lemma ActiveServerIsOffered(st: State, i: nat)
    requires i < |st.servers| && ServerActive(st.servers[i])
    ensures ActiveOption(st.servers[i]) in ServerSelectView(st).options
  {
    var active := Filter(st.servers, ServerActive);
    var inactive := Filter(st.servers, ServerInactive);
    var shown := Options(active, ActiveOption);
    var extra := if |inactive| > 0 && st.editMode.Some? then Options(inactive, InactiveOption) else [];
    FilterMembership(st.servers, ServerActive);
    assert st.servers[i] in active;
    assert ServerSelectView(st).options == shown + extra;
    var k :| 0 <= k < |active| && active[k] == st.servers[i];
    assert shown[k] == ActiveOption(st.servers[i]);
  }

  /** The selectable options of the dropdown are exactly the options of the active
      servers, valued by the server's identity and labelled `name (ip)`. */
  lemma SelectableOptionsAreActiveServers(st: State, o: SelectOption)
    ensures o in ServerSelectView(st).options && o.enabled <==>
              exists i :: 0 <= i < |st.servers| && ServerActive(st.servers[i]) && o == ActiveOption(st.servers[i])
  {
    if o in ServerSelectView(st).options && o.enabled {
      EnabledOptionIsActiveServer(st, o);
    }
    if exists i :: 0 <= i < |st.servers| && ServerActive(st.servers[i]) && o == ActiveOption(st.servers[i]) {
      var i :| 0 <= i < |st.servers| && ServerActive(st.servers[i]) && o == ActiveOption(st.servers[i]);
      ActiveServerIsOffered(st, i);
    }
  }

  /** A disabled option in the enabled dropdown appears only while an edit is open, and
      stands for an inactive server. */
  lemma DisabledOptionsOnlyWhileEditing(st: State, o: SelectOption)
    requires !ServerSelectView(st).disabled && o in ServerSelectView(st).options && !o.enabled
    ensures st.editMode.Some?
    ensures exists i :: 0 <= i < |st.servers| && ServerInactive(st.servers[i]) && o == InactiveOption(st.servers[i])
  {
    var active := Filter(st.servers, ServerActive);
    var inactive := Filter(st.servers, ServerInactive);
    var shown := Options(active, ActiveOption);
    var extra := if |inactive| > 0 && st.editMode.Some? then Options(inactive, InactiveOption) else [];
    FilterMembership(st.servers, ServerInactive);
    assert ServerSelectView(st).options == shown + extra;
    assert forall x :: x in shown ==> x.enabled;
    assert o in extra;
    var k :| 0 <= k < |extra| && extra[k] == o;
    assert inactive[k] in st.servers;
  }

  /** While an edit is open and the dropdown is enabled, every inactive server is listed
      as a disabled option. */
  lemma InactiveServersListedWhileEditing(st: State, i: nat)
    requires !ServerSelectView(st).disabled && st.editMode.Some?
    requires i < |st.servers| && ServerInactive(st.servers[i])
    ensures InactiveOption(st.servers[i]) in ServerSelectView(st).options
  {
    var active := Filter(st.servers, ServerActive);
    var inactive := Filter(st.servers, ServerInactive);
    var shown := Options(active, ActiveOption);
    FilterMembership(st.servers, ServerInactive);
    assert st.servers[i] in inactive;
    var extra := Options(inactive, InactiveOption);
    assert ServerSelectView(st).options == shown + extra;
    var k :| 0 <= k < |inactive| && inactive[k] == st.servers[i];
    assert extra[k] == InactiveOption(st.servers[i]);
  }

  /** The dropdown's options with the server list behind them: the active servers'
      options, then, while an edit is open, the inactive servers' disabled options. */
  lemma SelectLayout(st: State) returns (active: seq<Server>, extra: seq<SelectOption>)
    requires !ServerSelectView(st).disabled
    ensures active == Filter(st.servers, ServerActive)
    ensures ServerSelectView(st).options == Options(active, ActiveOption) + extra
    ensures forall k :: 0 <= k < |extra| ==> !extra[k].enabled
  {
    active := Filter(st.servers, ServerActive);
    var inactive := Filter(st.servers, ServerInactive);
    extra := if |inactive| > 0 && st.editMode.Some? then Options(inactive, InactiveOption) else [];
  }

  /** In the dropdown no enabled option follows a disabled one. */
  lemma DisabledOptionsComeLast(st: State)
    ensures var v := ServerSelectView(st);
      forall a, b :: 0 <= a < b < |v.options| && !v.options[a].enabled ==> !v.options[b].enabled
  {
    var v := ServerSelectView(st);
    if !v.disabled {
      var active, extra := SelectLayout(st);
      var shown := Options(active, ActiveOption);
      assert forall k :: 0 <= k < |shown| ==> v.options[k].enabled;
      assert forall k :: |shown| <= k < |v.options| ==> v.options[k] == extra[k - |shown|];
    }
  }

  /** The enabled dropdown starts with the options of `Filter(st.servers, ServerActive)`
      and holds only disabled options after them. */
  lemma ActiveOptionsFirst(st: State)
    requires !ServerSelectView(st).disabled
    ensures var v, active := ServerSelectView(st), Filter(st.servers, ServerActive);
      && |active| <= |v.options| && v.options[..|active|] == Options(active, ActiveOption)
      && forall k :: |active| <= k < |v.options| ==> !v.options[k].enabled
  {
    var v := ServerSelectView(st);
    var active, extra := SelectLayout(st);
    assert v.options[..|active|] == Options(active, ActiveOption);
    assert forall k :: |active| <= k < |v.options| ==> v.options[k] == extra[k - |active|];
  }

  /** The enabled dropdown starts with the options of the active servers, in store order
      and one per server, and holds only disabled options after them. */
  lemma EnabledOptionsInStoreOrder(st: State)
    ensures var v := ServerSelectView(st);
      !v.disabled ==>
        exists act :: && SelectsInOrder(act, st.servers, ServerActive)
                      && |act| <= |v.options| && v.options[..|act|] == Options(act, ActiveOption)
                      && forall k :: |act| <= k < |v.options| ==> !v.options[k].enabled
  {
    if !ServerSelectView(st).disabled {
      ActiveOptionsFirst(st);
      FilterSelectsInOrder(st.servers, ServerActive);
    }
  }

  /** With distinct identities, the server behind every selectable option passes the
      service form's reference check, so choosing it never brings the "inactive server"
      refusal. */
  lemma SelectableServersAcceptServices(st: State, o: SelectOption)
    requires KeysDistinct(st.servers, ServerId)
    requires o in ServerSelectView(st).options && o.enabled
    ensures var i := ServerIndex(st.servers, o.value);
      i.Some? && ServerActive(st.servers[i.value])
  {
    SelectableOptionsAreActiveServers(st, o);
    var i :| 0 <= i < |st.servers| && ServerActive(st.servers[i]) && o == ActiveOption(st.servers[i]);
    ServerIndexFindsUnique(st.servers, i);
  }

  /** The tab the modal opens on. */
  datatype Tab = ServiceTab | ServerTab

  /** The "add" button's choice (src/scripts/main.js:451-454): the service form when some
      server is active, the server form otherwise. */
  function DefaultTab(st: State): (r: Tab)
    ensures r == ServiceTab <==> exists i :: 0 <= i < |st.servers| && ServerActive(st.servers[i])
  {
    if Any(st.servers, ServerActive) then ServiceTab else ServerTab
  }

  /** The "add" button opens the service form exactly when the dropdown has a server to
      offer, and the server form exactly when it shows only the placeholder. */
  lemma DefaultTabMatchesSelect(st: State)
    ensures DefaultTab(st) == ServiceTab <==> !ServerSelectView(st).disabled
    ensures DefaultTab(st) == ServerTab <==> ServerSelectView(st).options == [SelectOption("", NO_ACTIVE_SERVERS, false)]
  {
    var v := ServerSelectView(st);
    if !v.disabled {
      var i :| 0 <= i < |st.servers| && ServerActive(st.servers[i]);
      SelectableOptionsAreActiveServers(st, ActiveOption(st.servers[i]));
      assert ActiveOption(st.servers[i]) in v.options;
    }
  }

  /** The boards' order (src/scripts/main.js:256-259): the servers whose status is
      `active`, then those whose status is `inactive`, each group in store order. A server
      with any other status gets no board. */
  function BoardOrder(servers: seq<Server>): (r: seq<Server>)
    ensures forall s :: s in r <==> s in servers && (ServerActive(s) || ServerInactive(s))
    ensures forall a, b :: 0 <= a < b < |r| && ServerInactive(r[a]) ==> ServerInactive(r[b])
  {
    var active := Filter(servers, ServerActive);
    var inactive := Filter(servers, ServerInactive);
    var r := active + inactive;
    FilterMembership(servers, ServerActive);
    FilterMembership(servers, ServerInactive);
    assert forall a :: 0 <= a < |r| ==> (a < |active| <==> ServerActive(r[a])) by {
      forall a | 0 <= a < |r| ensures a < |active| <==> ServerActive(r[a]) {
        if a < |active| {
          assert r[a] in active;
        } else {
          assert r[a] == inactive[a - |active|] && r[a] in inactive;
        }
      }
    }
    r
  }

  /** The boards come in two groups, the active servers and then the inactive ones, and
      each group lists its servers in store order, every one exactly once. */
  lemma BoardGroupsKeepStoreOrder(servers: seq<Server>)
    ensures var r := BoardOrder(servers);
      exists n :: 0 <= n <= |r| && SelectsInOrder(r[..n], servers, ServerActive)
                               && SelectsInOrder(r[n..], servers, ServerInactive)
  {
    var active := Filter(servers, ServerActive);
    var r := BoardOrder(servers);
    FilterSelectsInOrder(servers, ServerActive);
    FilterSelectsInOrder(servers, ServerInactive);
    assert r[..|active|] == active && r[|active|..] == Filter(servers, ServerInactive);
  }

  /** With every status `active` or `inactive`, the boards show every server exactly as
      often as the store holds it. */
  lemma BoardOrderIsPermutation(st: State)
    requires StatusesWellFormed(st)
    ensures multiset(BoardOrder(st.servers)) == multiset(st.servers)
  {
    FilterPartition(st.servers, ServerActive, ServerInactive);
  }

  /** The services drawn on a server's board, in store order; their number is the
      board's `N svc` counter. */
  function BoardServices(services: seq<Service>, server: Server): (r: seq<Service>)
    ensures forall s :: s in r <==> s in services && s.serverId == server.id
    ensures |r| == |Positions(services, (s: Service) => s.serverId == server.id)|
    ensures SelectsInOrder(r, services, (s: Service) => s.serverId == server.id)
  {
    var onIt := (s: Service) => s.serverId == server.id;
    FilterMembership(services, onIt);
    FilterLengthCounts(services, onIt);
    FilterSelectsInOrder(services, onIt);
    Filter(services, onIt)
  }

  /** In a consistent store with well-formed statuses, every service is drawn on exactly
      one board: the board of the server it refers to. */
  lemma EachServiceOnOneBoard(st: State, j: nat)
    requires Consistent(st) && StatusesWellFormed(st) && j < |st.services|
    ensures exists w :: 0 <= w < |st.servers| && st.servers[w].id == st.services[j].serverId
              && st.servers[w] in BoardOrder(st.servers)
              && forall b :: b in BoardOrder(st.servers) && st.services[j] in BoardServices(st.services, b) ==> b == st.servers[w]
  {
    var svc := st.services[j];
    assert HasServer(st.servers, svc.serverId);
    var w :| 0 <= w < |st.servers| && st.servers[w].id == svc.serverId;
    var order := BoardOrder(st.servers);
    assert st.servers[w] in order by {
      assert st.servers[w] in st.servers;
    }
    forall b | b in order && svc in BoardServices(st.services, b) ensures b == st.servers[w] {
      assert b in st.servers && b.id == svc.serverId;
      var k :| 0 <= k < |st.servers| && st.servers[k] == b;
      assert ServerId(st.servers[k]) == ServerId(st.servers[w]);
    }
  }
}
