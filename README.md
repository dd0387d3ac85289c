# Server and service inventory board: a Dafny model of its store

The board keeps a list of **servers** (`id`, `name`, `ip`, `note`, `status`) and a list of
**services** (`id`, `name`, `desc`, `serverId`, `status`). Each service sits on one server.
An optional **edit context** records which record the modal form is editing. All of it lives
in one mutable `state` object in `src/scripts/main.js`. The page changes that object in
place in response to form submits, delete buttons, drag-and-drop and start-up loading, then
saves it to browser storage and redraws.

This project models that store and proves what the handlers promise:

- `Records` (records.dfy): the records and the store value. It also defines the invariants
  the handlers keep:
  - identities are distinct;
  - every service refers to an existing server;
  - no service that is not inactive sits on an inactive server.
- `Operations` (operations.dfy): every handler as a function from the old store to the new
  store and an outcome. This covers both form submits, delete, the drop handler and the
  drag-start guard, with the lemmas about them.
- `StoreClass` (store.dfy): `class Store`, whose fields are `state.servers`,
  `state.services` and `state.editMode`. Its methods update those fields in place, as the
  handlers do; for example, the inactive cascade is a loop over the services. Each method is
  proved to reach exactly the state the corresponding function describes.
- `Persistence` (persistence.dfy): `load` with its status migration, and `save`.
- `Seed` (seed.dfy): the example data a store without servers receives.
- `Views` (views.dfy): what rendering derives from the store:
  - the counters;
  - the server dropdown of the service form;
  - the tab the "add" button opens;
  - the board order and the services on each board.
- `Ipv4` (ipv4.dfy), `Html` (html.dfy) and `Text` (text.dfy) model the pure helpers:
  - `ipValid`, modelled as a deterministic matcher for its regular expression;
  - `escapeHtml`;
  - the parts of `String.prototype.trim` and `split` those helpers use.
- `Seqs` (seqs.dfy): `filter`, `find` and `some` over sequences.
- `Scenarios` (scenarios.dfy): one user story followed through the transitions.

### Behaviour worth knowing

- **`load` is not atomic.** The servers are assigned before the services are mapped. A stored
  service list that is a truthy value but not an array (an object, a non-empty string, a non-zero number, `true`) therefore throws after the servers were already replaced.
  A falsy list (`null`, `false`, `0`, `""`) is read as empty, as if missing.
  The store then keeps the new servers and the old services (`Persistence.LoadIsNotAtomic`).
- **Edit target gone.** When the record being edited has disappeared, a submit changes no
  record and gives no message. It still saves, redraws and closes the modal
  (`EditTargetMissing`).
- **Statuses other than `active` and `inactive`.** A loaded record may have a status other
  than `active`, `inactive` or empty; the migration fills in only the empty ones. Such a
  server:
  - gets no board (`Views.BoardOrder`);
  - is not offered in the dropdown;
  - still accepts services, because the guards only test for `inactive`.

  For this reason the store invariant says "not inactive" for both the service and the
  server. `Records.ActiveServicesOnActiveServers` gives the "active on active" reading when
  every status is one of the two form values.

## Model

| member | source | states |
|---|---|---|
| Ipv4.MatchesGroupsIff | src/scripts/main.js:63 | `(?:\d{1,3}\.){k}\d{1,3}$` matches exactly when splitting on dots gives k+1 pieces of one to three ASCII digits each. |
| Ipv4.IpValidIff | src/scripts/main.js:63-64 | An address is accepted if and only if it has exactly four dot-separated groups, each of 1-3 ASCII digits with value at most 255. |
| Ipv4.JoinedPiecesHaveQuadShape | src/scripts/main.js:63 | Four groups of 1-3 digits joined with dots match the pattern, and splitting the result gives the groups back. |
| Ipv4.JoinedOctetsAreValid | src/scripts/main.js:63-64 | Four groups of 1-3 digits, each worth at most 255, joined with dots, are accepted. |
| Ipv4.JoinedLargeGroupIsRejected | src/scripts/main.js:63-64 | Four groups of 1-3 digits with one worth more than 255 match the pattern and are still rejected: the range check refuses them. |
| Ipv4.DottedIsValid | src/scripts/main.js:63-64 | Every address written from four numbers 0-255 is accepted, and splitting it gives those four numerals back. |
| Ipv4.AcceptsPrivateAddress | src/scripts/main.js:63-64 | `192.168.1.1` is accepted. |
| Ipv4.RejectsOutOfRangeGroup | src/scripts/main.js:63-64 | `999.1.1.1` matches the pattern, four groups of 1-3 digits, and is rejected because its first group exceeds 255. |
| Text.TrimStartDropsLeadingWhitespace | src/scripts/main.js:367-369 | Trimming the start drops only whitespace and stops at the first character that is not whitespace. |
| Text.TrimEndDropsTrailingWhitespace | src/scripts/main.js:367-369 | Trimming the end drops only whitespace and stops at the last character that is not whitespace. |
| Text.TrimIsMaximalSlice | src/scripts/main.js:367-369 | `trim()` returns the slice of the input outside which everything is whitespace; the slice neither starts nor ends with whitespace. |
| Text.TrimEmptyIff | src/scripts/main.js:372 | A trimmed field is empty exactly when the input is all whitespace; this is the "name required" test. |
| Text.TrimIdempotent | src/scripts/main.js:367-369 | Trimming a trimmed value changes nothing. |
| Text.Decimal | src/scripts/main.js:80 | The numeral of n is a non-empty digit string whose value (`+n`) is n, with no leading zero. |
| Text.SplitJoin | src/scripts/main.js:64 | `split('.')` loses nothing: joining the pieces with the separator gives the input back, and no piece contains the separator. |
| Text.SplitOfJoin | src/scripts/main.js:64 | The other round trip: pieces without the separator, joined and split again, come back unchanged. |
| Html.EscapedTextIsInert | src/scripts/main.js:66-74 | The escaped text contains no `<`, `>`, `"` or `'`. |
| Html.EscapeKeepsPlainText | src/scripts/main.js:66-74 | Text without any of `& < > " '` comes back unchanged. |
| Html.EscapesEachSpecial | src/scripts/main.js:67-73 | `&`, `<`, `>`, `"` and `'` become `&amp;`, `&lt;`, `&gt;`, `&quot;` and `&#39;`. |
| Html.EscapeConcat | src/scripts/main.js:66-74 | Escaping a concatenation is the concatenation of the escapes; the replacement works one character at a time. |
| Html.EscapeRoundTrip | src/scripts/main.js:66-74 | Escaping loses no information: reading the entities back gives the original text. |
| Records.ServerIndexFindsUnique | src/scripts/main.js:194 | With distinct identities, `servers.find(s => s.id === id)` finds the one server with that identity. |
| Records.ServiceIndexFindsUnique | src/scripts/main.js:189 | With distinct identities, `services.find` by identity finds the one service with that identity. |
| Records.ServicesNeedServers | src/scripts/main.js:2-6 | In a store whose references resolve, there is no service without a server. |
| Records.ActiveServicesOnActiveServers | src/scripts/main.js:2-6 | In a consistent store whose statuses are all `active` or `inactive`, every active service refers to an active server. |
| Persistence.MigrateStatus | src/scripts/main.js:45 | A stored status that is a non-empty string is kept; a missing or empty one becomes `active`. The result is never empty. |
| Persistence.Load | src/scripts/main.js:38-55 | No stored entry, or unparseable data, leaves the store unchanged. So does a stored server list that is a truthy value but not an array (an object, a non-empty string, a non-zero number, `true`). The edit context is never loaded. |
| Persistence.LoadMigratesRecords | src/scripts/main.js:43-50 | Loading keeps the count and order of the stored servers and services, and every field. Only a missing or empty status becomes `active`. A missing list loads as empty. |
| Persistence.LoadIsNotAtomic | src/scripts/main.js:39-54 | A stored service list that is a truthy value but not an array (an object, a non-empty string, a non-zero number, `true`) leaves the new servers in place and the old services unchanged. |
| Persistence.LoadLeavesStatusesPresent | src/scripts/main.js:43-50 | After a load, no record is without a status, whatever the storage held. |
| Persistence.LoadSaveRoundTrip | src/scripts/main.js:36-50 | Loading what was saved restores the saved servers and services exactly, when every status is non-empty. |
| Persistence.SaveLoadRepairsEmptyStatus | src/scripts/main.js:45-49 | Every server and every service saved with an empty status comes back `active`. |
| Operations.SubmitServer | src/scripts/main.js:364-405 | Rejected if and only if the trimmed name is empty or the trimmed address is invalid, with the name checked first ("name required", else "invalid address"); a rejection changes nothing. Otherwise the modal closes. The outcome is "updated" exactly when a server edit finds its target, "created" with the fresh identity exactly when no server edit is open, and a missing edit target changes nothing but closing the modal. |
| Operations.ServerDeactivationCascades | src/scripts/main.js:375-391 | Saving an edited server as `inactive` marks every service on that server inactive. No other service, no other server and no other field changes. |
| Operations.ServerReactivationLeavesServices | src/scripts/main.js:385-391 | Saving a server with any status but `inactive` leaves every service as it was; reactivating a server does not reactivate its services. |
| Operations.CreatedServerIsFound | src/scripts/main.js:364-398 | A valid submit with no server edit open creates a server: it is appended after the existing ones with the trimmed fields, is found by its fresh identity, and the services are untouched. |
| Operations.EditedServerIsRewritten | src/scripts/main.js:375-383 | A valid submit while editing a server that is found rewrites that server's fields under its old identity, whatever the new status, and leaves every other server as it was. |
| Operations.ServerUpdateKeepsConsistency | src/scripts/main.js:378-391 | Replacing a server's fields under the same identity, with the inactive cascade, keeps the store consistent. |
| Operations.ServerAppendKeepsConsistency | src/scripts/main.js:397 | Appending a server with an unused identity keeps the store consistent. |
| Operations.SubmitServerPreservesConsistency | src/scripts/main.js:364-405 | The server form keeps a consistent store consistent. |
| Operations.SubmitService | src/scripts/main.js:407-447 | Rejected if and only if the trimmed name is empty, no server is chosen, or the chosen server is missing or inactive, checked in that order and each with its own reason; a rejection changes nothing. Otherwise the servers are untouched and the modal closes. The outcome is "updated" exactly when a service edit finds its target, "created" with the fresh identity exactly when no service edit is open, and a missing edit target changes nothing but closing the modal. |
| Operations.CreatedServiceIsAppended | src/scripts/main.js:407-443 | A valid submit with no service edit open appends a service with the fresh identity, the trimmed fields and the chosen server, after the unchanged existing services. |
| Operations.EditedServiceIsRewritten | src/scripts/main.js:427-436 | A valid submit while editing a service that is found rewrites that service's fields under its old identity, and leaves every other service as it was. |
| Operations.AcceptingServerIsUnique | src/scripts/main.js:422-425 | With distinct identities, every server bearing an identity that passes the service form's server check is not inactive. |
| Operations.SubmitServicePreservesConsistency | src/scripts/main.js:407-447 | The service form keeps a consistent store consistent: its server check is what keeps every service on an existing, non-inactive server. |
| Operations.Delete | src/scripts/main.js:336-361 | A declined confirmation changes nothing. Deleting a service never touches the servers. Neither kind of delete touches the edit context. |
| Operations.DeleteServerCascades | src/scripts/main.js:345-353 | Deleting server `id` removes that server and exactly the services on it. The kept servers and the kept services are each exactly the others, in their original order. The reported count is the number of services removed. Removed plus kept services equal the original services as a multiset. |
| Operations.DeleteServiceRemovesIt | src/scripts/main.js:353-359 | Deleting service `id` removes exactly the services with that identity and keeps the others in their original order. An unknown `id` leaves the services as they were. The outcome is the service-deleted message. |
| Operations.DeleteServerKeepsOthersInOrder | src/scripts/main.js:348 | With distinct identities, deleting the server between `before` and `after` leaves exactly `before + after`. |
| Operations.DeleteServiceKeepsOthersInOrder | src/scripts/main.js:356 | With distinct identities, deleting the service between `before` and `after` leaves exactly `before + after`. |
| Operations.DeletePreservesConsistency | src/scripts/main.js:345-360 | Deletion keeps a consistent store consistent; no service is left referring to a deleted server. |
| Operations.Drop | src/scripts/main.js:184-207 | An unknown service, or a missing or inactive target, changes nothing. So does a drop on the service's own server, which shows no message. Only a move saves. Otherwise the service is moved: exactly then, only that service's `serverId` changes, to the target. |
| Operations.DropPreservesConsistency | src/scripts/main.js:184-207 | A drop keeps a consistent store consistent. |
| Operations.DragPayload | src/scripts/main.js:161-168 | An inactive service cannot be dragged; any other drag carries the service's identity. |
| Operations.DragNeverMovesInactiveServices | src/scripts/main.js:161-166 | A drag started from the card of an inactive service changes nothing, and no drag started from a card changes an inactive service. A drop whose payload comes from elsewhere is not covered; see "Left out". |
| Seed.SeedIfEmpty | src/scripts/main.js:483-541 | A store with servers is left as it is. An empty one receives 3 servers and 4 services, appended after the existing services. |
| Seed.SeedIsConsistent | src/scripts/main.js:483-541 | Seeding a consistent store without servers, with fresh identities, gives a consistent store whose statuses are all `active` or `inactive`. |
| Seed.PrivateAddressIsValid | src/scripts/main.js:63-64 | Every `192.168.1.x` whose last group is 1-3 digits worth at most 255 passes the address check. |
| Seed.SeedAddressIsValid | src/scripts/main.js:485-505 | Each of the three example addresses passes the address check. |
| Views.StatsOf | src/scripts/main.js:77-81 | The counters: the active counts are the numbers of positions whose status is exactly `active`, for servers and for services; the totals are the list lengths. |
| Views.StatsCountTheRest | src/scripts/main.js:77-81 | With statuses well formed, total minus active servers is the number of inactive servers. |
| Views.ServerSelectView | src/scripts/main.js:83-115 | The dropdown is disabled, holding only the empty-valued placeholder, exactly when no server is active. |
| Views.SelectableOptionsAreActiveServers | src/scripts/main.js:93-101 | The enabled options are exactly the active servers, each valued by its identity and labelled `name (ip)`. |
| Views.DisabledOptionsOnlyWhileEditing | src/scripts/main.js:103-113 | In the enabled dropdown, disabled options appear only while an edit is open, and each stands for an inactive server. |
| Views.DisabledOptionsComeLast | src/scripts/main.js:94-113 | No enabled option follows a disabled one. |
| Views.EnabledOptionsInStoreOrder | src/scripts/main.js:94-113 | The enabled dropdown starts with the active servers' options, one per active server in store order, and holds only disabled options after them. |
| Views.InactiveServersListedWhileEditing | src/scripts/main.js:103-113 | While an edit is open and some server is active, every inactive server is listed as a disabled option labelled `name (ip) - Inactivo`. |
| Views.SelectableServersAcceptServices | src/scripts/main.js:83-101 | With distinct identities, every selectable option names a server that passes the service form's server check. |
| Views.DefaultTab | src/scripts/main.js:451-454 | The "add" button opens the service tab exactly when some server is active. |
| Views.DefaultTabMatchesSelect | src/scripts/main.js:451-454 | The service tab opens exactly when the dropdown is enabled; the server tab, exactly when it shows only the placeholder. |
| Views.BoardOrder | src/scripts/main.js:254-262 | The boards show exactly the servers whose status is `active` or `inactive`, with no inactive board before an active one. |
| Views.BoardGroupsKeepStoreOrder | src/scripts/main.js:256-259 | The boards are the active servers followed by the inactive ones, each group exactly the servers with that status, in store order. |
| Views.BoardOrderIsPermutation | src/scripts/main.js:256-259 | When every status is `active` or `inactive`, the board order is a permutation of the servers. |
| Views.BoardServices | src/scripts/main.js:211-224 | A board shows exactly the services whose `serverId` is its server's identity, each once and in store order; the `N svc` counter is their number. |
| Views.EachServiceOnOneBoard | src/scripts/main.js:210-211 | In a consistent store with well-formed statuses, every service is drawn on exactly one board: the board of its server. |
| Scenarios.DeactivatedServiceCannotBeDragged | src/scripts/main.js:161-166 | Story: create a server, create an active service on it, then edit the server to `inactive`. The service is now inactive, and dragging it anywhere changes nothing. |
| StoreClass.Store.constructor | src/scripts/main.js:2-6 | The initial store has no servers, no services and no edit open. |
| StoreClass.Store.Load | src/scripts/main.js:38-55 | Assigns in place, stopping where an exception would, and reaches exactly `Persistence.Load` of the old state. |
| StoreClass.Store.SeedIfEmpty | src/scripts/main.js:483-541 | Appends the examples in place, reaching `Seed.SeedIfEmpty` of the old state. |
| StoreClass.Store.Init | src/scripts/main.js:544-549 | Start-up: load, then seed; the store ends as the seeding of the loaded state. |
| StoreClass.Store.OpenAdd | src/scripts/main.js:451-454 | Clears the edit context and returns the tab `Views.DefaultTab` picks. |
| StoreClass.Store.EditItem | src/scripts/main.js:332-334 | Sets the edit context to the record and changes nothing else. |
| StoreClass.Store.CloseModal | src/scripts/main.js:291-295 | Clears the edit context and changes nothing else. |
| StoreClass.Store.DeactivateServicesOf | src/scripts/main.js:385-391 | The in-place loop marks inactive exactly the services of that server, as `Operations.DeactivateServicesOf` does. |
| StoreClass.Store.SubmitServer | src/scripts/main.js:364-405 | Updates fields and pushes in place, reaching exactly the state and outcome of `Operations.SubmitServer`. |
| StoreClass.Store.SubmitService | src/scripts/main.js:407-447 | Updates fields and pushes in place, reaching exactly the state and outcome of `Operations.SubmitService`. |
| StoreClass.Store.DeleteItem | src/scripts/main.js:336-361 | Reassigns the filtered lists, reaching exactly the state and outcome of `Operations.Delete`. |
| StoreClass.Store.Drop | src/scripts/main.js:184-207 | Reassigns the one service's server in place, reaching exactly the state and outcome of `Operations.Drop`. |

## Left out

- **Markup and DOM.** This covers:
  - the `innerHTML` templates;
  - status badges and action buttons;
  - drag-over classes and tab display toggling;
  - the page and modal show and close calls.

  The model keeps only the data rendering derives from the store: counters, dropdown
  options, board order and board contents. `Views.StatsText` gives the counter text; nothing
  is proved about it.
- **Browser storage and JSON.** `Persistence.Load` starts from what `JSON.parse` gives, as a
  `Stored` value, and `Persistence.Save` gives that value back. Serialisation text is not
  modelled.
- **Stored record contents.** Stored records are assumed to hold the record fields as strings.
  Extra properties kept by the object spread are not modelled, and neither are non-string
  field values, beyond a falsy status.
- **`uid()`.** It draws random identities. Fresh identities are parameters, and the
  preservation lemmas require them to be unused. Collisions of a random draw are not modelled.
- **`toast`, `confirm` and the tab switch.**
  - The toast is fire-and-forget feedback; the outcome values say which message applies.
  - The confirmation dialog's answer is a boolean parameter.
  - The switch to the server tab when no server is chosen is UI feedback; it is the
    `ServerRequired` rejection.
- **Render timing.** `save()` and `render()` are not modelled as effects. Every accepted
  submit and every confirmed delete saves, and a drop saves only when its outcome is
  `Moved`. The form handlers render before `closeModal()`, so
  the dropdown drawn then still reflects the old edit context. `Views.ServerSelectView` is a
  function of whatever state it is drawn from.
- **Records as values.** Records are values inside the store's sequences rather than shared
  objects. Handlers that assign a record's field replace that element of the sequence. The
  drag-start listener of a card keeps a reference to its record and reads the live `status`.
  Every mutation is followed by `render()`, which rebuilds every card from the current
  records, so the value model loses nothing.
- **Drops from outside a card.** The drop handler never checks the dragged service's status.
  A `text/plain` payload that equals an inactive service's identity, dragged from outside the
  page, would move that service. `Operations.Drop` models this faithfully.
  `Operations.DragNeverMovesInactiveServices` covers only drags started from a card.
- **Whitespace and escaping.**
  - `Text.Trim` removes the ECMAScript whitespace and line-terminator characters. Surrogate
    pairs are not modelled, since the trimmed set contains none.
  - `escapeHtml`'s `String(str)` conversion of non-strings is not modelled, because the
    model's text is always a string.
