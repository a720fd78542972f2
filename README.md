# mapa-athis core in Dafny

This project models the logic of the ATHIS front end of Uberaba: a map and a management panel for technical assistance in social housing. The model covers three parts:

- **Routing** (`routing.dfy`, from `src/services/graphhopperService.ts`).
  - The intervention areas and their priority weights.
  - The in-place stable sort `getOptimalRoute`, which ranks the areas for route planning. It is modelled as an insertion sort on an `array<Area>` and proved against a functional reference ranking, `SortByPriority`.
  - The seed catalogue `getUberabaAreas`.
  - `calculateRoute`: its empty-key guard, the query it sends and the handling of the reply. The query is built as the code builds it, from an object literal that writes `point` twice. JavaScript keeps one property per name, so the start point is lost (see "## Findings").
- **Gestao** (`gestao.dfy`, from `src/pages/Gestao.tsx`).
  - The demands of the COHAGRA management page and their status and kind labels.
  - The status lifecycle. The code only implies it through the action buttons each row renders; here it is an explicit transition relation.
  - The keyed status update `updateDemandaStatus`, and the page state that update rewrites (the list and its stored copy).
  - The status tabs `filtrarDemandas` and the statistics `stats`.
- **MapLayers** (`map_layers.dfy`, from `src/components/MapComponent.tsx`): the initial layer configuration, `toggleLayer` and `activeLayersCount`.

Two support modules hold shared definitions:

- `wrappers.dfy` defines `Option` and `Result`.
- `seqs.dfy` defines `Filter`, the model of `Array.prototype.filter`, with its concatenation and multiplicity lemmas.

Outside effects are passed in as parameters:

- The routing provider is a function `Query -> Reply`. `calculateRoute` consults it exactly once for a non-empty key.
- The browser store is the field `GestaoPage.stored`. The list it held at load time is the constructor's argument.

Some modelling decisions:

- `Array.prototype.sort` has been stable since the 2019 edition of ECMA-262.
  - The ranking is stated as a stable sort: non-increasing in weight, with every priority class in input order.
  - `Routing.StableSortUnique` shows that these two conditions fix the result. So the reference insertion sort describes whichever stable algorithm the engine uses.
- The comparator `priorityWeight[b.priority] - priorityWeight[a.priority]` is `Routing.Compare`.
- Demand `status` and `tipo` are kept as text. The page reads its records from parsed JSON and never validates them, and the label and count functions have explicit cases for unknown text.

## Model

| member | source | states |
|---|---|---|
| Routing.Weight | src/services/graphhopperService.ts:55-60 | every priority weighs between 1 and 4 |
| Routing.WeightTable | src/services/graphhopperService.ts:55-60 | distinct priorities have distinct weights, ordered critical > high > medium > low |
| Routing.Compare | src/services/graphhopperService.ts:54-62 | the comparator is negative exactly when the first area outweighs the second, and zero exactly on equal priority |
| Routing.SortByPriority | src/services/graphhopperService.ts:54-62 | the reference ranking has the input's length and is a permutation of it |
| Routing.InsertOrdered | src/services/graphhopperService.ts:54-62 | inserting an area into a ranked sequence keeps it ranked |
| Routing.InsertPerPriority | src/services/graphhopperService.ts:54-62 | insertion appends the area to its own priority class and leaves every other class as it was |
| Routing.SortByPriorityOrdered | src/services/graphhopperService.ts:54-62 | the ranking is non-increasing in weight |
| Routing.SortByPriorityStable | src/services/graphhopperService.ts:54 | within every priority class the ranking keeps the input order |
| Routing.SamePerPriorityPermutes | src/services/graphhopperService.ts:54 | two sequences with equal priority classes are permutations of each other |
| Routing.SortByPriorityIsStableSort | src/services/graphhopperService.ts:54-62 | the ranking is a ranked permutation that keeps ties in input order |
| Routing.StableSortUnique | src/services/graphhopperService.ts:54 | two ranked sequences with the same per-priority order are equal, so a stable sort by weight has a single result |
| Routing.RankingIsTheStableSort | src/services/graphhopperService.ts:54-62 | any ranked arrangement that keeps ties in input order is the reference ranking |
| Routing.TiesKeepInputOrder | src/services/graphhopperService.ts:54 | [medium, critical b, critical c, low] ranks as [b, c, medium, low]: the two critical areas keep their order |
| Routing.GetOptimalRoute | src/services/graphhopperService.ts:52-65 | the caller's array itself ends up holding the reference ranking of its old contents, and the same array is returned; its contents are a permutation of the old ones, are non-increasing in weight and keep the per-priority input order |
| Routing.SortByPriorityExtend | src/services/graphhopperService.ts:54-62 | ranking a prefix one element longer inserts that element into the ranking of the shorter prefix |
| Routing.InsertAt | src/services/graphhopperService.ts:54 | one pass of the in-place sort leaves `a[..i+1]` as the stable insertion of the old `a[i]` into the old `a[..i]`, and no cell above `i` changes |
| Routing.MakeRoom | src/services/graphhopperService.ts:54 | the shifting loop moves up one cell exactly the trailing areas the comparator puts after the new one, keeps the cells below the hole, and stops at the first area not put after it |
| Routing.InsertSplit | src/services/graphhopperService.ts:54-62 | the stable insertion places the new area right behind the longest prefix whose last element the comparator does not put after it |
| Routing.SeedCatalog | src/services/graphhopperService.ts:67-108 | the catalogue holds industrial (high), periferia_norte (critical) and centro (medium), each with four boundary points |
| Routing.RankHighCriticalMedium | src/services/graphhopperService.ts:54-62 | a high, a critical and a medium area rank as critical, high, medium |
| Routing.SeedRanking | src/services/graphhopperService.ts:67-108 | ranking the catalogue yields periferia_norte, industrial, centro |
| Routing.SetPropertyLookup | src/services/graphhopperService.ts:31-38 | defining a property on an object gives it the new value and leaves every other property's value as it was |
| Routing.SetPropertyNew | src/services/graphhopperService.ts:31-38 | a property the object does not have yet is added after the existing ones |
| Routing.DefineAllLookup | src/services/graphhopperService.ts:31-38 | after a run of definitions, a property holds the value of the last entry that names it, or its old value if no entry does |
| Routing.ObjectLiteralLookup | src/services/graphhopperService.ts:31-38 | each property of an object literal holds the value of the last entry with its name |
| Routing.DefineAllFresh | src/services/graphhopperService.ts:31-38 | entries with distinct, new names are added in order, one property each |
| Routing.QueryAsWrittenShape | src/services/graphhopperService.ts:31-38 | as written, the query has five parameters: one `point`, holding the end point in the place of the first entry, then vehicle, instructions, calc_points and key |
| Routing.StartPointDropped | src/services/graphhopperService.ts:31-38 | as written, the only point the query carries is the end point |
| Routing.StartPointIgnored | src/services/graphhopperService.ts:25-49 | as written, the outcome of a route request does not depend on the start point |
| Routing.AsWrittenRequestIsRejected | src/services/graphhopperService.ts:31-45 | a provider that answers only queries with at least two points rejects the request as written with status 400, and answers the intended query |
| Routing.RouteQueryCarriesBothPoints | src/services/graphhopperService.ts:31-38 | the intended query carries the start point and then the end point |
| Routing.RouteQuerySettings | src/services/graphhopperService.ts:34-37 | the intended query asks for a route by car and carries the API key |
| Routing.HandleReply | src/services/graphhopperService.ts:40-49 | a reply succeeds exactly when it is a 2xx answer with a body, and then yields that body; every other reply is an error, and never the missing-key error |
| Routing.CalculateRoute | src/services/graphhopperService.ts:25-49 | the missing-key error happens exactly for an empty key; otherwise the result succeeds exactly when the provider answers the query as the code builds it with a 2xx reply with a body, and a non-2xx status is reported as an API error with that status |
| Routing.EmptyKeyFailsBeforeRequest | src/services/graphhopperService.ts:26-28 | with an empty key, the outcome is the missing-key error whatever the provider would answer, so no request is made |
| Gestao.ParseStatus | src/pages/Gestao.tsx:19 | a recognised status text is the stored name of the status it yields |
| Gestao.ParseStatusName | src/pages/Gestao.tsx:19 | every status reads back from its stored name |
| Gestao.GetStatusText | src/pages/Gestao.tsx:70-78 | the label is "Desconhecido" exactly when the text is none of the four statuses |
| Gestao.StatusLabelsDistinct | src/pages/Gestao.tsx:70-78 | two statuses have the same label exactly when they are equal |
| Gestao.ToastStatusText | src/pages/Gestao.tsx:48-52 | the update toast names the new status with the same label as the status badge |
| Gestao.GetTipoText | src/pages/Gestao.tsx:80-82 | the label is "Regularização Fundiária" exactly for "regularizacao", and "Melhorias Habitacionais" for every other kind |
| Gestao.ActionsAreTransitions | src/pages/Gestao.tsx:270-312 | a row renders a button for a target exactly when the transition relation permits moving its status there |
| Gestao.UnknownStatusHasNoActions | src/pages/Gestao.tsx:270-312 | a row whose status text is not a status renders no button |
| Gestao.TerminalStates | src/pages/Gestao.tsx:270-312 | a status permits no transition exactly when it is approved or rejected |
| Gestao.TransitionsAdvance | src/pages/Gestao.tsx:270-312 | every permitted transition moves to a later stage and never to pending |
| Gestao.UpdateStatus | src/pages/Gestao.tsx:41-43 | the update keeps the length and order, leaves every demand with another id unchanged, and on a matching demand sets the status to the new one and changes nothing else |
| Gestao.UpdateIdempotent | src/pages/Gestao.tsx:41-43 | applying the same update twice does the same as applying it once |
| Gestao.UpdateAbsentId | src/pages/Gestao.tsx:41-43 | an id that no demand has leaves the list unchanged |
| Gestao.UpdateNeverToPending | src/pages/Gestao.tsx:40-43 | after an update, a demand is pending only if it was pending before |
| Gestao.UpdateFollowsLifecycle | src/pages/Gestao.tsx:270-312 | with unique ids, pressing a rendered button moves that demand along a permitted transition and leaves the others unchanged |
| Gestao.SharedIdRewritesTerminal | src/pages/Gestao.tsx:41-43 | if two demands share an id, approving the pending one also rewrites the rejected one, which is not a permitted transition |
| Gestao.StatusPartition | src/pages/Gestao.tsx:84-89 | the four status counts plus the count of unknown statuses equal the length of the list |
| Gestao.TipoPartition | src/pages/Gestao.tsx:84-91 | the two kind counts plus the count of unknown kinds equal the length of the list |
| Gestao.ComputeStats | src/pages/Gestao.tsx:84-92 | the total is the length of the list, and neither the status counts nor the kind counts add up to more than it |
| Gestao.StatusCountsAddUp | src/pages/Gestao.tsx:84-89 | when every status is known, the four status counts add up to the total |
| Gestao.TipoCountsAddUp | src/pages/Gestao.tsx:84-91 | when every kind is known, the two kind counts add up to the total |
| Gestao.UpdateMovesCount | src/pages/Gestao.tsx:84-89 | updating a demand with a unique id moves one unit from the count of its old status to the count of its new one |
| Gestao.FiltrarDemandas | src/pages/Gestao.tsx:94-97 | a missing, empty or "todas" tab lists every demand; any other tab lists exactly the demands with that status, as many as the status count |
| Gestao.FiltrarKeepsOrder | src/pages/Gestao.tsx:96 | filtering commutes with concatenation, so a tab lists its demands in list order |
| Gestao.FiltrarMultiplicity | src/pages/Gestao.tsx:94-97 | a tab lists each selected demand as often as the list holds it, and no unselected one |
| Gestao.GestaoPage.constructor | src/pages/Gestao.tsx:34-38 | the page starts with the stored list, or with an empty list when nothing is stored |
| Gestao.GestaoPage.UpdateDemandaStatus | src/pages/Gestao.tsx:40-46 | the list becomes the updated list and the stored copy becomes that same list |
| Gestao.GestaoPage.PressAction | src/pages/Gestao.tsx:241-312 | a click has an effect exactly when the row exists in that tab and renders that button; it then applies the update to that row's id and stores the result, otherwise nothing changes; with unique ids the list only moves along permitted transitions |
| MapLayers.ToggleLayer | src/components/MapComponent.tsx:49-55 | the toggle keeps the length and order, leaves layers with another id unchanged, and on a matching layer flips `enabled` and changes nothing else |
| MapLayers.ToggleTwiceRestores | src/components/MapComponent.tsx:49-55 | toggling the same id twice restores the list |
| MapLayers.ToggleAbsentUnchanged | src/components/MapComponent.tsx:51-53 | toggling an id that no layer has leaves the list unchanged |
| MapLayers.ActiveLayersCount | src/components/MapComponent.tsx:57 | the active count is at most the number of layers |
| MapLayers.ActiveCountIsEnabledPositions | src/components/MapComponent.tsx:57 | the active count is the number of positions holding an enabled layer |
| MapLayers.ToggleChangesCount | src/components/MapComponent.tsx:49-57 | toggling a layer with a unique id changes the active count by one: down if the layer was on, up if it was off |
| MapLayers.InitialConfiguration | src/components/MapComponent.tsx:18-47 | the map starts with four layers, densidade and prioritarias on and infraestrutura and transporte off, so two are active |

## Left out

- The HTTP exchange of `calculateRoute` (`fetch`, `response.json()`, console logging), and the rethrow at src/services/graphhopperService.ts:46-49.
  - The provider is a parameter of type `Query -> Reply`.
  - The JSON body is an uninterpreted `RouteData`.
  - Turning coordinates into strings is abstracted into the `Coordinates` query value, because number formatting is floating-point text output.
  - The base URL is a constant of the request that the model does not use.
- Routing.CalculateRoute: only an empty string counts as a missing key.
  - The key is typed as a string, so the `null` and `undefined` cases of `!this.apiKey` are not modelled.
  - There is no class around the service, because its fields, the key and the constant base URL, are never updated after construction. The key is read on each call.
- Routing.Weight: only the four declared priorities are modelled. A record with any other priority text would make the JavaScript comparator return `NaN`, and that case is not modelled.
- Area coordinates are exact reals and the population is a `nat`. The model does no floating-point arithmetic on either.
- Routing.GetOptimalRoute: the model uses one stable algorithm, insertion sort. It proves that every stable sort by weight gives the same result (`StableSortUnique`), not how the engine's own sort orders its comparisons.
- The React hook `src/hooks/useGraphHopper.ts` is not part of this model. It is an asynchronous state wrapper that adds no logic.
- Browser effects of the management page:
  - The toast is modelled only through its label (`ToastStatusText`).
  - `window.open` for the map link, the details dialog and all JSX are left out.
  - `getStatusColor` is a CSS class mapping with no behaviour.
- Reading and writing the store (src/pages/Gestao.tsx:36, :46) is modelled as the `stored` field. JSON parse errors of a corrupt stored value are not modelled.
- React state snapshots and re-rendering are not modelled: each method sees the latest list.
- Percentages (src/pages/Gestao.tsx:188, :204) and date and coordinate formatting are left out, because they are floating-point and locale formatting.
- Gestao.GestaoPage.PressAction: it promises a permitted transition only for a list with unique ids.
  - The code does not enforce unique ids.
  - `Gestao.SharedIdRewritesTerminal` shows what happens without them.
- The page does not check same-status updates, coordinate bounds or requester names.
- The other pages and components (`Admin`, `Solicitacao`, `Login`, `Header`, `Dashboard`) are not part of this model. They hold mock data, forms and navigation.

## Findings

| source | as written | input that shows it | evidently intended | confidence | as-written member | corrected member |
|---|---|---|---|---|---|---|
| src/services/graphhopperService.ts:31-38 | the query object literal has the key `point` twice, so the second entry replaces the first and only the end point is sent | any `start != end`, for example start (-19.74, -47.94) and end (-19.75, -47.92): the query holds one `point`, the end point, and no start point | send both `point` parameters, start then end, as the routing API expects of a route request | not executed | Routing.StartPointDropped | Routing.RouteQueryCarriesBothPoints |
