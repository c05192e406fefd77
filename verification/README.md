# Transit ticketing: route search and client-side state, in Dafny

This project models the core of a bus-ticketing web application. It has two parts.

**The route engine:**
- `buildGraph` (lib/graph.ts) groups the directed stop-to-stop edges into adjacency lists.
- `dijkstra` (lib/dijkstra.ts) is a binary-heap shortest-path search with lazy deletion. It stops when the goal is popped and then rebuilds the path along `prev`.
- The `GET` handler of app/api/short-route/route.ts is a second, unit-weight Dijkstra. It selects the next node with a linear scan.

**The client-side logic the booking and validation screens run:**
- the booking cart (components/booking-section.tsx);
- the sign-up and sign-in validation (components/SignUpForm.tsx, components/SignIn.tsx);
- the conductor's ticket-validation page (app/conductor/page.tsx);
- the keyboard-driven stop autocomplete (components/AutocompleteInput.tsx).

Each source file keeps its own form in the model:
- Code that updates state step by step is a method with loops and invariants: the heap, both searches and the graph builder.
- A React component's state is a class whose handlers are methods with `modifies this`: `MinHeap`, `BookingSection`, `ConductorPage`, `AutocompleteInput`.
- Pure validation chains are functions.

Each method is proved against a specification:
- `BuildGraph` against a reference definition of the grouping (`Bucket`).
- `Dijkstra` and `ShortRoute.Get` against walks in the graph (`IsWalk`, `HopWalk`): the result is a walk of the stated length, and no walk is shorter.
- The heap against `IsMinHeap` and the multiset of its contents.
- The component handlers against the full new state.

| file | module | models |
|---|---|---|
| options.dfy | `Options` | `Option` |
| transit_graph.dfy | `TransitGraph` | lib/graph.ts |
| min_heap.dfy | `PriorityQueue` | `MinHeap` of lib/dijkstra.ts |
| walks.dfy | `Walks` | walks through the graph, `graph[u] \|\| []` |
| search_invariant.dfy | `SearchInvariant` | the loop invariant of `dijkstra` and the lemmas for each step |
| dijkstra.dfy | `RouteSearch` | `dijkstra` |
| short_route.dfy | `ShortRoute` | app/api/short-route/route.ts |
| js_text.dfy | `JsText` | `\s`, `length`, `startsWith`, `indexOf`, `includes`, `split`, `join` |
| auth_forms.dfy | `AuthForms` | SignUpForm.tsx and SignIn.tsx |
| booking.dfy | `BookingCart` | booking-section.tsx |
| conductor.dfy | `Conductor` | app/conductor/page.tsx |
| autocomplete.dfy | `Autocomplete` | AutocompleteInput.tsx |

## Representation choices

- **Stop ids:**
  - Stop ids are integers. The source keys its graphs by `String(id)`.
  - `TransitGraph.KeyOf` models that rendering. It is proved injective (`KeyOfInjective`) and never empty, so the model keys maps by the id itself.
  - For the same reason, `while (cur)` over non-empty key strings becomes "while `cur` is not null".
- **Distances:**
  - Distances are natural numbers.
  - `Infinity` in `dijkstra` is absence from `dist`.
  - In the short-route handler, `Infinity` is the value `Inf` of `Dist`, and `Infinity + 1` is `Inf`.
  - Comparing a number with an absent entry (`alt < undefined`) is false. The model says so by relaxing only neighbours that are keys of `dist`.
- **The heap:** the heap's JS array is a `seq` field that `Push` and `Pop` reassign.
- **Initialisation:** initialising `dist`/`prev` with `forEach` is a map comprehension with the same result.
- **Key order in the short-route handler:**
  - The enumeration order of `for (const node in dist)` is an explicit input, `order`: any listing of the keys without repeats.
  - The proofs hold for every such order.
  - Ties go to the first node in that order, because the comparison is strict.
- **JavaScript string semantics** are written out in `JsText`:
  - `length` counts UTF-16 code units;
  - `\s` is the ECMAScript whitespace set;
  - `split` on a separator string.
- **Remainder:** `%` in the autocomplete is JavaScript's truncating remainder (`JsRemainder`), not Dafny's Euclidean one.
- **Nondeterministic inputs:**
  - In `BookingSection.Confirm`, `Math.random()` is the draw `0..250` it is scaled to.
  - `Date.now()` is an argument.
- **Requests and replies:**
  - Outgoing `fetch` calls are method results: the query or request the handler would send.
  - Replies are inputs of the method that consumes them: `ReceiveSuggestions`, `FinishValidation`.

Behaviour of the route search worth noting:
- **No transfer penalty:** lib/dijkstra.ts adds none; the cost of a walk is the sum of its edge distances.
- **Distances are copied unchanged:** lib/graph.ts keeps each row's distance as it is, so zero-length edges are allowed.
- **`start == goal`:** `dijkstra` pushes `start` and stops at its first pop. The result is `[start]` at distance 0; `RouteSearch.Dijkstra` proves it.
- **Goals that are not graph keys:** a goal that appears only as an edge target is still found when reachable. The result is absent exactly when no walk reaches the goal.

## Model

| member | source | states |
|---|---|---|
| TransitGraph.KeyOf | lib/graph.ts:13-14 | the key `String(id)` of a stop is never empty |
| TransitGraph.KeyOfInjective | lib/graph.ts:13-16 | two different stop ids never share a key, so keying by id is keying by `String(id)` |
| TransitGraph.BucketOfAbsentKey | lib/graph.ts:16 | a stop that no row has as `from_stop` has an empty bucket, so a fresh `[]` is the right start |
| TransitGraph.BuildGraph | lib/graph.ts:10-24 | the keys are exactly the `from_stop` values; each key's list holds the entries of the rows with that `from_stop`, in input order |
| TransitGraph.BucketMembers | lib/graph.ts:12-22 | an entry is listed under `k` iff some row with `from_stop == k` produced it; no reverse edge is invented |
| TransitGraph.BucketTotalSnoc | lib/graph.ts:17 | appending a row adds one entry in all, under the key of its `from_stop` |
| TransitGraph.BucketTotalIsEdgeCount | lib/graph.ts:12-22 | every row lands in exactly one list: over any listing of the keys, the lists hold `\|edges\|` entries |
| TransitGraph.BuiltGraphEntryCount | lib/graph.ts:10-24 | the graph `buildGraph` returns holds exactly one entry per edge row |
| PriorityQueue.RootIsMinimum | lib/dijkstra.ts:20 | in a heap-ordered array, slot 0 has the least priority of all slots |
| PriorityQueue.RootBelowAll | lib/dijkstra.ts:20 | the root's priority is at most that of every entry in the heap |
| PriorityQueue.Swap | lib/dijkstra.ts:13 | exchanging two slots keeps the length and the contents |
| PriorityQueue.SiftUpStep | lib/dijkstra.ts:11-14 | exchanging a child smaller than its parent moves the only violation one level up |
| PriorityQueue.SiftUpDone | lib/dijkstra.ts:10-12 | stopping at the root or under a parent that is no larger leaves a heap |
| PriorityQueue.SiftDownStep | lib/dijkstra.ts:24-30 | exchanging with the strictly smaller child (the left one on ties) moves the only violation one level down |
| PriorityQueue.SiftDownDone | lib/dijkstra.ts:28 | stopping when no child is smaller leaves a heap |
| PriorityQueue.RefillRoot | lib/dijkstra.ts:20-21 | moving the last entry into slot 0 removes exactly the old root and leaves a heap except below the root |
| PriorityQueue.MinHeap.constructor | lib/dijkstra.ts:6 | a new heap is empty and heap-ordered |
| PriorityQueue.MinHeap.Size | lib/dijkstra.ts:34 | the number of entries |
| PriorityQueue.MinHeap.Push | lib/dijkstra.ts:7-16 | the contents grow by exactly `[priority, value]` and the heap order is restored |
| PriorityQueue.MinHeap.Pop | lib/dijkstra.ts:17-33 | `null` on an empty heap; otherwise the old root, an entry of least priority, removed from the contents, with the heap order kept |
| Walks.Stops | lib/dijkstra.ts:72-77 | the stops of a walk: one more than its edges, starting at its origin |
| SearchInvariant.Frontier | lib/dijkstra.ts:51-68 | a walk from a settled stop to an unsettled one yields some unsettled stop with a distance no greater than the settled stop's distance plus the walk's cost |
| SearchInvariant.PoppedIsOptimal | lib/dijkstra.ts:52-56 | a popped entry that is not stale is unsettled and carries the least cost of any walk to its stop |
| SearchInvariant.EmptyQueueSettlesAll | lib/dijkstra.ts:51 | once the heap is empty, every stop reachable from `start` is settled |
| SearchInvariant.InitialInv | lib/dijkstra.ts:38-49 | the state after `dist[start] = 0; heap.push(0, start)` satisfies the loop invariant |
| SearchInvariant.StaleKeepsInv | lib/dijkstra.ts:55 | discarding an entry above its stop's distance keeps the invariant |
| SearchInvariant.SettleKeepsInv | lib/dijkstra.ts:52-56 | settling the stop of a current least entry keeps the invariant, with that stop open for relaxation |
| SearchInvariant.RelaxNeverIncreases | lib/dijkstra.ts:61-63 | a relaxation never raises a distance nor removes a stop from `dist` |
| SearchInvariant.RelaxKeepsInv | lib/dijkstra.ts:59-66 | a relaxation that strictly improves the target keeps the invariant, with one more edge of `u` relaxed |
| SearchInvariant.SkipKeepsInv | lib/dijkstra.ts:62 | an edge that does not strictly improve its target is relaxed as it stands |
| SearchInvariant.EdgeStep | lib/dijkstra.ts:59-66 | either branch of the strict `<` test keeps the invariant for the next edge |
| SearchInvariant.CloseKeepsInv | lib/dijkstra.ts:59-67 | once all edges of `u` are relaxed, no stop is open |
| SearchInvariant.PopStep | lib/dijkstra.ts:52-56 | a popped entry's stop has a distance; a stale pop keeps the invariant once discarded; a current pop is optimal |
| SearchInvariant.EmptyQueueFinal | lib/dijkstra.ts:51-70 | with the heap empty, the goal has a distance whenever it is reachable, and any distance it has is at most the cost of every walk to it |
| SearchInvariant.SettleShrinks | lib/dijkstra.ts:54-56 | settling a new stop shrinks the set of unsettled stops |
| RouteSearch.RelaxTracks | lib/dijkstra.ts:61-65 | the updates of `dist`, `prev` and the heap are the relaxation the invariant is proved for |
| RouteSearch.TieBreakRelaxTarget | lib/dijkstra.ts:61-65 | an edge strictly shorter than its target's current `dist` becomes the earliest of the shortest edges to that target seen so far |
| RouteSearch.TieBreakSkipTarget | lib/dijkstra.ts:61-65 | an edge no shorter than the current `dist` (the strict `<`) leaves the target's `dist` and `prev` and its earliest shortest edge as they are |
| RouteSearch.Expand | lib/dijkstra.ts:58-67 | relaxing all edges of the settled stop restores the invariant and keeps the heap in step with `dist`; a stop some edge brings closer ends with the distance and route of the earliest shortest such edge, and every other stop keeps its `dist` and `prev` entries |
| RouteSearch.Rebuild | lib/dijkstra.ts:72-77 | the walk back from `goal` yields the stops of a walk from `start` whose cost is `dist[goal]`, linked by `prev` along its length |
| RouteSearch.SearchFrom | lib/dijkstra.ts:38-68 | after the loop, the goal has a distance whenever it is reachable, and that distance is the least cost of any walk |
| RouteSearch.Dijkstra | lib/dijkstra.ts:37-80 | `null` iff no walk reaches the goal; otherwise the path of a walk of cost `distance_km`, annotated in `meta`, with no walk cheaper; `[start]` at 0 when start is the goal |
| ShortRoute.SuccOrder | app/api/short-route/route.ts:44-45 | `dist + 1` keeps the order of `<` and `<=` between distances, never lowers a distance, and raises a finite one strictly |
| ShortRoute.LessIsStrictOrder | app/api/short-route/route.ts:35 | `<` on hop counts and `Infinity` is a strict total order whose negation is `>=` |
| ShortRoute.InitialInv | app/api/short-route/route.ts:24-29 | the initial `dist`/`prev` with `dist[from] = 0` satisfy the loop invariant |
| ShortRoute.Frontier | app/api/short-route/route.ts:31-50 | a walk from a visited node at a finite distance to an unvisited node yields some unvisited node whose distance is at most the visited node's plus the walk's length |
| ShortRoute.SelectedIsShortest | app/api/short-route/route.ts:32-40 | the unvisited node of least distance has the least hop count of any walk to it |
| ShortRoute.SelectKeepsInv | app/api/short-route/route.ts:40 | visiting that node keeps the invariant |
| ShortRoute.RelaxKeepsInv | app/api/short-route/route.ts:43-48 | a strict improvement of a neighbour keeps the invariant |
| ShortRoute.SkipKeepsInv | app/api/short-route/route.ts:45 | a neighbour that is not improved, or not a key, is relaxed as it stands |
| ShortRoute.CloseKeepsInv | app/api/short-route/route.ts:42-49 | once all neighbours are scanned, no node is open |
| ShortRoute.VisitShrinks | app/api/short-route/route.ts:40 | visiting a node shrinks the unvisited nodes, so the loop ends |
| ShortRoute.OneLeft | app/api/short-route/route.ts:31 | when the loop stops on the key count, at most one node is left unvisited |
| ShortRoute.Finished | app/api/short-route/route.ts:31-50 | at loop exit every node's distance is the least hop count of any walk to it from `from` |
| ShortRoute.SelectMin | app/api/short-route/route.ts:32-39 | `null` iff all nodes are visited; otherwise an unvisited node of least distance, the first such in enumeration order |
| ShortRoute.ScanRelaxAt | app/api/short-route/route.ts:44-47 | a neighbour strictly farther than `dist[minNode] + 1` gets that distance and `minNode` as predecessor; no other node changes |
| ShortRoute.ScanSkipAt | app/api/short-route/route.ts:44-47 | a neighbour that is not strictly farther (a tie included) keeps its distance and predecessor, and an earlier improvement stays |
| ShortRoute.Expand | app/api/short-route/route.ts:42-49 | scanning the neighbours of the visited node restores the invariant and keeps the keys of `dist` and `prev`; a neighbour in `dist` strictly farther than `dist[minNode] + 1` ends with that distance and predecessor `minNode`, and every other node keeps its `dist` and `prev` entries |
| ShortRoute.Search | app/api/short-route/route.ts:20-50 | every node of `dist` ends with its least hop count from `from` (`Infinity` iff unreachable), with `prev` links one hop apart |
| ShortRoute.Rebuild | app/api/short-route/route.ts:52-57 | from a node at finite distance `d` the walk back lists `d + 1` nodes from `from`, forming a walk; otherwise `[to]` |
| ShortRoute.Get | app/api/short-route/route.ts:8-75 | 400 iff either stop is 0 or not a number; no route iff the stops differ and `to` is not a key reached from `from`; otherwise a walk with the least number of hops |
| JsText.Utf16Length | components/SignUpForm.tsx:40 | `length` is between the number of characters and twice it |
| JsText.Utf16LengthOfBmp | components/SignUpForm.tsx:40 | for text within the Basic Multilingual Plane, `length` is the number of characters |
| JsText.IndexOf | app/conductor/page.tsx:56 | the first index where the separator occurs, or -1 iff it occurs nowhere |
| JsText.JoinSplit | app/conductor/page.tsx:55-57 | joining the parts of a split with the separator gives back the text |
| JsText.SplitPartsFree | app/conductor/page.tsx:55-57 | no part of a split contains the separator |
| JsText.SplitFirst | app/conductor/page.tsx:55-57 | part 0 is the text before the first separator, or all of it |
| JsText.SplitSecond | app/conductor/page.tsx:55-58 | with a separator present there are at least two parts, and part 1 runs from the first separator to the next one or the end |
| AuthForms.EmailPattern | components/SignUpForm.tsx:35 | the check accepts exactly the strings of the form `a@b.c` with `a`, `b`, `c` non-empty and free of whitespace and `@` |
| AuthForms.ValidEmailMatches | components/SignUpForm.tsx:35 | every accepted email splits into such `a`, `b`, `c` |
| AuthForms.MatchIsValid | components/SignUpForm.tsx:35 | every string of that form is accepted |
| AuthForms.AtAfterLocalPart | components/SignUpForm.tsx:35 | in `a@d` with no `@` in `a`, the first `@` directly follows `a` |
| AuthForms.SignUpSubmit | components/SignUpForm.tsx:27-52 | the four checks in order; the first failing one sets its message; accepted iff all fields are filled, the email matches, the password has at least 6 code units and equals the confirmation |
| AuthForms.DisabledIffFieldsMissing | components/SignUpForm.tsx:100 | the submit button is disabled exactly for the inputs the first check rejects |
| AuthForms.SignInSubmit | components/SignIn.tsx:20-36 | the three checks in order; accepted iff both fields are filled, the email matches and the password has at least 6 code units |
| AuthForms.SignInIsSignUpWithConfirmation | components/SignIn.tsx:20-36 | sign-in decides, message included, as sign-up does with any non-empty name and the password repeated |
| BookingCart.SumPricesAppend | components/booking-section.tsx:73-74 | appending a booking adds exactly its price and its count to the totals |
| BookingCart.PricePerTicket | components/booking-section.tsx:62 | the price per ticket is a whole number from 150 to 400 |
| BookingCart.EveryPriceDrawn | components/booking-section.tsx:62 | every price from 150 to 400 is produced by some draw |
| BookingCart.NewBooking | components/booking-section.tsx:62-71 | the new booking's price is the price per ticket times the ticket count, so 150 to 400 per ticket |
| BookingCart.TotalInRange | components/booking-section.tsx:62-74 | a cart's total lies between 150 and 400 times its number of tickets |
| BookingCart.BookingSection.constructor | components/booking-section.tsx:8-15 | empty fields, one ticket, no bookings, zero total |
| BookingCart.BookingSection.SetFrom | components/booking-section.tsx:107 | the From field takes the typed value; nothing else changes |
| BookingCart.BookingSection.SetTo | components/booking-section.tsx:118 | the To field takes the typed value; nothing else changes |
| BookingCart.BookingSection.Confirm | components/booking-section.tsx:55-78 | alerts and changes nothing iff From or To is empty; otherwise appends exactly one booking, adds its price to the total (so the total remains the sum), clears both fields and resets the tickets to 1 |
| BookingCart.BookingSection.Reset | components/booking-section.tsx:80-83 | no bookings and a zero total; the form is untouched |
| BookingCart.BookingSection.Decrement | components/booking-section.tsx:129 | one ticket fewer, never below 1 |
| BookingCart.BookingSection.Increment | components/booking-section.tsx:137 | one ticket more |
| Conductor.PrefixColon | app/conductor/page.tsx:54-55 | in a `TICKET_ID:` text the first colon is the one ending the prefix |
| Conductor.ExtractTicketId | app/conductor/page.tsx:52-61 | a `TICKET_ID:` text gives the text between its first and second colon (or the end), even if it also holds `_TICKET:`; otherwise a text holding `_TICKET:` gives the text between the first and second marker (or the end); any other text is kept whole |
| Conductor.WholeBeforeFirst | app/conductor/page.tsx:55 | a text without the separator is its own first part |
| Conductor.TicketQrRoundTrip | app/conductor/page.tsx:54-55 | scanning `TICKET_ID:<id>` yields `<id>` for every id without a colon |
| Conductor.PassengerCount | app/conductor/page.tsx:124 | `data.passengers \|\| 1`: never 0; a missing or zero count shows as 1, any other count as given |
| Conductor.ConductorPage.constructor | app/conductor/page.tsx:10-23 | the initial state: empty fields, no stop, idle |
| Conductor.ConductorPage.HandleScanSuccess | app/conductor/page.tsx:52-61 | the ticket field takes the id extracted from the scanned text; nothing else changes |
| Conductor.ConductorPage.SetTicketId | app/conductor/page.tsx:175 | the ticket field takes the typed value; nothing else changes |
| Conductor.ConductorPage.HandleSearchChange | app/conductor/page.tsx:77-89 | the search text is set and the chosen stop dropped; a query is sent iff the text is longer than one code unit, otherwise the suggestions are cleared |
| Conductor.ConductorPage.ReceiveSuggestions | app/conductor/page.tsx:64-75 | the answer becomes the suggestion list |
| Conductor.ConductorPage.SelectStop | app/conductor/page.tsx:91-95 | the search shows the stop's name, the chosen stop is its id as text (never empty), the suggestions close |
| Conductor.ConductorPage.StartValidation | app/conductor/page.tsx:98-118 | without a ticket id or chosen stop: the "Missing Ticket ID or Stop" error and no request; otherwise loading, count reset, and a request carrying both |
| Conductor.ConductorPage.FinishValidation | app/conductor/page.tsx:118-133 | success shows the valid state with `passengers \|\| 1`; failure shows `INVALID: ` and the message; a failed request shows the network error |
| Autocomplete.JsRemainder | components/AutocompleteInput.tsx:47 | JavaScript `%`: the Euclidean remainder for a non-negative dividend, its negation for a negative one |
| Autocomplete.NextIndex | components/AutocompleteInput.tsx:47 | `ArrowDown` always lands strictly between `-n` and `n`, and within `0..n-1` from any index in `-1..n-1` |
| Autocomplete.PrevIndex | components/AutocompleteInput.tsx:50-52 | `ArrowUp` keeps a row index within `0..n-1` |
| Autocomplete.NextWraps | components/AutocompleteInput.tsx:47 | `ArrowDown` moves one row down, and from the last row to the first |
| Autocomplete.PrevUndoesNext | components/AutocompleteInput.tsx:45-52 | on the rows of the list, `ArrowUp` and `ArrowDown` undo each other |
| Autocomplete.ArrowUpFromNoRow | components/AutocompleteInput.tsx:48-52 | from the initial index -1, `ArrowUp` goes to -2, and `ArrowDown` from -2 goes back to -1: no row becomes active |
| Autocomplete.AutocompleteInput.constructor | components/AutocompleteInput.tsx:19-21 | no suggestions, no active row, closed; the mount-time run of the `[value]` effect is the `ValueChanged(initial)` that follows |
| Autocomplete.AutocompleteInput.ValueChanged | components/AutocompleteInput.tsx:25-40 | an empty value clears the suggestions and closes the list; any other value is looked up and changes nothing yet |
| Autocomplete.AutocompleteInput.ReceiveSuggestions | components/AutocompleteInput.tsx:34-39 | the answer is shown and the list opens; the active index is kept |
| Autocomplete.AutocompleteInput.HandleKeyDown | components/AutocompleteInput.tsx:43-58 | closed: nothing; arrows move the index; `Enter` on a row emits its name and closes, past the end throws, with no row does nothing; other keys do nothing |
| Autocomplete.AutocompleteInput.ClickSuggestion | components/AutocompleteInput.tsx:76-79 | clicking row `i` emits its name and closes the list |

## Left out

- **Database, HTTP and ledger calls:**
  - The database fetches (`Edge.find`, `connectBMTC`) are not modelled, nor the HTTP plumbing (`NextResponse`, status codes beyond the three response kinds), `fetch`, and the ledger behind `/api/scan-ticket`.
  - The edge rows, suggestion lists and validation replies they would produce are inputs.
  - The short-route handler's 500 response, "Route calculation failed", arises only when the database connection fails, and is not modelled.
- **Timers, the QR scanner and rendering:**
  - Not modelled: the 300 ms debounce timers, the typing banner in booking-section.tsx (lines 23-53), the QR scanner's lifecycle (`isScanning`), and `isSearching`.
  - A debounced callback is folded into the change handler that arms it.
  - `AutocompleteInput.ValueChanged` does not clear a pending lookup when the value becomes empty, so a late answer may still open the list. The model allows this because `ReceiveSuggestions` may follow at any time.
- **Browser effects:** `alert`, `preventDefault`, `console.error`, the success alerts of the forms, and the switch between the sign-up and sign-in forms.
- **Numbers:**
  - JavaScript numbers are doubles; the model's integers are unbounded, so precision loss above 2^53 is not modelled.
  - Fractional distances, and `Number()` of a fractional parameter in the short-route handler, are not modelled either: parameters are integers or `NaN`.
  - The JSON keys of `graph.json` are taken to be the decimal text of integer stop ids.
- **Response values:** the short-route path is returned as node ids, not as the key strings the handler sends.
- **Autocomplete.AutocompleteInput.HandleKeyDown:**
  - It requires a non-empty list for `ArrowDown` on an open list.
  - With no suggestions the source computes `(prev + 1) % 0`, which is `NaN`, and an integer index cannot hold it.
- **Conductor.ConductorPage.FinishValidation:**
  - It takes `data.success` as a boolean and `data.passengers` as an integer or missing.
  - Other JSON values and their truthiness are not modelled.
- **RouteSearch.Dijkstra:**
  - The returned `meta` is described only along the returned path and as covering every graph key. Its entries for other stops are the last relaxation of each, and are not stated.
  - Which of several equally short walks is returned is not stated for the whole search. The strict `<` tie-break is proved for each expansion by `RouteSearch.Expand`: the earliest-listed of the equally short edges wins.
- **ShortRoute.Get:** which of several walks with the fewest hops is returned is not stated for the whole search. Two facts are proved separately: `ShortRoute.Expand` keeps the predecessor found first when a later one only ties, and `ShortRoute.SelectMin` picks the first least node in enumeration order.
- **Characters:** Dafny `char` values are Unicode scalar values, so strings holding lone UTF-16 surrogates are outside the model of `length` and `split`.
