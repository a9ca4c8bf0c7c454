# Geofenced memory map: marker lifecycle model

A Dafny model of the core of an interactive campus map. Visitors drop
"memory" pins inside a fixed polygon and read pins left by others. The
model covers three things:

- **Geofence.** The even-odd ray-casting test `isPointInPolygon`. It runs
  over exact reals and the configured ring of (lng, lat) vertices.
- **Marker store and map surface.** The `seq<MarkerData>` store, plus the
  layers rendered on the map. Each layer has a handle that stands for the
  map library's marker object, the marker record its popup captured, and
  its popup content. That content is a read-only viewer for a saved marker,
  or an editor for a draft. An editor has text, a save button, a
  discard-on-close handler, and the comments of the save requests it has
  in flight.
- **Lifecycle events.** A map click creates a draft. Loading the remote
  memories seeds saved markers. Typing changes an editor. A save press
  starts a request, which then settles with a memory, or with nothing for a
  `null` or a thrown error. Closing a popup discards an unsaved draft.
  `Step` dispatches one event to the corrected handlers, and `Run` applies a
  sequence of events. `StepAsWritten` dispatches to the handlers as the
  code writes them.

Modules: `Wrappers` (Option), `Seqs` (order-preserving filter), `Geofence`,
`Text` (`String.prototype.trim`), `MarkerStore`, `Lifecycle`,
`LifecycleProps` (invariants and event properties), `MapConfig` (the
configured constants), and `Scenarios` (concrete runs).

Inputs the source reads from the environment are parameters:
- `now: int` and `nowId: string` stand for `Date.now()` and `Date.now().toString()`.
- `parse: string -> int` stands for `new Date(created_at).getTime()`.
- The result of `createMemory` is an `Option<Memory>`.
- The result of `getMemories` is a given `seq<Memory>`.

Behaviour of the code that the model keeps:
- A successful save keeps the draft's provisional id. The remote id is not
  swapped in (components/InteractiveMap.tsx:283-291).
- The 20-character minimum compares `trim().length`, which counts UTF-16
  code units (components/InteractiveMap.tsx:250, 254, 265). A Dafny string
  is a sequence of Unicode scalar values, so `Text.Utf16Length` counts a
  character outside the Basic Multilingual Plane twice.
- Each save press captures its own trimmed text, and the success path of that
  press stores exactly that text (components/InteractiveMap.tsx:263, 275, 287).
  An editor therefore keeps the comments of its pending requests, and a
  settlement names the request it settles.
- Removing a marker is a silent `filter` by id. No "not found" error is raised
  (components/InteractiveMap.tsx:36).
- Appending a draft does not check for a duplicate id
  (components/InteractiveMap.tsx:212). Id uniqueness is a hypothesis of the
  invariant lemmas instead (`Admissible`).
- A loaded memory's comment is copied as is, even if it is empty.
- The load fallbacks use JavaScript truthiness. An empty id string or an empty
  `created_at` counts as missing (components/InteractiveMap.tsx:129, 133).

## Model

| member | source | states |
|---|---|---|
| Geofence.IsPointInPolygon | components/InteractiveMap.tsx:176-190 | the flip-a-flag loop returns true iff an odd number of edges cross the eastward ray; an empty ring gives false |
| Geofence.NoCrossings | components/InteractiveMap.tsx:184-186 | if no edge passes the test, the crossing count is zero |
| Geofence.NorthOfAllIsOutside | components/InteractiveMap.tsx:184 | a point at or above every vertex latitude fails the guard on every edge, so it is outside |
| Geofence.SouthOfAllIsOutside | components/InteractiveMap.tsx:184 | a point below every vertex latitude is outside |
| Geofence.InterceptFormula | components/InteractiveMap.tsx:184 | the loop's intercept expression is the intercept of the edge from vertex j to vertex i |
| Geofence.InterceptBetween | components/InteractiveMap.tsx:184 | when an edge passes the guard, the computed intercept lies between the edge's two longitudes |
| Geofence.EastOfAllIsOutside | components/InteractiveMap.tsx:184 | a point at or east of every vertex longitude is outside |
| Geofence.WestCrosses | components/InteractiveMap.tsx:184-185 | for a point west of both ends of an edge, the edge crosses the ray iff it passes the latitude guard |
| Geofence.WestParity | components/InteractiveMap.tsx:180-188 | for a point west of every vertex, the flag has flipped an odd number of times over edges 1 .. k-1 iff vertices 0 and k-1 lie on different sides of the point's latitude |
| Geofence.WestOfAllIsOutside | components/InteractiveMap.tsx:176-190 | a point strictly west of every vertex is outside: the walk around the ring returns to its side of the latitude, so the crossings are even |
| Geofence.DegenerateEdge | components/InteractiveMap.tsx:184 | an edge whose two ends coincide never flips the parity |
| Geofence.SharedEdges | components/InteractiveMap.tsx:180-186 | a closed ring and the same ring without its repeated vertex have the same non-wrap edges |
| Geofence.DropClosingVertex | components/InteractiveMap.tsx:180-189 | for a closed ring, dropping the repeated closing vertex gives the same answer for every point |
| Text.SkipForward | components/InteractiveMap.tsx:263 | finds the first non-space index; everything before it is a space |
| Text.SkipBackward | components/InteractiveMap.tsx:263 | finds where the trailing spaces start; everything from there to the end is a space |
| Text.Trim | components/InteractiveMap.tsx:250 | the trimmed text starts and ends with a non-space, and is empty only when the input is all spaces |
| Text.TrimIdempotent | components/InteractiveMap.tsx:263 | trimming twice is trimming once |
| Text.TrimNoSpaceEnds | components/InteractiveMap.tsx:254 | text without spaces at either end is unchanged by trim |
| Text.TrimCharacterized | components/InteractiveMap.tsx:263 | the trim of spaces + core + spaces is exactly the core |
| Text.Utf16Length | components/InteractiveMap.tsx:254 | `length` counts at least one and at most two code units per character, and exactly one each iff no character is outside the Basic Multilingual Plane |
| Text.Utf16LengthConcat | components/InteractiveMap.tsx:254 | code units add up over concatenation |
| Text.Utf16LengthAllAstral | components/InteractiveMap.tsx:254 | a string of characters outside the Basic Multilingual Plane has twice as many code units as characters |
| Seqs.Filter | components/InteractiveMap.tsx:35-36 | filter never lengthens a list |
| Seqs.FilterMembers | components/InteractiveMap.tsx:35-36 | an element survives iff it was in the input and passes the test |
| Seqs.FilterConcat | components/InteractiveMap.tsx:35-36 | filter distributes over concatenation, so survivors keep their order |
| Seqs.FilterAllKept | components/InteractiveMap.tsx:35-36 | if every element passes, filtering changes nothing |
| Seqs.FilterRemovesOne | components/InteractiveMap.tsx:35 | if exactly one element fails, filtering deletes exactly that position |
| MarkerStore.Discard | components/InteractiveMap.tsx:36 | the store without any record whose id matches; every other record is kept |
| MarkerStore.DiscardAbsent | components/InteractiveMap.tsx:36 | discarding an id that no record has changes nothing |
| MarkerStore.DiscardConcat | components/InteractiveMap.tsx:36 | discard keeps the order of the surviving records |
| MarkerStore.DiscardUnique | components/InteractiveMap.tsx:36 | with unique ids, discarding record `k`'s id deletes exactly position `k`, so the store shrinks by one |
| MarkerStore.UniqueAfterDelete | components/InteractiveMap.tsx:36 | deleting a position keeps ids unique |
| MarkerStore.MarkSaved | components/InteractiveMap.tsx:283-292 | a successful save rewrites exactly the records with the id: new comment and timestamp, `saved` set, id kept; other records and the length are unchanged |
| MarkerStore.MarkSavedIdempotent | components/InteractiveMap.tsx:283-292 | applying the same save twice equals applying it once |
| MarkerStore.MarkSavedAbsent | components/InteractiveMap.tsx:283-292 | saving an id that no record has changes nothing |
| MarkerStore.FromMemories | components/InteractiveMap.tsx:128-135 | load keeps length and order; each record is saved and copies lat, lng and comment; the id falls back to "now" when missing or empty; the timestamp is the parsed `created_at`, or "now" when missing or empty |
| Lifecycle.AddLayers | components/InteractiveMap.tsx:144-172 | adds one layer per marker, in order, with fresh handles and the popup for its kind; adds nothing when there is no map instance |
| Lifecycle.IndexOf | components/InteractiveMap.tsx:34-35 | finds the first layer with the handle, or the end of the list |
| Lifecycle.InitialWf | components/InteractiveMap.tsx:21-22 | the empty session satisfies the invariant |
| Lifecycle.RemoveLayerAt | components/InteractiveMap.tsx:35 | filtering out one layer's handle removes exactly that layer |
| Lifecycle.Click | components/InteractiveMap.tsx:193-217 | outside the geofence the session is unchanged; inside, the store becomes old + [draft], where the draft has the click's position, empty comment and `saved = false`; the layers grow by one iff a map instance exists |
| Lifecycle.LoadAsWritten | components/InteractiveMap.tsx:125-141 | as written: the store becomes the mapped memories, while their layers are appended after the layers already on the map |
| Lifecycle.Load | components/InteractiveMap.tsx:136-137 | corrected: the store becomes the old store followed by the mapped memories; with a map instance, the old layers are kept as a prefix and one layer per memory follows; without one, the surface is unchanged |
| Lifecycle.AppendedViewers | components/InteractiveMap.tsx:137 | each layer a load appends is read-only and carries the loaded record at the same position |
| Lifecycle.Closed | components/InteractiveMap.tsx:27-41 | if the layer still discards on close, every record with the marker's id and exactly that layer are removed, and everything else is kept; otherwise nothing changes |
| Lifecycle.SaveClick | components/InteractiveMap.tsx:262-279 | a save starts iff the editor's button is enabled and the trimmed text has at least 20 UTF-16 code units; a start disables and relabels the button, adds the request to the editor's pending ones, and sends the trimmed text with the marker's position; nothing else changes |
| Lifecycle.Settled | components/InteractiveMap.tsx:302-306 | after settling, the button is enabled with label "Save memory", exactly the settled request leaves the pending ones and the others keep their press order, and the text and the close handler are kept |
| Lifecycle.SaveComplete | components/InteractiveMap.tsx:281-306 | corrected settlement: with no such pending request nothing changes; on a memory, the records with the marker's id are saved with the comment that request sent and the popup turns read-only; on nothing, only the editor settles; length, ids and every other layer are kept |
| Lifecycle.SaveCompleteAsWritten | components/InteractiveMap.tsx:281-306 | settlement as written: the same, except that on a memory the popup stays an editor, settled, with its close handler detached |
| Lifecycle.Input | components/InteractiveMap.tsx:253-256 | corrected input listener: the editor's text becomes the typed text, and its button is disabled iff a save is pending or the trimmed text has fewer than 20 code units; the caption, close handler, pending requests, store and every other layer are kept; without an editor nothing changes |
| Lifecycle.InputAsWritten | components/InteractiveMap.tsx:253-256 | input listener as written: the same, except that the button is disabled iff the trimmed text has fewer than 20 code units, whatever is pending |
| Lifecycle.Step | components/InteractiveMap.tsx:110-113 | corrected dispatch: an outside click, an ignored or refused save press, and a settlement with no such request change nothing; typing and save presses never change the store; a load keeps the old store as a prefix |
| Lifecycle.StepAsWritten | components/InteractiveMap.tsx:110-113 | dispatch to the handlers as written: the same, except that a load replaces the store with the mapped memories |
| LifecycleProps.SetPopupWf | components/InteractiveMap.tsx:220-259 | changing a popup without adding a discard handler keeps the invariant |
| LifecycleProps.AppendWf | components/InteractiveMap.tsx:212-216 | appending a record with a fresh id, and its layer, at the ends keeps the invariant |
| LifecycleProps.AppendAllWf | components/InteractiveMap.tsx:144-172 | appending records with fresh, distinct ids, and their layers, keeps the invariant |
| LifecycleProps.ClickPreservesWf | components/InteractiveMap.tsx:211-216 | a click with a fresh id keeps the store and layers 1:1 |
| LifecycleProps.LoadPreservesWf | components/InteractiveMap.tsx:136-137 | corrected: a load into any well-formed session keeps store and map 1:1 when the loaded ids are fresh and distinct |
| LifecycleProps.LoadAsWrittenDesyncs | components/InteractiveMap.tsx:136-137 | as written: a load into a session whose store is non-empty leaves more layers than records, so store and map are no longer 1:1 |
| LifecycleProps.LoadAsWrittenOnEmpty | components/InteractiveMap.tsx:136-137 | on an empty store, the load as written equals the corrected load |
| LifecycleProps.DeleteAtWf | components/InteractiveMap.tsx:35-37 | deleting the same position from the store and from the layers keeps the invariant |
| LifecycleProps.CloseRemovesDraft | components/InteractiveMap.tsx:32-37 | closing a draft removes exactly its record and its layer; the store shrinks by one |
| LifecycleProps.ClosePreservesWf | components/InteractiveMap.tsx:32-39 | closing a popup keeps the invariant |
| LifecycleProps.CloseKeepsSaved | components/InteractiveMap.tsx:229-259 | closing a saved marker's popup never removes it |
| LifecycleProps.SaveClickPreservesWf | components/InteractiveMap.tsx:269-271 | starting a save keeps the invariant |
| LifecycleProps.InputPreservesWf | components/InteractiveMap.tsx:253-256 | typing keeps the invariant |
| LifecycleProps.InputAsWrittenPreservesWf | components/InteractiveMap.tsx:253-256 | typing keeps the invariant under the listener as written too |
| LifecycleProps.MarkSavedAt | components/InteractiveMap.tsx:283-292 | with unique ids, a save rewrites only the saved marker's position and ids stay unique |
| LifecycleProps.SaveCompleteSuccessShape | components/InteractiveMap.tsx:281-295 | a success saves the record in place with the sent comment and keeps the invariant |
| LifecycleProps.SaveInPlaceWf | components/InteractiveMap.tsx:283-295 | rewriting one record in place with the same id, while its popup stops discarding on close, keeps the invariant |
| LifecycleProps.SaveSucceeds | components/InteractiveMap.tsx:281-295 | on success, only that record changes: it gets the comment its request sent, the remote timestamp and `saved`, and keeps its id; the length is kept; the next close keeps it; no further save is accepted |
| LifecycleProps.SaveSucceedsAsWritten | components/InteractiveMap.tsx:281-306 | as written, on success the record is saved the same way and the next close keeps it, but the popup stays an editor with the typed text and an enabled "Save memory" button |
| LifecycleProps.SaveFails | components/InteractiveMap.tsx:296-306 | on failure, the store is unchanged, the text is kept, exactly the settled request leaves the pending ones (as a multiset), the button is enabled with "Save memory", and discard-on-close still applies |
| LifecycleProps.SaveCompletePreservesWf | components/InteractiveMap.tsx:281-306 | settling a save keeps the invariant |
| LifecycleProps.SaveCompleteAsWrittenPreservesWf | components/InteractiveMap.tsx:281-306 | settling a save as written keeps the invariant |
| LifecycleProps.PressThenSucceed | components/InteractiveMap.tsx:262-293 | when a press starts a save and that request succeeds, the stored comment is the request's text: the editor's trimmed text, at least 20 code units long |
| LifecycleProps.StepPreservesWf | components/InteractiveMap.tsx:110-113 | every event with fresh ids keeps store and map 1:1, including a load that settles after clicks |
| LifecycleProps.RunPreservesWf | components/InteractiveMap.tsx:110-113 | every event sequence with fresh ids keeps store and map 1:1 |
| LifecycleProps.StepAsWrittenPreservesWf | components/InteractiveMap.tsx:110-113 | the handlers as written keep store and map 1:1 on every event with fresh ids, provided a load settles while the store is empty |
| LifecycleProps.ClickKeepsOneInFlight | components/InteractiveMap.tsx:216 | a new draft starts with no save in flight |
| LifecycleProps.LoadedLayers | components/InteractiveMap.tsx:137 | a load keeps every existing layer and appends only read-only ones |
| LifecycleProps.LoadKeepsOneInFlight | components/InteractiveMap.tsx:137 | loaded markers have no editor |
| LifecycleProps.CloseKeepsOneInFlight | components/InteractiveMap.tsx:35 | closing a popup only removes layers |
| LifecycleProps.StepKeepsOneInFlight | components/InteractiveMap.tsx:269-271 | every event keeps at most one save in flight per marker, with the button disabled while one is pending |
| LifecycleProps.ClickKeepsRequestsSendable | components/InteractiveMap.tsx:244-250 | a new draft's editor has no pending request |
| LifecycleProps.SaveClickKeepsRequestsSendable | components/InteractiveMap.tsx:263-267 | a press only sends a trimmed text of at least 20 code units |
| LifecycleProps.SaveCompleteKeepsRequestsSendable | components/InteractiveMap.tsx:281-306 | settling only removes pending requests |
| LifecycleProps.CloseKeepsRequestsSendable | components/InteractiveMap.tsx:32-37 | closing a popup only removes layers |
| LifecycleProps.StepKeepsRequestsSendable | components/InteractiveMap.tsx:262-279 | every event keeps every pending request trimmed and at least 20 code units long |
| LifecycleProps.SavedCommentSendable | components/InteractiveMap.tsx:263-289 | in such a session, a successful save stores a trimmed comment of at least 20 code units |
| LifecycleProps.IndexOfSameHandles | components/InteractiveMap.tsx:35 | finding a layer depends only on the handles |
| LifecycleProps.InputKeepsSaveBlocked | components/InteractiveMap.tsx:253-256 | corrected: typing during an in-flight save leaves the button disabled |
| LifecycleProps.InputAsWrittenReopensSave | components/InteractiveMap.tsx:253-256 | as written: typing during an in-flight save re-enables the button, and the next press starts a second request |
| LifecycleProps.SaveAsWrittenAllowsResave | components/InteractiveMap.tsx:294-306 | as written: after a success the editor stays with an enabled button, so the next press sends another request |
| MapConfig.RingClosed | config/mapConfig.ts:8-21 | the ring has 12 entries and its last vertex equals its first |
| MapConfig.OpenRingSameAnswer | config/mapConfig.ts:9-20 | the configured ring gives the same answer with or without its closing vertex |
| MapConfig.RingDistinct | config/mapConfig.ts:8-21 | the 11 vertices before the closing one are pairwise distinct |
| MapConfig.BoundsOrdered | config/mapConfig.ts:24-29 | south < north and west < east |
| MapConfig.CenterInBounds | config/mapConfig.ts:3-4 | the center lies inside the rectangle |
| MapConfig.DefaultZoomInRange | config/mapConfig.ts:5 | the default zoom lies in the map's [16, 19] range |
| MapConfig.BoundsMissVertex | config/mapConfig.ts:15 | vertex 7 lies east of the rectangle, so the rectangle does not contain the ring |
| MapConfig.CenterInside | config/mapConfig.ts:4-21 | the center passes the ray-cast test for this ring |
| MapConfig.NorthOfBoundsOutside | config/mapConfig.ts:25 | points north of the rectangle fail the geofence |
| MapConfig.SouthOfBoundsOutside | config/mapConfig.ts:26 | points south of the rectangle fail the geofence |
| MapConfig.WestOfBoundsOutside | config/mapConfig.ts:28 | points west of the rectangle fail the geofence: the west bound lies west of every vertex |
| MapConfig.EastOfRingOutside | config/mapConfig.ts:15 | points at or east of the easternmost vertex fail the geofence |
| Scenarios.SquareCenterInside | components/InteractiveMap.tsx:176-190 | (5,5) is inside the square [[0,0],[0,10],[10,10],[10,0]] |
| Scenarios.FarClickIgnored | components/InteractiveMap.tsx:197-199 | a click at (50,50) outside the square leaves the session unchanged |
| Scenarios.NorthClickIgnored | components/InteractiveMap.tsx:197-199 | a click north of the campus rectangle leaves the session unchanged |
| Scenarios.DraftSessionShape | components/InteractiveMap.tsx:202-216 | a click inside gives one draft whose editor has an empty text, a disabled "Save memory" button, discard-on-close and nothing pending |
| Scenarios.TypeAndPress | components/InteractiveMap.tsx:253-279 | typing a trimmed, long enough text into the fresh draft and pressing Save sends exactly that text, with the draft's position |
| Scenarios.TypePressSave | components/InteractiveMap.tsx:262-293 | that save, answered by a memory with a `created_at`, gives one saved record that keeps the provisional id "1000", with the sent text and the parsed timestamp |
| Scenarios.SettleWithoutPressIgnored | components/InteractiveMap.tsx:262-306 | a settlement with no press behind it changes nothing |
| Scenarios.TenEmojiStarts | components/InteractiveMap.tsx:254-265 | ten U+1F600 characters count as 20 code units, so the press sends them |
| Scenarios.LoadAfterClickAsWritten | components/InteractiveMap.tsx:110-137 | as written: a load that settles after a click empties the store but leaves the draft's layer, so store and map are no longer 1:1 |
| Scenarios.LoadAfterClickKeepsDraft | components/InteractiveMap.tsx:110-137 | corrected: the same load keeps the draft |
| Scenarios.DraftClosedIsDiscarded | components/InteractiveMap.tsx:32-37 | closing the fresh draft leaves an empty store and no layers |
| Scenarios.NineteenRefused | components/InteractiveMap.tsx:265-267 | 19 trimmed characters: no request is sent |
| Scenarios.TwentyStarts | components/InteractiveMap.tsx:265-279 | 20 trimmed characters: exactly one request is sent, with that text |
| Scenarios.TwentyFiveStarts | components/InteractiveMap.tsx:262-279 | 25 trimmed characters: the request carries that text, and the button is disabled and relabelled while it is pending |
| Scenarios.LoadScenario | components/InteractiveMap.tsx:125-137 | two memories load as exactly two saved, read-only markers, in order |
| Scenarios.SecondRequestInFlightAsWritten | components/InteractiveMap.tsx:253-271 | as written: for any sendable text, press Save, then type any long enough text: a second press puts two requests in flight for one draft |
| Scenarios.SecondRequestBlocked | components/InteractiveMap.tsx:253-271 | corrected: for any sendable text, press Save, then type any text: the second press is ignored |
| Scenarios.ResaveAsWritten | components/InteractiveMap.tsx:294-306 | as written: a concrete trace that re-saves an already saved marker |
| Scenarios.ResaveBlocked | components/InteractiveMap.tsx:294-306 | corrected: the same trace has its re-save ignored |

## Findings

| source | as written | input that shows it | evidently intended | confidence | as-written member | corrected member |
|---|---|---|---|---|---|---|
| components/InteractiveMap.tsx:253-256 | the input listener sets `disabled = trimmed length < 20` even while a save is in flight | draft, type 20 characters, press Save, type one more character while the request is pending, press Save again: a second `createMemory` for the same marker | at most one save in flight per marker; the button stays disabled until the request settles | medium (not executed) | LifecycleProps.InputAsWrittenReopensSave | LifecycleProps.InputKeepsSaveBlocked |
| components/InteractiveMap.tsx:294-306 | after a successful save, the popup keeps its editor and the `finally` block re-enables Save | save a draft successfully, reopen its popup, press Save: a second remote memory is created for a marker that is already saved | a saved marker is terminal and takes no further save | medium (not executed) | LifecycleProps.SaveAsWrittenAllowsResave | LifecycleProps.SaveSucceeds |
| components/InteractiveMap.tsx:136-137 | the load is started at :110 and the click handler is registered at :113 without waiting for it; when the load settles, `setMarkers(markerData)` replaces the store while `addMarkersToMap` appends layers | click inside the fence before `getMemories` settles, then let it settle with no memories: the store is empty, but the draft's layer stays on the map | the loaded memories join the markers already there, so store and map stay 1:1 | medium (not executed) | LifecycleProps.LoadAsWrittenDesyncs | LifecycleProps.LoadPreservesWf |

`Step` and `Run` use the corrected `Input`, `SaveComplete` and `Load`. The
corrected `SaveComplete` turns the popup read-only after a success. The
corrected `Load` appends the loaded records to the store. `StepAsWritten`
dispatches to `InputAsWritten`, `SaveCompleteAsWritten` and `LoadAsWritten`,
which model the handlers as written, each applied to the current store.
`StepAsWrittenPreservesWf` shows that, under that explicit-store
abstraction, the handlers as written keep store and map 1:1 as long as the
load settles before the first click. The deployed component does not apply
its handlers to the current store (see "React state" under Left out), so
the property is about the model and not about the running page.

## Left out

- Map rendering: tile layers, the mask and outline polygons, icons, popup binding and opening, and `maxBounds` belong to the map library. Layers are modelled only as handles with their popup state.
- Popup DOM construction: CSS classes, the mobile-width check, `alert` and `console`. Only the button's enable/refuse rule, its label, the typed text and the save outcome are kept.
- Network wrappers: `createMemory`, `getMemories` and `getUserIP` are inputs. `createMemory` is an `Option<Memory>` settlement, where `null` and a thrown error are both `None`. `getMemories` is a given list, empty on failure. The IP tag is not modelled.
- Memory fields `ip_address` and `is_flagged`: the map never reads them.
- Clock and date parsing: `Date.now()` is one `now`/`nowId` pair per event. This covers every record of a load, where the source may read the clock once per record. `new Date(...).getTime()` is the parameter `parse`, so an invalid date (NaN) is not modelled.
- React state and closure staleness: every handler reads the `markers` snapshot its closure captured. The model applies each event to the current store. In the deployed component the click handler is registered once, by the mount effect whose dependency list is empty (components/InteractiveMap.tsx:44-122, registration at :113). Its closure, and the `createPopupContent` it reaches (:216, :158), see the first render's `markers`, which is `[]`. So every click sets the store to just the new draft (:211-212), and a successful save (:283) or a popup close (:36) from such a popup sets it to `[]`. Example: load two memories, then click once inside the fence; the result is one record and three layers. The 1:1 agreement between store and map is therefore broken in the deployed component on the first click after a load, and no lemma here claims otherwise.
- Async/await: a save is two events, a press and a settlement. Each editor keeps the comments of its pending requests in press order. A settlement names the position of the request it settles, so settlements may come in any order. There is no interleaving within an event.
- Popup open/closed display state: a close is an event. The `closePopup` after a successful save reaches a detached handler, which `SaveSucceeds` shows is a no-op.
- Zoom display state: it has no effect on any logic.
- Page bootstrapping and the Next.js configuration.
- Floating point: coordinates are exact reals, so IEEE-754 rounding and exact-boundary clicks are not modelled.
- LifecycleProps.StepAsWrittenPreservesWf: for the handlers as written, a load must settle while the store is empty. A later load breaks the 1:1 invariant, as the third finding shows. The lemma is about the explicit store of the model; the stale `markers` of the deployed click handler (see "React state" above) breaks the invariant even when the load settles first.
