/**
 * The marker lifecycle of the interactive map: the marker store together with
 * the layers on the map surface (one per rendered marker, each with the popup
 * content bound to it), and the user and network events that change them.
 *
 * A draft's popup is an editor (text area, save button, discard-on-close
 * handler); a saved marker's popup only shows its text. A save is two events:
 * pressing the button starts a request, and its settlement (a memory, or
 * nothing for a null result or a thrown error) completes it. An editor keeps
 * the comment of every request it has in flight, because each press
 * captures its own trimmed text and its settlement stores that text.
 */
module Lifecycle {
  import opened Wrappers
  import Seqs
  import Geofence
  import Text
  import opened MarkerStore

  /** Minimum trimmed comment length for a save, in UTF-16 code units. */
  const MinCommentLength := 20
  const SaveLabel := "Save memory"
  const SavingLabel := "Saving..."

  datatype Button = Button(disabled: bool, caption: string)

  /** The content bound to a marker's popup when its layer was added. */
  datatype Popup =
    | Viewer
    | Editor(text: string, button: Button, discardOnClose: bool, pending: seq<string>)

  /**
   * A rendered marker: a handle standing for the map library's marker object
   * (compared by identity), and the marker record its popup captured.
   */
  datatype Layer = Layer(handle: nat, marker: MarkerData, popup: Popup)

  /** The map surface: whether a map instance exists, and the rendered layers in order. */
  datatype Surface = Surface(ready: bool, layers: seq<Layer>, nextHandle: nat)

  datatype Session = Session(store: seq<MarkerData>, surface: Surface)

  /** The payload handed to the remote "create memory" call. */
  datatype Request = Request(comment: string, lat: real, lng: real)

  /** Outcome of pressing a save button. */
  datatype SaveStart =
    | Ignored                                   // no enabled save button: the click never reaches the handler
    | Refused                                   // the handler returns early: trimmed comment too short
    | Started(session: Session, request: Request)

  /** A session before the map has loaded anything. */
  function Initial(ready: bool): Session
  {
    Session([], Surface(ready, [], 0))
  }

  /** `text.trim().length >= 20`, with `length` counting UTF-16 code units. */
  predicate LongEnough(text: string)
  {
    Text.Utf16Length(Text.Trim(text)) >= MinCommentLength
  }

  /** Popup content for a newly rendered marker: an editor for a draft, a viewer for a saved one. */
  function PopupFor(m: MarkerData): Popup
  {
    if m.saved then Viewer
    else Editor(m.comment, Button(!LongEnough(m.comment), SaveLabel), true, [])
  }

  /** `addMarkersToMap`: one new layer per marker, in order, or nothing without a map instance. */
  function AddLayers(surface: Surface, ms: seq<MarkerData>): (r: Surface)
    ensures !surface.ready ==> r == surface
    ensures surface.ready ==>
      && r.ready
      && |r.layers| == |surface.layers| + |ms|
      && r.layers[..|surface.layers|] == surface.layers
      && r.nextHandle == surface.nextHandle + |ms|
      && forall i :: 0 <= i < |ms| ==>
           r.layers[|surface.layers| + i] == Layer(surface.nextHandle + i, ms[i], PopupFor(ms[i]))
    decreases |ms|
  {
    if !surface.ready || |ms| == 0 then surface
    else
      var added := Layer(surface.nextHandle, ms[0], PopupFor(ms[0]));
      AddLayers(Surface(true, surface.layers + [added], surface.nextHandle + 1), ms[1..])
  }

  /** Position of the layer with handle `h`, or |layers| when there is none. */
  function IndexOf(layers: seq<Layer>, h: nat): (k: nat)
    ensures k <= |layers|
    ensures k < |layers| ==> layers[k].handle == h
    ensures forall i :: 0 <= i < k ==> layers[i].handle != h
  {
    if |layers| == 0 then 0
    else if layers[0].handle == h then 0
    else 1 + IndexOf(layers[1..], h)
  }

  /**
   * `r` differs from `s` at most in the popup of layer `k`: same store, same
   * layer list apart from that popup.
   */
  predicate OnlyPopupChanged(s: Session, r: Session, k: nat)
  {
    && r.store == s.store
    && SameLayersBut(s.surface, r.surface, k)
  }

  /** Same surface, except possibly the popup of layer `k`. */
  predicate SameLayersBut(a: Surface, b: Surface, k: nat)
  {
    && b.ready == a.ready && b.nextHandle == a.nextHandle
    && |b.layers| == |a.layers|
    && (k < |a.layers| ==> b.layers[k].handle == a.layers[k].handle && b.layers[k].marker == a.layers[k].marker)
    && forall i :: 0 <= i < |a.layers| && i != k ==> b.layers[i] == a.layers[i]
  }

  function SetPopup(s: Session, k: nat, p: Popup): (r: Session)
    requires k < |s.surface.layers|
    ensures OnlyPopupChanged(s, r, k) && r.surface.layers[k].popup == p
  {
    s.(surface := s.surface.(layers := s.surface.layers[k := s.surface.layers[k].(popup := p)]))
  }

  // ---------------------------------------------------------------------------
  // Well-formedness of a session
  // ---------------------------------------------------------------------------

  /** Layer handles are strictly increasing and below the next fresh handle, hence distinct. */
  predicate HandlesOrdered(surface: Surface)
  {
    && (forall i, j :: 0 <= i < j < |surface.layers| ==> surface.layers[i].handle < surface.layers[j].handle)
    && (forall i :: 0 <= i < |surface.layers| ==> surface.layers[i].handle < surface.nextHandle)
  }

  /** Store and layers are 1:1 by id and in the same order (no layers at all without a map). */
  predicate Synced(s: Session)
  {
    && (s.surface.ready ==> |s.surface.layers| == |s.store|)
    && (!s.surface.ready ==> |s.surface.layers| == 0)
    && forall i :: 0 <= i < |s.surface.layers| && i < |s.store| ==> s.surface.layers[i].marker.id == s.store[i].id
  }

  /** A layer that still discards on close belongs to a draft. */
  predicate DiscardOnlyDrafts(s: Session)
  {
    forall i :: 0 <= i < |s.surface.layers| && i < |s.store| ==>
      s.surface.layers[i].popup.Editor? && s.surface.layers[i].popup.discardOnClose ==> !s.store[i].saved
  }

  predicate Wf(s: Session)
  {
    HandlesOrdered(s.surface) && UniqueIds(s.store) && Synced(s) && DiscardOnlyDrafts(s)
  }

  lemma InitialWf(ready: bool)
    ensures Wf(Initial(ready))
  {
  }

  /** Filtering out the handle of layer `k` deletes exactly position `k`. */
  lemma RemoveLayerAt(surface: Surface, k: nat)
    requires HandlesOrdered(surface) && k < |surface.layers|
    ensures Seqs.Filter(surface.layers, (l: Layer) => l.handle != surface.layers[k].handle)
         == surface.layers[..k] + surface.layers[k + 1..]
  {
    Seqs.FilterRemovesOne(surface.layers, k, (l: Layer) => l.handle != surface.layers[k].handle);
  }

  // ---------------------------------------------------------------------------
  // Events
  // ---------------------------------------------------------------------------

  /**
   * `handleMapClick`: outside the geofence nothing happens; inside, a draft
   * with an empty comment is appended to the store and rendered with its editor.
   */
  function Click(s: Session, ring: seq<Geofence.Vertex>, lat: real, lng: real, now: int, nowId: string): (r: Session)
    ensures !Geofence.Inside(ring, lat, lng) ==> r == s
    ensures Geofence.Inside(ring, lat, lng) ==>
      && |r.store| == |s.store| + 1
      && r.store[..|s.store|] == s.store
      && r.store[|s.store|] == MarkerData(nowId, lat, lng, "", now, false)
      && |r.surface.layers| == |s.surface.layers| + (if s.surface.ready then 1 else 0)
      && r.surface.layers[..|s.surface.layers|] == s.surface.layers
  {
    if !Geofence.Inside(ring, lat, lng) then s
    else
      var draft := MarkerData(nowId, lat, lng, "", now, false);
      Session(s.store + [draft], AddLayers(s.surface, [draft]))
  }

  /**
   * `loadMarkersFromSupabase`, as written: the store is replaced by the saved
   * records made from the remote list, while one layer per record is
   * appended after the layers already on the map.
   */
  function LoadAsWritten(s: Session, mems: seq<Memory>, now: int, nowId: string, parse: string -> int): (r: Session)
    ensures r.store == FromMemories(mems, now, nowId, parse)
    ensures !s.surface.ready ==> r.surface == s.surface
    ensures s.surface.ready ==>
      && r.surface.ready
      && |r.surface.layers| == |s.surface.layers| + |mems|
      && r.surface.layers[..|s.surface.layers|] == s.surface.layers
      && r.surface.nextHandle == s.surface.nextHandle + |mems|
  {
    var loaded := FromMemories(mems, now, nowId, parse);
    Session(loaded, AddLayers(s.surface, loaded))
  }

  /**
   * `loadMarkersFromSupabase`, corrected: the loaded records are appended to
   * the store, as their layers are to the map, so a draft made before the
   * load settles keeps both its record and its layer. Each loaded marker is
   * rendered read-only.
   */
  function Load(s: Session, mems: seq<Memory>, now: int, nowId: string, parse: string -> int): (r: Session)
    ensures r.store == s.store + FromMemories(mems, now, nowId, parse)
    ensures !s.surface.ready ==> r.surface == s.surface
    ensures s.surface.ready ==>
      && r.surface.ready
      && |r.surface.layers| == |s.surface.layers| + |mems|
      && r.surface.layers[..|s.surface.layers|] == s.surface.layers
      && r.surface.nextHandle == s.surface.nextHandle + |mems|
  {
    var loaded := FromMemories(mems, now, nowId, parse);
    Session(s.store + loaded, AddLayers(s.surface, loaded))
  }

  /** The layers a load appends: one read-only layer per loaded record, in order. */
  lemma AppendedViewers(surface: Surface, mems: seq<Memory>, now: int, nowId: string, parse: string -> int)
    ensures forall i :: |surface.layers| <= i < |AddLayers(surface, FromMemories(mems, now, nowId, parse)).layers| ==>
      && AddLayers(surface, FromMemories(mems, now, nowId, parse)).layers[i].popup == Viewer
      && AddLayers(surface, FromMemories(mems, now, nowId, parse)).layers[i].marker
         == FromMemories(mems, now, nowId, parse)[i - |surface.layers|]
  {
    var ms := FromMemories(mems, now, nowId, parse);
    var r := AddLayers(surface, ms);
    var n := |surface.layers|;
    forall i | n <= i < |r.layers|
      ensures r.layers[i].popup == Viewer && r.layers[i].marker == ms[i - n]
    {
      assert ms[i - n].saved;
      assert r.layers[n + (i - n)] == Layer(surface.nextHandle + (i - n), ms[i - n], PopupFor(ms[i - n]));
    }
  }

  /** Whether layer `h` exists and still carries the discard-on-close handler. */
  predicate DiscardsOnClose(s: Session, h: nat)
  {
    var k := IndexOf(s.surface.layers, h);
    k < |s.surface.layers| && s.surface.layers[k].popup.Editor? && s.surface.layers[k].popup.discardOnClose
  }

  /**
   * The popup-close handler of a draft: when the layer still discards on
   * close, every record with its marker's id leaves the store and the layer
   * leaves the surface; otherwise nothing changes.
   */
  function Closed(s: Session, h: nat): (r: Session)
    ensures !DiscardsOnClose(s, h) ==> r == s
    ensures DiscardsOnClose(s, h) ==>
      var id := s.surface.layers[IndexOf(s.surface.layers, h)].marker.id;
      && r.surface.ready == s.surface.ready
      && !HasId(r.store, id)
      && (forall m :: m in r.store <==> m in s.store && m.id != id)
      && (forall l :: l in r.surface.layers <==> l in s.surface.layers && l.handle != h)
  {
    var layers := s.surface.layers;
    var k := IndexOf(layers, h);
    if DiscardsOnClose(s, h) then
      var keep := (l: Layer) => l.handle != h;
      Seqs.FilterMembers(layers, keep);
      Session(Discard(s.store, layers[k].marker.id), s.surface.(layers := Seqs.Filter(layers, keep)))
    else s
  }

  /**
   * `saveButton.onclick` up to the remote call: a disabled button delivers no
   * click; a trimmed comment shorter than the minimum is refused with no
   * change; otherwise the button is disabled and relabelled, the request
   * joins the editor's pending ones, and it carries the trimmed text and the
   * captured marker's position.
   */
  function SaveClick(s: Session, h: nat): (r: SaveStart)
    ensures r.Started? <==>
      var k := IndexOf(s.surface.layers, h);
      && k < |s.surface.layers|
      && s.surface.layers[k].popup.Editor?
      && !s.surface.layers[k].popup.button.disabled
      && LongEnough(s.surface.layers[k].popup.text)
    ensures r.Started? ==>
      var k := IndexOf(s.surface.layers, h);
      var ed := s.surface.layers[k].popup;
      && OnlyPopupChanged(s, r.session, k)
      && r.session.surface.layers[k].popup == ed.(button := Button(true, SavingLabel), pending := ed.pending + [r.request.comment])
      && r.request == Request(Text.Trim(ed.text), s.surface.layers[k].marker.lat, s.surface.layers[k].marker.lng)
      && Text.Utf16Length(r.request.comment) >= MinCommentLength
  {
    var layers := s.surface.layers;
    var k := IndexOf(layers, h);
    if k == |layers| || !layers[k].popup.Editor? || layers[k].popup.button.disabled then Ignored
    else
      var ed := layers[k].popup;
      var comment := Text.Trim(ed.text);
      if Text.Utf16Length(comment) < MinCommentLength then Refused
      else
        var m := layers[k].marker;
        Started(SetPopup(s, k, ed.(button := Button(true, SavingLabel), pending := ed.pending + [comment])),
                Request(comment, m.lat, m.lng))
  }

  /** Whether layer `h` has an editor with a request in flight at `slot`. */
  predicate HasPending(s: Session, h: nat, slot: nat)
  {
    var k := IndexOf(s.surface.layers, h);
    k < |s.surface.layers| && s.surface.layers[k].popup.Editor? && slot < |s.surface.layers[k].popup.pending|
  }

  /**
   * The editor after its request at `slot` settles: that request leaves the
   * pending ones, and the `finally` block re-enables the button with its
   * original caption.
   */
  function Settled(ed: Popup, slot: nat): (r: Popup)
    requires ed.Editor? && slot < |ed.pending|
    ensures r.Editor? && r.text == ed.text && r.discardOnClose == ed.discardOnClose
    ensures r.button == Button(false, SaveLabel)
    ensures |r.pending| == |ed.pending| - 1
    ensures forall c :: c in r.pending ==> c in ed.pending
    ensures multiset(r.pending) == multiset(ed.pending) - multiset{ed.pending[slot]}
    ensures forall i :: 0 <= i < slot ==> r.pending[i] == ed.pending[i]
    ensures forall i :: slot <= i < |r.pending| ==> r.pending[i] == ed.pending[i + 1]
  {
    assert ed.pending == ed.pending[..slot] + [ed.pending[slot]] + ed.pending[slot + 1..];
    ed.(button := Button(false, SaveLabel), pending := ed.pending[..slot] + ed.pending[slot + 1..])
  }

  /**
   * Settlement of the request at `slot` of layer `h`, corrected: on a memory,
   * the records with the captured marker's id are saved in place with the
   * comment that request sent (provisional id kept, timestamp from the
   * memory), and the popup turns read-only, so a saved marker takes no
   * further save and no close discards it; on nothing, only the editor is
   * settled. A settlement with no such request changes nothing.
   */
  function SaveComplete(s: Session, h: nat, slot: nat, result: Option<Memory>, now: int, parse: string -> int): (r: Session)
    ensures !HasPending(s, h, slot) ==> r == s
    ensures |r.store| == |s.store| && Ids(r.store) == Ids(s.store)
    ensures SameLayersBut(s.surface, r.surface, IndexOf(s.surface.layers, h))
    ensures HasPending(s, h, slot) ==>
      var k := IndexOf(s.surface.layers, h);
      var ed := s.surface.layers[k].popup;
      match result
      case Some(mem) =>
        && r.store == MarkSaved(s.store, s.surface.layers[k].marker.id, ed.pending[slot], StampOf(mem.createdAt, now, parse))
        && r.surface.layers[k].popup == Viewer
      case None =>
        && r.store == s.store
        && r.surface.layers[k].popup == Settled(ed, slot)
  {
    var layers := s.surface.layers;
    var k := IndexOf(layers, h);
    if !HasPending(s, h, slot) then s
    else
      var ed := layers[k].popup;
      match result
      case Some(mem) =>
        var stamp := StampOf(mem.createdAt, now, parse);
        SetPopup(s.(store := MarkSaved(s.store, layers[k].marker.id, ed.pending[slot], stamp)), k, Viewer)
      case None =>
        SetPopup(s, k, Settled(ed, slot))
  }

  /**
   * Settlement of a save, as written: on success the record is saved in
   * place and the close handler is detached, but the popup keeps its editor
   * and the `finally` block re-enables its save button.
   */
  function SaveCompleteAsWritten(s: Session, h: nat, slot: nat, result: Option<Memory>, now: int, parse: string -> int): (r: Session)
    ensures !HasPending(s, h, slot) ==> r == s
    ensures |r.store| == |s.store| && Ids(r.store) == Ids(s.store)
    ensures SameLayersBut(s.surface, r.surface, IndexOf(s.surface.layers, h))
    ensures HasPending(s, h, slot) ==>
      var k := IndexOf(s.surface.layers, h);
      var ed := s.surface.layers[k].popup;
      match result
      case Some(mem) =>
        && r.store == MarkSaved(s.store, s.surface.layers[k].marker.id, ed.pending[slot], StampOf(mem.createdAt, now, parse))
        && r.surface.layers[k].popup == Settled(ed, slot).(discardOnClose := false)
      case None =>
        && r.store == s.store
        && r.surface.layers[k].popup == Settled(ed, slot)
  {
    var layers := s.surface.layers;
    var k := IndexOf(layers, h);
    if !HasPending(s, h, slot) then s
    else
      var ed := layers[k].popup;
      match result
      case Some(mem) =>
        var stamp := StampOf(mem.createdAt, now, parse);
        SetPopup(s.(store := MarkSaved(s.store, layers[k].marker.id, ed.pending[slot], stamp)), k,
                 Settled(ed, slot).(discardOnClose := false))
      case None =>
        SetPopup(s, k, Settled(ed, slot))
  }

  /**
   * What a keystroke into the editor of layer `h` leaves behind: the text is
   * the typed text, the button is disabled exactly when `disabled` says so,
   * everything else about the popup and every other layer is kept. Without
   * an editor at `h` there is no text area to type into.
   */
  predicate TypedInto(s: Session, h: nat, text: string, r: Session, disabled: bool)
  {
    var k := IndexOf(s.surface.layers, h);
    if k < |s.surface.layers| && s.surface.layers[k].popup.Editor? then
      var ed := s.surface.layers[k].popup;
      && OnlyPopupChanged(s, r, k)
      && r.surface.layers[k].popup.Editor?
      && r.surface.layers[k].popup.text == text
      && r.surface.layers[k].popup.button.disabled == disabled
      && r.surface.layers[k].popup.button.caption == ed.button.caption
      && r.surface.layers[k].popup.discardOnClose == ed.discardOnClose
      && r.surface.layers[k].popup.pending == ed.pending
    else r == s
  }

  /** The pending requests of the editor at `h` (none when there is no editor). */
  function PendingAt(s: Session, h: nat): seq<string>
  {
    var k := IndexOf(s.surface.layers, h);
    if k < |s.surface.layers| && s.surface.layers[k].popup.Editor? then s.surface.layers[k].popup.pending else []
  }

  /**
   * Typing into a draft's text area, corrected: the button is disabled while
   * the trimmed text is shorter than the minimum, and also while a save is
   * in flight.
   */
  function Input(s: Session, h: nat, text: string): (r: Session)
    ensures TypedInto(s, h, text, r, |PendingAt(s, h)| > 0 || Text.Utf16Length(Text.Trim(text)) < MinCommentLength)
  {
    var layers := s.surface.layers;
    var k := IndexOf(layers, h);
    if k == |layers| || !layers[k].popup.Editor? then s
    else
      var ed := layers[k].popup;
      SetPopup(s, k, ed.(text := text, button := ed.button.(disabled := |ed.pending| > 0 || !LongEnough(text))))
  }

  /**
   * Typing into a draft's text area, as written: the button is disabled
   * exactly while the trimmed text is shorter than the minimum, whatever is
   * in flight.
   */
  function InputAsWritten(s: Session, h: nat, text: string): (r: Session)
    ensures TypedInto(s, h, text, r, Text.Utf16Length(Text.Trim(text)) < MinCommentLength)
  {
    var layers := s.surface.layers;
    var k := IndexOf(layers, h);
    if k == |layers| || !layers[k].popup.Editor? then s
    else
      var ed := layers[k].popup;
      SetPopup(s, k, ed.(text := text, button := ed.button.(disabled := !LongEnough(text))))
  }

  // ---------------------------------------------------------------------------
  // Event dispatch
  // ---------------------------------------------------------------------------

  /** The gestures and network settlements the map forwards to the lifecycle. */
  datatype Event =
    | MapClicked(lat: real, lng: real, now: int, nowId: string)
    | MemoriesLoaded(mems: seq<Memory>, now: int, nowId: string)
    | Typed(handle: nat, text: string)
    | SavePressed(handle: nat)
    | SaveSettled(handle: nat, slot: nat, result: Option<Memory>, now: int)
    | PopupClosed(handle: nat)

  /** One event against the session, with the geofence ring and the date parser fixed (corrected handlers). */
  function Step(s: Session, ring: seq<Geofence.Vertex>, parse: string -> int, e: Event): (r: Session)
    ensures e.MapClicked? && !Geofence.Inside(ring, e.lat, e.lng) ==> r == s
    ensures e.SavePressed? && !SaveClick(s, e.handle).Started? ==> r == s
    ensures e.SaveSettled? && !HasPending(s, e.handle, e.slot) ==> r == s
    ensures e.Typed? || e.SavePressed? ==> r.store == s.store
    ensures e.MemoriesLoaded? ==> |r.store| >= |s.store| && r.store[..|s.store|] == s.store
  {
    match e
    case MapClicked(lat, lng, now, nowId) => Click(s, ring, lat, lng, now, nowId)
    case MemoriesLoaded(mems, now, nowId) => Load(s, mems, now, nowId, parse)
    case Typed(h, text) => Input(s, h, text)
    case SavePressed(h) =>
      var start := SaveClick(s, h);
      if start.Started? then start.session else s
    case SaveSettled(h, slot, result, now) => SaveComplete(s, h, slot, result, now, parse)
    case PopupClosed(h) => Closed(s, h)
  }

  /** One event dispatched to the handlers as written. */
  function StepAsWritten(s: Session, ring: seq<Geofence.Vertex>, parse: string -> int, e: Event): (r: Session)
    ensures e.MapClicked? && !Geofence.Inside(ring, e.lat, e.lng) ==> r == s
    ensures e.SavePressed? && !SaveClick(s, e.handle).Started? ==> r == s
    ensures e.SaveSettled? && !HasPending(s, e.handle, e.slot) ==> r == s
    ensures e.Typed? || e.SavePressed? ==> r.store == s.store
    ensures e.MemoriesLoaded? ==> r.store == FromMemories(e.mems, e.now, e.nowId, parse)
  {
    match e
    case MapClicked(lat, lng, now, nowId) => Click(s, ring, lat, lng, now, nowId)
    case MemoriesLoaded(mems, now, nowId) => LoadAsWritten(s, mems, now, nowId, parse)
    case Typed(h, text) => InputAsWritten(s, h, text)
    case SavePressed(h) =>
      var start := SaveClick(s, h);
      if start.Started? then start.session else s
    case SaveSettled(h, slot, result, now) => SaveCompleteAsWritten(s, h, slot, result, now, parse)
    case PopupClosed(h) => Closed(s, h)
  }
}
