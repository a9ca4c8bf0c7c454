/**
 * Properties of the marker lifecycle: the session invariant (store and map
 * layers 1:1, ids unique, only drafts discard on close) is kept by every
 * event, and each event does what the map promises to the user.
 */
module LifecycleProps {
  import opened Wrappers
  import Geofence
  import Text
  import opened MarkerStore
  import opened Lifecycle

  /** Replacing the popup of one layer keeps the invariant when the discard flag is kept or dropped. */
  lemma SetPopupWf(s: Session, k: nat, p: Popup)
    requires Wf(s) && k < |s.surface.layers|
    requires p.Editor? && p.discardOnClose ==> s.surface.layers[k].popup.Editor? && s.surface.layers[k].popup.discardOnClose
    ensures Wf(SetPopup(s, k, p))
  {
  }

  lemma ClickPreservesWf(s: Session, ring: seq<Geofence.Vertex>, lat: real, lng: real, now: int, nowId: string)
    requires Wf(s) && !HasId(s.store, nowId)
    ensures Wf(Click(s, ring, lat, lng, now, nowId))
  {
    if Geofence.Inside(ring, lat, lng) {
      var draft := MarkerData(nowId, lat, lng, "", now, false);
      var store' := s.store + [draft];
      var surface' := AddLayers(s.surface, [draft]);
      assert Click(s, ring, lat, lng, now, nowId) == Session(store', surface');
      var n := |s.store|;
      assert UniqueIds(store') by {
        assert forall i :: 0 <= i < n ==> store'[i] == s.store[i];
      }
      if s.surface.ready {
        assert surface'.layers == s.surface.layers + [Layer(s.surface.nextHandle, draft, PopupFor(draft))] by {
          assert surface'.layers[n + 0] == Layer(s.surface.nextHandle + 0, draft, PopupFor(draft));
          assert surface'.layers[..n] == s.surface.layers;
        }
        AppendWf(s, draft);
      }
    }
  }

  /** Appending a record with a fresh id to the store, and its layer to a ready surface, keeps the invariant. */
  lemma AppendWf(s: Session, draft: MarkerData)
    requires Wf(s) && s.surface.ready
    requires UniqueIds(s.store + [draft])
    ensures var l := Layer(s.surface.nextHandle, draft, PopupFor(draft));
      Wf(Session(s.store + [draft], s.surface.(layers := s.surface.layers + [l], nextHandle := s.surface.nextHandle + 1)))
  {
    var l := Layer(s.surface.nextHandle, draft, PopupFor(draft));
    var r := Session(s.store + [draft], s.surface.(layers := s.surface.layers + [l], nextHandle := s.surface.nextHandle + 1));
    var n := |s.store|;
    assert forall i :: 0 <= i < n ==> r.store[i] == s.store[i] && r.surface.layers[i] == s.surface.layers[i];
    assert HandlesOrdered(r.surface);
    assert Synced(r);
    assert DiscardOnlyDrafts(r);
  }

  /** Appending records with fresh ids to the store, and their layers to the map, keeps the invariant. */
  lemma {:induction false} AppendAllWf(s: Session, ms: seq<MarkerData>)
    requires Wf(s) && UniqueIds(s.store + ms)
    ensures Wf(Session(s.store + ms, AddLayers(s.surface, ms)))
    decreases |ms|
  {
    if !s.surface.ready || |ms| == 0 {
      assert s.store + [] == s.store;
    } else {
      var added := Layer(s.surface.nextHandle, ms[0], PopupFor(ms[0]));
      var s1 := Session(s.store + [ms[0]], s.surface.(layers := s.surface.layers + [added], nextHandle := s.surface.nextHandle + 1));
      assert s.store + [ms[0]] == (s.store + ms)[..|s.store| + 1];
      AppendWf(s, ms[0]);
      assert s1.store + ms[1..] == s.store + ms;
      assert s1.surface == Surface(true, s.surface.layers + [added], s.surface.nextHandle + 1);
      AppendAllWf(s1, ms[1..]);
    }
  }

  /** A load keeps the invariant whenever the loaded ids are fresh and distinct. */
  lemma LoadPreservesWf(s: Session, mems: seq<Memory>, now: int, nowId: string, parse: string -> int)
    requires Wf(s) && UniqueIds(s.store + FromMemories(mems, now, nowId, parse))
    ensures Wf(Load(s, mems, now, nowId, parse))
  {
    AppendAllWf(s, FromMemories(mems, now, nowId, parse));
  }

  /**
   * As written, a load that settles after a draft was placed desyncs the map:
   * the store holds only the loaded records, while the draft's layer stays
   * on the map beside the new ones.
   */
  lemma LoadAsWrittenDesyncs(s: Session, mems: seq<Memory>, now: int, nowId: string, parse: string -> int)
    requires Wf(s) && s.surface.ready && |s.store| > 0
    ensures var r := LoadAsWritten(s, mems, now, nowId, parse);
      |r.surface.layers| == |r.store| + |s.store| && !Wf(r)
  {
  }

  /** On an empty store, the load as written and the corrected load coincide. */
  lemma LoadAsWrittenOnEmpty(s: Session, mems: seq<Memory>, now: int, nowId: string, parse: string -> int)
    requires s.store == []
    ensures LoadAsWritten(s, mems, now, nowId, parse) == Load(s, mems, now, nowId, parse)
  {
    assert [] + FromMemories(mems, now, nowId, parse) == FromMemories(mems, now, nowId, parse);
  }

  /** Deleting the same position from the store and from the layers keeps the invariant. */
  lemma DeleteAtWf(s: Session, k: nat)
    requires Wf(s) && k < |s.surface.layers|
    ensures Wf(Session(s.store[..k] + s.store[k + 1..],
                       s.surface.(layers := s.surface.layers[..k] + s.surface.layers[k + 1..])))
  {
    var layers := s.surface.layers;
    var store' := s.store[..k] + s.store[k + 1..];
    var layers' := layers[..k] + layers[k + 1..];
    UniqueAfterDelete(s.store, k);
    assert forall i :: 0 <= i < |layers'| ==> layers'[i] == layers[if i < k then i else i + 1];
    assert forall i :: 0 <= i < |store'| ==> store'[i] == s.store[if i < k then i else i + 1];
  }

  /**
   * Closing a draft's popup removes exactly that draft from the store and
   * exactly its layer from the map, keeping every other entry in order.
   */
  lemma CloseRemovesDraft(s: Session, h: nat)
    requires Wf(s) && DiscardsOnClose(s, h)
    ensures var k := IndexOf(s.surface.layers, h);
      && Closed(s, h).store == s.store[..k] + s.store[k + 1..]
      && Closed(s, h).surface.layers == s.surface.layers[..k] + s.surface.layers[k + 1..]
      && |Closed(s, h).store| == |s.store| - 1
  {
    var k := IndexOf(s.surface.layers, h);
    assert s.store[k].id == s.surface.layers[k].marker.id;
    DiscardUnique(s.store, k);
    RemoveLayerAt(s.surface, k);
  }

  lemma ClosePreservesWf(s: Session, h: nat)
    requires Wf(s)
    ensures Wf(Closed(s, h))
  {
    if DiscardsOnClose(s, h) {
      CloseRemovesDraft(s, h);
      DeleteAtWf(s, IndexOf(s.surface.layers, h));
    }
  }

  /** Closing the popup of a saved marker never removes it. */
  lemma CloseKeepsSaved(s: Session, h: nat)
    requires Wf(s)
    requires IndexOf(s.surface.layers, h) < |s.store|
    requires s.store[IndexOf(s.surface.layers, h)].saved
    ensures Closed(s, h) == s
  {
  }

  lemma SaveClickPreservesWf(s: Session, h: nat)
    requires Wf(s)
    ensures SaveClick(s, h).Started? ==> Wf(SaveClick(s, h).session)
  {
    var layers := s.surface.layers;
    var k := IndexOf(layers, h);
    if SaveClick(s, h).Started? {
      var ed := layers[k].popup;
      SetPopupWf(s, k, ed.(button := Button(true, SavingLabel), pending := ed.pending + [Text.Trim(ed.text)]));
    }
  }

  lemma InputPreservesWf(s: Session, h: nat, text: string)
    requires Wf(s)
    ensures Wf(Input(s, h, text))
  {
    var layers := s.surface.layers;
    var k := IndexOf(layers, h);
    if k < |layers| && layers[k].popup.Editor? {
      var ed := layers[k].popup;
      SetPopupWf(s, k, ed.(text := text, button := ed.button.(disabled := |ed.pending| > 0 || !LongEnough(text))));
    }
  }

  lemma InputAsWrittenPreservesWf(s: Session, h: nat, text: string)
    requires Wf(s)
    ensures Wf(InputAsWritten(s, h, text))
  {
    var layers := s.surface.layers;
    var k := IndexOf(layers, h);
    if k < |layers| && layers[k].popup.Editor? {
      var ed := layers[k].popup;
      SetPopupWf(s, k, ed.(text := text, button := ed.button.(disabled := !LongEnough(text))));
    }
  }

  /** With unique ids, saving the id of record `k` rewrites position `k` alone. */
  lemma MarkSavedAt(store: seq<MarkerData>, k: nat, comment: string, stamp: int)
    requires UniqueIds(store) && k < |store|
    ensures MarkSaved(store, store[k].id, comment, stamp) == store[k := SavedRecord(store[k], comment, stamp)]
    ensures UniqueIds(store[k := SavedRecord(store[k], comment, stamp)])
  {
    var r := MarkSaved(store, store[k].id, comment, stamp);
    var t := store[k := SavedRecord(store[k], comment, stamp)];
    forall i | 0 <= i < |store|
      ensures r[i] == t[i]
    {
      if i != k {
        assert store[i].id != store[k].id;
      }
    }
  }

  /** The session after a successful save: record `k` saved in place with the sent comment, layer `k` read-only. */
  lemma SaveCompleteSuccessShape(s: Session, h: nat, slot: nat, mem: Memory, now: int, parse: string -> int)
    requires Wf(s) && HasPending(s, h, slot)
    ensures var k := IndexOf(s.surface.layers, h);
      var sent := s.surface.layers[k].popup.pending[slot];
      SaveComplete(s, h, slot, Some(mem), now, parse)
        == SetPopup(s.(store := s.store[k := SavedRecord(s.store[k], sent, StampOf(mem.createdAt, now, parse))]), k, Viewer)
    ensures Wf(SaveComplete(s, h, slot, Some(mem), now, parse))
  {
    var k := IndexOf(s.surface.layers, h);
    var sent := s.surface.layers[k].popup.pending[slot];
    var stamp := StampOf(mem.createdAt, now, parse);
    assert s.store[k].id == s.surface.layers[k].marker.id;
    MarkSavedAt(s.store, k, sent, stamp);
    SaveInPlaceWf(s, k, SavedRecord(s.store[k], sent, stamp), Viewer);
  }

  /**
   * Saving record `k` in place (same id) while its popup changes to one that
   * does not discard on close keeps the invariant.
   */
  lemma SaveInPlaceWf(s: Session, k: nat, m: MarkerData, p: Popup)
    requires Wf(s) && k < |s.surface.layers| && k < |s.store| && m.id == s.store[k].id
    requires !(p.Editor? && p.discardOnClose)
    ensures Wf(SetPopup(s.(store := s.store[k := m]), k, p))
  {
    var r := SetPopup(s.(store := s.store[k := m]), k, p);
    assert forall i :: 0 <= i < |r.surface.layers| ==>
      r.surface.layers[i].handle == s.surface.layers[i].handle
      && r.surface.layers[i].marker == s.surface.layers[i].marker;
    assert forall i :: 0 <= i < |r.store| ==> r.store[i].id == s.store[i].id;
    assert forall i :: 0 <= i < |r.store| && i != k ==> r.store[i] == s.store[i] && r.surface.layers[i] == s.surface.layers[i];
    assert HandlesOrdered(r.surface);
    assert UniqueIds(r.store);
    assert Synced(r);
    assert DiscardOnlyDrafts(r);
  }

  /**
   * A successful save changes only the record of the saved marker: it gets
   * the comment its request sent, the remote timestamp and `saved`, and
   * keeps its provisional id; the store keeps its length; the popup no
   * longer discards on close and takes no further save.
   */
  lemma SaveSucceeds(s: Session, h: nat, slot: nat, mem: Memory, now: int, parse: string -> int)
    requires Wf(s) && HasPending(s, h, slot)
    ensures var k := IndexOf(s.surface.layers, h);
      var r := SaveComplete(s, h, slot, Some(mem), now, parse);
      && |r.store| == |s.store|
      && r.store[k] == SavedRecord(s.store[k], s.surface.layers[k].popup.pending[slot], StampOf(mem.createdAt, now, parse))
      && r.store[k].id == s.store[k].id
      && (forall i :: 0 <= i < |s.store| && i != k ==> r.store[i] == s.store[i])
      && Closed(r, h) == r
      && SaveClick(r, h) == Ignored
      && Wf(r)
  {
    SaveCompleteSuccessShape(s, h, slot, mem, now, parse);
    var k := IndexOf(s.surface.layers, h);
    var r := SaveComplete(s, h, slot, Some(mem), now, parse);
    assert r.surface.layers[k].handle == h;
    assert IndexOf(r.surface.layers, h) == k;
  }

  /**
   * As written, a successful save also saves record `k` in place with the
   * sent comment and detaches the close handler, so a later close keeps the
   * marker; but the popup keeps its editor, with the typed text and an
   * enabled "Save memory" button.
   */
  lemma SaveSucceedsAsWritten(s: Session, h: nat, slot: nat, mem: Memory, now: int, parse: string -> int)
    requires Wf(s) && HasPending(s, h, slot)
    ensures var k := IndexOf(s.surface.layers, h);
      var r := SaveCompleteAsWritten(s, h, slot, Some(mem), now, parse);
      && |r.store| == |s.store|
      && r.store[k] == SavedRecord(s.store[k], s.surface.layers[k].popup.pending[slot], StampOf(mem.createdAt, now, parse))
      && (forall i :: 0 <= i < |s.store| && i != k ==> r.store[i] == s.store[i])
      && Closed(r, h) == r
      && r.surface.layers[k].popup.Editor?
      && r.surface.layers[k].popup.text == s.surface.layers[k].popup.text
      && r.surface.layers[k].popup.button == Button(false, SaveLabel)
      && Wf(r)
  {
    var k := IndexOf(s.surface.layers, h);
    var ed := s.surface.layers[k].popup;
    var sent := ed.pending[slot];
    var stamp := StampOf(mem.createdAt, now, parse);
    var r := SaveCompleteAsWritten(s, h, slot, Some(mem), now, parse);
    assert s.store[k].id == s.surface.layers[k].marker.id;
    MarkSavedAt(s.store, k, sent, stamp);
    SaveInPlaceWf(s, k, SavedRecord(s.store[k], sent, stamp), Settled(ed, slot).(discardOnClose := false));
    assert r.surface.layers[k].handle == h;
    assert IndexOf(r.surface.layers, h) == k;
  }

  /**
   * A failed save (null result or thrown error) leaves the store as it was,
   * keeps the typed text and the discard-on-close handler, drops the
   * settled request, and re-enables the button with its original caption.
   */
  lemma SaveFails(s: Session, h: nat, slot: nat, now: int, parse: string -> int)
    requires Wf(s) && HasPending(s, h, slot)
    ensures var k := IndexOf(s.surface.layers, h);
      var r := SaveComplete(s, h, slot, None, now, parse);
      && r.store == s.store
      && r.surface.layers[k].popup.text == s.surface.layers[k].popup.text
      && r.surface.layers[k].popup.button == Button(false, SaveLabel)
      && |r.surface.layers[k].popup.pending| == |s.surface.layers[k].popup.pending| - 1
      && multiset(r.surface.layers[k].popup.pending)
         == multiset(s.surface.layers[k].popup.pending) - multiset{s.surface.layers[k].popup.pending[slot]}
      && DiscardsOnClose(r, h) == DiscardsOnClose(s, h)
      && Wf(r)
  {
    var k := IndexOf(s.surface.layers, h);
    SetPopupWf(s, k, Settled(s.surface.layers[k].popup, slot));
    assert IndexOf(SaveComplete(s, h, slot, None, now, parse).surface.layers, h) == k;
  }

  lemma SaveCompletePreservesWf(s: Session, h: nat, slot: nat, result: Option<Memory>, now: int, parse: string -> int)
    requires Wf(s)
    ensures Wf(SaveComplete(s, h, slot, result, now, parse))
  {
    if HasPending(s, h, slot) {
      match result
      case Some(mem) => SaveSucceeds(s, h, slot, mem, now, parse);
      case None => SaveFails(s, h, slot, now, parse);
    }
  }

  lemma SaveCompleteAsWrittenPreservesWf(s: Session, h: nat, slot: nat, result: Option<Memory>, now: int, parse: string -> int)
    requires Wf(s)
    ensures Wf(SaveCompleteAsWritten(s, h, slot, result, now, parse))
  {
    if HasPending(s, h, slot) {
      match result
      case Some(mem) => SaveSucceedsAsWritten(s, h, slot, mem, now, parse);
      case None =>
        assert SaveCompleteAsWritten(s, h, slot, None, now, parse) == SaveComplete(s, h, slot, None, now, parse);
        SaveFails(s, h, slot, now, parse);
    }
  }

  /**
   * Pressing Save and having that request succeed stores exactly the text the
   * press sent: the trimmed text of the editor, at least the minimum length.
   */
  lemma PressThenSucceed(s: Session, h: nat, mem: Memory, now: int, parse: string -> int)
    requires Wf(s) && SaveClick(s, h).Started?
    ensures var st := SaveClick(s, h);
      var k := IndexOf(s.surface.layers, h);
      var slot := |s.surface.layers[k].popup.pending|;
      var r := SaveComplete(st.session, h, slot, Some(mem), now, parse);
      && HasPending(st.session, h, slot)
      && r.store[k].comment == st.request.comment
      && st.request.comment == Text.Trim(s.surface.layers[k].popup.text)
      && LongEnough(r.store[k].comment)
      && r.store[k].saved && r.store[k].id == s.store[k].id
  {
    var st := SaveClick(s, h);
    var k := IndexOf(s.surface.layers, h);
    var slot := |s.surface.layers[k].popup.pending|;
    SaveClickPreservesWf(s, h);
    IndexOfSameHandles(s.surface.layers, st.session.surface.layers, h);
    Text.TrimIdempotent(s.surface.layers[k].popup.text);
    SaveSucceeds(st.session, h, slot, mem, now, parse);
  }

  // ---------------------------------------------------------------------------
  // Whole event sequences
  // ---------------------------------------------------------------------------

  /** What an event needs from the session for the invariant to carry over: fresh ids. */
  predicate Admissible(s: Session, e: Event, parse: string -> int)
  {
    match e
    case MapClicked(_, _, _, nowId) => !HasId(s.store, nowId)
    case MemoriesLoaded(mems, now, nowId) => UniqueIds(s.store + FromMemories(mems, now, nowId, parse))
    case _ => true
  }

  /** Every admissible event keeps the session invariant. */
  lemma StepPreservesWf(s: Session, ring: seq<Geofence.Vertex>, parse: string -> int, e: Event)
    requires Wf(s) && Admissible(s, e, parse)
    ensures Wf(Step(s, ring, parse, e))
  {
    match e
    case MapClicked(lat, lng, now, nowId) => ClickPreservesWf(s, ring, lat, lng, now, nowId);
    case MemoriesLoaded(mems, now, nowId) => LoadPreservesWf(s, mems, now, nowId, parse);
    case Typed(h, text) => InputPreservesWf(s, h, text);
    case SavePressed(h) => SaveClickPreservesWf(s, h);
    case SaveSettled(h, slot, result, now) => SaveCompletePreservesWf(s, h, slot, result, now, parse);
    case PopupClosed(h) => ClosePreservesWf(s, h);
  }

  /** Running a whole event sequence. */
  function Run(s: Session, ring: seq<Geofence.Vertex>, parse: string -> int, es: seq<Event>): Session
    decreases |es|
  {
    if |es| == 0 then s else Run(Step(s, ring, parse, es[0]), ring, parse, es[1..])
  }

  predicate AdmissibleRun(s: Session, ring: seq<Geofence.Vertex>, parse: string -> int, es: seq<Event>)
    decreases |es|
  {
    |es| == 0 || (Admissible(s, es[0], parse) && AdmissibleRun(Step(s, ring, parse, es[0]), ring, parse, es[1..]))
  }

  /** Store and map stay 1:1 through any admissible run. */
  lemma {:induction false} RunPreservesWf(s: Session, ring: seq<Geofence.Vertex>, parse: string -> int, es: seq<Event>)
    requires Wf(s) && AdmissibleRun(s, ring, parse, es)
    ensures Wf(Run(s, ring, parse, es))
    decreases |es|
  {
    if |es| > 0 {
      StepPreservesWf(s, ring, parse, es[0]);
      RunPreservesWf(Step(s, ring, parse, es[0]), ring, parse, es[1..]);
    }
  }

  /**
   * What the handlers as written need for the invariant to carry over: fresh
   * ids, and a load that settles before any marker is in the store (see
   * `LoadAsWrittenDesyncs` for a load that settles later).
   */
  predicate AdmissibleAsWritten(s: Session, e: Event, parse: string -> int)
  {
    match e
    case MapClicked(_, _, _, nowId) => !HasId(s.store, nowId)
    case MemoriesLoaded(mems, now, nowId) => s.store == [] && UniqueIds(FromMemories(mems, now, nowId, parse))
    case _ => true
  }

  /** The handlers as written keep the session invariant on every event they admit. */
  lemma StepAsWrittenPreservesWf(s: Session, ring: seq<Geofence.Vertex>, parse: string -> int, e: Event)
    requires Wf(s) && AdmissibleAsWritten(s, e, parse)
    ensures Wf(StepAsWritten(s, ring, parse, e))
  {
    match e
    case MapClicked(lat, lng, now, nowId) => ClickPreservesWf(s, ring, lat, lng, now, nowId);
    case MemoriesLoaded(mems, now, nowId) =>
      LoadAsWrittenOnEmpty(s, mems, now, nowId, parse);
      assert s.store + FromMemories(mems, now, nowId, parse) == FromMemories(mems, now, nowId, parse);
      LoadPreservesWf(s, mems, now, nowId, parse);
    case Typed(h, text) => InputAsWrittenPreservesWf(s, h, text);
    case SavePressed(h) => SaveClickPreservesWf(s, h);
    case SaveSettled(h, slot, result, now) => SaveCompleteAsWrittenPreservesWf(s, h, slot, result, now, parse);
    case PopupClosed(h) => ClosePreservesWf(s, h);
  }

  // ---------------------------------------------------------------------------
  // At most one save in flight per marker
  // ---------------------------------------------------------------------------

  /** Every editor has at most one request in flight, and its button is disabled while it has one. */
  predicate OneInFlight(s: Session)
  {
    forall i :: 0 <= i < |s.surface.layers| && s.surface.layers[i].popup.Editor? ==>
      && |s.surface.layers[i].popup.pending| <= 1
      && (|s.surface.layers[i].popup.pending| == 1 ==> s.surface.layers[i].popup.button.disabled)
  }

  lemma ClickKeepsOneInFlight(s: Session, ring: seq<Geofence.Vertex>, lat: real, lng: real, now: int, nowId: string)
    requires OneInFlight(s)
    ensures OneInFlight(Click(s, ring, lat, lng, now, nowId))
  {
    var r := Click(s, ring, lat, lng, now, nowId);
    if Geofence.Inside(ring, lat, lng) && s.surface.ready {
      var n := |s.surface.layers|;
      var draft := MarkerData(nowId, lat, lng, "", now, false);
      assert r.surface.layers[n + 0] == Layer(s.surface.nextHandle + 0, draft, PopupFor(draft));
      assert forall i :: 0 <= i < n ==> r.surface.layers[i] == s.surface.layers[..n][i];
    }
  }

  /** The layers a load leaves: the old ones unchanged, then read-only ones. */
  lemma LoadedLayers(s: Session, mems: seq<Memory>, now: int, nowId: string, parse: string -> int)
    ensures var r := Load(s, mems, now, nowId, parse);
      && (forall i :: 0 <= i < |s.surface.layers| ==> r.surface.layers[i] == s.surface.layers[i])
      && (forall i :: |s.surface.layers| <= i < |r.surface.layers| ==> r.surface.layers[i].popup == Viewer)
  {
    var r := Load(s, mems, now, nowId, parse);
    AppendedViewers(s.surface, mems, now, nowId, parse);
    var n := |s.surface.layers|;
    if s.surface.ready {
      forall i | 0 <= i < n
        ensures r.surface.layers[i] == s.surface.layers[i]
      {
        assert r.surface.layers[..n][i] == s.surface.layers[i];
      }
    }
    var added := AddLayers(s.surface, FromMemories(mems, now, nowId, parse));
    assert r.surface == added;
    forall i | n <= i < |r.surface.layers|
      ensures r.surface.layers[i].popup == Viewer
    {
      assert added.layers[i].popup == Viewer;
    }
  }

  lemma LoadKeepsOneInFlight(s: Session, mems: seq<Memory>, now: int, nowId: string, parse: string -> int)
    requires OneInFlight(s)
    ensures OneInFlight(Load(s, mems, now, nowId, parse))
  {
    LoadedLayers(s, mems, now, nowId, parse);
  }

  lemma CloseKeepsOneInFlight(s: Session, h: nat)
    requires OneInFlight(s)
    ensures OneInFlight(Closed(s, h))
  {
    var r := Closed(s, h);
    forall i | 0 <= i < |r.surface.layers| && r.surface.layers[i].popup.Editor?
      ensures |r.surface.layers[i].popup.pending| <= 1
      ensures |r.surface.layers[i].popup.pending| == 1 ==> r.surface.layers[i].popup.button.disabled
    {
      assert r.surface.layers[i] in s.surface.layers;
    }
  }

  /** Every event dispatched to the corrected handlers keeps at most one save in flight per marker. */
  lemma StepKeepsOneInFlight(s: Session, ring: seq<Geofence.Vertex>, parse: string -> int, e: Event)
    requires OneInFlight(s)
    ensures OneInFlight(Step(s, ring, parse, e))
  {
    match e
    case MapClicked(lat, lng, now, nowId) => ClickKeepsOneInFlight(s, ring, lat, lng, now, nowId);
    case MemoriesLoaded(mems, now, nowId) => LoadKeepsOneInFlight(s, mems, now, nowId, parse);
    case Typed(h, text) =>
    case SavePressed(h) =>
    case SaveSettled(h, slot, result, now) =>
    case PopupClosed(h) => CloseKeepsOneInFlight(s, h);
  }

  // ---------------------------------------------------------------------------
  // Every request in flight carries a comment the press accepted
  // ---------------------------------------------------------------------------

  /** A comment a press can send: already trimmed, and long enough. */
  predicate Sendable(c: string)
  {
    Text.Trim(c) == c && LongEnough(c)
  }

  /** Every pending request of every editor is sendable. */
  predicate RequestsSendable(s: Session)
  {
    forall i, j :: 0 <= i < |s.surface.layers| && s.surface.layers[i].popup.Editor? && 0 <= j < |s.surface.layers[i].popup.pending| ==>
      Sendable(s.surface.layers[i].popup.pending[j])
  }

  lemma ClickKeepsRequestsSendable(s: Session, ring: seq<Geofence.Vertex>, lat: real, lng: real, now: int, nowId: string)
    requires RequestsSendable(s)
    ensures RequestsSendable(Click(s, ring, lat, lng, now, nowId))
  {
    var r := Click(s, ring, lat, lng, now, nowId);
    if Geofence.Inside(ring, lat, lng) && s.surface.ready {
      var n := |s.surface.layers|;
      var draft := MarkerData(nowId, lat, lng, "", now, false);
      assert r.surface.layers[n + 0] == Layer(s.surface.nextHandle + 0, draft, PopupFor(draft));
      assert forall i :: 0 <= i < n ==> r.surface.layers[i] == s.surface.layers[..n][i];
    }
  }

  lemma SaveClickKeepsRequestsSendable(s: Session, h: nat)
    requires RequestsSendable(s)
    ensures SaveClick(s, h).Started? ==> RequestsSendable(SaveClick(s, h).session)
  {
    var st := SaveClick(s, h);
    if st.Started? {
      var k := IndexOf(s.surface.layers, h);
      Text.TrimIdempotent(s.surface.layers[k].popup.text);
      assert Sendable(st.request.comment);
    }
  }

  lemma SaveCompleteKeepsRequestsSendable(s: Session, h: nat, slot: nat, result: Option<Memory>, now: int, parse: string -> int)
    requires RequestsSendable(s)
    ensures RequestsSendable(SaveComplete(s, h, slot, result, now, parse))
  {
    var r := SaveComplete(s, h, slot, result, now, parse);
    if HasPending(s, h, slot) && result.None? {
      var k := IndexOf(s.surface.layers, h);
      var p := r.surface.layers[k].popup.pending;
      assert forall j :: 0 <= j < |p| ==> p[j] in s.surface.layers[k].popup.pending;
    }
  }

  lemma CloseKeepsRequestsSendable(s: Session, h: nat)
    requires RequestsSendable(s)
    ensures RequestsSendable(Closed(s, h))
  {
    var r := Closed(s, h);
    forall i, j | 0 <= i < |r.surface.layers| && r.surface.layers[i].popup.Editor? && 0 <= j < |r.surface.layers[i].popup.pending|
      ensures Sendable(r.surface.layers[i].popup.pending[j])
    {
      assert r.surface.layers[i] in s.surface.layers;
    }
  }

  /** Every event keeps every pending request sendable. */
  lemma StepKeepsRequestsSendable(s: Session, ring: seq<Geofence.Vertex>, parse: string -> int, e: Event)
    requires RequestsSendable(s)
    ensures RequestsSendable(Step(s, ring, parse, e))
  {
    match e
    case MapClicked(lat, lng, now, nowId) => ClickKeepsRequestsSendable(s, ring, lat, lng, now, nowId);
    case MemoriesLoaded(mems, now, nowId) => LoadedLayers(s, mems, now, nowId, parse);
    case Typed(h, text) =>
    case SavePressed(h) => SaveClickKeepsRequestsSendable(s, h);
    case SaveSettled(h, slot, result, now) => SaveCompleteKeepsRequestsSendable(s, h, slot, result, now, parse);
    case PopupClosed(h) => CloseKeepsRequestsSendable(s, h);
  }

  /**
   * In a session whose pending requests are sendable, a successful save
   * stores a trimmed comment of at least the minimum length.
   */
  lemma SavedCommentSendable(s: Session, h: nat, slot: nat, mem: Memory, now: int, parse: string -> int)
    requires Wf(s) && RequestsSendable(s) && HasPending(s, h, slot)
    ensures var k := IndexOf(s.surface.layers, h);
      Sendable(SaveComplete(s, h, slot, Some(mem), now, parse).store[k].comment)
  {
    SaveSucceeds(s, h, slot, mem, now, parse);
  }

  // ---------------------------------------------------------------------------
  // The two save findings
  // ---------------------------------------------------------------------------

  /** Looking a handle up only depends on the handles. */
  lemma {:induction false} IndexOfSameHandles(a: seq<Layer>, b: seq<Layer>, h: nat)
    requires |a| == |b| && forall i :: 0 <= i < |a| ==> a[i].handle == b[i].handle
    ensures IndexOf(a, h) == IndexOf(b, h)
    decreases |a|
  {
    if |a| > 0 && a[0].handle != h {
      IndexOfSameHandles(a[1..], b[1..], h);
    }
  }

  /** While a save is in flight, typing cannot bring the save button back. */
  lemma InputKeepsSaveBlocked(s: Session, h: nat, text: string)
    requires IndexOf(s.surface.layers, h) < |s.surface.layers|
    requires s.surface.layers[IndexOf(s.surface.layers, h)].popup.Editor?
    requires |s.surface.layers[IndexOf(s.surface.layers, h)].popup.pending| > 0
    ensures SaveClick(Input(s, h, text), h) == Ignored
  {
    IndexOfSameHandles(s.surface.layers, Input(s, h, text).surface.layers, h);
  }

  /**
   * As written, typing while a save is in flight re-enables the button as
   * soon as the trimmed text is long enough, and the next press starts a
   * second request for the same marker.
   */
  lemma InputAsWrittenReopensSave(s: Session, h: nat, text: string)
    requires IndexOf(s.surface.layers, h) < |s.surface.layers|
    requires s.surface.layers[IndexOf(s.surface.layers, h)].popup.Editor?
    requires |s.surface.layers[IndexOf(s.surface.layers, h)].popup.pending| > 0
    requires LongEnough(text)
    ensures SaveClick(InputAsWritten(s, h, text), h).Started?
    ensures |SaveClick(InputAsWritten(s, h, text), h).session.surface.layers[IndexOf(s.surface.layers, h)].popup.pending| >= 2
  {
    IndexOfSameHandles(s.surface.layers, InputAsWritten(s, h, text).surface.layers, h);
  }

  /**
   * As written, a marker whose save succeeded keeps an editor with an enabled
   * button, so pressing it again sends another request for a saved marker.
   */
  lemma SaveAsWrittenAllowsResave(s: Session, h: nat, slot: nat, mem: Memory, now: int, parse: string -> int)
    requires HasPending(s, h, slot)
    requires LongEnough(s.surface.layers[IndexOf(s.surface.layers, h)].popup.text)
    ensures SaveClick(SaveCompleteAsWritten(s, h, slot, Some(mem), now, parse), h).Started?
  {
    IndexOfSameHandles(s.surface.layers, SaveCompleteAsWritten(s, h, slot, Some(mem), now, parse).surface.layers, h);
  }
}
