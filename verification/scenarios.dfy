/**
 * Concrete runs of the lifecycle: the square geofence, the comment-length
 * threshold (in UTF-16 code units), a save that succeeds, a load of two
 * memories, and the traces behind the findings (a load that settles after a
 * click, a second request while one is in flight, and a second request
 * after a successful save).
 */
module Scenarios {
  import opened Wrappers
  import Geofence
  import Text
  import opened MarkerStore
  import opened Lifecycle
  import LifecycleProps
  import MapConfig

  /** The square [[0,0],[0,10],[10,10],[10,0]] of (lng, lat) pairs. */
  const Square: seq<Geofence.Vertex> := [(0.0, 0.0), (0.0, 10.0), (10.0, 10.0), (10.0, 0.0)]

  /** 19, 20 and 25 characters with no space. */
  const Text19 := "abcdefghijklmnopqrs"
  const Text20 := "abcdefghijklmnopqrst"
  const Text25 := "abcdefghijklmnopqrstuvwxy"

  /** Ten U+1F600 characters: ten scalar values, twenty UTF-16 code units. */
  const TenEmoji := seq(10, _ => '\U{1F600}')

  /** The sample texts are ASCII, so their UTF-16 length is their length. */
  lemma Length19()
    ensures Text.Utf16Length(Text19) == 19
  {
    assert forall i :: 0 <= i < |Text19| ==> !Text.Astral(Text19[i]);
  }

  lemma Length20()
    ensures Text.Utf16Length(Text20) == 20
  {
    assert forall i :: 0 <= i < |Text20| ==> !Text.Astral(Text20[i]);
  }

  lemma Length25()
    ensures Text.Utf16Length(Text25) == 25
  {
    assert forall i :: 0 <= i < |Text25| ==> !Text.Astral(Text25[i]);
  }

  lemma SquareCenterInside()
    ensures Geofence.Inside(Square, 5.0, 5.0)
  {
    assert Geofence.EdgeCrosses(Square, 3, 5.0, 5.0);
    assert Geofence.Crossings(Square, 3, 5.0, 5.0) == 0;
  }

  /** A click far outside the square changes nothing. */
  lemma FarClickIgnored(s: Session, now: int, nowId: string)
    ensures Click(s, Square, 50.0, 50.0, now, nowId) == s
  {
    Geofence.NorthOfAllIsOutside(Square, 50.0, 50.0);
  }

  /** A click outside the campus ring, north of its rectangle, changes nothing. */
  lemma NorthClickIgnored(s: Session, lat: real, lng: real, now: int, nowId: string)
    requires lat > MapConfig.Bounds.north
    ensures Click(s, MapConfig.Ring, lat, lng, now, nowId) == s
  {
    MapConfig.NorthOfBoundsOutside(lat, lng);
  }

  /** A fresh session with one draft at the center of the square. */
  function DraftSession(): Session
  {
    Click(Initial(true), Square, 5.0, 5.0, 1000, "1000")
  }

  lemma DraftSessionShape()
    ensures DraftSession().store == [MarkerData("1000", 5.0, 5.0, "", 1000, false)]
    ensures |DraftSession().surface.layers| == 1
    ensures DraftSession().surface.layers[0].handle == 0
    ensures DraftSession().surface.layers[0].marker == DraftSession().store[0]
    ensures DraftSession().surface.layers[0].popup == Editor("", Button(true, SaveLabel), true, [])
  {
    SquareCenterInside();
    var d := MarkerData("1000", 5.0, 5.0, "", 1000, false);
    assert DraftSession().surface.layers[0 + 0] == Layer(0 + 0, d, PopupFor(d));
    assert Text.Trim("") == "";
  }

  /** Typing a long enough, already trimmed text into the fresh draft, then pressing Save, sends exactly that text. */
  lemma TypeAndPress(t: string)
    requires Text.Trim(t) == t && LongEnough(t)
    ensures var st := SaveClick(Input(DraftSession(), 0, t), 0);
      && st.Started?
      && st.request == Request(t, 5.0, 5.0)
      && st.session.store == DraftSession().store
      && |st.session.surface.layers| == 1
      && st.session.surface.layers[0].handle == 0
      && st.session.surface.layers[0].popup == Editor(t, Button(true, SavingLabel), true, [t])
  {
    DraftSessionShape();
    var s1 := Input(DraftSession(), 0, t);
    assert s1.surface.layers[0].popup == Editor(t, Button(false, SaveLabel), true, []);
    assert IndexOf(s1.surface.layers, 0) == 0;
  }

  /** Closing the fresh draft's popup abandons the pin. */
  lemma DraftClosedIsDiscarded()
    ensures Closed(DraftSession(), 0).store == []
    ensures Closed(DraftSession(), 0).surface.layers == []
  {
    DraftSessionShape();
    InitialWf(true);
    LifecycleProps.ClickPreservesWf(Initial(true), Square, 5.0, 5.0, 1000, "1000");
    assert DiscardsOnClose(DraftSession(), 0);
    LifecycleProps.CloseRemovesDraft(DraftSession(), 0);
  }

  /** 19 trimmed characters: the press is refused and nothing is sent. */
  lemma NineteenRefused()
    ensures !SaveClick(Input(DraftSession(), 0, Text19), 0).Started?
  {
    DraftSessionShape();
    Text.TrimNoSpaceEnds(Text19);
    Length19();
  }

  /** 20 trimmed characters: the press starts exactly one request, carrying that text. */
  lemma TwentyStarts()
    ensures SaveClick(Input(DraftSession(), 0, Text20), 0).Started?
    ensures SaveClick(Input(DraftSession(), 0, Text20), 0).request == Request(Text20, 5.0, 5.0)
    ensures SaveClick(Input(DraftSession(), 0, Text20), 0).session.surface.layers[0].popup.pending == [Text20]
  {
    Text.TrimNoSpaceEnds(Text20);
    Length20();
    TypeAndPress(Text20);
  }

  /** 25 trimmed characters, above the threshold: the press sends that text and disables the button. */
  lemma TwentyFiveStarts()
    ensures SaveClick(Input(DraftSession(), 0, Text25), 0).Started?
    ensures SaveClick(Input(DraftSession(), 0, Text25), 0).request == Request(Text25, 5.0, 5.0)
    ensures SaveClick(Input(DraftSession(), 0, Text25), 0).session.surface.layers[0].popup
         == Editor(Text25, Button(true, SavingLabel), true, [Text25])
  {
    Text.TrimNoSpaceEnds(Text25);
    Length25();
    TypeAndPress(Text25);
  }

  /**
   * Typing a sendable text into the fresh draft, pressing Save and having
   * the request answered by a memory saves the draft in place: it keeps the
   * provisional id "1000" and takes the parsed `created_at` as its timestamp.
   */
  lemma TypePressSave(t: string, mem: Memory, parse: string -> int)
    requires Text.Trim(t) == t && LongEnough(t)
    requires Truthy(mem.createdAt)
    ensures var st := SaveClick(Input(DraftSession(), 0, t), 0);
      && st.Started?
      && SaveComplete(st.session, 0, 0, Some(mem), 2000, parse).store
         == [MarkerData("1000", 5.0, 5.0, t, parse(mem.createdAt.value), true)]
  {
    TypeAndPress(t);
    DraftSessionShape();
    var st := SaveClick(Input(DraftSession(), 0, t), 0);
    assert IndexOf(st.session.surface.layers, 0) == 0;
    assert HasPending(st.session, 0, 0);
    assert SaveComplete(st.session, 0, 0, Some(mem), 2000, parse).store
        == MarkSaved(DraftSession().store, "1000", t, parse(mem.createdAt.value));
  }

  /** Two remote memories load as exactly two saved, read-only markers in the same order. */
  lemma LoadScenario(parse: string -> int)
    ensures var a := Memory(Some("a"), "first memory", 1.0, 2.0, Some("t1"));
      var b := Memory(Some("b"), "second memory", 3.0, 4.0, None);
      var r := Load(Initial(true), [a, b], 99, "99", parse);
      && r.store == [MarkerData("a", 1.0, 2.0, "first memory", parse("t1"), true),
                     MarkerData("b", 3.0, 4.0, "second memory", 99, true)]
      && |r.surface.layers| == 2
      && r.surface.layers[0].popup == Viewer && r.surface.layers[1].popup == Viewer
  {
    var a := Memory(Some("a"), "first memory", 1.0, 2.0, Some("t1"));
    var b := Memory(Some("b"), "second memory", 3.0, 4.0, None);
    var r := Load(Initial(true), [a, b], 99, "99", parse);
    assert r.surface.layers[0 + 0] == Layer(0, r.store[0], PopupFor(r.store[0]));
    assert r.surface.layers[0 + 1] == Layer(1, r.store[1], PopupFor(r.store[1]));
  }

  /**
   * As written: with a save of `t` in flight, typing a long enough `u`
   * re-enables the button, and a second press sends a second request for the
   * same draft while the first is pending.
   */
  lemma SecondRequestInFlightAsWritten(t: string, u: string)
    requires Text.Trim(t) == t && LongEnough(t) && LongEnough(u)
    ensures var st := SaveClick(InputAsWritten(DraftSession(), 0, t), 0);
      && st.Started?
      && var st2 := SaveClick(InputAsWritten(st.session, 0, u), 0);
         && st2.Started?
         && st2.session.surface.layers[0].popup.pending == [t, Text.Trim(u)]
  {
    DraftSessionShape();
    assert InputAsWritten(DraftSession(), 0, t) == Input(DraftSession(), 0, t);
    TypeAndPress(t);
    var st := SaveClick(InputAsWritten(DraftSession(), 0, t), 0);
    LifecycleProps.InputAsWrittenReopensSave(st.session, 0, u);
    var s2 := InputAsWritten(st.session, 0, u);
    assert IndexOf(s2.surface.layers, 0) == 0;
    assert s2.surface.layers[0].popup.pending == [t];
  }

  /**
   * Corrected: after the first press, typing any text leaves the button
   * disabled, so the second press is ignored.
   */
  lemma SecondRequestBlocked(t: string, u: string)
    requires Text.Trim(t) == t && LongEnough(t)
    ensures var st := SaveClick(Input(DraftSession(), 0, t), 0);
      && st.Started?
      && SaveClick(Input(st.session, 0, u), 0) == Ignored
  {
    TypeAndPress(t);
    var st := SaveClick(Input(DraftSession(), 0, t), 0);
    LifecycleProps.InputKeepsSaveBlocked(st.session, 0, u);
  }

  /** As written: after a successful save, pressing the button again sends another request. */
  lemma ResaveAsWritten(mem: Memory, parse: string -> int)
    ensures var st := SaveClick(Input(DraftSession(), 0, Text20), 0);
      && st.Started?
      && SaveClick(SaveCompleteAsWritten(st.session, 0, 0, Some(mem), 2000, parse), 0).Started?
  {
    TwentyStarts();
    var st := SaveClick(Input(DraftSession(), 0, Text20), 0);
    LifecycleProps.SaveAsWrittenAllowsResave(st.session, 0, 0, mem, 2000, parse);
  }

  /** Corrected: after a successful save the marker takes no further save. */
  lemma ResaveBlocked(mem: Memory, parse: string -> int)
    ensures var st := SaveClick(Input(DraftSession(), 0, Text20), 0);
      && st.Started?
      && SaveClick(SaveComplete(st.session, 0, 0, Some(mem), 2000, parse), 0) == Ignored
  {
    TwentyStarts();
    DraftSessionShape();
    InitialWf(true);
    var d := MarkerData("1000", 5.0, 5.0, "", 1000, false);
    assert Wf(DraftSession()) by {
      LifecycleProps.ClickPreservesWf(Initial(true), Square, 5.0, 5.0, 1000, "1000");
    }
    var st := SaveClick(Input(DraftSession(), 0, Text20), 0);
    LifecycleProps.InputPreservesWf(DraftSession(), 0, Text20);
    LifecycleProps.SaveClickPreservesWf(Input(DraftSession(), 0, Text20), 0);
    LifecycleProps.SaveSucceeds(st.session, 0, 0, mem, 2000, parse);
  }

  /** A settlement with no press behind it changes nothing. */
  lemma SettleWithoutPressIgnored(mem: Memory, parse: string -> int)
    ensures SaveComplete(DraftSession(), 0, 0, Some(mem), 7, parse) == DraftSession()
  {
    DraftSessionShape();
  }

  /**
   * Ten U+1F600 characters pass the 20-unit threshold, as `.length` counts
   * them in JavaScript, and the press sends them.
   */
  lemma TenEmojiStarts()
    ensures LongEnough(TenEmoji)
    ensures SaveClick(Input(DraftSession(), 0, TenEmoji), 0).Started?
    ensures SaveClick(Input(DraftSession(), 0, TenEmoji), 0).request.comment == TenEmoji
  {
    DraftSessionShape();
    assert !Text.IsSpace(TenEmoji[0]) && !Text.IsSpace(TenEmoji[9]);
    Text.TrimNoSpaceEnds(TenEmoji);
    Text.Utf16LengthAllAstral(TenEmoji);
  }

  /**
   * As written: a load that settles after a click inside the fence replaces
   * the store, which drops the draft, while the draft's layer stays on the map.
   */
  lemma LoadAfterClickAsWritten(parse: string -> int)
    ensures LoadAsWritten(DraftSession(), [], 5, "5", parse).store == []
    ensures |LoadAsWritten(DraftSession(), [], 5, "5", parse).surface.layers| == 1
    ensures !Wf(LoadAsWritten(DraftSession(), [], 5, "5", parse))
  {
    DraftSessionShape();
  }

  /** Corrected: the same late load keeps the draft in the store and on the map. */
  lemma LoadAfterClickKeepsDraft(parse: string -> int)
    ensures Load(DraftSession(), [], 5, "5", parse) == DraftSession()
  {
    DraftSessionShape();
    assert DraftSession().store + [] == DraftSession().store;
  }
}
