/**
 * The marker store: the ordered list of marker records the map renders,
 * and the remote memory records it is seeded from.
 */
module MarkerStore {
  import opened Wrappers
  import Seqs

  /**
   * A marker record. `saved` is the draft/persisted discriminant
   * (`saved === true` in the source; an absent flag reads as a draft).
   */
  datatype MarkerData = MarkerData(
    id: string,
    lat: real,
    lng: real,
    comment: string,
    timestamp: int,
    saved: bool)

  /** A remote memory record; only the fields the map reads. */
  datatype Memory = Memory(
    id: Option<string>,
    comment: string,
    lat: real,
    lng: real,
    createdAt: Option<string>)

  /** JavaScript truthiness of an optional string: both absence and "" are falsy. */
  predicate Truthy(o: Option<string>)
  {
    o.Some? && o.value != ""
  }

  /** `created_at ? new Date(created_at).getTime() : Date.now()`, the date parser given as `parse`. */
  function StampOf(createdAt: Option<string>, now: int, parse: string -> int): int
  {
    if Truthy(createdAt) then parse(createdAt.value) else now
  }

  function Ids(store: seq<MarkerData>): (ids: seq<string>)
    ensures |ids| == |store|
    ensures forall i :: 0 <= i < |store| ==> ids[i] == store[i].id
  {
    seq(|store|, i requires 0 <= i < |store| => store[i].id)
  }

  predicate UniqueIds(store: seq<MarkerData>)
  {
    forall i, j :: 0 <= i < j < |store| ==> store[i].id != store[j].id
  }

  /** Whether some record of the store carries `id`. */
  predicate HasId(store: seq<MarkerData>, id: string)
  {
    exists i :: 0 <= i < |store| && store[i].id == id
  }

  /**
   * `markers.filter(m => m.id !== markerId)`: every record with that id goes,
   * every other record stays.
   */
  function Discard(store: seq<MarkerData>, id: string): (r: seq<MarkerData>)
    ensures |r| <= |store|
    ensures forall m :: m in r <==> m in store && m.id != id
    ensures !HasId(r, id)
  {
    var keep := (m: MarkerData) => m.id != id;
    Seqs.FilterMembers(store, keep);
    Seqs.Filter(store, keep)
  }

  /** Discarding an id no record carries leaves the store as it is. */
  lemma DiscardAbsent(store: seq<MarkerData>, id: string)
    requires !HasId(store, id)
    ensures Discard(store, id) == store
  {
    Seqs.FilterAllKept(store, (m: MarkerData) => m.id != id);
  }

  /** Discarding distributes over concatenation: the survivors keep their order. */
  lemma DiscardConcat(a: seq<MarkerData>, b: seq<MarkerData>, id: string)
    ensures Discard(a + b, id) == Discard(a, id) + Discard(b, id)
  {
    Seqs.FilterConcat(a, b, (m: MarkerData) => m.id != id);
  }

  /** With unique ids, discarding the id of record `k` deletes exactly position `k`. */
  lemma DiscardUnique(store: seq<MarkerData>, k: nat)
    requires UniqueIds(store) && k < |store|
    ensures Discard(store, store[k].id) == store[..k] + store[k + 1..]
    ensures |Discard(store, store[k].id)| == |store| - 1
  {
    Seqs.FilterRemovesOne(store, k, (m: MarkerData) => m.id != store[k].id);
  }

  /** Deleting one position keeps the remaining ids distinct. */
  lemma UniqueAfterDelete(store: seq<MarkerData>, k: nat)
    requires UniqueIds(store) && k < |store|
    ensures UniqueIds(store[..k] + store[k + 1..])
  {
    var r := store[..k] + store[k + 1..];
    forall i, j | 0 <= i < j < |r|
      ensures r[i].id != r[j].id
    {
      var i' := if i < k then i else i + 1;
      var j' := if j < k then j else j + 1;
      assert r[i] == store[i'] && r[j] == store[j'];
    }
  }

  /** The record after a successful save: new comment and timestamp, marked saved, same id. */
  function SavedRecord(m: MarkerData, comment: string, stamp: int): MarkerData
  {
    m.(comment := comment, timestamp := stamp, saved := true)
  }

  /**
   * `markers.map(m => m.id === id ? {...m, comment, timestamp, saved: true} : m)`:
   * the records with `id` are saved in place, all others are untouched, and
   * length, order and ids are kept.
   */
  function MarkSaved(store: seq<MarkerData>, id: string, comment: string, stamp: int): (r: seq<MarkerData>)
    ensures |r| == |store|
    ensures Ids(r) == Ids(store)
    ensures forall i :: 0 <= i < |store| && store[i].id != id ==> r[i] == store[i]
    ensures forall i :: 0 <= i < |store| && store[i].id == id ==> r[i] == SavedRecord(store[i], comment, stamp)
  {
    if |store| == 0 then []
    else
      var head := if store[0].id == id then SavedRecord(store[0], comment, stamp) else store[0];
      [head] + MarkSaved(store[1..], id, comment, stamp)
  }

  /** Saving the same record twice with the same data is the same as saving it once. */
  lemma MarkSavedIdempotent(store: seq<MarkerData>, id: string, comment: string, stamp: int)
    ensures MarkSaved(MarkSaved(store, id, comment, stamp), id, comment, stamp)
         == MarkSaved(store, id, comment, stamp)
  {
  }

  /** Saving an id no record carries leaves the store as it is. */
  lemma MarkSavedAbsent(store: seq<MarkerData>, id: string, comment: string, stamp: int)
    requires !HasId(store, id)
    ensures MarkSaved(store, id, comment, stamp) == store
  {
  }

  /** One remote memory as a marker record, with the `||` and `?:` fallbacks of the source. */
  function ToMarker(mem: Memory, now: int, nowId: string, parse: string -> int): MarkerData
  {
    MarkerData(
      if Truthy(mem.id) then mem.id.value else nowId,
      mem.lat, mem.lng, mem.comment,
      StampOf(mem.createdAt, now, parse),
      true)
  }

  /**
   * The mapping step of the load: one saved record per memory, in the same
   * order, copying position and comment; the id falls back to `nowId` when
   * the memory's id is absent or empty, the timestamp to `now` when
   * `created_at` is absent or empty.
   */
  function FromMemories(mems: seq<Memory>, now: int, nowId: string, parse: string -> int): (r: seq<MarkerData>)
    ensures |r| == |mems|
    ensures forall i :: 0 <= i < |mems| ==>
      && r[i].saved
      && r[i].lat == mems[i].lat && r[i].lng == mems[i].lng
      && r[i].comment == mems[i].comment
      && (Truthy(mems[i].id) ==> r[i].id == mems[i].id.value)
      && (!Truthy(mems[i].id) ==> r[i].id == nowId)
      && (Truthy(mems[i].createdAt) ==> r[i].timestamp == parse(mems[i].createdAt.value))
      && (!Truthy(mems[i].createdAt) ==> r[i].timestamp == now)
  {
    if |mems| == 0 then []
    else [ToMarker(mems[0], now, nowId, parse)] + FromMemories(mems[1..], now, nowId, parse)
  }
}
