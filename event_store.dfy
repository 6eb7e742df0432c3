/**
 The event store: a map from a date key ("YYYY-MM-DD") to the ordered list of that day's events,
 loaded from and saved to a single persisted blob.
 */
module EventStore {
  import opened Wrappers
  import opened Json

  /**
   The in-memory map. Loading keeps an array whatever its elements are, so an entry is any parsed
   value; every entry the widget itself adds is a `JString`.
   */
  type Events = map<string, seq<Json>>

  /** A parsed value survives loading when it is an array, or a string from the legacy one-event format. */
  predicate Kept(v: Json)
  {
    v.JArray? || v.JString?
  }

  /** The list a kept value loads as: the array itself, or a legacy string wrapped in a one-element list. */
  function AsList(v: Json): seq<Json>
    requires Kept(v)
  {
    if v.JArray? then v.elems else [v]
  }

  /**
   What loading yields for a stored blob, seen through its parsed value; `None` stands for a blob
   that is absent, empty, or that `JSON.parse` rejects.
   */
  function Normalized(parsed: Option<Json>): Events
  {
    if parsed.None? then map[]
    else
      var e := Entries(parsed.value);
      map k | k in e && Kept(e[k]) :: AsList(e[k])
  }

  /** The map saving writes: every day whose list is non-empty, with that list. */
  function Pruned(events: Events): Events
  {
    map k | k in events && |events[k]| > 0 :: events[k]
  }

  /** The object `JSON.stringify` is given when saving, as `JSON.parse` would read it back. */
  function Serialized(cleaned: Events): Json
  {
    JObject(map k | k in cleaned :: JArray(cleaned[k]))
  }

  /**
   Loading the blob: walks the parsed value's keys like the `for…in` loop, keeping arrays as they
   are, wrapping strings, and dropping every other value.
   */
  method Load(parsed: Option<Json>) returns (events: Events)
    ensures parsed.None? ==> events == map[]
    ensures parsed.Some? ==> forall k :: k in Entries(parsed.value) && Entries(parsed.value)[k].JArray? ==>
              k in events && events[k] == Entries(parsed.value)[k].elems
    ensures parsed.Some? ==> forall k :: k in Entries(parsed.value) && Entries(parsed.value)[k].JString? ==>
              k in events && events[k] == [Entries(parsed.value)[k]]
    ensures parsed.Some? ==> forall k :: k in events ==> k in Entries(parsed.value) && Kept(Entries(parsed.value)[k])
    ensures events == Normalized(parsed)
  {
    events := map[];
    if parsed.Some? {
      var e := Entries(parsed.value);
      var todo := e.Keys;
      while todo != {}
        invariant todo <= e.Keys
        invariant forall k :: k in events <==> k in e && k !in todo && Kept(e[k])
        invariant forall k :: k in events ==> k in e && Kept(e[k]) && events[k] == AsList(e[k])
        decreases todo
      {
        var k :| k in todo;
        if e[k].JArray? {
          events := events[k := e[k].elems];
        } else if e[k].JString? {
          events := events[k := [e[k]]];
        }
        todo := todo - {k};
      }
    }
  }

  /** The clean-up before saving: copies every day whose list is non-empty, like the `for…in` filter. */
  method Prune(events: Events) returns (cleaned: Events)
    ensures forall k :: k in cleaned <==> k in events && |events[k]| > 0
    ensures forall k :: k in cleaned ==> cleaned[k] == events[k]
    ensures cleaned == Pruned(events)
  {
    cleaned := map[];
    var todo := events.Keys;
    while todo != {}
      invariant todo <= events.Keys
      invariant forall k :: k in cleaned <==> k in events && k !in todo && |events[k]| > 0
      invariant forall k :: k in cleaned ==> cleaned[k] == events[k]
      decreases todo
    {
      var k :| k in todo;
      if |events[k]| > 0 {
        cleaned := cleaned[k := events[k]];
      }
      todo := todo - {k};
    }
  }

  /** Reading back what was saved gives exactly the saved map: every non-empty day, in order. */
  lemma SaveLoadRoundTrip(events: Events)
    ensures Normalized(Some(Serialized(Pruned(events)))) == Pruned(events)
  {
    var p := Pruned(events);
    var r := Normalized(Some(Serialized(p)));
    assert forall k :: k in r <==> k in p;
  }

  /** Pruning a saved map changes nothing: a saved blob never holds an empty list. */
  lemma PrunedIdempotent(events: Events)
    ensures Pruned(Pruned(events)) == Pruned(events)
    ensures forall k :: k in Pruned(events) ==> |Pruned(events)[k]| > 0
  {
  }

  /** A legacy blob `{"2025-04-05": "Meeting"}` loads as `{"2025-04-05": ["Meeting"]}`. */
  lemma LoadLegacyString()
    ensures Normalized(Some(JObject(map["2025-04-05" := JString("Meeting")])))
         == map["2025-04-05" := [JString("Meeting")]]
  {
  }

  /** The list `splice(index, 1)` leaves: the element at `index` removed, the others in order. */
  function RemoveAt(s: seq<Json>, index: nat): (r: seq<Json>)
    requires index < |s|
    ensures |r| == |s| - 1
    ensures forall j :: 0 <= j < index ==> r[j] == s[j]
    ensures forall j :: index <= j < |r| ==> r[j] == s[j + 1]
    ensures multiset(r) + multiset{s[index]} == multiset(s)
  {
    assert s == s[..index] + [s[index]] + s[index + 1..];
    s[..index] + s[index + 1..]
  }

  /** The day's list with `entry` pushed at its end, an absent day counting as an empty list. */
  function Appended(events: Events, key: string, entry: Json): (r: Events)
    ensures r.Keys == events.Keys + {key}
    ensures r[key] == (if key in events then events[key] else []) + [entry]
    ensures forall k :: k in events && k != key ==> r[k] == events[k]
  {
    events[key := (if key in events then events[key] else []) + [entry]]
  }

  /**
   Deleting the event at `index` of day `key`: nothing happens when the day is absent or the index
   is past its end; otherwise that one event goes, and the day goes with it when it was the last.
   */
  function DeleteAt(events: Events, key: string, index: nat): (r: Events)
    ensures key !in events || |events[key]| <= index ==> r == events
    ensures forall k :: k != key ==> (k in r <==> k in events)
    ensures forall k :: k in r && k != key ==> r[k] == events[k]
    ensures key in events && index < |events[key]| ==>
              (key in r <==> |events[key]| > 1) &&
              (key in r ==> r[key] == RemoveAt(events[key], index))
  {
    if key !in events || |events[key]| <= index then events
    else
      var rest := RemoveAt(events[key], index);
      if |rest| == 0 then events - {key} else events[key := rest]
  }

}
