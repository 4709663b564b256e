/**
 * The unvalidated in-memory store of eventos-api/server-memory.js: the same handlers as
 * the validated store, with only a title-and-date presence check on create, a "General"
 * category default, and no validation at all on update.
 */
module DraftStore {
  import opened Wrappers
  import opened Events

  /** The POST guard `!title || !dateTime`. */
  predicate Refused(b: Body) {
    Falsy(b.title) || Falsy(b.dateTime)
  }

  /** The record built from an accepted request: `category || "General"`, `description || ""`, `imgURL || ""`. */
  function NewDraftEvent(id: int, b: Body): Event
    requires !Refused(b)
  {
    Event(id, b.title.value, OrDefault(b.description, ""), OrDefault(b.imgURL, ""),
      b.dateTime.value, OrDefault(b.category, "General"))
  }

  /**
   * A created record echoes title and date, takes any supplied non-empty category as it is,
   * and defaults an absent or empty category to "General".
   */
  lemma NewDraftEventFields(id: int, b: Body)
    requires !Refused(b)
    ensures NewDraftEvent(id, b).id == id
    ensures Some(NewDraftEvent(id, b).title) == b.title && Some(NewDraftEvent(id, b).dateTime) == b.dateTime
    ensures NewDraftEvent(id, b).title != "" && NewDraftEvent(id, b).dateTime != ""
    ensures NewDraftEvent(id, b).category == (if Falsy(b.category) then "General" else b.category.value)
    ensures NewDraftEvent(id, b).description == (if b.description.Some? then b.description.value else "")
    ensures NewDraftEvent(id, b).imgURL == (if b.imgURL.Some? then b.imgURL.value else "")
  {
  }

  /** The two records `eventos` starts with. */
  const DraftSeed: seq<Event> := [
    Event(1, "GTA VI", "Release Date",
      "https://images.unsplash.com/photo-1542751371-adc38448a05e?w=400",
      "2026-03-05T17:30:00Z", "Gaming"),
    Event(2, "New Year 2026", "Celebration",
      "https://images.unsplash.com/photo-1467810563316-b5476525c0f9?w=400",
      "2026-01-01T00:00:00Z", "Holiday")]

  /** The seed ids 1 and 2 are distinct and below the initial counter 3. */
  lemma DraftSeedIds()
    ensures DistinctIds(DraftSeed) && IdsBelow(DraftSeed, 3)
  {
  }

  /** The module-level `eventos` array and `siguienteId` counter of server-memory.js. */
  class DraftEventStore {
    var events: seq<Event>
    var nextId: int
    /** Every id the store has ever handed out, including those of deleted records. */
    ghost var issued: set<int>

    ghost predicate Valid()
      reads this
    {
      DistinctIds(events) &&
      (forall e | e in events :: e.id in issued) &&
      (forall i :: i in issued ==> i < nextId)
    }

    constructor ()
      ensures Valid()
      ensures events == DraftSeed && nextId == 3
    {
      events := DraftSeed;
      nextId := 3;
      issued := {1, 2};
      DraftSeedIds();
    }

    /** GET /api/eventos/:id — `eventos.find((e) => e.id === id)`. */
    method Find(id: int) returns (r: Outcome)
      ensures r.Ok? <==> exists k :: 0 <= k < |events| && events[k].id == id
      ensures r.Ok? ==> r.event.id == id && r.event in events
      ensures r.Failed? ==> r.error == NotFound
      ensures IndexOf(events, id).None? ==> r == Failed(NotFound)
      ensures IndexOf(events, id).Some? ==> r == Ok(events[IndexOf(events, id).value])
    {
      var found := IndexOf(events, id);
      if found.None? {
        r := Failed(NotFound);
      } else {
        r := Ok(events[found.value]);
      }
    }

    /** POST /api/eventos */
    method Create(body: Body) returns (r: Outcome)
      requires Valid()
      modifies this
      ensures Valid()
      ensures Refused(body) ==>
        r == Failed(MissingTitleOrDateTime) &&
        events == old(events) && nextId == old(nextId) && issued == old(issued)
      ensures !Refused(body) ==>
        r == Ok(NewDraftEvent(old(nextId), body)) &&
        events == old(events) + [r.event] && nextId == old(nextId) + 1 &&
        r.event.id !in old(issued) && issued == old(issued) + {r.event.id}
    {
      if Refused(body) {
        r := Failed(MissingTitleOrDateTime);
        return;
      }
      var e := NewDraftEvent(nextId, body);
      assert IdsBelow(events, nextId) by {
        forall k | 0 <= k < |events| ensures events[k].id < nextId {
          assert events[k] in events;
        }
      }
      AppendFresh(events, nextId, e);
      issued := issued + {nextId};
      nextId := nextId + 1;
      events := events + [e];
      r := Ok(e);
    }

    /** PUT /api/eventos/:id — look up, then assign every supplied field, unchecked. */
    method Update(id: int, body: Body) returns (r: Outcome)
      requires Valid()
      modifies this
      ensures Valid()
      ensures nextId == old(nextId) && issued == old(issued)
      ensures IndexOf(old(events), id).None? ==> r == Failed(NotFound) && events == old(events)
      ensures IndexOf(old(events), id).Some? ==>
        var k := IndexOf(old(events), id).value;
        events == old(events)[k := Patch(old(events)[k], body)] && r == Ok(events[k])
    {
      var found := IndexOf(events, id);
      if found.None? {
        r := Failed(NotFound);
        return;
      }
      var k := found.value;
      var e := events[k];
      e := e.(title := body.title.GetOr(e.title));
      e := e.(description := body.description.GetOr(e.description));
      e := e.(category := body.category.GetOr(e.category));
      e := e.(imgURL := body.imgURL.GetOr(e.imgURL));
      e := e.(dateTime := body.dateTime.GetOr(e.dateTime));
      assert e == Patch(events[k], body);
      ReplaceSameId(events, k, e);
      events := events[k := e];
      r := Ok(e);
    }

    /** DELETE /api/eventos/:id — `eventos.splice(indice, 1)[0]`. */
    method Delete(id: int) returns (r: Outcome)
      requires Valid()
      modifies this
      ensures Valid()
      ensures nextId == old(nextId) && issued == old(issued)
      ensures IndexOf(old(events), id).None? ==> r == Failed(NotFound) && events == old(events)
      ensures IndexOf(old(events), id).Some? ==>
        var k := IndexOf(old(events), id).value;
        r == Ok(old(events)[k]) && events == old(events)[..k] + old(events)[k + 1..]
      ensures r.Ok? ==> IndexOf(events, id).None?
    {
      var found := IndexOf(events, id);
      if found.None? {
        r := Failed(NotFound);
        return;
      }
      var k := found.value;
      r := Ok(events[k]);
      RemoveAt(events, k);
      events := events[..k] + events[k + 1..];
    }
  }
}
