/**
 * The validated in-memory store of eventos-api/server.js: the category whitelist,
 * the create / update / delete / find-by-id handlers over the `eventos` array and
 * the `siguienteId` counter.
 */
module ValidatedStore {
  import opened Wrappers
  import opened Events
  import opened IsoFormat

  /** `CATEGORIAS_PERMITIDAS`, in the source's order. */
  const AllowedCategories: seq<string> :=
    ["tecnologia", "ciberseguridad", "ia", "conferencias", "anime", "deportes", "musica", "educacion"]

  /** `validarCategoria(c)`: the whitelist includes `c` (exact string equality). */
  predicate ValidCategory(c: string) {
    c in AllowedCategories
  }

  /** The whitelist test is exact and case-sensitive: it holds of these eight strings and no other. */
  lemma ValidCategoryExactly(c: string)
    ensures ValidCategory(c) <==>
      c == "tecnologia" || c == "ciberseguridad" || c == "ia" || c == "conferencias" ||
      c == "anime" || c == "deportes" || c == "musica" || c == "educacion"
  {
  }

  /** Capitalised, accented or foreign tags are refused, including the draft store's ones. */
  lemma CategoryExamples()
    ensures !ValidCategory("Tecnologia") && !ValidCategory("Tecnología") && !ValidCategory("")
    ensures !ValidCategory("Gaming") && !ValidCategory("Holiday") && !ValidCategory("General")
  {
  }

  /** What the store promises of every record at rest: a valid date and a whitelisted category. */
  predicate AtRest(s: seq<Event>) {
    forall e | e in s :: RecordAtRest(e)
  }

  predicate RecordAtRest(e: Event) {
    ValidDateTime(e.dateTime) && ValidCategory(e.category)
  }

  /**
   * The validation chain of the POST handler, in its order: the first failing test
   * names the error, `None` means the request is accepted.
   */
  function CreateCheck(b: Body): Option<Error> {
    if Falsy(b.title) then Some(MissingTitle)
    else if Falsy(b.dateTime) then Some(MissingDateTime)
    else if !ValidDateTime(b.dateTime.value) then Some(BadDateTime)
    else if Falsy(b.category) then Some(MissingCategory)
    else if !ValidCategory(b.category.value) then Some(BadCategory)
    else None
  }

  /** Each error is answered exactly when its test fails and every earlier test passed. */
  lemma CreateErrorOrder(b: Body)
    ensures CreateCheck(b) == Some(MissingTitle) <==> Falsy(b.title)
    ensures CreateCheck(b) == Some(MissingDateTime) <==> !Falsy(b.title) && Falsy(b.dateTime)
    ensures CreateCheck(b) == Some(BadDateTime) <==>
      !Falsy(b.title) && !Falsy(b.dateTime) && !ValidDateTime(b.dateTime.value)
    ensures CreateCheck(b) == Some(MissingCategory) <==>
      !Falsy(b.title) && b.dateTime.Some? && ValidDateTime(b.dateTime.value) && Falsy(b.category)
    ensures CreateCheck(b) == Some(BadCategory) <==>
      !Falsy(b.title) && b.dateTime.Some? && ValidDateTime(b.dateTime.value) &&
      !Falsy(b.category) && !ValidCategory(b.category.value)
    ensures CreateCheck(b) != Some(NotFound) && CreateCheck(b) != Some(MissingTitleOrDateTime)
  {
  }

  /** A request is accepted exactly when it has a title, a valid date and a whitelisted category. */
  lemma CreateAccepts(b: Body)
    ensures CreateCheck(b).None? <==>
      b.title.Some? && b.title.value != "" &&
      b.dateTime.Some? && ValidDateTime(b.dateTime.value) &&
      b.category.Some? && ValidCategory(b.category.value)
  {
    if b.dateTime.Some? && ValidDateTime(b.dateTime.value) {
      AcceptedShape(b.dateTime.value);
    }
  }

  /** Month 13 is refused as a malformed date. */
  lemma CreateRefusesMonth13(title: string, category: string)
    requires title != ""
    ensures CreateCheck(Body(Some(title), None, None, Some("2025-13-01T00:00:00Z"), Some(category)))
      == Some(BadDateTime)
  {
    Month13Refused();
  }

  /** The record built from an accepted request: `description || ""` and `imgURL || ""`. */
  function NewEvent(id: int, b: Body): (e: Event)
    requires CreateCheck(b).None?
  {
    Event(id, b.title.value, OrDefault(b.description, ""), OrDefault(b.imgURL, ""),
      b.dateTime.value, b.category.value)
  }

  /** A created record echoes title, date and category and defaults the optional fields to "". */
  lemma NewEventFields(id: int, b: Body)
    requires CreateCheck(b).None?
    ensures NewEvent(id, b).id == id
    ensures Some(NewEvent(id, b).title) == b.title && NewEvent(id, b).title != ""
    ensures Some(NewEvent(id, b).dateTime) == b.dateTime && Some(NewEvent(id, b).category) == b.category
    ensures NewEvent(id, b).description == (if b.description.Some? then b.description.value else "")
    ensures NewEvent(id, b).imgURL == (if b.imgURL.Some? then b.imgURL.value else "")
    ensures AtRest([NewEvent(id, b)])
  {
  }

  /** The validation of the PUT handler: only supplied date and category are checked, in this order. */
  function UpdateCheck(b: Body): Option<Error> {
    if b.dateTime.Some? && !ValidDateTime(b.dateTime.value) then Some(BadDateTime)
    else if b.category.Some? && !ValidCategory(b.category.value) then Some(BadCategory)
    else None
  }

  /** A patch that passes the update check keeps a record at rest, whatever title it writes. */
  lemma PatchKeepsAtRest(s: seq<Event>, k: nat, b: Body)
    requires AtRest(s) && k < |s| && UpdateCheck(b).None?
    ensures AtRest(s[k := Patch(s[k], b)])
  {
    var t := s[k := Patch(s[k], b)];
    forall e | e in t ensures RecordAtRest(e) {
      var j :| 0 <= j < |t| && t[j] == e;
      if j == k {
        assert s[k] in s;
        PatchRecordAtRest(s[k], b);
      } else {
        assert t[j] == s[j] && s[j] in s;
      }
    }
  }

  /** The same fact for one record. */
  lemma PatchRecordAtRest(e: Event, b: Body)
    requires RecordAtRest(e) && UpdateCheck(b).None?
    ensures RecordAtRest(Patch(e, b))
  {
    PatchChangesOnlySupplied(e, b);
  }

  /** An empty title passes the update check: the title is not re-checked on update. */
  lemma UpdateAllowsEmptyTitle()
    ensures UpdateCheck(Body(Some(""), None, None, None, None)).None?
  {
  }

  /** The five records `eventos` starts with. */
  const Seed: seq<Event> := [
    Event(1, "Conferencia Node.js", "Aprende lo último en Node.js",
      "https://plus.unsplash.com/premium_photo-1661877737564-3dfd7282efcb",
      "2025-12-16T10:00:00Z", "conferencias"),
    Event(2, "Workshop Express", "Crea APIs REST con Express",
      "https://images.unsplash.com/photo-1623652554515-91c833e3080e",
      "2025-12-20T14:30:00Z", "tecnologia"),
    Event(3, "Seminario de Ciberseguridad", "Protege tus aplicaciones web",
      "https://images.unsplash.com/photo-1510915228340-29c85a43dcfe?",
      "2025-10-25T09:00:00Z", "ciberseguridad"),
    Event(4, "Introducción a la Inteligencia Artificial", "Conceptos básicos y aplicaciones prácticas",
      "https://images.unsplash.com/photo-1504384308090-c894fdcc538d",
      "2025-12-30T11:00:00Z", "ia"),
    Event(5, "Conferencia de Innovación Tecnológica",
      "Explora las últimas tendencias en tecnología e innovación.",
      "https://images.unsplash.com/photo-1531058020387-3be344556be6",
      "2025-11-05T15:00:00Z", "conferencias")]

  /**
   * The seed records are valid at rest: each passes both validators of the POST handler.
   * Every seed date is a whole-second UTC time of 2025, so one lemma about that form covers them.
   */
  lemma SeedAtRest()
    ensures forall i | 0 <= i < |Seed| :: RecordAtRest(Seed[i])
    ensures AtRest(Seed)
  {
    forall i | 0 <= i < |Seed| ensures RecordAtRest(Seed[i]) {
      assert i == 0 || i == 1 || i == 2 || i == 3 || i == 4;
      if i == 0 { WholeSecondValid('2', '0', '2', '5', '1', '2', '1', '6', '1', '0', '0', '0', '0', '0'); }
      else if i == 1 { WholeSecondValid('2', '0', '2', '5', '1', '2', '2', '0', '1', '4', '3', '0', '0', '0'); }
      else if i == 2 { WholeSecondValid('2', '0', '2', '5', '1', '0', '2', '5', '0', '9', '0', '0', '0', '0'); }
      else if i == 3 { WholeSecondValid('2', '0', '2', '5', '1', '2', '3', '0', '1', '1', '0', '0', '0', '0'); }
      else { WholeSecondValid('2', '0', '2', '5', '1', '1', '0', '5', '1', '5', '0', '0', '0', '0'); }
    }
  }

  /** The seed ids 1 to 5 are distinct and below the initial counter 6. */
  lemma SeedIds()
    ensures DistinctIds(Seed) && IdsBelow(Seed, 6)
  {
  }

  /** The module-level `eventos` array and `siguienteId` counter of server.js. */
  class EventStore {
    var events: seq<Event>
    var nextId: int
    /** Every id the store has ever handed out, including those of deleted records. */
    ghost var issued: set<int>

    ghost predicate Valid()
      reads this
    {
      DistinctIds(events) &&
      (forall e | e in events :: e.id in issued) &&
      (forall i :: i in issued ==> i < nextId) &&
      AtRest(events)
    }

    constructor ()
      ensures Valid()
      ensures events == Seed && nextId == 6
    {
      events := Seed;
      nextId := 6;
      issued := {1, 2, 3, 4, 5};
      SeedIds();
      SeedAtRest();
    }

    /** GET /api/eventos/:id — `eventos.find((e) => e.id === id)`. */
    method Find(id: int) returns (r: Outcome)
      ensures r.Ok? <==> exists k :: 0 <= k < |events| && events[k].id == id
      ensures r.Ok? ==> r.event.id == id && r.event in events
      ensures r.Failed? ==> r.error == NotFound
      ensures IndexOf(events, id).None? ==> r == Failed(NotFound)
      ensures IndexOf(events, id).Some? ==> r == Ok(events[IndexOf(events, id).value])
    {
      var found := IndexOf(events, id);
      if found.None? {
        r := Failed(NotFound);
      } else {
        r := Ok(events[found.value]);
      }
    }

    /** POST /api/eventos */
    method Create(body: Body) returns (r: Outcome)
      requires Valid()
      modifies this
      ensures Valid()
      ensures CreateCheck(body).Some? ==>
        r == Failed(CreateCheck(body).value) &&
        events == old(events) && nextId == old(nextId) && issued == old(issued)
      ensures CreateCheck(body).None? ==>
        r == Ok(NewEvent(old(nextId), body)) &&
        events == old(events) + [r.event] && nextId == old(nextId) + 1 &&
        r.event.id !in old(issued) && issued == old(issued) + {r.event.id}
    {
      var err := CreateCheck(body);
      if err.Some? {
        r := Failed(err.value);
        return;
      }
      var e := NewEvent(nextId, body);
      NewEventFields(nextId, body);
      assert IdsBelow(events, nextId) by {
        forall k | 0 <= k < |events| ensures events[k].id < nextId {
          assert events[k] in events;
        }
      }
      AppendFresh(events, nextId, e);
      issued := issued + {nextId};
      nextId := nextId + 1;
      events := events + [e];
      r := Ok(e);
    }

    /** PUT /api/eventos/:id — look up, validate the supplied fields, then assign them one by one. */
    method Update(id: int, body: Body) returns (r: Outcome)
      requires Valid()
      modifies this
      ensures Valid()
      ensures nextId == old(nextId) && issued == old(issued)
      ensures IndexOf(old(events), id).None? ==> r == Failed(NotFound) && events == old(events)
      ensures IndexOf(old(events), id).Some? && UpdateCheck(body).Some? ==>
        r == Failed(UpdateCheck(body).value) && events == old(events)
      ensures IndexOf(old(events), id).Some? && UpdateCheck(body).None? ==>
        var k := IndexOf(old(events), id).value;
        events == old(events)[k := Patch(old(events)[k], body)] && r == Ok(events[k])
    {
      var found := IndexOf(events, id);
      if found.None? {
        r := Failed(NotFound);
        return;
      }
      var err := UpdateCheck(body);
      if err.Some? {
        r := Failed(err.value);
        return;
      }
      var k := found.value;
      var e := events[k];
      e := e.(title := body.title.GetOr(e.title));
      e := e.(description := body.description.GetOr(e.description));
      e := e.(imgURL := body.imgURL.GetOr(e.imgURL));
      e := e.(dateTime := body.dateTime.GetOr(e.dateTime));
      e := e.(category := body.category.GetOr(e.category));
      assert e == Patch(events[k], body);
      PatchKeepsAtRest(events, k, body);
      ReplaceSameId(events, k, e);
      events := events[k := e];
      r := Ok(e);
    }

    /** DELETE /api/eventos/:id — `eventos.splice(indice, 1)[0]`. */
    method Delete(id: int) returns (r: Outcome)
      requires Valid()
      modifies this
      ensures Valid()
      ensures nextId == old(nextId) && issued == old(issued)
      ensures IndexOf(old(events), id).None? ==> r == Failed(NotFound) && events == old(events)
      ensures IndexOf(old(events), id).Some? ==>
        var k := IndexOf(old(events), id).value;
        r == Ok(old(events)[k]) && events == old(events)[..k] + old(events)[k + 1..]
      ensures r.Ok? ==> IndexOf(events, id).None?
    {
      var found := IndexOf(events, id);
      if found.None? {
        r := Failed(NotFound);
        return;
      }
      var k := found.value;
      r := Ok(events[k]);
      RemoveAt(events, k);
      events := events[..k] + events[k + 1..];
    }
  }
}
