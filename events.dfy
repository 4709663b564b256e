/**
 * What the two in-memory stores (eventos-api/server.js and eventos-api/server-memory.js)
 * have in common: the event record, the JSON request body, the outcome of a handler,
 * partial update of a record, and lookup by id.
 */
module Events {
  import opened Wrappers

  /** One event record as the stores keep it in their `eventos` array. */
  datatype Event = Event(
    id: int,
    title: string,
    description: string,
    imgURL: string,
    dateTime: string,
    category: string)

  /** A request body: each field is either absent (`undefined`) or a string. */
  datatype Body = Body(
    title: Option<string>,
    description: Option<string>,
    imgURL: Option<string>,
    dateTime: Option<string>,
    category: Option<string>)

  /** Why a handler refused a request (the HTTP 400 and 404 answers of the source). */
  datatype Error =
    | NotFound                // "Evento no encontrado"
    | MissingTitle            // "El título es obligatorio"
    | MissingDateTime         // "La fecha y hora son obligatorias"
    | BadDateTime             // "Formato de fecha inválido ..."
    | MissingCategory         // "La categoría es obligatoria"
    | BadCategory             // "Categoría no válida"
    | MissingTitleOrDateTime  // "El título y la fecha/hora son obligatorios"

  /** What a handler answers: the record it found, created, updated or deleted, or an error. */
  datatype Outcome = Ok(event: Event) | Failed(error: Error)

  /** JavaScript truthiness of a string field: `undefined` and `""` are falsy. */
  predicate Falsy(f: Option<string>) {
    f == None || f == Some("")
  }

  /** `f || d` on a string field. */
  function OrDefault(f: Option<string>, d: string): string {
    if Falsy(f) then d else f.value
  }

  /**
   * The record after `if (f !== undefined) record.f = f` for each field `f` of the body:
   * a supplied field (even `""`) overwrites, an absent one leaves the record as it was.
   */
  function Patch(e: Event, b: Body): Event {
    e.(title := b.title.GetOr(e.title),
       description := b.description.GetOr(e.description),
       imgURL := b.imgURL.GetOr(e.imgURL),
       dateTime := b.dateTime.GetOr(e.dateTime),
       category := b.category.GetOr(e.category))
  }

  /** A patch never touches the id, writes every supplied field and keeps every absent one. */
  lemma PatchChangesOnlySupplied(e: Event, b: Body)
    ensures Patch(e, b).id == e.id
    ensures Patch(e, b).title == (if b.title.Some? then b.title.value else e.title)
    ensures Patch(e, b).description == (if b.description.Some? then b.description.value else e.description)
    ensures Patch(e, b).imgURL == (if b.imgURL.Some? then b.imgURL.value else e.imgURL)
    ensures Patch(e, b).dateTime == (if b.dateTime.Some? then b.dateTime.value else e.dateTime)
    ensures Patch(e, b).category == (if b.category.Some? then b.category.value else e.category)
  {
  }

  /** Sending the same partial update twice has the effect of sending it once. */
  lemma PatchIdempotent(e: Event, b: Body)
    ensures Patch(Patch(e, b), b) == Patch(e, b)
  {
  }

  /** A body with no fields changes nothing. */
  lemma PatchEmpty(e: Event)
    ensures Patch(e, Body(None, None, None, None, None)) == e
  {
  }

  /**
   * `findIndex((e) => e.id === id)`: the first position holding `id`, or `None` for -1.
   */
  function IndexOf(s: seq<Event>, id: int): (r: Option<nat>)
    ensures r.Some? ==> r.value < |s| && s[r.value].id == id
    ensures r.Some? ==> forall k :: 0 <= k < r.value ==> s[k].id != id
    ensures r.None? <==> forall k :: 0 <= k < |s| ==> s[k].id != id
  {
    if s == [] then None
    else if s[0].id == id then Some(0)
    else
      match IndexOf(s[1..], id)
      case None => None
      case Some(k) => Some(k + 1)
  }

  /** No two records share an id. */
  predicate DistinctIds(s: seq<Event>) {
    forall j, k :: 0 <= j < k < |s| ==> s[j].id != s[k].id
  }

  /** Every record's id is below `bound`. */
  predicate IdsBelow(s: seq<Event>, bound: int) {
    forall k :: 0 <= k < |s| ==> s[k].id < bound
  }

  /** Appending a record whose id is the counter keeps ids distinct and below the bumped counter. */
  lemma AppendFresh(s: seq<Event>, bound: int, e: Event)
    requires DistinctIds(s) && IdsBelow(s, bound) && e.id == bound
    ensures DistinctIds(s + [e]) && IdsBelow(s + [e], bound + 1)
  {
  }

  /** Removing the record at `k` (`splice(k, 1)`) keeps ids distinct, and that id is gone. */
  lemma RemoveAt(s: seq<Event>, k: nat)
    requires DistinctIds(s) && k < |s|
    ensures DistinctIds(s[..k] + s[k + 1..])
    ensures IndexOf(s[..k] + s[k + 1..], s[k].id).None?
  {
    var t := s[..k] + s[k + 1..];
    forall j | 0 <= j < |t| ensures t[j].id != s[k].id {
      if j < k { assert t[j] == s[j]; } else { assert t[j] == s[j + 1]; }
    }
  }

  /** Overwriting one record with one of the same id keeps ids distinct. */
  lemma ReplaceSameId(s: seq<Event>, k: nat, e: Event)
    requires DistinctIds(s) && k < |s| && e.id == s[k].id
    ensures DistinctIds(s[k := e])
  {
  }
}
