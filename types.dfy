/**
 * The records of the greetings store: greetings (story beats linked to
 * predecessor and successor beats), the characters and cards they refer to,
 * the partial-update payloads that are shallow-merged over them, and the
 * parsed shape of an import document.
 */
module Types {

  datatype Option<+T> = None | Some(value: T) {
    function GetOr(default: T): T {
      match this
      case Some(v) => v
      case None => default
    }
  }

  /** Identifiers are UUID strings; imported documents may hold any string. */
  type Id = string

  /** A JSON value, for the caller-defined fields a record carries beyond the known ones. */
  datatype Json =
    | JNull
    | JBool(b: bool)
    | JNum(n: int)
    | JStr(s: string)
    | JArr(items: seq<Json>)
    | JObj(members: map<string, Json>)

  /**
   * A greeting. `extras` holds the fields a caller spread into the record
   * beyond the eight known ones (its keys are other names than those eight).
   * `card` is None for a null (or absent) card reference.
   */
  datatype Greeting = Greeting(
    id: Id,
    name: string,
    canon: bool,
    au: bool,
    card: Option<Id>,
    characters: seq<Id>,
    predecessors: seq<Id>,
    successors: seq<Id>,
    extras: map<string, Json>)

  /** A partial greeting: None is a key the payload does not have. */
  datatype GreetingPatch = GreetingPatch(
    id: Option<Id>,
    name: Option<string>,
    canon: Option<bool>,
    au: Option<bool>,
    card: Option<Option<Id>>,
    characters: Option<seq<Id>>,
    predecessors: Option<seq<Id>>,
    successors: Option<seq<Id>>,
    extras: map<string, Json>)

  datatype Character = Character(id: Id, name: string)

  datatype Card = Card(id: Id, name: string, url: string, extras: map<string, Json>)

  datatype CardPatch = CardPatch(
    id: Option<Id>,
    name: Option<string>,
    url: Option<string>,
    extras: map<string, Json>)

  /** `{ ...g, ...u }`: every key the patch has replaces the record's. */
  function Merge(g: Greeting, u: GreetingPatch): (r: Greeting)
    ensures u.successors.None? ==> r.successors == g.successors
    ensures u.predecessors.None? ==> r.predecessors == g.predecessors
    ensures u.id.None? ==> r.id == g.id
    ensures r.extras.Keys == g.extras.Keys + u.extras.Keys
  {
    Greeting(
      u.id.GetOr(g.id),
      u.name.GetOr(g.name),
      u.canon.GetOr(g.canon),
      u.au.GetOr(g.au),
      u.card.GetOr(g.card),
      u.characters.GetOr(g.characters),
      u.predecessors.GetOr(g.predecessors),
      u.successors.GetOr(g.successors),
      g.extras + u.extras)
  }

  function MergeCard(c: Card, u: CardPatch): (r: Card)
    ensures u.id.None? ==> r.id == c.id
    ensures r.extras.Keys == c.extras.Keys + u.extras.Keys
  {
    Card(u.id.GetOr(c.id), u.name.GetOr(c.name), u.url.GetOr(c.url), c.extras + u.extras)
  }

  /** The defaults addGreeting writes before spreading the caller's payload over them. */
  function DefaultGreeting(minted: Id): Greeting {
    Greeting(minted, "Untitled", false, false, None, [], [], [], map[])
  }

  /**
   * The record addGreeting builds: the defaults with the caller's payload spread
   * last, so every key the payload has wins, the id included.
   */
  function NewGreeting(payload: GreetingPatch, minted: Id): (r: Greeting)
    ensures r.id == (if payload.id.Some? then payload.id.value else minted)
    ensures payload.name.None? ==> r.name == "Untitled"
    ensures payload.successors.None? ==> r.successors == []
    ensures payload.predecessors.None? ==> r.predecessors == []
    ensures r.extras == payload.extras
  {
    Merge(DefaultGreeting(minted), payload)
  }

  /** The minted id matters only as the id default: rebuilding with the record's own id gives the same record. */
  lemma NewGreetingOwnId(payload: GreetingPatch, minted: Id)
    ensures NewGreeting(payload, NewGreeting(payload, minted).id) == NewGreeting(payload, minted)
  {
  }

  /**
   * A greeting record as it stands in an import document. The shapes the
   * reconciler accepts always carry `successors`; `predecessors` may be
   * missing (None); a `card` that is null, missing or not a string is None;
   * an absent `characters` list is the empty list, as the legacy shape reads
   * it (the other shapes would store the record without the field).
   */
  datatype RawGreeting = RawGreeting(
    id: Id,
    name: string,
    canon: bool,
    au: bool,
    card: Option<string>,
    characters: seq<string>,
    predecessors: Option<seq<Id>>,
    successors: seq<Id>,
    extras: map<string, Json>)

  /**
   * A parsed import document. For an object, a member is None when it is
   * missing or falsy and Some when it is an array (an empty array is truthy).
   */
  datatype Document =
    | ObjectDoc(characters: Option<seq<Character>>, cards: Option<seq<Card>>, greetings: Option<seq<RawGreeting>>)
    | ArrayDoc(items: seq<RawGreeting>)
    | ScalarDoc
    | Unparsable
}
