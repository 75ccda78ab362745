/**
 * The greetings store: three collections updated in place by its actions,
 * each action proved to leave the state its specification function
 * describes.
 */
module GreetingsStore {
  import opened Types
  import opened Text
  import opened IdLists
  import opened Links
  import opened Symmetry
  import opened GreetingOps
  import opened Entities
  import opened Reconcile

  /** Every string in a finite set is shorter than some bound. */
  lemma LengthBound(ids: set<Id>) returns (n: nat)
    ensures forall s :: s in ids ==> |s| < n
    decreases |ids|
  {
    if ids == {} {
      n := 0;
    } else {
      var x :| x in ids;
      var m := LengthBound(ids - {x});
      n := if |x| < m then m else |x| + 1;
    }
  }

  /**
   * One draw of generateUUID. The draw is random in the source; here it is
   * any string outside `rejected`, the draws the caller has already seen
   * collide.
   */
  method DrawUUID(rejected: set<Id>) returns (id: Id)
    ensures id !in rejected
  {
    var n := LengthBound(rejected);
    assert seq(n, _ => '0') !in rejected;
    id :| id !in rejected;
  }

  class Store {
    var greetings: seq<Greeting>
    var characters: seq<Character>
    var cards: seq<Card>

    constructor()
      ensures greetings == [] && characters == [] && cards == []
    {
      greetings, characters, cards := [], [], [];
    }

    /** `idExists`: some greeting, character or card has this id. */
    predicate IdExists(id: Id)
      reads this
    {
      (exists g :: g in greetings && g.id == id) ||
      (exists c :: c in characters && c.id == id) ||
      (exists c :: c in cards && c.id == id)
    }

    function AllIds(): (ids: set<Id>)
      reads this
      ensures forall id :: id in ids <==> IdExists(id)
    {
      IdsOf(greetings, characters, cards)
    }

    /** The links are symmetric over greetings with distinct ids. */
    predicate LinksConsistent()
      reads this
    {
      UniqueIds(greetings) && Symmetric(greetings)
    }

    /**
     * `generateUniqueUUID(idExists)`: draws until the id is in no
     * collection. Each draw avoids the draws already rejected, so the loop
     * ends after at most one more draw than there are ids.
     */
    method GenerateUniqueUUID() returns (id: Id)
      ensures !IdExists(id)
    {
      var rejected: set<Id> := {};
      id := DrawUUID(rejected);
      while IdExists(id)
        invariant rejected <= AllIds() && id !in rejected
        decreases AllIds() - rejected
      {
        rejected := rejected + {id};
        id := DrawUUID(rejected);
      }
    }

    // -------------------------------------------------------------------
    // link engine

    /**
     * One "added" loop of syncBidirectionalLinks: the greeting found for
     * each target gains `gid` on `side` unless it lists it already.
     */
    method LinkAll(side: Side, gid: Id, targets: seq<Id>)
      modifies this
      ensures greetings == LinkEach(old(greetings), side, gid, targets)
      ensures characters == old(characters) && cards == old(cards)
    {
      ghost var g0 := greetings;
      var i := 0;
      while i < |targets|
        invariant 0 <= i <= |targets|
        invariant greetings == LinkEach(g0, side, gid, targets[..i])
        invariant characters == old(characters) && cards == old(cards)
      {
        ghost var before := greetings;
        var k := FindGreeting(greetings, targets[i]);
        if k >= 0 && gid !in LinkList(greetings[k], side) {
          greetings := greetings[k := WithLinks(greetings[k], side, LinkList(greetings[k], side) + [gid])];
        }
        assert greetings == LinkTo(before, side, gid, targets[i]);
        assert targets[..i + 1][..i] == targets[..i];
        assert LinkEach(g0, side, gid, targets[..i + 1]) == greetings;
        i := i + 1;
      }
      assert targets[..i] == targets;
    }

    /**
     * One "removed" loop (of syncBidirectionalLinks, and of deleteGreeting):
     * the greeting found for each target loses every `gid` on `side`.
     */
    method UnlinkAll(side: Side, gid: Id, targets: seq<Id>)
      modifies this
      ensures greetings == UnlinkEach(old(greetings), side, gid, targets)
      ensures characters == old(characters) && cards == old(cards)
    {
      ghost var g0 := greetings;
      var i := 0;
      while i < |targets|
        invariant 0 <= i <= |targets|
        invariant greetings == UnlinkEach(g0, side, gid, targets[..i])
        invariant characters == old(characters) && cards == old(cards)
      {
        ghost var before := greetings;
        var k := FindGreeting(greetings, targets[i]);
        if k >= 0 {
          greetings := greetings[k := WithLinks(greetings[k], side, Without(LinkList(greetings[k], side), gid))];
        }
        assert greetings == UnlinkFrom(before, side, gid, targets[i]);
        assert targets[..i + 1][..i] == targets[..i];
        assert UnlinkEach(g0, side, gid, targets[..i + 1]) == greetings;
        i := i + 1;
      }
      assert targets[..i] == targets;
    }

    /**
     * `syncBidirectionalLinks`. `owner` is the position of the record whose
     * predecessors array the caller passed as `newPredecessors`: when the
     * successor loop pushes `gid` onto that record, the predecessor phase
     * reads the lengthened array.
     */
    method SyncBidirectionalLinks(gid: Id, oldSuccessors: seq<Id>, newSuccessors: seq<Id>,
                                  oldPredecessors: seq<Id>, newPredecessors: seq<Id>, owner: int)
      modifies this
      ensures greetings == SyncLinks(old(greetings), gid, oldSuccessors, newSuccessors, oldPredecessors, newPredecessors, owner)
      ensures characters == old(characters) && cards == old(cards)
    {
      var addedSuccessors := Difference(newSuccessors, oldSuccessors);
      var removedSuccessors := Difference(oldSuccessors, newSuccessors);
      var ownerPushed := OwnerPushed(greetings, gid, addedSuccessors, owner);
      LinkAll(Predecessors, gid, addedSuccessors);
      UnlinkAll(Predecessors, gid, removedSuccessors);

      var predecessorsNow := if ownerPushed then newPredecessors + [gid] else newPredecessors;
      var addedPredecessors := Difference(predecessorsNow, oldPredecessors);
      var removedPredecessors := Difference(oldPredecessors, predecessorsNow);
      LinkAll(Successors, gid, addedPredecessors);
      UnlinkAll(Successors, gid, removedPredecessors);
    }

    /** `insertBetweenLinks`: every predecessor stops listing each of the successors, and each such successor stops listing it. */
    method InsertBetweenLinks(greetingId: Id, predecessors: seq<Id>, successors: seq<Id>)
      modifies this
      ensures greetings == InsertBetween(old(greetings), predecessors, successors)
      ensures characters == old(characters) && cards == old(cards)
    {
      var i := 0;
      while i < |predecessors|
        invariant 0 <= i <= |predecessors|
        invariant greetings == InsertBetween(old(greetings), predecessors[..i], successors)
        invariant characters == old(characters) && cards == old(cards)
      {
        var p := predecessors[i];
        var pi := FindGreeting(greetings, p);
        if pi >= 0 {
          SpliceAll(pi, p, successors);
        }
        assert predecessors[..i + 1][..i] == predecessors[..i];
        i := i + 1;
      }
      assert predecessors[..i] == predecessors;
    }

    /** One iteration of the inner loop of insertBetweenLinks: the edge p -> s is cut on both sides, if `p` at `pi` lists `s`. */
    method SeverStep(pi: int, p: Id, s: Id)
      requires 0 <= pi < |greetings|
      modifies this
      ensures greetings == Sever(old(greetings), pi, p, s)
      ensures characters == old(characters) && cards == old(cards)
    {
      if s in greetings[pi].successors {
        greetings := greetings[pi := greetings[pi].(successors := Without(greetings[pi].successors, s))];
        var si := FindGreeting(greetings, s);
        if si >= 0 {
          greetings := greetings[si := greetings[si].(predecessors := Without(greetings[si].predecessors, p))];
        }
      }
    }

    /** The inner loop of insertBetweenLinks for the predecessor `p` found at `pi`. */
    method SpliceAll(pi: int, p: Id, successors: seq<Id>)
      requires 0 <= pi < |greetings|
      modifies this
      ensures greetings == SpliceEach(old(greetings), pi, p, successors)
      ensures characters == old(characters) && cards == old(cards)
    {
      var j := 0;
      while j < |successors|
        invariant 0 <= j <= |successors| && |greetings| == |old(greetings)|
        invariant greetings == SpliceEach(old(greetings), pi, p, successors[..j])
        invariant characters == old(characters) && cards == old(cards)
      {
        var s := successors[j];
        ghost var before := greetings;
        SeverStep(pi, p, s);
        assert successors[..j + 1][..j] == successors[..j];
        assert SpliceEach(old(greetings), pi, p, successors[..j + 1]) == Sever(before, pi, p, s);
        j := j + 1;
      }
      assert successors[..j] == successors;
    }

    // -------------------------------------------------------------------
    // greeting actions

    /**
     * `addGreeting`: the defaults overridden by every key of the payload
     * (its id included), appended, linked to its neighbours and spliced
     * between its predecessors and successors. Returns the record as it
     * stands in the list afterwards.
     */
    method AddGreeting(payload: GreetingPatch) returns (g: Greeting)
      modifies this
      ensures greetings == AddGreetingTo(old(greetings), NewGreeting(payload, g.id))
      ensures |greetings| == |old(greetings)| + 1 && g == greetings[|old(greetings)|]
      ensures payload.id.None? ==> !old(IdExists(g.id))
      ensures old(LinksConsistent()) && Absent(old(greetings), g.id) && Unmentioned(old(greetings), g.id) ==> LinksConsistent()
      ensures characters == old(characters) && cards == old(cards)
    {
      var minted := GenerateUniqueUUID();
      var newGreeting := NewGreeting(payload, minted);
      greetings := greetings + [newGreeting];
      var n := |greetings| - 1;
      SyncBidirectionalLinks(newGreeting.id, [], newGreeting.successors, [], newGreeting.predecessors, n);
      InsertBetweenLinks(newGreeting.id, greetings[n].predecessors, greetings[n].successors);
      assert greetings == AddGreetingTo(old(greetings), newGreeting);
      g := greetings[n];
      assert (old(greetings) + [newGreeting])[n] == newGreeting;
      NewGreetingOwnId(payload, minted);
      if old(LinksConsistent()) && Absent(old(greetings), g.id) && Unmentioned(old(greetings), g.id) {
        AddPreservesSymmetry(old(greetings), newGreeting);
      }
    }

    /**
     * `updateGreeting`: the first greeting with `id` becomes the shallow
     * merge; its neighbours are re-synced only when the update carries a
     * link list.
     */
    method UpdateGreeting(id: Id, updates: GreetingPatch)
      modifies this
      ensures greetings == UpdateGreetingIn(old(greetings), id, updates)
      ensures old(LinksConsistent()) && (updates.id.None? || updates.id == Some(id)) ==> LinksConsistent()
      ensures characters == old(characters) && cards == old(cards)
    {
      var index := FindGreeting(greetings, id);
      if index != -1 {
        var oldGreeting := greetings[index];
        var oldSuccessors, oldPredecessors := oldGreeting.successors, oldGreeting.predecessors;
        greetings := greetings[index := Merge(oldGreeting, updates)];
        if updates.successors.Some? || updates.predecessors.Some? {
          SyncBidirectionalLinks(id, oldSuccessors, greetings[index].successors, oldPredecessors, greetings[index].predecessors, index);
        }
      }
      if old(LinksConsistent()) && (updates.id.None? || updates.id == Some(id)) {
        UpdatePreservesSymmetry(old(greetings), id, updates);
      }
    }

    /**
     * `deleteGreeting`: the neighbours the record names are cleaned, then
     * every greeting with `id` is removed.
     */
    method DeleteGreeting(id: Id)
      modifies this
      ensures greetings == DeleteGreetingFrom(old(greetings), id)
      ensures Absent(greetings, id)
      ensures old(LinksConsistent()) ==> LinksConsistent()
      ensures old(LinksConsistent()) && !Absent(old(greetings), id) ==> Unmentioned(greetings, id)
      ensures characters == old(characters) && cards == old(cards)
    {
      var index := FindGreeting(greetings, id);
      if index >= 0 {
        UnlinkAll(Predecessors, id, greetings[index].successors);
        UnlinkAll(Successors, id, greetings[index].predecessors);
      }
      greetings := DropId(greetings, id);
      if old(LinksConsistent()) {
        DeleteSevers(old(greetings), id);
      }
    }

    // -------------------------------------------------------------------
    // character and card actions

    /**
     * `addCharacter`: the existing character whose lower-cased name equals
     * the lower-cased argument, or a new one with a fresh id and the
     * trimmed name, appended.
     */
    method AddCharacter(name: string) returns (c: Character)
      modifies this
      ensures (c, characters) == AddCharacterTo(old(characters), name, c.id)
      ensures |characters| > |old(characters)| ==> !old(IdExists(c.id))
      ensures greetings == old(greetings) && cards == old(cards)
    {
      var existing := FindCharacterByName(characters, name);
      if existing >= 0 {
        c := characters[existing];
        assert AddCharacterTo(characters, name, c.id) == (c, characters);
        return;
      }
      var id := GenerateUniqueUUID();
      c := Character(id, Trim(name));
      assert AddCharacterTo(characters, name, id) == (c, characters + [c]);
      characters := characters + [c];
    }

    /** `deleteCharacter`: the character goes, and every greeting drops it from its characters. */
    method DeleteCharacter(id: Id)
      modifies this
      ensures characters == WithoutCharacter(old(characters), id)
      ensures greetings == WithoutCharacterRefs(old(greetings), id)
      ensures cards == old(cards)
    {
      characters := WithoutCharacter(characters, id);
      var i := 0;
      while i < |greetings|
        invariant 0 <= i <= |greetings| && |greetings| == |old(greetings)|
        invariant forall k :: 0 <= k < i ==> greetings[k] == StripCharacter(old(greetings)[k], id)
        invariant forall k :: i <= k < |greetings| ==> greetings[k] == old(greetings)[k]
        invariant characters == WithoutCharacter(old(characters), id) && cards == old(cards)
      {
        greetings := greetings[i := greetings[i].(characters := Without(greetings[i].characters, id))];
        i := i + 1;
      }
    }

    /**
     * `addCard`: the existing card whose lower-cased name equals the
     * lower-cased argument, or a new one with a fresh id and the trimmed
     * name and url, appended.
     */
    method AddCard(name: string, url: string := "") returns (c: Card)
      modifies this
      ensures (c, cards) == AddCardTo(old(cards), name, url, c.id)
      ensures |cards| > |old(cards)| ==> !old(IdExists(c.id))
      ensures greetings == old(greetings) && characters == old(characters)
    {
      var existing := FindCardByName(cards, name);
      if existing >= 0 {
        return cards[existing];
      }
      var id := GenerateUniqueUUID();
      c := Card(id, Trim(name), Trim(url), map[]);
      cards := cards + [c];
    }

    /** `updateCard`: the first card with `id` becomes the shallow merge; nothing when there is none. */
    method UpdateCard(id: Id, updates: CardPatch)
      modifies this
      ensures cards == UpdateCardIn(old(cards), id, updates)
      ensures greetings == old(greetings) && characters == old(characters)
    {
      var index := FindCardIndex(cards, id);
      if index != -1 {
        cards := cards[index := MergeCard(cards[index], updates)];
      }
    }

    /** `deleteCard`: the card goes, and every greeting that held it holds no card. */
    method DeleteCard(id: Id)
      modifies this
      ensures cards == WithoutCard(old(cards), id)
      ensures greetings == WithoutCardRefs(old(greetings), id)
      ensures characters == old(characters)
    {
      cards := WithoutCard(cards, id);
      var i := 0;
      while i < |greetings|
        invariant 0 <= i <= |greetings| && |greetings| == |old(greetings)|
        invariant forall k :: 0 <= k < i ==> greetings[k] == ClearCard(old(greetings)[k], id)
        invariant forall k :: i <= k < |greetings| ==> greetings[k] == old(greetings)[k]
        invariant cards == WithoutCard(old(cards), id) && characters == old(characters)
      {
        if greetings[i].card == Some(id) {
          greetings := greetings[i := greetings[i].(card := None)];
        }
        i := i + 1;
      }
    }

    method ClearAll()
      modifies this
      ensures greetings == [] && characters == [] && cards == []
      ensures LinksConsistent()
    {
      greetings, characters, cards := [], [], [];
    }

    // -------------------------------------------------------------------
    // export and import

    /** The document exportToJSON serialises; importing it in the current format restores the state. */
    function Snapshot(): (doc: Document)
      reads this
      ensures doc.ObjectDoc? && doc.characters.Some? && doc.cards.Some? && doc.greetings.Some?
      ensures doc.characters.value == characters && doc.cards.value == cards
      ensures CurrentGreetings(doc.greetings.value) == greetings
    {
      ExportThenImport(greetings);
      ObjectDoc(Some(characters), Some(cards), Some(ExportGreetings(greetings)))
    }

    /**
     * One iteration of a card loop of importFromJSON: a non-empty card name
     * goes through RegisterCardTo; `minted` is the id addCard drew, and a
     * card it adds has an id no greeting, character or card had.
     */
    method RegisterCard(card: Option<string>, cardMap: map<string, Id>) returns (m: map<string, Id>, ghost minted: Id)
      modifies this
      ensures (cards, m) == if card.Some? && card.value != "" then RegisterCardTo(old(cards), cardMap, card.value, minted) else (old(cards), cardMap)
      ensures |AllIds()| == |old(AllIds())| + (|characters| - |old(characters)|) + (|cards| - |old(cards)|)
      ensures greetings == old(greetings) && characters == old(characters)
    {
      m, minted := cardMap, "";
      if card.Some? && card.value != "" && Lower(card.value) !in cardMap {
        var c := AddCard(card.value);
        m, minted := cardMap[Lower(card.value) := c.id], c.id;
        if |cards| > |old(cards)| {
          IdsOfAddCard(greetings, characters, old(cards), c);
        }
      }
    }

    /** One step of the legacy character loop: the name goes through RegisterCharacterTo, and a character it adds has a fresh id. */
    method RegisterCharacter(name: string, characterMap: map<string, Id>) returns (m: map<string, Id>, ghost minted: Id)
      modifies this
      ensures (characters, m) == RegisterCharacterTo(old(characters), characterMap, name, minted)
      ensures |AllIds()| == |old(AllIds())| + (|characters| - |old(characters)|) + (|cards| - |old(cards)|)
      ensures greetings == old(greetings) && cards == old(cards)
    {
      m, minted := characterMap, "";
      if Lower(name) !in characterMap {
        var c := AddCharacter(name);
        m, minted := characterMap[Lower(name) := c.id], c.id;
        if |characters| > |old(characters)| {
          IdsOfAddCharacter(greetings, old(characters), cards, c);
        }
      }
    }

    /**
     * The inner loop of the legacy import over one record's names: exactly
     * RegisterCharactersTo, with every id it mints fresh and distinct.
     */
    method RegisterCharacters(names: seq<string>, characterMap: map<string, Id>) returns (m: map<string, Id>, ghost minted: seq<Id>)
      modifies this
      ensures |minted| == |names| && (characters, m) == RegisterCharactersTo(old(characters), characterMap, names, minted)
      ensures |AllIds()| == |old(AllIds())| + (|characters| - |old(characters)|) + (|cards| - |old(cards)|)
      ensures greetings == old(greetings) && cards == old(cards)
    {
      m, minted := characterMap, [];
      var j := 0;
      while j < |names|
        invariant 0 <= j <= |names| && |minted| == j
        invariant (characters, m) == RegisterCharactersTo(old(characters), characterMap, names[..j], minted)
        invariant |AllIds()| == |old(AllIds())| + (|characters| - |old(characters)|) + (|cards| - |old(cards)|)
        invariant greetings == old(greetings) && cards == old(cards)
      {
        m, minted := RegisterName(names, j, characterMap, m, old(characters), minted);
        j := j + 1;
      }
      assert names[..j] == names;
    }

    /** One turn of RegisterCharacters: the name at `j` goes through the loop that has covered the names before it. */
    method RegisterName(names: seq<string>, j: int, characterMap: map<string, Id>, m0: map<string, Id>, ghost base: seq<Character>, ghost minted0: seq<Id>)
      returns (m: map<string, Id>, ghost minted: seq<Id>)
      requires 0 <= j < |names| && |minted0| == j
      requires (characters, m0) == RegisterCharactersTo(base, characterMap, names[..j], minted0)
      modifies this
      ensures |minted| == j + 1 && (characters, m) == RegisterCharactersTo(base, characterMap, names[..j + 1], minted)
      ensures |AllIds()| == |old(AllIds())| + (|characters| - |old(characters)|) + (|cards| - |old(cards)|)
      ensures greetings == old(greetings) && cards == old(cards)
    {
      ghost var id;
      m, id := RegisterCharacter(names[j], m0);
      RegisterCharactersToNext(base, characterMap, names, j, minted0, id);
      minted := minted0 + [id];
    }

    /**
     * The card loop of the pre-cards import, starting from no cards:
     * exactly RegisterCardsTo over the records' non-empty card names, with
     * every id it mints fresh and distinct.
     */
    method BuildCards(items: seq<RawGreeting>) returns (cardMap: map<string, Id>, ghost minted: seq<Id>)
      requires cards == []
      modifies this
      ensures |minted| == |CardNames(items)| && (cards, cardMap) == RegisterCardsTo([], map[], CardNames(items), minted)
      ensures |AllIds()| == |old(AllIds())| + |cards|
      ensures greetings == old(greetings) && characters == old(characters)
    {
      cardMap, minted := map[], [];
      var i := 0;
      while i < |items|
        invariant 0 <= i <= |items| && |minted| == |CardNames(items[..i])|
        invariant (cards, cardMap) == RegisterCardsTo([], map[], CardNames(items[..i]), minted)
        invariant |AllIds()| == |old(AllIds())| + |cards|
        invariant greetings == old(greetings) && characters == old(characters)
      {
        cardMap, minted := RegisterRecordCard(items, i, cardMap, [], minted);
        i := i + 1;
      }
      WholePrefix(items);
    }

    /** The card of record `i` through a card loop that has covered the records before it. */
    method RegisterRecordCard(items: seq<RawGreeting>, i: int, cardMap0: map<string, Id>, ghost base: seq<Card>, ghost minted0: seq<Id>)
      returns (cardMap: map<string, Id>, ghost minted: seq<Id>)
      requires 0 <= i < |items| && |minted0| == |CardNames(items[..i])|
      requires (cards, cardMap0) == RegisterCardsTo(base, map[], CardNames(items[..i]), minted0)
      modifies this
      ensures |minted| == |CardNames(items[..i + 1])| && (cards, cardMap) == RegisterCardsTo(base, map[], CardNames(items[..i + 1]), minted)
      ensures |AllIds()| == |old(AllIds())| + (|characters| - |old(characters)|) + (|cards| - |old(cards)|)
      ensures greetings == old(greetings) && characters == old(characters)
    {
      ghost var id;
      cardMap, id := RegisterCard(items[i].card, cardMap0);
      CardNamesSnoc(items, i);
      var card := items[i].card;
      if card.Some? && card.value != "" {
        RegisterCardsToSnoc(base, map[], CardNames(items[..i]), card.value, minted0, id);
        minted := minted0 + [id];
      } else {
        assert CardNames(items[..i + 1]) == CardNames(items[..i]);
        minted := minted0;
      }
    }

    /** The names of record `i` through the legacy character loop that has covered the records before it. */
    method RegisterRecordCharacters(items: seq<RawGreeting>, i: int, characterMap0: map<string, Id>, ghost base: seq<Character>, ghost minted0: seq<Id>)
      returns (characterMap: map<string, Id>, ghost minted: seq<Id>)
      requires 0 <= i < |items| && |minted0| == |CharacterNames(items[..i])|
      requires (characters, characterMap0) == RegisterCharactersTo(base, map[], CharacterNames(items[..i]), minted0)
      modifies this
      ensures |minted| == |CharacterNames(items[..i + 1])|
      ensures (characters, characterMap) == RegisterCharactersTo(base, map[], CharacterNames(items[..i + 1]), minted)
      ensures |AllIds()| == |old(AllIds())| + (|characters| - |old(characters)|) + (|cards| - |old(cards)|)
      ensures greetings == old(greetings) && cards == old(cards)
    {
      ghost var ids;
      characterMap, ids := RegisterCharacters(items[i].characters, characterMap0);
      CharacterNamesSnoc(items, i);
      RegisterCharactersToAppend(base, map[], CharacterNames(items[..i]), items[i].characters, minted0, ids);
      minted := minted0 + ids;
    }

    /**
     * The loop of the legacy import: characters, then the card, of each
     * record in turn, added to the existing ones. The result is exactly
     * the two loops of RegisterCharactersTo and RegisterCardsTo over the
     * records' names, and every id they mint is fresh and distinct.
     */
    method BuildLegacyMaps(items: seq<RawGreeting>)
      returns (characterMap: map<string, Id>, cardMap: map<string, Id>, ghost characterIds: seq<Id>, ghost cardIds: seq<Id>)
      modifies this
      ensures |characterIds| == |CharacterNames(items)|
      ensures (characters, characterMap) == RegisterCharactersTo(old(characters), map[], CharacterNames(items), characterIds)
      ensures |cardIds| == |CardNames(items)| && (cards, cardMap) == RegisterCardsTo(old(cards), map[], CardNames(items), cardIds)
      ensures |AllIds()| == |old(AllIds())| + (|characters| - |old(characters)|) + (|cards| - |old(cards)|)
      ensures greetings == old(greetings)
    {
      characterMap, cardMap, characterIds, cardIds := map[], map[], [], [];
      var i := 0;
      while i < |items|
        invariant 0 <= i <= |items|
        invariant |characterIds| == |CharacterNames(items[..i])|
        invariant (characters, characterMap) == RegisterCharactersTo(old(characters), map[], CharacterNames(items[..i]), characterIds)
        invariant |cardIds| == |CardNames(items[..i])| && (cards, cardMap) == RegisterCardsTo(old(cards), map[], CardNames(items[..i]), cardIds)
        invariant |AllIds()| == |old(AllIds())| + (|characters| - |old(characters)|) + (|cards| - |old(cards)|)
        invariant greetings == old(greetings)
      {
        characterMap, characterIds := RegisterRecordCharacters(items, i, characterMap, old(characters), characterIds);
        cardMap, cardIds := RegisterRecordCard(items, i, cardMap, old(cards), cardIds);
        i := i + 1;
      }
      WholePrefix(items);
    }


    /**
     * `importFromJSON` over a parsed document: the current format is taken
     * as it stands, the pre-cards format gets its cards built from the card
     * names, the legacy array gets characters and cards added to the
     * existing ones; any other document is refused and changes nothing.
     */
    method ImportFromJSON(doc: Document) returns (ok: bool)
      modifies this
      ensures ok <==> (doc.ObjectDoc? && doc.characters.Some? && doc.greetings.Some?) || doc.ArrayDoc?
      ensures !ok ==> greetings == old(greetings) && characters == old(characters) && cards == old(cards)
      ensures doc.ObjectDoc? && doc.characters.Some? && doc.cards.Some? && doc.greetings.Some? ==>
        characters == doc.characters.value && cards == doc.cards.value && greetings == CurrentGreetings(doc.greetings.value)
      ensures doc.ObjectDoc? && doc.characters.Some? && doc.cards.None? && doc.greetings.Some? ==>
        && characters == doc.characters.value
        && |IdsOf(old(greetings), characters, cards)| == |IdsOf(old(greetings), characters, [])| + |cards|
        && MintedFresh(IdsOf(old(greetings), characters, []), characters, |characters|, cards, 0)
        && exists cardMap, minted :: PreCardsImported(doc.greetings.value, greetings, cards, cardMap, minted)
      ensures doc.ArrayDoc? ==>
        && |IdsOf(old(greetings), characters, cards)| == |old(AllIds())| + (|characters| - |old(characters)|) + (|cards| - |old(cards)|)
        && MintedFresh(old(AllIds()), characters, |old(characters)|, cards, |old(cards)|)
        && exists characterMap, cardMap, characterIds, cardIds ::
             LegacyImported(doc.items, old(characters), old(cards), greetings, characters, cards, characterMap, cardMap, characterIds, cardIds)
    {
      if doc.ObjectDoc? && doc.characters.Some? && doc.cards.Some? && doc.greetings.Some? {
        characters := doc.characters.value;
        cards := doc.cards.value;
        greetings := CurrentGreetings(doc.greetings.value);
        return true;
      }
      if doc.ObjectDoc? && doc.characters.Some? && doc.greetings.Some? {
        var items := doc.greetings.value;
        characters := doc.characters.value;
        cards := [];
        var cardMap, minted := BuildCards(items);
        MintedFreshOfCount(old(greetings), characters, [], characters, cards);
        greetings := PreCardsGreetings(items, cardMap);
        assert PreCardsImported(items, greetings, cards, cardMap, minted);
        return true;
      }
      if doc.ArrayDoc? {
        var characterMap, cardMap, characterIds, cardIds := BuildLegacyMaps(doc.items);
        RegisterCharactersToGrowth(old(characters), map[], CharacterNames(doc.items), characterIds);
        RegisterCardsToGrowth(old(cards), map[], CardNames(doc.items), cardIds);
        MintedFreshOfCount(greetings, old(characters), old(cards), characters, cards);
        greetings := LegacyGreetings(doc.items, characterMap, cardMap);
        assert LegacyImported(doc.items, old(characters), old(cards), greetings, characters, cards, characterMap, cardMap, characterIds, cardIds);
        return true;
      }
      return false;
    }
  }

  /** The ids of the greetings, characters and cards. */
  function IdsOf(gs: seq<Greeting>, cs: seq<Character>, ks: seq<Card>): set<Id>
  {
    (set g | g in gs :: g.id) + (set c | c in cs :: c.id) + (set c | c in ks :: c.id)
  }

  /** Appending a character adds its id, and nothing else. */
  lemma IdsOfAddCharacter(gs: seq<Greeting>, cs: seq<Character>, ks: seq<Card>, c: Character)
    ensures IdsOf(gs, cs + [c], ks) == IdsOf(gs, cs, ks) + {c.id}
    ensures c.id !in IdsOf(gs, cs, ks) ==> |IdsOf(gs, cs + [c], ks)| == |IdsOf(gs, cs, ks)| + 1
  {
    assert forall x :: x in cs + [c] <==> x in cs || x == c;
  }

  /** Appending a card adds its id, and nothing else. */
  lemma IdsOfAddCard(gs: seq<Greeting>, cs: seq<Character>, ks: seq<Card>, k: Card)
    ensures IdsOf(gs, cs, ks + [k]) == IdsOf(gs, cs, ks) + {k.id}
    ensures k.id !in IdsOf(gs, cs, ks) ==> |IdsOf(gs, cs, ks + [k])| == |IdsOf(gs, cs, ks)| + 1
  {
    assert forall x :: x in ks + [k] <==> x in ks || x == k;
  }

  /**
   * The characters from `fromC` on and the cards from `fromK` on have ids
   * that are distinct from each other and from every id in `taken`.
   */
  predicate MintedFresh(taken: set<Id>, cs: seq<Character>, fromC: int, ks: seq<Card>, fromK: int) {
    && (forall i :: 0 <= fromC <= i < |cs| ==> cs[i].id !in taken)
    && (forall i :: 0 <= fromK <= i < |ks| ==> ks[i].id !in taken)
    && (forall i, j :: 0 <= fromC <= i < j < |cs| ==> cs[i].id != cs[j].id)
    && (forall i, j :: 0 <= fromK <= i < j < |ks| ==> ks[i].id != ks[j].id)
    && (forall i, j :: 0 <= fromC <= i < |cs| && 0 <= fromK <= j < |ks| ==> cs[i].id != ks[j].id)
  }

  /** The ids of the characters in `cs`, in order. */
  function CharacterIds(cs: seq<Character>): (r: seq<Id>)
    ensures |r| == |cs| && forall i :: 0 <= i < |cs| ==> r[i] == cs[i].id
  {
    seq(|cs|, i requires 0 <= i < |cs| => cs[i].id)
  }

  function CardIds(ks: seq<Card>): (r: seq<Id>)
    ensures |r| == |ks| && forall i :: 0 <= i < |ks| ==> r[i] == ks[i].id
  {
    seq(|ks|, i requires 0 <= i < |ks| => ks[i].id)
  }

  /** The ids in `s`, as a set. */
  function IdSet(s: seq<Id>): set<Id>
  {
    if s == [] then {} else IdSet(s[..|s| - 1]) + {s[|s| - 1]}
  }

  lemma {:induction false} IdSetHas(s: seq<Id>, i: int)
    requires 0 <= i < |s|
    ensures s[i] in IdSet(s)
    decreases |s|
  {
    var n := |s| - 1;
    if i < n {
      IdSetHas(s[..n], i);
    }
  }

  /** Adding the ids `s` to `t` adds at most `|s|` of them. */
  lemma {:induction false} CountNewIds(t: set<Id>, s: seq<Id>)
    ensures |t + IdSet(s)| <= |t| + |s|
    decreases |s|
  {
    if s == [] {
      assert t + IdSet(s) == t;
    } else {
      var n := |s| - 1;
      CountNewIds(t, s[..n]);
      var u := t + IdSet(s[..n]);
      assert t + IdSet(s) == u + {s[n]};
      if s[n] in u {
        assert u + {s[n]} == u;
      } else {
        assert |u + {s[n]}| == |u| + 1;
      }
    }
  }

  /** Adding the ids `s` to `t` adds exactly `|s|` of them only when they are distinct and none was in `t`. */
  lemma {:induction false} CountNewIdsExact(t: set<Id>, s: seq<Id>)
    requires |t + IdSet(s)| == |t| + |s|
    ensures forall i :: 0 <= i < |s| ==> s[i] !in t
    ensures forall i, j :: 0 <= i < j < |s| ==> s[i] != s[j]
    decreases |s|
  {
    if s != [] {
      var n := |s| - 1;
      var s' := s[..n];
      var u := t + IdSet(s');
      CountNewIds(t, s');
      assert t + IdSet(s) == u + {s[n]};
      assert s[n] !in u by {
        if s[n] in u {
          assert u + {s[n]} == u;
        }
      }
      assert |u + {s[n]}| == |u| + 1;
      CountNewIdsExact(t, s');
      forall i, j | 0 <= i < j < |s| ensures s[i] != s[j] {
        assert s[i] == s'[i];
        if j < n {
          assert s[j] == s'[j];
        } else {
          IdSetHas(s', i);
        }
      }
      forall i | 0 <= i < n ensures s[i] !in t {
        assert s[i] == s'[i];
      }
    }
  }

  /** Ids `a`, then ids `b`, that grow `t` by their full count are each distinct and new when added. */
  lemma NewIdsFresh(t: set<Id>, a: seq<Id>, b: seq<Id>)
    requires |(t + IdSet(a)) + IdSet(b)| == |t| + |a| + |b|
    ensures forall i :: 0 <= i < |a| ==> a[i] !in t && a[i] in IdSet(a)
    ensures forall i, j :: 0 <= i < j < |a| ==> a[i] != a[j]
    ensures forall j :: 0 <= j < |b| ==> b[j] !in t + IdSet(a)
    ensures forall i, j :: 0 <= i < j < |b| ==> b[i] != b[j]
  {
    var u := t + IdSet(a);
    CountNewIds(t, a);
    CountNewIds(u, b);
    CountNewIdsExact(t, a);
    CountNewIdsExact(u, b);
    forall i | 0 <= i < |a| ensures a[i] in IdSet(a) {
      IdSetHas(a, i);
    }
  }

  /** Appending characters adds their ids, and nothing else. */
  lemma {:induction false} IdsOfAppendCharacters(gs: seq<Greeting>, cs: seq<Character>, more: seq<Character>, ks: seq<Card>)
    ensures IdsOf(gs, cs + more, ks) == IdsOf(gs, cs, ks) + IdSet(CharacterIds(more))
    decreases |more|
  {
    if more == [] {
      assert cs + more == cs;
    } else {
      var n := |more| - 1;
      assert cs + more == (cs + more[..n]) + [more[n]];
      assert CharacterIds(more)[..n] == CharacterIds(more[..n]);
      IdsOfAppendCharacters(gs, cs, more[..n], ks);
      IdsOfAddCharacter(gs, cs + more[..n], ks, more[n]);
    }
  }

  lemma {:induction false} IdsOfAppendCards(gs: seq<Greeting>, cs: seq<Character>, ks: seq<Card>, more: seq<Card>)
    ensures IdsOf(gs, cs, ks + more) == IdsOf(gs, cs, ks) + IdSet(CardIds(more))
    decreases |more|
  {
    if more == [] {
      assert ks + more == ks;
    } else {
      var n := |more| - 1;
      assert ks + more == (ks + more[..n]) + [more[n]];
      assert CardIds(more)[..n] == CardIds(more[..n]);
      IdsOfAppendCards(gs, cs, ks, more[..n]);
      IdsOfAddCard(gs, cs, ks + more[..n], more[n]);
    }
  }

  /**
   * When the id count grows by exactly the number of characters and cards
   * appended, the appended ids are distinct from each other and from every
   * id there was before.
   */
  lemma MintedFreshOfCount(gs: seq<Greeting>, c0: seq<Character>, k0: seq<Card>, c1: seq<Character>, k1: seq<Card>)
    requires c0 <= c1 && k0 <= k1
    requires |IdsOf(gs, c1, k1)| == |IdsOf(gs, c0, k0)| + (|c1| - |c0|) + (|k1| - |k0|)
    ensures MintedFresh(IdsOf(gs, c0, k0), c1, |c0|, k1, |k0|)
  {
    var rc, rk := c1[|c0|..], k1[|k0|..];
    assert c1 == c0 + rc && k1 == k0 + rk;
    IdsOfAppendCharacters(gs, c0, rc, k0);
    IdsOfAppendCards(gs, c1, k0, rk);
    MintedFreshOfIds(IdsOf(gs, c0, k0), c0, rc, k0, rk);
  }

  /** Ids that grow a set by exactly their number are fresh and pairwise distinct, wherever they are appended. */
  lemma MintedFreshOfIds(t: set<Id>, c0: seq<Character>, rc: seq<Character>, k0: seq<Card>, rk: seq<Card>)
    requires |(t + IdSet(CharacterIds(rc))) + IdSet(CardIds(rk))| == |t| + |rc| + |rk|
    ensures MintedFresh(t, c0 + rc, |c0|, k0 + rk, |k0|)
  {
    var a, b := CharacterIds(rc), CardIds(rk);
    NewIdsFresh(t, a, b);
    var c1, k1 := c0 + rc, k0 + rk;
    forall i | |c0| <= i < |c1| ensures c1[i].id == a[i - |c0|] {
      assert c1[i] == rc[i - |c0|];
    }
    forall j | |k0| <= j < |k1| ensures k1[j].id == b[j - |k0|] {
      assert k1[j] == rk[j - |k0|];
    }
  }


  lemma WholePrefix<T>(s: seq<T>)
    ensures s[..|s|] == s
  {
  }
}
