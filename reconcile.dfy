/**
 * What importFromJSON writes into the greetings for each document shape,
 * given the name-to-id maps its loops build, and what those maps guarantee
 * about the ids they hand out.
 */
module Reconcile {
  import opened Types
  import opened Text
  import opened Entities

  /** The stored record for `raw`: its own fields, with `card` and `characters` as given and predecessors defaulted to []. */
  function Imported(raw: RawGreeting, card: Option<Id>, characters: seq<Id>): Greeting {
    Greeting(raw.id, raw.name, raw.canon, raw.au, card, characters, raw.predecessors.GetOr([]), raw.successors, raw.extras)
  }

  /** The current format: every record verbatim except for the predecessors default. */
  function CurrentGreeting(raw: RawGreeting): Greeting {
    Imported(raw, raw.card, raw.characters)
  }

  function CurrentGreetings(items: seq<RawGreeting>): (r: seq<Greeting>)
    ensures |r| == |items|
    ensures forall k :: 0 <= k < |items| ==> r[k].id == items[k].id && r[k].successors == items[k].successors
    ensures forall k :: 0 <= k < |items| ==> ExportGreeting(r[k]) == items[k].(predecessors := Some(items[k].predecessors.GetOr([])))
  {
    seq(|items|, k requires 0 <= k < |items| => CurrentGreeting(items[k]))
  }

  /** A stored greeting as the export document holds it. */
  function ExportGreeting(g: Greeting): RawGreeting {
    RawGreeting(g.id, g.name, g.canon, g.au, g.card, g.characters, Some(g.predecessors), g.successors, g.extras)
  }

  function ExportGreetings(gs: seq<Greeting>): (r: seq<RawGreeting>)
    ensures |r| == |gs|
  {
    seq(|gs|, k requires 0 <= k < |gs| => ExportGreeting(gs[k]))
  }

  /** Importing what export wrote gives back the same greetings. */
  lemma ExportThenImport(gs: seq<Greeting>)
    ensures CurrentGreetings(ExportGreetings(gs)) == gs
  {
    var r := CurrentGreetings(ExportGreetings(gs));
    forall k | 0 <= k < |gs| ensures r[k] == gs[k] {
      assert ExportGreetings(gs)[k] == ExportGreeting(gs[k]);
    }
  }

  /** Exporting an imported record gives back the record, with missing predecessors made explicit. */
  lemma ImportThenExport(raw: RawGreeting)
    ensures ExportGreeting(CurrentGreeting(raw)) == raw.(predecessors := Some(raw.predecessors.GetOr([])))
  {
  }

  // ---------------------------------------------------------------------
  // name resolution

  /** `typeof card === 'string' ? cardMap.get(card.toLowerCase()) : card`; a missing key reads as no card. */
  function ResolveCard(card: Option<string>, cardMap: map<string, Id>): (r: Option<Id>)
    ensures r.Some? <==> card.Some? && Lower(card.value) in cardMap
    ensures r.Some? ==> r.value == cardMap[Lower(card.value)]
  {
    match card
    case None => None
    case Some(s) => if Lower(s) in cardMap then Some(cardMap[Lower(s)]) else None
  }

  /**
   * `names.map(n => characterMap.get(n.toLowerCase())).filter(Boolean)`: the
   * mapped ids in order, with missing and empty ones dropped.
   */
  function ResolveCharacters(names: seq<string>, characterMap: map<string, Id>): (r: seq<Id>)
    ensures |r| <= |names|
    ensures forall y :: y in r <==> y != "" && exists n :: n in names && Lower(n) in characterMap && characterMap[Lower(n)] == y
  {
    if names == [] then []
    else
      var rest := ResolveCharacters(names[1..], characterMap);
      var key := Lower(names[0]);
      assert forall n :: n in names[1..] ==> n in names;
      assert forall n :: n in names ==> n == names[0] || n in names[1..];
      assert names[0] in names;
      if key in characterMap && characterMap[key] != "" then
        var r := [characterMap[key]] + rest;
        assert forall y :: y in r <==> y == characterMap[key] || y in rest;
        r
      else rest
  }

  /**
   * The name mapping keeps order and multiplicity: it distributes over
   * concatenation.
   */
  lemma {:induction false} ResolveCharactersAppend(a: seq<string>, b: seq<string>, characterMap: map<string, Id>)
    ensures ResolveCharacters(a + b, characterMap) == ResolveCharacters(a, characterMap) + ResolveCharacters(b, characterMap)
    decreases |a|
  {
    if a != [] {
      assert (a + b)[1..] == a[1..] + b;
      assert (a + b)[0] == a[0];
      ResolveCharactersAppend(a[1..], b, characterMap);
    } else {
      assert a + b == b;
    }
  }

  /** A single name gives its mapped id when that is present and non-empty, and nothing otherwise; with ResolveCharactersAppend this pins down the whole result. */
  lemma ResolveCharactersOne(n: string, characterMap: map<string, Id>)
    ensures ResolveCharacters([n], characterMap) ==
      if Lower(n) in characterMap && characterMap[Lower(n)] != "" then [characterMap[Lower(n)]] else []
  {
  }

  /** The pre-cards format: characters kept, card names resolved. */
  function PreCardsGreetings(items: seq<RawGreeting>, cardMap: map<string, Id>): (r: seq<Greeting>)
    ensures |r| == |items|
    ensures forall k :: 0 <= k < |items| ==> r[k] == CurrentGreetings(items)[k].(card := ResolveCard(items[k].card, cardMap))
  {
    seq(|items|, k requires 0 <= k < |items| => Imported(items[k], ResolveCard(items[k].card, cardMap), items[k].characters))
  }

  /** The legacy format: card and character names both resolved. */
  function LegacyGreetings(items: seq<RawGreeting>, characterMap: map<string, Id>, cardMap: map<string, Id>): (r: seq<Greeting>)
    ensures |r| == |items|
    ensures forall k :: 0 <= k < |items| ==>
      r[k] == CurrentGreetings(items)[k].(card := ResolveCard(items[k].card, cardMap),
                                          characters := ResolveCharacters(items[k].characters, characterMap))
  {
    seq(|items|, k requires 0 <= k < |items| =>
      Imported(items[k], ResolveCard(items[k].card, cardMap), ResolveCharacters(items[k].characters, characterMap)))
  }

  /**
   * `id` is what addCharacter gives for the name `n` while `characters` are
   * stored: the id of the first character whose name matches `n` up to
   * case. When no character matches, `n` has surrounding whitespace and
   * `id` belongs to a character stored under the trimmed name, the one made
   * for it.
   */
  predicate CharacterFor(characters: seq<Character>, n: string, id: Id) {
    var k := FindCharacterByName(characters, n);
    if 0 <= k then characters[k].id == id
    else Trim(Lower(n)) != Lower(n) && exists j :: 0 <= j < |characters| && characters[j].id == id && NameKey(characters[j].name) == NameKey(n)
  }

  /** The same for addCard. */
  predicate CardFor(cards: seq<Card>, n: string, id: Id) {
    var k := FindCardByName(cards, n);
    if 0 <= k then cards[k].id == id
    else Trim(Lower(n)) != Lower(n) && exists j :: 0 <= j < |cards| && cards[j].id == id && NameKey(cards[j].name) == NameKey(n)
  }

  /** Every key of the character map is lower-cased and holds the id addCharacter gives for it. */
  predicate CharacterKeysFirst(characterMap: map<string, Id>, characters: seq<Character>) {
    forall key :: key in characterMap ==> Lower(key) == key && CharacterFor(characters, key, characterMap[key])
  }

  /** Every key of the card map is non-empty, lower-cased, and holds the id addCard gives for it. */
  predicate CardKeysFirst(cardMap: map<string, Id>, cards: seq<Card>) {
    forall key :: key in cardMap ==> key != "" && Lower(key) == key && CardFor(cards, key, cardMap[key])
  }

  /** What a name resolves to depends only on its lower-cased form. */
  lemma CharacterForLower(characters: seq<Character>, n: string, id: Id)
    requires CharacterFor(characters, Lower(n), id)
    ensures CharacterFor(characters, n, id)
  {
    LowerIdempotent(n);
    FindCharacterByNameLower(characters, Lower(n), n);
  }

  lemma CardForLower(cards: seq<Card>, n: string, id: Id)
    requires CardFor(cards, Lower(n), id)
    ensures CardFor(cards, n, id)
  {
    LowerIdempotent(n);
    FindCardByNameLower(cards, Lower(n), n);
  }

  /** A name that trimming changes up to case has surrounding whitespace, and its trimmed form has the same key. */
  lemma PaddedName(name: string)
    ensures Lower(Trim(name)) != Lower(name) ==> Trim(Lower(name)) != Lower(name)
    ensures NameKey(Trim(name)) == NameKey(Lower(name))
  {
    LowerTrimCommute(name);
    NameKeyOfTrim(name);
    LowerIdempotent(name);
  }

  /** addCharacter gives for `name`, afterwards, the character it returned. */
  lemma CharacterForAdded(characters: seq<Character>, name: string, minted: Id)
    ensures var r := AddCharacterTo(characters, name, minted); CharacterFor(r.1, Lower(name), r.0.id)
  {
    var r := AddCharacterTo(characters, name, minted);
    LowerIdempotent(name);
    FindCharacterByNameLower(r.1, Lower(name), name);
    if FindCharacterByName(characters, name) < 0 {
      var c := r.0;
      assert r.1 == characters + [c] && c.name == Trim(name);
      if Lower(c.name) == Lower(name) {
        FindCharacterAfterAppend(characters, c, name);
      } else {
        PaddedName(name);
        assert r.1[|characters|] == c;
      }
    }
  }


  /** addCharacter leaves what other lower-cased keys resolve to as it was. */
  lemma CharacterForKept(characters: seq<Character>, name: string, minted: Id, key: string, id: Id)
    requires Lower(key) == key && CharacterFor(characters, key, id)
    ensures CharacterFor(AddCharacterTo(characters, name, minted).1, key, id)
  {
    var r := AddCharacterTo(characters, name, minted);
    if FindCharacterByName(characters, name) < 0 {
      if FindCharacterByName(characters, key) >= 0 {
        FindCharacterByNameGrow(characters, r.1, key);
      } else {
        LowerOfTrimTrimmed(name);
        FindCharacterByNameMiss(characters, r.0, key);
        var j :| 0 <= j < |characters| && characters[j].id == id && NameKey(characters[j].name) == NameKey(key);
        assert r.1[j] == characters[j];
      }
    }
  }

  lemma CardForAdded(cards: seq<Card>, name: string, minted: Id)
    ensures var r := AddCardTo(cards, name, "", minted); CardFor(r.1, Lower(name), r.0.id)
  {
    var r := AddCardTo(cards, name, "", minted);
    LowerIdempotent(name);
    FindCardByNameLower(r.1, Lower(name), name);
    if FindCardByName(cards, name) < 0 {
      var c := r.0;
      assert r.1 == cards + [c] && c.name == Trim(name);
      if Lower(c.name) == Lower(name) {
        FindCardAfterAppend(cards, c, name);
      } else {
        PaddedName(name);
        assert r.1[|cards|] == c;
      }
    }
  }


  lemma CardForKept(cards: seq<Card>, name: string, minted: Id, key: string, id: Id)
    requires Lower(key) == key && CardFor(cards, key, id)
    ensures CardFor(AddCardTo(cards, name, "", minted).1, key, id)
  {
    var r := AddCardTo(cards, name, "", minted);
    if FindCardByName(cards, name) < 0 {
      if FindCardByName(cards, key) >= 0 {
        FindCardByNameGrow(cards, r.1, key);
      } else {
        LowerOfTrimTrimmed(name);
        FindCardByNameMiss(cards, r.0, key);
        var j :| 0 <= j < |cards| && cards[j].id == id && NameKey(cards[j].name) == NameKey(key);
        assert r.1[j] == cards[j];
      }
    }
  }

  /** Registering what addCharacter returns under a new key keeps every key agreeing with addCharacter. */
  lemma CharacterKeysFirstAdd(characterMap: map<string, Id>, characters: seq<Character>, name: string, minted: Id)
    requires CharacterKeysFirst(characterMap, characters) && Lower(name) !in characterMap
    ensures var r := AddCharacterTo(characters, name, minted);
      CharacterKeysFirst(characterMap[Lower(name) := r.0.id], r.1)
  {
    var r := AddCharacterTo(characters, name, minted);
    var m := characterMap[Lower(name) := r.0.id];
    forall key | key in m ensures Lower(key) == key && CharacterFor(r.1, key, m[key]) {
      if key == Lower(name) {
        LowerIdempotent(name);
        CharacterForAdded(characters, name, minted);
      } else {
        CharacterForKept(characters, name, minted, key, characterMap[key]);
      }
    }
  }

  lemma CardKeysFirstAdd(cardMap: map<string, Id>, cards: seq<Card>, name: string, minted: Id)
    requires CardKeysFirst(cardMap, cards) && name != "" && Lower(name) !in cardMap
    ensures var r := AddCardTo(cards, name, "", minted);
      CardKeysFirst(cardMap[Lower(name) := r.0.id], r.1)
  {
    var r := AddCardTo(cards, name, "", minted);
    var m := cardMap[Lower(name) := r.0.id];
    forall key | key in m ensures key != "" && Lower(key) == key && CardFor(r.1, key, m[key]) {
      if key == Lower(name) {
        LowerIdempotent(name);
        assert |Lower(name)| == |name|;
        CardForAdded(cards, name, minted);
      } else {
        CardForKept(cards, name, minted, key, cardMap[key]);
      }
    }
  }

  /** Once a key agrees with addCharacter, it keeps pointing at a character that was stored before the import, when one matched. */
  lemma CharacterKeysReuse(characterMap: map<string, Id>, before: seq<Character>, characters: seq<Character>)
    requires CharacterKeysFirst(characterMap, characters) && before <= characters
    ensures forall key :: key in characterMap && 0 <= FindCharacterByName(before, key) ==>
      characterMap[key] == before[FindCharacterByName(before, key)].id
  {
    forall key | key in characterMap && 0 <= FindCharacterByName(before, key)
      ensures characterMap[key] == before[FindCharacterByName(before, key)].id
    {
      FindCharacterByNameGrow(before, characters, key);
    }
  }

  lemma CardKeysReuse(cardMap: map<string, Id>, before: seq<Card>, cards: seq<Card>)
    requires CardKeysFirst(cardMap, cards) && before <= cards
    ensures forall key :: key in cardMap && 0 <= FindCardByName(before, key) ==>
      cardMap[key] == before[FindCardByName(before, key)].id
  {
    forall key | key in cardMap && 0 <= FindCardByName(before, key)
      ensures cardMap[key] == before[FindCardByName(before, key)].id
    {
      FindCardByNameGrow(before, cards, key);
    }
  }

  /**
   * The character at `i` was made by the import for one of `names`: it
   * carries that name trimmed, and no character before it matches the name
   * up to case.
   */
  predicate MadeCharacter(characters: seq<Character>, i: int, names: seq<string>)
    requires 0 <= i < |characters|
  {
    exists n :: n in names && characters[i].name == Trim(n) && FindCharacterByName(characters[..i], n) == -1
  }

  /** The card at `i` was made for one of `names`: trimmed name, no url, and no earlier card matches the name up to case. */
  predicate MadeCard(cards: seq<Card>, i: int, names: seq<string>)
    requires 0 <= i < |cards|
  {
    exists n :: n in names && cards[i].name == Trim(n) && cards[i].url == "" && FindCardByName(cards[..i], n) == -1
  }

  predicate CharactersMade(characters: seq<Character>, from: int, names: seq<string>) {
    forall i :: 0 <= from <= i < |characters| ==> MadeCharacter(characters, i, names)
  }

  predicate CardsMade(cards: seq<Card>, from: int, names: seq<string>) {
    forall i :: 0 <= from <= i < |cards| ==> MadeCard(cards, i, names)
  }

  /** One more name, through addCharacter or skipped: everything appended since `base` is still made for a name. */
  lemma CharactersMadeStep(base: int, before: seq<Character>, after: seq<Character>, a: seq<string>, x: string, minted: Id)
    requires 0 <= base <= |before| && CharactersMade(before, base, a)
    requires after == before || after == AddCharacterTo(before, x, minted).1
    ensures CharactersMade(after, base, a + [x])
  {
    forall i | base <= i < |after| ensures MadeCharacter(after, i, a + [x]) {
      if i < |before| {
        assert MadeCharacter(before, i, a);
        var n :| n in a && before[i].name == Trim(n) && FindCharacterByName(before[..i], n) == -1;
        assert after[..i] == before[..i] && after[i] == before[i];
        assert n in a + [x];
      } else {
        assert after[..i] == before && x in a + [x];
      }
    }
  }

  lemma CardsMadeStep(base: int, before: seq<Card>, after: seq<Card>, a: seq<string>, x: string, minted: Id)
    requires 0 <= base <= |before| && CardsMade(before, base, a)
    requires after == before || after == AddCardTo(before, x, "", minted).1
    ensures CardsMade(after, base, a + [x])
  {
    assert Trim("") == "";
    forall i | base <= i < |after| ensures MadeCard(after, i, a + [x]) {
      if i < |before| {
        assert MadeCard(before, i, a);
        var n :| n in a && before[i].name == Trim(n) && before[i].url == "" && FindCardByName(before[..i], n) == -1;
        assert after[..i] == before[..i] && after[i] == before[i];
        assert n in a + [x];
      } else {
        assert after[..i] == before && x in a + [x];
      }
    }
  }

  // ---------------------------------------------------------------------
  // the import loops, as values

  /**
   * One name through the character loop of a legacy import: a name whose
   * lower-cased form is not yet a key gets, under that key, the character
   * addCharacter returns for it. `minted` is the id a new character gets.
   */
  function RegisterCharacterTo(characters: seq<Character>, characterMap: map<string, Id>, name: string, minted: Id): (r: (seq<Character>, map<string, Id>))
    ensures r.1.Keys == characterMap.Keys + {Lower(name)}
    ensures forall key :: key in characterMap ==> r.1[key] == characterMap[key]
    ensures characters <= r.0 && |r.0| <= |characters| + 1
    ensures |r.0| > |characters| ==> Lower(name) !in characterMap
  {
    if Lower(name) in characterMap then (characters, characterMap)
    else
      var a := AddCharacterTo(characters, name, minted);
      (a.1, characterMap[Lower(name) := a.0.id])
  }

  /** The character loop over `names` in order; the name at `j` mints `minted[j]` if it adds a character. */
  function RegisterCharactersTo(characters: seq<Character>, characterMap: map<string, Id>, names: seq<string>, minted: seq<Id>): (seq<Character>, map<string, Id>)
    requires |minted| == |names|
    decreases |names|
  {
    if names == [] then (characters, characterMap)
    else
      var n := |names| - 1;
      var p := RegisterCharactersTo(characters, characterMap, names[..n], minted[..n]);
      RegisterCharacterTo(p.0, p.1, names[n], minted[n])
  }

  /** One card name through a card loop: a name whose lower-cased form is not yet a key gets, under that key, the card addCard returns for it. */
  function RegisterCardTo(cards: seq<Card>, cardMap: map<string, Id>, name: string, minted: Id): (r: (seq<Card>, map<string, Id>))
    ensures r.1.Keys == cardMap.Keys + {Lower(name)}
    ensures forall key :: key in cardMap ==> r.1[key] == cardMap[key]
    ensures cards <= r.0 && |r.0| <= |cards| + 1
    ensures |r.0| > |cards| ==> Lower(name) !in cardMap
  {
    if Lower(name) in cardMap then (cards, cardMap)
    else
      var a := AddCardTo(cards, name, "", minted);
      (a.1, cardMap[Lower(name) := a.0.id])
  }

  /** A card loop over the non-empty card names in order; the name at `j` mints `minted[j]` if it adds a card. */
  function RegisterCardsTo(cards: seq<Card>, cardMap: map<string, Id>, names: seq<string>, minted: seq<Id>): (seq<Card>, map<string, Id>)
    requires |minted| == |names|
    decreases |names|
  {
    if names == [] then (cards, cardMap)
    else
      var n := |names| - 1;
      var p := RegisterCardsTo(cards, cardMap, names[..n], minted[..n]);
      RegisterCardTo(p.0, p.1, names[n], minted[n])
  }

  /** One more name through the character loop. */
  lemma RegisterCharactersToSnoc(characters: seq<Character>, characterMap: map<string, Id>, a: seq<string>, x: string, ids: seq<Id>, id: Id)
    requires |ids| == |a|
    ensures var p := RegisterCharactersTo(characters, characterMap, a, ids);
      RegisterCharactersTo(characters, characterMap, a + [x], ids + [id]) == RegisterCharacterTo(p.0, p.1, x, id)
  {
    assert (a + [x])[..|a|] == a && (ids + [id])[..|a|] == ids;
  }

  /** One more name through a card loop. */
  lemma RegisterCardsToSnoc(cards: seq<Card>, cardMap: map<string, Id>, a: seq<string>, x: string, ids: seq<Id>, id: Id)
    requires |ids| == |a|
    ensures var p := RegisterCardsTo(cards, cardMap, a, ids);
      RegisterCardsTo(cards, cardMap, a + [x], ids + [id]) == RegisterCardTo(p.0, p.1, x, id)
  {
    assert (a + [x])[..|a|] == a && (ids + [id])[..|a|] == ids;
  }

  /** The loop over the names up to and including `j`. */
  lemma RegisterCharactersToNext(characters: seq<Character>, characterMap: map<string, Id>, names: seq<string>, j: int, ids: seq<Id>, id: Id)
    requires 0 <= j < |names| && |ids| == j
    ensures var p := RegisterCharactersTo(characters, characterMap, names[..j], ids);
      RegisterCharactersTo(characters, characterMap, names[..j + 1], ids + [id]) == RegisterCharacterTo(p.0, p.1, names[j], id)
  {
    assert names[..j + 1] == names[..j] + [names[j]];
    RegisterCharactersToSnoc(characters, characterMap, names[..j], names[j], ids, id);
  }

  /** Running the character loop over `a + b` is running it over `a`, then over `b` from where it stopped. */
  lemma {:induction false} RegisterCharactersToAppend(characters: seq<Character>, characterMap: map<string, Id>,
                                                      a: seq<string>, b: seq<string>, x: seq<Id>, y: seq<Id>)
    requires |x| == |a| && |y| == |b|
    ensures var p := RegisterCharactersTo(characters, characterMap, a, x);
      RegisterCharactersTo(characters, characterMap, a + b, x + y) == RegisterCharactersTo(p.0, p.1, b, y)
    decreases |b|
  {
    if b == [] {
      assert a + b == a && x + y == x;
    } else {
      var n := |b| - 1;
      var b', y' := b[..n], y[..n];
      assert a + b == (a + b') + [b[n]] && x + y == (x + y') + [y[n]];
      assert b == b' + [b[n]] && y == y' + [y[n]];
      var p := RegisterCharactersTo(characters, characterMap, a, x);
      RegisterCharactersToSnoc(characters, characterMap, a + b', b[n], x + y', y[n]);
      RegisterCharactersToAppend(characters, characterMap, a, b', x, y');
      RegisterCharactersToSnoc(p.0, p.1, b', b[n], y', y[n]);
    }
  }

  /** The character loop's keys are the old ones and those of `names`. */
  lemma {:induction false} RegisterCharactersToKeys(characters: seq<Character>, characterMap: map<string, Id>, names: seq<string>, minted: seq<Id>)
    requires |minted| == |names|
    ensures RegisterCharactersTo(characters, characterMap, names, minted).1.Keys == characterMap.Keys + NameKeys(names)
    decreases |names|
  {
    if names != [] {
      var n := |names| - 1;
      var a, x := names[..n], names[n];
      assert names == a + [x];
      NamesSnoc(a, x);
      RegisterCharactersToKeys(characters, characterMap, a, minted[..n]);
    }
  }

  /** Keys the map held before the loop keep their ids. */
  lemma {:induction false} RegisterCharactersToKept(characters: seq<Character>, characterMap: map<string, Id>, names: seq<string>, minted: seq<Id>)
    requires |minted| == |names|
    ensures var r := RegisterCharactersTo(characters, characterMap, names, minted);
      forall key :: key in characterMap ==> key in r.1 && r.1[key] == characterMap[key]
    decreases |names|
  {
    if names != [] {
      var n := |names| - 1;
      RegisterCharactersToKept(characters, characterMap, names[..n], minted[..n]);
    }
  }


  /** The loop only appends characters, at most one per key that was new. */
  lemma {:induction false} RegisterCharactersToGrowth(characters: seq<Character>, characterMap: map<string, Id>, names: seq<string>, minted: seq<Id>)
    requires |minted| == |names|
    ensures var r := RegisterCharactersTo(characters, characterMap, names, minted);
      characters <= r.0 && |r.0| - |characters| <= |NameKeys(names) - characterMap.Keys|
    decreases |names|
  {
    if names != [] {
      var n := |names| - 1;
      var a, x := names[..n], names[n];
      assert names == a + [x];
      NamesSnoc(a, x);
      RegisterCharactersToGrowth(characters, characterMap, a, minted[..n]);
      RegisterCharactersToKeys(characters, characterMap, a, minted[..n]);
      var p := RegisterCharactersTo(characters, characterMap, a, minted[..n]);
      var r := RegisterCharacterTo(p.0, p.1, x, minted[n]);
      KeyCountStep(characterMap.Keys, NameKeys(a), Lower(x), |p.0| - |characters|, |r.0| - |characters|);
    }
  }


  /** Every character the loop appends was made for one of `names` that no character before it matched. */
  lemma {:induction false} RegisterCharactersToMade(characters: seq<Character>, characterMap: map<string, Id>, names: seq<string>, minted: seq<Id>)
    requires |minted| == |names|
    ensures var r := RegisterCharactersTo(characters, characterMap, names, minted);
      characters <= r.0 && CharactersMade(r.0, |characters|, names)
    decreases |names|
  {
    if names != [] {
      var n := |names| - 1;
      assert names == names[..n] + [names[n]];
      RegisterCharactersToMade(characters, characterMap, names[..n], minted[..n]);
      var p := RegisterCharactersTo(characters, characterMap, names[..n], minted[..n]);
      CharactersMadeStep(|characters|, p.0, RegisterCharacterTo(p.0, p.1, names[n], minted[n]).0, names[..n], names[n], minted[n]);
    }
  }

  /** When every old key agrees with addCharacter, every key does after the loop. */
  lemma {:induction false} RegisterCharactersToFirst(characters: seq<Character>, characterMap: map<string, Id>, names: seq<string>, minted: seq<Id>)
    requires |minted| == |names| && CharacterKeysFirst(characterMap, characters)
    ensures var r := RegisterCharactersTo(characters, characterMap, names, minted);
      CharacterKeysFirst(r.1, r.0)
    decreases |names|
  {
    if names != [] {
      var n := |names| - 1;
      RegisterCharactersToFirst(characters, characterMap, names[..n], minted[..n]);
      var p := RegisterCharactersTo(characters, characterMap, names[..n], minted[..n]);
      if Lower(names[n]) !in p.1 {
        CharacterKeysFirstAdd(p.1, p.0, names[n], minted[n]);
      }
    }
  }

  lemma {:induction false} RegisterCardsToKeys(cards: seq<Card>, cardMap: map<string, Id>, names: seq<string>, minted: seq<Id>)
    requires |minted| == |names|
    ensures RegisterCardsTo(cards, cardMap, names, minted).1.Keys == cardMap.Keys + NameKeys(names)
    decreases |names|
  {
    if names != [] {
      var n := |names| - 1;
      var a, x := names[..n], names[n];
      assert names == a + [x];
      NamesSnoc(a, x);
      RegisterCardsToKeys(cards, cardMap, a, minted[..n]);
    }
  }

  /** Keys the map held before the loop keep their ids. */
  lemma {:induction false} RegisterCardsToKept(cards: seq<Card>, cardMap: map<string, Id>, names: seq<string>, minted: seq<Id>)
    requires |minted| == |names|
    ensures var r := RegisterCardsTo(cards, cardMap, names, minted);
      forall key :: key in cardMap ==> key in r.1 && r.1[key] == cardMap[key]
    decreases |names|
  {
    if names != [] {
      var n := |names| - 1;
      RegisterCardsToKept(cards, cardMap, names[..n], minted[..n]);
    }
  }


  /** The loop only appends cards, at most one per key that was new. */
  lemma {:induction false} RegisterCardsToGrowth(cards: seq<Card>, cardMap: map<string, Id>, names: seq<string>, minted: seq<Id>)
    requires |minted| == |names|
    ensures var r := RegisterCardsTo(cards, cardMap, names, minted);
      cards <= r.0 && |r.0| - |cards| <= |NameKeys(names) - cardMap.Keys|
    decreases |names|
  {
    if names != [] {
      var n := |names| - 1;
      var a, x := names[..n], names[n];
      assert names == a + [x];
      NamesSnoc(a, x);
      RegisterCardsToGrowth(cards, cardMap, a, minted[..n]);
      RegisterCardsToKeys(cards, cardMap, a, minted[..n]);
      var p := RegisterCardsTo(cards, cardMap, a, minted[..n]);
      var r := RegisterCardTo(p.0, p.1, x, minted[n]);
      KeyCountStep(cardMap.Keys, NameKeys(a), Lower(x), |p.0| - |cards|, |r.0| - |cards|);
    }
  }


  /** Every card the loop appends was made for one of `names` that no card before it matched, and has no url. */
  lemma {:induction false} RegisterCardsToMade(cards: seq<Card>, cardMap: map<string, Id>, names: seq<string>, minted: seq<Id>)
    requires |minted| == |names|
    ensures var r := RegisterCardsTo(cards, cardMap, names, minted);
      cards <= r.0 && CardsMade(r.0, |cards|, names)
    decreases |names|
  {
    if names != [] {
      var n := |names| - 1;
      assert names == names[..n] + [names[n]];
      RegisterCardsToMade(cards, cardMap, names[..n], minted[..n]);
      var p := RegisterCardsTo(cards, cardMap, names[..n], minted[..n]);
      CardsMadeStep(|cards|, p.0, RegisterCardTo(p.0, p.1, names[n], minted[n]).0, names[..n], names[n], minted[n]);
    }
  }

  /** When every old key agrees with addCard and no name is empty, every key does after the loop. */
  lemma {:induction false} RegisterCardsToFirst(cards: seq<Card>, cardMap: map<string, Id>, names: seq<string>, minted: seq<Id>)
    requires |minted| == |names| && CardKeysFirst(cardMap, cards)
    requires forall j :: 0 <= j < |names| ==> names[j] != ""
    ensures var r := RegisterCardsTo(cards, cardMap, names, minted);
      CardKeysFirst(r.1, r.0)
    decreases |names|
  {
    if names != [] {
      var n := |names| - 1;
      RegisterCardsToFirst(cards, cardMap, names[..n], minted[..n]);
      var p := RegisterCardsTo(cards, cardMap, names[..n], minted[..n]);
      if Lower(names[n]) !in p.1 {
        CardKeysFirstAdd(p.1, p.0, names[n], minted[n]);
      }
    }
  }

  /** The card loop visited this record: a non-empty card name has its key. */
  predicate CardCovered(raw: RawGreeting, cardMap: map<string, Id>) {
    raw.card.Some? && raw.card.value != "" ==> Lower(raw.card.value) in cardMap
  }

  // ---------------------------------------------------------------------
  // the names a document carries, and the keys and names made from them

  /** Every character name the records list, record by record. */
  function CharacterNames(items: seq<RawGreeting>): seq<string>
  {
    if items == [] then [] else items[0].characters + CharacterNames(items[1..])
  }

  /** Every non-empty card name the records carry, record by record. */
  function CardNames(items: seq<RawGreeting>): seq<string>
  {
    if items == [] then []
    else (if items[0].card.Some? && items[0].card.value != "" then [items[0].card.value] else []) + CardNames(items[1..])
  }

  /** The lower-cased forms of `names`: the keys the import loops make for them. */
  function NameKeys(names: seq<string>): set<string>
  {
    if names == [] then {} else {Lower(names[0])} + NameKeys(names[1..])
  }

  /** A key comes from a name, and only from one of `names`. */
  lemma {:induction false} NameKeysMembers(names: seq<string>, key: string)
    ensures key in NameKeys(names) <==> exists n :: n in names && Lower(n) == key
    decreases |names|
  {
    if names != [] {
      NameKeysMembers(names[1..], key);
      if key in NameKeys(names[1..]) {
        var n :| n in names[1..] && Lower(n) == key;
        assert n in names;
      } else if key == Lower(names[0]) {
        assert names[0] in names;
      }
    }
  }

  /** A card name comes from the card of some record. */
  lemma {:induction false} CardNamesMembers(items: seq<RawGreeting>, n: string)
    ensures n in CardNames(items) <==> exists k :: 0 <= k < |items| && items[k].card == Some(n) && n != ""
    decreases |items|
  {
    if items != [] {
      CardNamesMembers(items[1..], n);
      if n in CardNames(items[1..]) {
        var k :| 0 <= k < |items[1..]| && items[1..][k].card == Some(n) && n != "";
        assert items[k + 1].card == Some(n);
      }
    }
  }

  /** A character name comes from the list of some record. */
  lemma {:induction false} CharacterNamesMembers(items: seq<RawGreeting>, n: string)
    ensures n in CharacterNames(items) <==> exists k :: 0 <= k < |items| && n in items[k].characters
    decreases |items|
  {
    if items != [] {
      CharacterNamesMembers(items[1..], n);
      if n in CharacterNames(items[1..]) {
        var k :| 0 <= k < |items[1..]| && n in items[1..][k].characters;
        assert items[k + 1] == items[1..][k];
      }
    }
  }

  /** Each record's non-empty card name has its key among the document's card keys. */
  lemma CardNamesCover(items: seq<RawGreeting>, k: int)
    requires 0 <= k < |items|
    ensures items[k].card.Some? && items[k].card.value != "" ==> Lower(items[k].card.value) in NameKeys(CardNames(items))
  {
    var card := items[k].card;
    if card.Some? && card.value != "" {
      CardNamesMembers(items, card.value);
      NameKeysMembers(CardNames(items), Lower(card.value));
    }
  }

  /** Each name a record lists has its key among the document's character keys. */
  lemma CharacterNamesCover(items: seq<RawGreeting>, k: int)
    requires 0 <= k < |items|
    ensures forall n :: n in items[k].characters ==> Lower(n) in NameKeys(CharacterNames(items))
  {
    forall n | n in items[k].characters ensures Lower(n) in NameKeys(CharacterNames(items)) {
      CharacterNamesMembers(items, n);
      NameKeysMembers(CharacterNames(items), Lower(n));
    }
  }

  lemma {:induction false} NameKeysAppend(a: seq<string>, b: seq<string>)
    ensures NameKeys(a + b) == NameKeys(a) + NameKeys(b)
    decreases |a|
  {
    if a == [] {
      assert a + b == b;
    } else {
      assert (a + b)[0] == a[0] && (a + b)[1..] == a[1..] + b;
      NameKeysAppend(a[1..], b);
    }
  }

  /** One more name adds its key, and nothing else. */
  lemma NamesSnoc(a: seq<string>, x: string)
    ensures NameKeys(a + [x]) == NameKeys(a) + {Lower(x)}
  {
    NameKeysAppend(a, [x]);
    assert [x][1..] == [];
  }

  /** The names of the records up to and including `k`. */
  lemma {:induction false} CharacterNamesSnoc(items: seq<RawGreeting>, k: int)
    requires 0 <= k < |items|
    ensures CharacterNames(items[..k + 1]) == CharacterNames(items[..k]) + items[k].characters
    decreases k
  {
    if k == 0 {
      assert items[..1][1..] == [];
    } else {
      var t := items[1..];
      assert items[..k + 1][1..] == t[..k] && items[..k][1..] == t[..k - 1];
      CharacterNamesSnoc(t, k - 1);
    }
  }

  lemma {:induction false} CardNamesSnoc(items: seq<RawGreeting>, k: int)
    requires 0 <= k < |items|
    ensures CardNames(items[..k + 1]) == CardNames(items[..k]) +
      if items[k].card.Some? && items[k].card.value != "" then [items[k].card.value] else []
    decreases k
  {
    if k == 0 {
      assert items[..1][1..] == [];
    } else {
      var t := items[1..];
      assert items[..k + 1][1..] == t[..k] && items[..k][1..] == t[..k - 1];
      CardNamesSnoc(t, k - 1);
    }
  }

  /**
   * What a resolved card reference means: no name, or an empty one, gives
   * no card; any other name the card addCard returns for it, the first
   * stored card whose name matches up to case.
   */
  predicate CardResolvedTo(card: Option<string>, resolved: Option<Id>, cards: seq<Card>) {
    match card
    case None => resolved == None
    case Some(s) =>
      if s == "" then resolved == None
      else resolved.Some? && CardFor(cards, s, resolved.value)
  }

  /**
   * With a card map that agrees with addCard and covers every record, each
   * imported card reference denotes the card addCard returns for its name.
   */
  lemma CardResolution(items: seq<RawGreeting>, cardMap: map<string, Id>, cards: seq<Card>, k: int)
    requires CardKeysFirst(cardMap, cards) && 0 <= k < |items| && CardCovered(items[k], cardMap)
    ensures CardResolvedTo(items[k].card, ResolveCard(items[k].card, cardMap), cards)
  {
    match items[k].card
    case None =>
    case Some(s) =>
      if s == "" {
        assert Lower(s) == "";
      } else {
        CardForLower(cards, s, cardMap[Lower(s)]);
      }
  }

  /** Names that agree up to case resolve to the same card id. */
  lemma ResolveCardConsistent(a: string, b: string, cardMap: map<string, Id>)
    requires Lower(a) == Lower(b)
    ensures ResolveCard(Some(a), cardMap) == ResolveCard(Some(b), cardMap)
  {
  }

  /** Under a pre-cards import every record keeps its own fields and characters; only its card is resolved, to the card addCard returns. */
  lemma PreCardsResolution(items: seq<RawGreeting>, cardMap: map<string, Id>, cards: seq<Card>)
    requires CardKeysFirst(cardMap, cards)
    requires forall k :: 0 <= k < |items| ==> CardCovered(items[k], cardMap)
    ensures var r := PreCardsGreetings(items, cardMap);
      forall k :: 0 <= k < |items| ==>
        && r[k] == CurrentGreeting(items[k]).(card := r[k].card)
        && CardResolvedTo(items[k].card, r[k].card, cards)
  {
    forall k | 0 <= k < |items| ensures CardResolvedTo(items[k].card, PreCardsGreetings(items, cardMap)[k].card, cards) {
      CardResolution(items, cardMap, cards, k);
    }
  }

  /**
   * Under a legacy import each name a record lists resolves to the
   * character addCharacter returns for it; the record's list holds only
   * such ids, and every one of them that is non-empty.
   */
  lemma CharacterResolution(names: seq<string>, characterMap: map<string, Id>, characters: seq<Character>)
    requires CharacterKeysFirst(characterMap, characters)
    requires forall n :: n in names ==> Lower(n) in characterMap
    ensures forall n :: n in names ==> CharacterFor(characters, n, characterMap[Lower(n)])
    ensures forall y :: y in ResolveCharacters(names, characterMap) ==> exists n :: n in names && CharacterFor(characters, n, y)
    ensures forall n :: n in names && characterMap[Lower(n)] != "" ==> characterMap[Lower(n)] in ResolveCharacters(names, characterMap)
  {
    forall n | n in names ensures CharacterFor(characters, n, characterMap[Lower(n)]) {
      CharacterForLower(characters, n, characterMap[Lower(n)]);
    }
    var r := ResolveCharacters(names, characterMap);
    forall y | y in r ensures exists n :: n in names && CharacterFor(characters, n, y) {
      var n :| n in names && Lower(n) in characterMap && characterMap[Lower(n)] == y;
      assert CharacterFor(characters, n, y);
    }
  }

  /** A key that is neither among `keys` nor in `start` adds one to the keys beyond `start`. */
  lemma NewKeyCounts(start: set<string>, keys: set<string>, key: string)
    requires key !in keys && key !in start
    ensures |(keys + {key}) - start| == |keys - start| + 1
  {
    assert (keys + {key}) - start == (keys - start) + {key};
  }

  /** A step that adds at most one entity, and one only for a new key, keeps the count within the keys beyond `start`. */
  lemma KeyCountStep(start: set<string>, keys: set<string>, key: string, before: int, after: int)
    requires before <= |keys - start| && after <= before + 1
    requires after > before ==> key !in start + keys
    ensures after <= |(keys + {key}) - start|
  {
    if after > before {
      NewKeyCounts(start, keys, key);
    } else {
      SubsetCounts(keys - start, (keys + {key}) - start);
    }
  }

  lemma SubsetCounts(a: set<string>, b: set<string>)
    requires a <= b
    ensures |a| <= |b|
  {
    assert b == a + (b - a) && a * (b - a) == {};
  }

  /** No card name a document carries is empty. */
  lemma CardNamesNonEmpty(items: seq<RawGreeting>)
    ensures forall j :: 0 <= j < |CardNames(items)| ==> CardNames(items)[j] != ""
  {
    forall j | 0 <= j < |CardNames(items)| ensures CardNames(items)[j] != "" {
      CardNamesMembers(items, CardNames(items)[j]);
    }
  }

  // ---------------------------------------------------------------------
  // what the two converting imports leave

  /**
   * The state a pre-cards import leaves: the cards and card map the card
   * loop builds from no cards over the records' card names, minting
   * `minted`, and the records with their card names resolved.
   */
  predicate PreCardsImported(items: seq<RawGreeting>, gs: seq<Greeting>, cards: seq<Card>, cardMap: map<string, Id>, minted: seq<Id>) {
    && |minted| == |CardNames(items)|
    && (cards, cardMap) == RegisterCardsTo([], map[], CardNames(items), minted)
    && gs == PreCardsGreetings(items, cardMap)
  }

  /**
   * The state a legacy import leaves over `characters0` and `cards0`: the
   * two loops over the records' character and card names, and the records
   * with both kinds of names resolved.
   */
  predicate LegacyImported(items: seq<RawGreeting>, characters0: seq<Character>, cards0: seq<Card>,
                           gs: seq<Greeting>, characters: seq<Character>, cards: seq<Card>,
                           characterMap: map<string, Id>, cardMap: map<string, Id>, characterIds: seq<Id>, cardIds: seq<Id>) {
    && |characterIds| == |CharacterNames(items)| && |cardIds| == |CardNames(items)|
    && (characters, characterMap) == RegisterCharactersTo(characters0, map[], CharacterNames(items), characterIds)
    && (cards, cardMap) == RegisterCardsTo(cards0, map[], CardNames(items), cardIds)
    && gs == LegacyGreetings(items, characterMap, cardMap)
  }

  /**
   * A pre-cards import keys the card map by exactly the lower-cased card
   * names, makes at most one card per key, each for a name no earlier card
   * matched, and resolves every record's card to the card addCard returns
   * for its name; everything else in a record is kept.
   */
  lemma PreCardsImportSound(items: seq<RawGreeting>, gs: seq<Greeting>, cards: seq<Card>, cardMap: map<string, Id>, minted: seq<Id>)
    requires PreCardsImported(items, gs, cards, cardMap, minted)
    ensures cardMap.Keys == NameKeys(CardNames(items)) && |cards| <= |cardMap.Keys|
    ensures CardKeysFirst(cardMap, cards) && CardsMade(cards, 0, CardNames(items))
    ensures |gs| == |items|
    ensures forall k :: 0 <= k < |items| ==>
      && gs[k] == CurrentGreeting(items[k]).(card := gs[k].card)
      && CardResolvedTo(items[k].card, gs[k].card, cards)
  {
    var names := CardNames(items);
    RegisterCardsToKeys([], map[], names, minted);
    RegisterCardsToGrowth([], map[], names, minted);
    RegisterCardsToMade([], map[], names, minted);
    CardNamesNonEmpty(items);
    RegisterCardsToFirst([], map[], names, minted);
    forall k | 0 <= k < |items| ensures CardCovered(items[k], cardMap) {
      CardNamesCover(items, k);
    }
    PreCardsResolution(items, cardMap, cards);
  }

  /**
   * The character loop of a legacy import, from an empty map over the
   * stored characters: keys exactly the lower-cased names, only appends,
   * at most one character per key, each made for a name nothing before it
   * matched; every key agrees with addCharacter, so a name some stored
   * character matches up to case maps to the first such character.
   */
  lemma LegacyCharactersSound(characters0: seq<Character>, names: seq<string>, ids: seq<Id>)
    requires |ids| == |names|
    ensures var r := RegisterCharactersTo(characters0, map[], names, ids);
      && r.1.Keys == NameKeys(names)
      && characters0 <= r.0 && |r.0| - |characters0| <= |r.1.Keys|
      && CharactersMade(r.0, |characters0|, names)
      && CharacterKeysFirst(r.1, r.0)
      && (forall key :: key in r.1 && 0 <= FindCharacterByName(characters0, key) ==>
            r.1[key] == characters0[FindCharacterByName(characters0, key)].id)
  {
    var r := RegisterCharactersTo(characters0, map[], names, ids);
    RegisterCharactersToKeys(characters0, map[], names, ids);
    RegisterCharactersToGrowth(characters0, map[], names, ids);
    RegisterCharactersToMade(characters0, map[], names, ids);
    RegisterCharactersToFirst(characters0, map[], names, ids);
    CharacterKeysReuse(r.1, characters0, r.0);
  }

  /** The card loop of a legacy import, over the stored cards: the same, for addCard. */
  lemma LegacyCardsSound(items: seq<RawGreeting>, cards0: seq<Card>, ids: seq<Id>)
    requires |ids| == |CardNames(items)|
    ensures var r := RegisterCardsTo(cards0, map[], CardNames(items), ids);
      && r.1.Keys == NameKeys(CardNames(items))
      && cards0 <= r.0 && |r.0| - |cards0| <= |r.1.Keys|
      && CardsMade(r.0, |cards0|, CardNames(items))
      && CardKeysFirst(r.1, r.0)
      && (forall key :: key in r.1 && 0 <= FindCardByName(cards0, key) ==>
            r.1[key] == cards0[FindCardByName(cards0, key)].id)
  {
    var names := CardNames(items);
    var r := RegisterCardsTo(cards0, map[], names, ids);
    RegisterCardsToKeys(cards0, map[], names, ids);
    RegisterCardsToGrowth(cards0, map[], names, ids);
    RegisterCardsToMade(cards0, map[], names, ids);
    CardNamesNonEmpty(items);
    RegisterCardsToFirst(cards0, map[], names, ids);
    CardKeysReuse(r.1, cards0, r.0);
  }

  /**
   * Under a legacy import every record keeps its other fields; its card
   * resolves to the card addCard returns for its name, and its character
   * list is its names resolved in order, each to the character
   * addCharacter returns for it.
   */
  lemma LegacyResolution(items: seq<RawGreeting>, characters: seq<Character>, cards: seq<Card>,
                         characterMap: map<string, Id>, cardMap: map<string, Id>)
    requires CharacterKeysFirst(characterMap, characters) && CardKeysFirst(cardMap, cards)
    requires characterMap.Keys == NameKeys(CharacterNames(items)) && cardMap.Keys == NameKeys(CardNames(items))
    ensures var gs := LegacyGreetings(items, characterMap, cardMap);
      forall k :: 0 <= k < |items| ==>
        && gs[k] == CurrentGreeting(items[k]).(card := gs[k].card, characters := gs[k].characters)
        && CardResolvedTo(items[k].card, gs[k].card, cards)
        && gs[k].characters == ResolveCharacters(items[k].characters, characterMap)
        && (forall n :: n in items[k].characters ==> Lower(n) in characterMap && CharacterFor(characters, n, characterMap[Lower(n)]))
  {
    forall k | 0 <= k < |items|
      ensures CardResolvedTo(items[k].card, LegacyGreetings(items, characterMap, cardMap)[k].card, cards)
      ensures forall n :: n in items[k].characters ==> Lower(n) in characterMap && CharacterFor(characters, n, characterMap[Lower(n)])
    {
      CardNamesCover(items, k);
      CharacterNamesCover(items, k);
      CardResolution(items, cardMap, cards, k);
      CharacterResolution(items[k].characters, characterMap, characters);
    }
  }


  // ---------------------------------------------------------------------
  // single steps of the card loop, and two documents worked through

  /** A new key whose name no card matches: addCard appends a trimmed card with the minted id and no url. */
  lemma RegisterCardToNew(cards: seq<Card>, cardMap: map<string, Id>, name: string, minted: Id)
    requires Lower(name) !in cardMap && FindCardByName(cards, name) < 0
    ensures RegisterCardTo(cards, cardMap, name, minted) == (cards + [Card(minted, Trim(name), "", map[])], cardMap[Lower(name) := minted])
  {
    assert Trim("") == "";
  }

  /** A new key whose name a card matches: the key takes the first such card's id and nothing is appended. */
  lemma RegisterCardToFound(cards: seq<Card>, cardMap: map<string, Id>, name: string, minted: Id)
    requires Lower(name) !in cardMap && FindCardByName(cards, name) >= 0
    ensures RegisterCardTo(cards, cardMap, name, minted) == (cards, cardMap[Lower(name) := cards[FindCardByName(cards, name)].id])
  {
  }

  /**
   * The card loop over a padded name ("Intro ") and then another name that
   * lower-cases to its trimmed form ("intro"), one step per name as
   * RegisterCardsTo takes them: the second has a key of its own, but
   * addCard finds the card the first one made, so both keys share it.
   */
  lemma PaddedNamesShareCard(name: string, other: string, k1: Id, k2: Id)
    requires Lower(other) == Lower(Trim(name)) != Lower(name)
    ensures var p := RegisterCardTo([], map[], name, k1);
      var r := RegisterCardTo(p.0, p.1, other, k2);
      r.0 == [Card(k1, Trim(name), "", map[])] && r.1 == map[Lower(name) := k1, Lower(other) := k1]
  {
    var c := Card(k1, Trim(name), "", map[]);
    RegisterCardToNew([], map[], name, k1);
    assert [] + [c] == [c];
    assert FindCardByName([c], other) == 0;
    RegisterCardToFound([c], map[Lower(name) := k1], other, k2);
  }

  /** A name that matches a stored character case-insensitively takes that character's id and adds nothing. */
  lemma StoredCharacterReused(characters: seq<Character>, name: string, minted: Id)
    requires FindCharacterByName(characters, name) >= 0
    ensures RegisterCharactersTo(characters, map[], [name], [minted]) == (characters, map[Lower(name) := characters[FindCharacterByName(characters, name)].id])
  {
    RegisterCharactersToSnoc(characters, map[], [], name, [], minted);
  }
}
