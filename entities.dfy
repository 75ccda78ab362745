/**
 * Characters and cards: lookup by id and by name, name de-duplication on
 * add, and the cascades their deletion makes into the greetings.
 */
module Entities {
  import opened Types
  import opened Text
  import opened IdLists

  // ---------------------------------------------------------------------
  // lookups

  /** `characters.find(c => c.id === id)`. */
  function GetCharacterById(cs: seq<Character>, id: Id): (r: Option<Character>)
    ensures r.None? <==> forall j :: 0 <= j < |cs| ==> cs[j].id != id
    ensures r.Some? ==> exists j :: 0 <= j < |cs| && cs[j] == r.value && r.value.id == id &&
                                   forall i :: 0 <= i < j ==> cs[i].id != id
  {
    if cs == [] then None
    else if cs[0].id == id then Some(cs[0])
    else
      var r := GetCharacterById(cs[1..], id);
      if r.Some? then
        var j :| 0 <= j < |cs[1..]| && cs[1..][j] == r.value && r.value.id == id &&
                 forall i :: 0 <= i < j ==> cs[1..][i].id != id;
        assert cs[j + 1] == r.value;
        r
      else r
  }

  /** `cards.find(c => c.id === id)`. */
  function GetCardById(cs: seq<Card>, id: Id): (r: Option<Card>)
    ensures r.None? <==> forall j :: 0 <= j < |cs| ==> cs[j].id != id
    ensures r.Some? ==> exists j :: 0 <= j < |cs| && cs[j] == r.value && r.value.id == id &&
                                   forall i :: 0 <= i < j ==> cs[i].id != id
  {
    if cs == [] then None
    else if cs[0].id == id then Some(cs[0])
    else
      var r := GetCardById(cs[1..], id);
      if r.Some? then
        var j :| 0 <= j < |cs[1..]| && cs[1..][j] == r.value && r.value.id == id &&
                 forall i :: 0 <= i < j ==> cs[1..][i].id != id;
        assert cs[j + 1] == r.value;
        r
      else r
  }

  /**
   * The position of the first character whose lower-cased name equals the
   * lower-cased `name`, or -1. Names are compared untrimmed.
   */
  function FindCharacterByName(cs: seq<Character>, name: string): (r: int)
    ensures -1 <= r < |cs|
    ensures 0 <= r ==> Lower(cs[r].name) == Lower(name) && forall j :: 0 <= j < r ==> Lower(cs[j].name) != Lower(name)
    ensures r == -1 ==> forall j :: 0 <= j < |cs| ==> Lower(cs[j].name) != Lower(name)
  {
    if cs == [] then -1
    else if Lower(cs[0].name) == Lower(name) then 0
    else
      var r := FindCharacterByName(cs[1..], name);
      if r == -1 then -1 else r + 1
  }

  /** The same search over cards. */
  function FindCardByName(cs: seq<Card>, name: string): (r: int)
    ensures -1 <= r < |cs|
    ensures 0 <= r ==> Lower(cs[r].name) == Lower(name) && forall j :: 0 <= j < r ==> Lower(cs[j].name) != Lower(name)
    ensures r == -1 ==> forall j :: 0 <= j < |cs| ==> Lower(cs[j].name) != Lower(name)
  {
    if cs == [] then -1
    else if Lower(cs[0].name) == Lower(name) then 0
    else
      var r := FindCardByName(cs[1..], name);
      if r == -1 then -1 else r + 1
  }

  /** The name search sees a name only through its lower-cased form. */
  lemma FindCharacterByNameLower(cs: seq<Character>, a: string, b: string)
    requires Lower(a) == Lower(b)
    ensures FindCharacterByName(cs, a) == FindCharacterByName(cs, b)
  {
  }

  /** Appending characters leaves a name's first match where it was. */
  lemma FindCharacterByNameGrow(cs: seq<Character>, more: seq<Character>, name: string)
    requires cs <= more && FindCharacterByName(cs, name) >= 0
    ensures FindCharacterByName(more, name) == FindCharacterByName(cs, name)
  {
    var k := FindCharacterByName(cs, name);
    assert more[k] == cs[k];
  }

  /** Appending a character that does not match a name leaves the name unmatched. */
  lemma {:induction false} FindCharacterByNameMiss(cs: seq<Character>, c: Character, name: string)
    requires FindCharacterByName(cs, name) == -1 && Lower(c.name) != Lower(name)
    ensures FindCharacterByName(cs + [c], name) == -1
  {
    forall j | 0 <= j < |cs| + 1 ensures Lower((cs + [c])[j].name) != Lower(name) {
      if j < |cs| {
        assert (cs + [c])[j] == cs[j];
      }
    }
  }

  lemma FindCardByNameLower(cs: seq<Card>, a: string, b: string)
    requires Lower(a) == Lower(b)
    ensures FindCardByName(cs, a) == FindCardByName(cs, b)
  {
  }

  lemma FindCardByNameGrow(cs: seq<Card>, more: seq<Card>, name: string)
    requires cs <= more && FindCardByName(cs, name) >= 0
    ensures FindCardByName(more, name) == FindCardByName(cs, name)
  {
    var k := FindCardByName(cs, name);
    assert more[k] == cs[k];
  }

  lemma {:induction false} FindCardByNameMiss(cs: seq<Card>, c: Card, name: string)
    requires FindCardByName(cs, name) == -1 && Lower(c.name) != Lower(name)
    ensures FindCardByName(cs + [c], name) == -1
  {
    forall j | 0 <= j < |cs| + 1 ensures Lower((cs + [c])[j].name) != Lower(name) {
      if j < |cs| {
        assert (cs + [c])[j] == cs[j];
      }
    }
  }

  /** A card appended for a name that had no match is then the one found for it. */
  lemma FindCardAfterAppend(cs: seq<Card>, c: Card, name: string)
    requires FindCardByName(cs, name) == -1 && Lower(c.name) == Lower(name)
    ensures FindCardByName(cs + [c], name) == |cs|
  {
    assert (cs + [c])[|cs|] == c;
  }

  function FindCardIndex(cs: seq<Card>, id: Id): (r: int)
    ensures -1 <= r < |cs|
    ensures 0 <= r ==> cs[r].id == id && forall j :: 0 <= j < r ==> cs[j].id != id
    ensures r == -1 ==> forall j :: 0 <= j < |cs| ==> cs[j].id != id
  {
    if cs == [] then -1
    else if cs[0].id == id then 0
    else
      var r := FindCardIndex(cs[1..], id);
      if r == -1 then -1 else r + 1
  }

  // ---------------------------------------------------------------------
  // adding with de-duplication

  /**
   * addCharacter with `minted` as the id it would generate: the existing
   * character with the same lower-cased name, list unchanged; otherwise a
   * new character with the trimmed name, appended.
   */
  function AddCharacterTo(cs: seq<Character>, name: string, minted: Id): (r: (Character, seq<Character>))
    ensures NameKey(r.0.name) == NameKey(name)
    ensures r.0 in r.1 && cs <= r.1 && |r.1| <= |cs| + 1
    ensures |r.1| == |cs| <==> exists j :: 0 <= j < |cs| && Lower(cs[j].name) == Lower(name)
    ensures |r.1| == |cs| ==> r.0 == cs[FindCharacterByName(cs, name)]
    ensures |r.1| > |cs| ==> r.1 == cs + [r.0] && r.0 == Character(minted, Trim(name))
  {
    var k := FindCharacterByName(cs, name);
    if k >= 0 then
      NameKeyOfLower(cs[k].name, name);
      (cs[k], cs)
    else
      NameKeyOfTrim(name);
      var c := Character(minted, Trim(name));
      (c, cs + [c])
  }

  /**
   * addCard with `minted` as the id it would generate: the existing card
   * with the same lower-cased name, list unchanged; otherwise a new card
   * with the trimmed name and url, appended.
   */
  function AddCardTo(cs: seq<Card>, name: string, url: string, minted: Id): (r: (Card, seq<Card>))
    ensures NameKey(r.0.name) == NameKey(name)
    ensures r.0 in r.1 && cs <= r.1 && |r.1| <= |cs| + 1
    ensures |r.1| == |cs| <==> exists j :: 0 <= j < |cs| && Lower(cs[j].name) == Lower(name)
    ensures |r.1| == |cs| ==> r.0 == cs[FindCardByName(cs, name)]
    ensures |r.1| > |cs| ==> r.1 == cs + [r.0] && r.0 == Card(minted, Trim(name), Trim(url), map[])
  {
    var k := FindCardByName(cs, name);
    if k >= 0 then
      NameKeyOfLower(cs[k].name, name);
      (cs[k], cs)
    else
      NameKeyOfTrim(name);
      var c := Card(minted, Trim(name), Trim(url), map[]);
      (c, cs + [c])
  }

  /**
   * Adding a name that needs no trimming twice returns the same character
   * and leaves the list as the first add did, whatever id the second add
   * would have minted.
   */
  lemma AddCharacterIdempotent(cs: seq<Character>, name: string, minted: Id, minted2: Id)
    requires Trim(name) == name
    ensures AddCharacterTo(AddCharacterTo(cs, name, minted).1, name, minted2) == AddCharacterTo(cs, name, minted)
  {
    var k := FindCharacterByName(cs, name);
    if k < 0 {
      var c := Character(minted, name);
      AddCharacterFresh(cs, name, minted);
      FindCharacterAfterAppend(cs, c, name);
      AddCharacterFound(cs + [c], name, minted2);
    } else {
      AddCharacterFound(cs, name, minted);
    }
  }

  lemma AddCharacterFresh(cs: seq<Character>, name: string, minted: Id)
    requires FindCharacterByName(cs, name) == -1 && Trim(name) == name
    ensures AddCharacterTo(cs, name, minted) == (Character(minted, name), cs + [Character(minted, name)])
  {
  }

  lemma AddCharacterFound(cs: seq<Character>, name: string, minted: Id)
    requires FindCharacterByName(cs, name) >= 0
    ensures AddCharacterTo(cs, name, minted) == (cs[FindCharacterByName(cs, name)], cs)
  {
  }

  lemma {:induction false} FindCharacterAfterAppend(cs: seq<Character>, c: Character, name: string)
    requires FindCharacterByName(cs, name) == -1 && Lower(c.name) == Lower(name)
    ensures FindCharacterByName(cs + [c], name) == |cs|
    decreases |cs|
  {
    if cs != [] {
      assert (cs + [c])[0] == cs[0];
      assert (cs + [c])[1..] == cs[1..] + [c];
      FindCharacterAfterAppend(cs[1..], c, name);
    } else {
      assert cs + [c] == [c];
    }
  }

  /**
   * A name with surrounding whitespace is not recognised again: the stored
   * name is trimmed but the comparison is not, so a second add of " Bob"
   * appends a second character named "Bob".
   */
  lemma AddCharacterRepeatsPaddedName(minted: Id, minted2: Id)
    ensures
      var first := AddCharacterTo([], " Bob", minted);
      var second := AddCharacterTo(first.1, " Bob", minted2);
      |second.1| == 2 && first.0.name == second.0.name == "Bob"
  {
    var padded, bare := " Bob", "Bob";
    PaddedBob();
    var first := AddCharacterTo([], padded, minted);
    assert first.1 == [Character(minted, bare)];
    assert Lower(bare)[0] == 'b' && Lower(padded)[0] == ' ';
    assert FindCharacterByName(first.1, padded) == -1;
  }

  lemma PaddedBob()
    ensures Trim(" Bob") == "Bob"
  {
    assert " Bob"[1..] == "Bob";
    assert TrimStart(" Bob") == TrimStart(" Bob"[1..]);
    assert TrimStart("Bob") == "Bob";
    assert TrimEnd("Bob") == "Bob";
  }

  // ---------------------------------------------------------------------
  // deletes and their cascades

  /** `characters.filter(c => c.id !== id)`. */
  function WithoutCharacter(cs: seq<Character>, id: Id): (r: seq<Character>)
    ensures |r| <= |cs|
  {
    if cs == [] then []
    else if cs[0].id == id then WithoutCharacter(cs[1..], id)
    else [cs[0]] + WithoutCharacter(cs[1..], id)
  }

  /** `cards.filter(c => c.id !== id)`. */
  function WithoutCard(cs: seq<Card>, id: Id): (r: seq<Card>)
    ensures |r| <= |cs|
  {
    if cs == [] then []
    else if cs[0].id == id then WithoutCard(cs[1..], id)
    else [cs[0]] + WithoutCard(cs[1..], id)
  }

  /** The character filter keeps order and multiplicity: it distributes over concatenation. */
  lemma {:induction false} WithoutCharacterAppend(a: seq<Character>, b: seq<Character>, id: Id)
    ensures WithoutCharacter(a + b, id) == WithoutCharacter(a, id) + WithoutCharacter(b, id)
    decreases |a|
  {
    if a != [] {
      var t, h := a[1..], if a[0].id != id then [a[0]] else [];
      assert (a + b)[0] == a[0] && (a + b)[1..] == t + b;
      assert WithoutCharacter(a, id) == h + WithoutCharacter(t, id);
      assert WithoutCharacter(a + b, id) == h + WithoutCharacter(t + b, id);
      WithoutCharacterAppend(t, b, id);
      assert h + (WithoutCharacter(t, id) + WithoutCharacter(b, id)) == (h + WithoutCharacter(t, id)) + WithoutCharacter(b, id);
    } else {
      assert a + b == b;
    }
  }

  /** The character filter keeps exactly the characters with another id. */
  lemma {:induction false} WithoutCharacterKeeps(cs: seq<Character>, id: Id)
    ensures forall c :: c in WithoutCharacter(cs, id) <==> c in cs && c.id != id
    decreases |cs|
  {
    if cs != [] {
      WithoutCharacterKeeps(cs[1..], id);
      assert cs == [cs[0]] + cs[1..];
    }
  }

  /** A single character stays exactly when its id differs; with WithoutCharacterAppend this pins down the whole result. */
  lemma WithoutCharacterOne(c: Character, id: Id)
    ensures WithoutCharacter([c], id) == if c.id != id then [c] else []
  {
  }

  /** The card filter keeps order and multiplicity in the same way. */
  lemma {:induction false} WithoutCardAppend(a: seq<Card>, b: seq<Card>, id: Id)
    ensures WithoutCard(a + b, id) == WithoutCard(a, id) + WithoutCard(b, id)
    decreases |a|
  {
    if a != [] {
      var t, h := a[1..], if a[0].id != id then [a[0]] else [];
      assert (a + b)[0] == a[0] && (a + b)[1..] == t + b;
      assert WithoutCard(a, id) == h + WithoutCard(t, id);
      assert WithoutCard(a + b, id) == h + WithoutCard(t + b, id);
      WithoutCardAppend(t, b, id);
      assert h + (WithoutCard(t, id) + WithoutCard(b, id)) == (h + WithoutCard(t, id)) + WithoutCard(b, id);
    } else {
      assert a + b == b;
    }
  }

  /** The card filter keeps exactly the cards with another id. */
  lemma {:induction false} WithoutCardKeeps(cs: seq<Card>, id: Id)
    ensures forall c :: c in WithoutCard(cs, id) <==> c in cs && c.id != id
    decreases |cs|
  {
    if cs != [] {
      WithoutCardKeeps(cs[1..], id);
      assert cs == [cs[0]] + cs[1..];
    }
  }

  /** A single card stays exactly when its id differs; with WithoutCardAppend this pins down the whole result. */
  lemma WithoutCardOne(c: Card, id: Id)
    ensures WithoutCard([c], id) == if c.id != id then [c] else []
  {
  }

  /** The greeting as deleteCharacter leaves it. */
  function StripCharacter(g: Greeting, id: Id): (r: Greeting)
    ensures id !in r.characters
    ensures forall y :: y != id ==> (y in r.characters <==> y in g.characters)
    ensures r == g.(characters := r.characters)
  {
    g.(characters := Without(g.characters, id))
  }

  /** The greeting as deleteCard leaves it. */
  function ClearCard(g: Greeting, id: Id): (r: Greeting)
    ensures r.card != Some(id)
    ensures r.card == if g.card == Some(id) then None else g.card
    ensures r == g.(card := r.card)
  {
    if g.card == Some(id) then g.(card := None) else g
  }

  /** deleteCharacter's loop over the greetings: every greeting drops the id from its characters. */
  function WithoutCharacterRefs(gs: seq<Greeting>, id: Id): (r: seq<Greeting>)
    ensures |r| == |gs|
    ensures forall k :: 0 <= k < |gs| ==> r[k] == StripCharacter(gs[k], id)
  {
    seq(|gs|, k requires 0 <= k < |gs| => StripCharacter(gs[k], id))
  }

  /** deleteCard's loop over the greetings: every greeting holding the card drops it. */
  function WithoutCardRefs(gs: seq<Greeting>, id: Id): (r: seq<Greeting>)
    ensures |r| == |gs|
    ensures forall k :: 0 <= k < |gs| ==> r[k] == ClearCard(gs[k], id)
  {
    seq(|gs|, k requires 0 <= k < |gs| => ClearCard(gs[k], id))
  }

  /** Every character id a greeting lists belongs to a stored character. */
  predicate CharacterRefsResolve(gs: seq<Greeting>, cs: seq<Character>) {
    forall k, y :: 0 <= k < |gs| && y in gs[k].characters ==> exists c :: c in cs && c.id == y
  }

  /** Every card a greeting references is stored. */
  predicate CardRefsResolve(gs: seq<Greeting>, cs: seq<Card>) {
    forall k :: 0 <= k < |gs| && gs[k].card.Some? ==> exists c :: c in cs && c.id == gs[k].card.value
  }

  /** deleteCharacter keeps every remaining character reference resolvable. */
  lemma DeleteCharacterKeepsRefs(gs: seq<Greeting>, cs: seq<Character>, id: Id)
    requires CharacterRefsResolve(gs, cs)
    ensures CharacterRefsResolve(WithoutCharacterRefs(gs, id), WithoutCharacter(cs, id))
  {
    var r := WithoutCharacterRefs(gs, id);
    WithoutCharacterKeeps(cs, id);
    forall k, y | 0 <= k < |r| && y in r[k].characters ensures exists c :: c in WithoutCharacter(cs, id) && c.id == y {
      assert y in gs[k].characters;
      var c :| c in cs && c.id == y;
      assert c in WithoutCharacter(cs, id);
    }
  }

  /** deleteCard keeps every remaining card reference resolvable. */
  lemma DeleteCardKeepsRefs(gs: seq<Greeting>, cs: seq<Card>, id: Id)
    requires CardRefsResolve(gs, cs)
    ensures CardRefsResolve(WithoutCardRefs(gs, id), WithoutCard(cs, id))
  {
    var r := WithoutCardRefs(gs, id);
    WithoutCardKeeps(cs, id);
    forall k | 0 <= k < |r| && r[k].card.Some? ensures exists c :: c in WithoutCard(cs, id) && c.id == r[k].card.value {
      var c :| c in cs && c.id == gs[k].card.value;
      assert c in WithoutCard(cs, id);
    }
  }

  /** updateCard: nothing when no card has `id`, otherwise the first such card becomes the shallow merge. */
  function UpdateCardIn(cs: seq<Card>, id: Id, u: CardPatch): (r: seq<Card>)
    ensures |r| == |cs|
    ensures FindCardIndex(cs, id) < 0 ==> r == cs
    ensures forall k :: 0 <= k < |cs| && k != FindCardIndex(cs, id) ==> r[k] == cs[k]
    ensures FindCardIndex(cs, id) >= 0 ==> r[FindCardIndex(cs, id)] == MergeCard(cs[FindCardIndex(cs, id)], u)
  {
    var i := FindCardIndex(cs, id);
    if i < 0 then cs else cs[i := MergeCard(cs[i], u)]
  }
}
