# Card Timeliner greetings store, modelled in Dafny

Card Timeliner keeps a timeline of *greetings*: story beats that are
linked to one another as predecessors and successors. Each greeting also
refers to the *characters* in it and to the *card* it belongs to. The
store in `src/stores/greetings.js` owns the three collections. It mints
ids that are unique across all three. It keeps the greeting links
bidirectional: B lists A as a predecessor exactly when A lists B as a
successor. When a new greeting is placed between A and B, it splices out
the direct edge A -> B. Deleting a character or card removes every
reference to it. The store also exports and imports its state, in the
current document format and in two older ones.

The project is organised as follows:

- `types.dfy` (module `Types`) holds the records and the partial-update
  payloads. `Merge` and `MergeCard` are the object spread
  `{ ...old, ...updates }`. `NewGreeting` is the defaulted record that
  `addGreeting` builds.
- `text.dfy` (module `Text`) holds ASCII lower-casing and trimming. It
  also defines `NameKey`, which is the lower-cased and trimmed name.
- `idlists.dfy` (module `IdLists`) holds the id-list filters the store
  uses (`filter(id => id !== x)` and "in one list but not the other").
- `links.dfy` (module `Links`) holds the link engine on values:
  `syncBidirectionalLinks` (`SyncLinks`) and `insertBetweenLinks`
  (`InsertBetween`). Each `forEach` loop is a fold over its id list,
  using the first greeting with a given id, as `find` does. The file also
  holds the lemmas that say what each greeting ends up with.
- `symmetry.dfy` (module `Symmetry`) defines the link invariant. It proves
  that sync and splice both keep it.
- `greeting_ops.dfy` (module `GreetingOps`) holds add, update and delete
  of a greeting, and the greeting getters.
- `entities.dfy` (module `Entities`) holds characters and cards: lookup,
  add with case-insensitive reuse, update, and delete with its cascade
  into the greetings.
- `reconcile.dfy` (module `Reconcile`) holds what `importFromJSON` writes
  for each document shape, and what its name-to-id maps guarantee.
- `store.dfy` (module `GreetingsStore`) holds the store itself. Its class
  `Store` has the three collections as fields. Each action is a method
  that updates them in place, and its contract ties the new state to the
  specification functions above. The `forEach` loops are `while` loops
  with invariants.

`addCharacter` and `addCard` compare names with `toLowerCase()` only, but
store `name.trim()`. So a second `addCharacter("ALICE ")` after
`addCharacter("Alice")` does not find the first character. It adds a
second character named "ALICE". The model follows the code, and
`Entities.AddCharacterRepeatsPaddedName` proves the duplicate for
`" Bob"`.

The two converting imports register names through `addCharacter` and
`addCard`, keyed by the lower-cased name. The model writes each of those
`forEach` loops as a fold over the names in order (`RegisterCharactersTo`,
`RegisterCardsTo`), with the ids the loop draws as a parameter. The store's
`while` loops are proved to leave exactly what the fold gives. The lemmas
about the fold then say what the source promises. A key holds the id
`addCharacter` or `addCard` returns for its name, so a name that matches a
stored or already imported entity up to case reuses it. An entity is
appended only for a name nothing before it matched. Every id drawn is new
to the store and distinct from the others. Because the keys are lower-cased
but not trimmed, the card names "Intro " and "intro" get two keys but share
one card (`Reconcile.PaddedNamesShareCard`). In a legacy import the
character and card loops of one record alternate. They touch different
collections, so the model states each loop on its own. As in the code, an
import draws ids against the greetings stored before it, not against the
ids of the greetings it then stores.

## Model

| member | source | states |
|---|---|---|
| GreetingsStore.DrawUUID | src/stores/greetings.js:7-17 | a fresh draw of `generateUUID` avoids every id the caller has already rejected |
| GreetingsStore.Store.AllIds | src/stores/greetings.js:36-40 | an id is in the set exactly when some greeting, character or card carries it (`idExists`) |
| GreetingsStore.Store.GenerateUniqueUUID | src/stores/greetings.js:20-27 | the id returned exists in none of the three collections |
| Text.Lower | src/stores/greetings.js:351 | `toLowerCase` keeps the length, lowers each letter and leaves no upper-case letter |
| Text.Trim | src/stores/greetings.js:358 | `trim` leaves neither leading nor trailing whitespace |
| Text.TrimStartSuffix | src/stores/greetings.js:358 | dropping leading whitespace leaves a suffix of the name |
| Text.TrimKeepsMiddle | src/stores/greetings.js:358 | what `trim` keeps is the name itself between a whitespace prefix and a whitespace suffix |
| Text.LowerTrimCommute | src/stores/greetings.js:351-358 | lower-casing and trimming commute, so a name's key does not depend on their order |
| Text.TrimIdempotent | src/stores/greetings.js:358 | trimming a trimmed name changes nothing |
| Text.NameKeyOfTrim | src/stores/greetings.js:358 | a stored (trimmed) name has the same key as the name it came from |
| Text.NameKeyOfLower | src/stores/greetings.js:351 | names equal up to case have equal keys |
| IdLists.Without | src/stores/greetings.js:132 | `filter(id => id !== x)` keeps exactly the other ids, in order, and changes nothing when x is absent |
| IdLists.Difference | src/stores/greetings.js:119-120 | the added or removed ids are exactly those in the first list and not in the second |
| IdLists.WithoutAppend | src/stores/greetings.js:132 | filtering distributes over concatenation |
| Links.FindGreeting | src/stores/greetings.js:123 | `find` by id gives the first greeting with that id, or none when no greeting has it |
| Links.SyncLinks | src/stores/greetings.js:117-153 | syncing links changes no greeting's id and keeps the list's length |
| Links.SyncLinksAt | src/stores/greetings.js:117-153 | each greeting gains the synced id among its predecessors (successors) when it is first found for an added successor (predecessor), loses it when removed, and nothing else about it changes |
| Links.LinkEachAt | src/stores/greetings.js:122-127 | after the "added" loop a greeting found for a target lists the id once, and any other greeting is unchanged |
| Links.UnlinkEachAt | src/stores/greetings.js:129-134 | after the "removed" loop a greeting found for a target no longer lists the id, and any other greeting is unchanged |
| Links.InsertBetween | src/stores/greetings.js:156-175 | the splice changes no greeting's id and keeps the list's length |
| Links.InsertBetweenShrinks | src/stores/greetings.js:156-175 | the splice only removes link entries, and leaves every field other than the link lists as it was |
| Links.InsertBetweenSevers | src/stores/greetings.js:156-175 | for every found predecessor P and successor S, P no longer lists S; if S is found and P listed it, S no longer lists P |
| Links.SeverCutsOnly | src/stores/greetings.js:163-164 | one cut step removes no successor entry other than q -> t |
| Links.Sever | src/stores/greetings.js:163-170 | one cut of p -> s keeps every greeting's id |
| GreetingOps.SeverEffect | src/stores/greetings.js:163-170 | the cut removes s from p's successors and p from the found successor's predecessors, and leaves every other greeting as it was |
| Links.SeverShrinks | src/stores/greetings.js:163-170 | a cut only removes link entries |
| Links.SeverCutsBack | src/stores/greetings.js:166-169 | after the cut, the greeting found for s no longer lists p |
| Links.SpliceEachCuts | src/stores/greetings.js:162-171 | after the inner loop, p lists none of the successors it was spliced against |
| GreetingOps.InsertBetweenOne | src/stores/greetings.js:156-175 | with one predecessor and one successor, the splice is the single cut |
| Symmetry.SyncPreservesSymmetry | src/stores/greetings.js:117-153 | if the links were symmetric before the greeting took its new lists, they are symmetric after the sync, and ids stay distinct |
| Symmetry.SeverPreservesSymmetry | src/stores/greetings.js:163-170 | cutting p -> s on both sides keeps the links symmetric |
| Symmetry.InsertBetweenPreservesSymmetry | src/stores/greetings.js:156-175 | the whole splice keeps symmetric links with distinct ids symmetric |
| Types.Merge | src/stores/greetings.js:214 | the spread keeps the id and both link lists unless the patch carries them, and the extra fields are the union of both |
| Types.MergeCard | src/stores/greetings.js:394 | the spread keeps the card's id unless the patch carries one, and the extra fields are the union of both |
| Types.NewGreeting | src/stores/greetings.js:179-189 | the new record takes the payload's id if it has one, else the minted id; name defaults to "Untitled" and the link lists to [] |
| Types.NewGreetingOwnId | src/stores/greetings.js:179-189 | building the record again with its own id gives the same record |
| GreetingOps.AddGreetingTo | src/stores/greetings.js:178-205 | adding appends exactly one record and keeps every other greeting's id in place |
| GreetingOps.AddPreservesSymmetry | src/stores/greetings.js:178-205 | adding a greeting with a fresh, unmentioned id to symmetric links keeps them symmetric |
| GreetingOps.AddBetweenSplices | src/stores/greetings.js:178-205 | adding X between A and B, where A -> B existed, leaves A -> X -> B with the direct edge A -> B gone on both sides, and the links symmetric |
| GreetingOps.AddSyncsNeighbours | src/stores/greetings.js:193-199 | the sync step of that add appends X to A's successors and to B's predecessors |
| GreetingOps.AddIsSever | src/stores/greetings.js:201-202 | with one predecessor and one successor, the splice step of add is the single cut of A -> B |
| GreetingOps.UpdateGreetingIn | src/stores/greetings.js:207-227 | an update keeps the list's length, and an unknown id changes nothing |
| GreetingOps.UpdateWithoutLinksTouchesOneRecord | src/stores/greetings.js:207-217 | an update carrying neither link list merges into the one record found and changes no other |
| GreetingOps.UpdatePreservesSymmetry | src/stores/greetings.js:207-227 | an update that keeps the record's id keeps the links symmetric |
| GreetingOps.SyncLinksNeighbours | src/stores/greetings.js:117-153 | newly named neighbours gain the id once, neighbours no longer named lose it, and unnamed ones are untouched |
| GreetingOps.DetachGreeting | src/stores/greetings.js:230-247 | detaching keeps every greeting's id, and an unknown id changes nothing |
| GreetingOps.DetachCleansNamedNeighbours | src/stores/greetings.js:234-246 | each greeting named as a successor (predecessor) of the deleted one loses the id from its predecessors (successors); others are unchanged |
| GreetingOps.DropId | src/stores/greetings.js:250 | after the filter no greeting has the id |
| GreetingOps.DropIdKeeps | src/stores/greetings.js:250 | a greeting survives the filter exactly when it was there and has another id; with the id absent nothing changes |
| GreetingOps.DropIdAppend | src/stores/greetings.js:250 | the filter distributes over concatenation, so it keeps the survivors in their order |
| GreetingOps.DropIdOne | src/stores/greetings.js:250 | a single greeting survives exactly when its id differs |
| GreetingOps.DropIdUnique | src/stores/greetings.js:250 | filtering keeps the ids distinct |
| GreetingOps.DropIdSymmetric | src/stores/greetings.js:250 | when the links agree among all the greetings that survive, the survivors have symmetric links |
| GreetingOps.DetachCleansAll | src/stores/greetings.js:230-247 | with symmetric links, detaching removes the id from both link lists of every other greeting |
| GreetingOps.DeleteGreetingFrom | src/stores/greetings.js:229-251 | after a delete no greeting has the id, and an unknown id changes nothing |
| GreetingOps.DeleteSevers | src/stores/greetings.js:229-251 | deleting from symmetric links leaves no greeting that mentions the id, and the links stay symmetric |
| GreetingOps.GetGreetingById | src/stores/greetings.js:100-102 | the first greeting with the id, or none exactly when no greeting has it |
| GreetingOps.CanonOnly | src/stores/greetings.js:96-98 | the canon view is never longer than the list |
| GreetingOps.CanonOnlyKeeps | src/stores/greetings.js:96-98 | a greeting is in the canon view exactly when it is in the list and canon |
| GreetingOps.CanonOnlyAppend | src/stores/greetings.js:96-98 | the canon view distributes over concatenation, so it keeps the order |
| GreetingOps.CanonOnlyOne | src/stores/greetings.js:96-98 | a single greeting is kept exactly when it is canon |
| Entities.GetCharacterById | src/stores/greetings.js:106-108 | the first character with the id, or none exactly when there is none |
| Entities.GetCardById | src/stores/greetings.js:112-114 | the first card with the id, or none exactly when there is none |
| Entities.FindCharacterByName | src/stores/greetings.js:351 | the first character whose name equals the given one up to case, or -1 when none does |
| Entities.FindCardByName | src/stores/greetings.js:377 | the first card whose name equals the given one up to case, or -1 when none does |
| Entities.AddCharacterTo | src/stores/greetings.js:349-362 | the returned character is stored and has the name's key; the list stays the same exactly when a name matched up to case, and then the first match is returned; otherwise exactly one character, with the minted id and the trimmed name, is appended |
| Entities.AddCharacterFound | src/stores/greetings.js:351-354 | when a name matches up to case, the first match is returned and the list is unchanged |
| Entities.AddCharacterFresh | src/stores/greetings.js:356-361 | when no name matches, a trimmed name becomes a new character with the minted id, appended |
| Entities.FindCharacterAfterAppend | src/stores/greetings.js:350-351 | a character appended for a name that had no match is then the one found for it |
| Entities.AddCharacterIdempotent | src/stores/greetings.js:349-362 | adding a trimmed name twice gives the same character and list as adding it once |
| Entities.AddCharacterRepeatsPaddedName | src/stores/greetings.js:351-358 | adding " Bob" twice stores two characters both named "Bob" |
| Entities.AddCardTo | src/stores/greetings.js:375-389 | as for characters: the first match up to case and an unchanged list, or exactly one new card with the minted id and the trimmed name and url appended |
| Entities.WithoutCharacter | src/stores/greetings.js:366 | the filter never lengthens the list |
| Entities.WithoutCharacterKeeps | src/stores/greetings.js:366 | a character stays exactly when it was there and has another id |
| Entities.WithoutCharacterAppend | src/stores/greetings.js:366 | the filter distributes over concatenation, so it keeps the order |
| Entities.WithoutCharacterOne | src/stores/greetings.js:366 | a single character stays exactly when its id differs |
| Entities.StripCharacter | src/stores/greetings.js:369-371 | the greeting loses the id from its characters, keeps every other character id, and nothing else changes |
| Entities.WithoutCharacterRefs | src/stores/greetings.js:369-371 | every greeting loses the character id, keeps its other character ids and changes nothing else |
| Entities.DeleteCharacterKeepsRefs | src/stores/greetings.js:364-372 | if every character reference resolved before deleteCharacter, every one still resolves after it |
| Entities.UpdateCardIn | src/stores/greetings.js:391-396 | only the first card with the id is replaced, by the merge of it and the update; an unknown id changes nothing |
| Entities.FindCardIndex | src/stores/greetings.js:392 | `findIndex` gives the first card with the id, or -1 exactly when no card has it |
| Entities.WithoutCard | src/stores/greetings.js:400 | the filter never lengthens the list |
| Entities.WithoutCardKeeps | src/stores/greetings.js:400 | a card stays exactly when it was there and has another id |
| Entities.WithoutCardAppend | src/stores/greetings.js:400 | the filter distributes over concatenation, so it keeps the order |
| Entities.WithoutCardOne | src/stores/greetings.js:400 | a single card stays exactly when its id differs |
| Entities.ClearCard | src/stores/greetings.js:403-407 | a greeting that referred to the card has no card; any other card reference and every other field is kept |
| Entities.WithoutCardRefs | src/stores/greetings.js:403-407 | every greeting that referred to the card has no card, and nothing else changes |
| Entities.DeleteCardKeepsRefs | src/stores/greetings.js:398-408 | if every card reference resolved before deleteCard, every one still resolves after it |
| GreetingsStore.Store.SyncBidirectionalLinks | src/stores/greetings.js:117-153 | the in-place loops leave the greetings the sync function describes, and nothing else changes |
| GreetingsStore.Store.LinkAll | src/stores/greetings.js:122-127 | the "added" loop leaves the greetings the link fold describes, and nothing else changes |
| GreetingsStore.Store.UnlinkAll | src/stores/greetings.js:129-134 | the "removed" loop leaves the greetings the unlink fold describes, and nothing else changes |
| GreetingsStore.Store.InsertBetweenLinks | src/stores/greetings.js:156-175 | the nested in-place loops leave the greetings the splice function describes |
| GreetingsStore.Store.SeverStep | src/stores/greetings.js:163-170 | one in-place cut leaves the greetings the cut function describes |
| GreetingsStore.Store.SpliceAll | src/stores/greetings.js:162-171 | the inner in-place loop leaves the greetings the splice fold describes |
| GreetingsStore.Store.AddGreeting | src/stores/greetings.js:178-205 | the greetings become the add function's result; the returned record is the one appended; a minted id was in no collection; symmetric links stay symmetric |
| GreetingsStore.Store.UpdateGreeting | src/stores/greetings.js:207-227 | the greetings become the update function's result, and symmetric links stay symmetric when the id is kept |
| GreetingsStore.Store.DeleteGreeting | src/stores/greetings.js:229-251 | the id is gone, symmetric links stay symmetric, and no greeting mentions the deleted id |
| GreetingsStore.Store.AddCharacter | src/stores/greetings.js:349-362 | the characters become the add function's result, and a newly minted id was in no collection |
| GreetingsStore.Store.DeleteCharacter | src/stores/greetings.js:364-372 | the character and every reference to it are removed |
| GreetingsStore.Store.AddCard | src/stores/greetings.js:375-389 | the cards become the add function's result, and a newly minted id was in no collection |
| GreetingsStore.Store.UpdateCard | src/stores/greetings.js:391-396 | the cards become the update function's result, and nothing else changes |
| GreetingsStore.Store.DeleteCard | src/stores/greetings.js:398-408 | the card and every reference to it are removed |
| GreetingsStore.Store.ClearAll | src/stores/greetings.js:410-414 | all three collections are empty, which is trivially consistent |
| GreetingsStore.Store.Snapshot | src/stores/greetings.js:253-275 | the export document holds all three collections, and importing it in the current format gives back the same characters, cards and greetings |
| Reconcile.ExportThenImport | src/stores/greetings.js:253-275 | importing what export wrote restores the greetings exactly |
| Reconcile.ImportThenExport | src/stores/greetings.js:267-275 | exporting an imported record gives it back, with missing predecessors made [] |
| Reconcile.CurrentGreetings | src/stores/greetings.js:270-273 | every record keeps its id and successors, and exporting the stored record gives back the document record with missing predecessors made [] |
| Reconcile.ResolveCharacters | src/stores/greetings.js:329-334 | an id appears exactly when it is non-empty and some name maps to it; there are never more ids than names |
| Reconcile.ResolveCharactersAppend | src/stores/greetings.js:329-334 | resolution distributes over concatenation, so the ids follow the names' order |
| Reconcile.ResolveCharactersOne | src/stores/greetings.js:329-334 | one name gives its mapped id when that is non-empty, and nothing otherwise |
| Reconcile.ResolveCard | src/stores/greetings.js:296 | a string card resolves exactly when its lower-cased form is a key, and then to that key's id |
| Reconcile.PreCardsGreetings | src/stores/greetings.js:293-297 | each stored record is the current-format record with its card name resolved through the card map |
| Reconcile.LegacyGreetings | src/stores/greetings.js:326-336 | each stored record is the current-format record with its card and character names resolved through the maps |
| Reconcile.CardResolution | src/stores/greetings.js:283-297 | with a card map that agrees with addCard and covers the record, its card resolves to no card when absent or empty, else to the card addCard returns for the name: the first stored card whose name matches up to case |
| Reconcile.ResolveCardConsistent | src/stores/greetings.js:296 | names equal up to case resolve to the same card |
| Reconcile.CharacterForLower | src/stores/greetings.js:351 | what a name resolves to under addCharacter depends only on its lower-cased form |
| Reconcile.CardForLower | src/stores/greetings.js:377 | what a name resolves to under addCard depends only on its lower-cased form |
| Reconcile.PaddedName | src/stores/greetings.js:351-358 | a name that trimming changes up to case has surrounding whitespace, and its trimmed form has the same key |
| Reconcile.CharacterForAdded | src/stores/greetings.js:349-362 | after addCharacter, the name resolves to the character it returned: the first match up to case, or the padded name's new trimmed character |
| Reconcile.CharacterForKept | src/stores/greetings.js:349-362 | addCharacter leaves what any other lower-cased key resolves to as it was |
| Reconcile.CardForAdded | src/stores/greetings.js:375-389 | after addCard, the name resolves to the card it returned |
| Reconcile.CardForKept | src/stores/greetings.js:375-389 | addCard leaves what any other lower-cased key resolves to as it was |
| Reconcile.CharacterKeysFirstAdd | src/stores/greetings.js:310-313 | mapping a new key to what addCharacter returns keeps every key of the character map agreeing with addCharacter |
| Reconcile.CardKeysFirstAdd | src/stores/greetings.js:318-321 | mapping a new non-empty key to what addCard returns keeps every key of the card map agreeing with addCard |
| Reconcile.CharacterKeysReuse | src/stores/greetings.js:351-353 | a key whose name matches a character stored before the import holds the first such character's id |
| Reconcile.CardKeysReuse | src/stores/greetings.js:377-381 | a key whose name matches a card stored before the import holds the first such card's id |
| Reconcile.CharactersMadeStep | src/stores/greetings.js:309-313 | one more name through the loop keeps every appended character made for a name of the list that no earlier character matched, under the trimmed name |
| Reconcile.CardsMadeStep | src/stores/greetings.js:284-290 | one more card name through the loop keeps every appended card made for a name that no earlier card matched, under the trimmed name and with no url |
| Reconcile.RegisterCharacterTo | src/stores/greetings.js:310-313 | one name through the character loop: its lower-cased form joins the keys, old keys keep their ids, and at most one character is appended, only for a new key |
| Reconcile.RegisterCardTo | src/stores/greetings.js:286-289 | one card name through a card loop: its lower-cased form joins the keys, old keys keep their ids, and at most one card is appended, only for a new key |
| Reconcile.RegisterCharactersToAppend | src/stores/greetings.js:307-314 | running the character loop over two lists of names is running it over the first, then over the second from where it stopped |
| Reconcile.RegisterCharactersToKeys | src/stores/greetings.js:309-314 | the keys after the character loop are the old keys plus the lower-cased names |
| Reconcile.RegisterCharactersToKept | src/stores/greetings.js:309-314 | keys held before the character loop keep their ids |
| Reconcile.RegisterCharactersToGrowth | src/stores/greetings.js:309-314 | the character loop only appends, and no more characters than there are new keys |
| Reconcile.RegisterCharactersToMade | src/stores/greetings.js:309-314 | every character the loop appends was made for one of its names that no character before it matched |
| Reconcile.RegisterCharactersToFirst | src/stores/greetings.js:309-314 | when every old key agrees with addCharacter, every key does after the loop |
| Reconcile.RegisterCardsToKeys | src/stores/greetings.js:284-291 | the keys after a card loop are the old keys plus the lower-cased names |
| Reconcile.RegisterCardsToKept | src/stores/greetings.js:284-291 | keys held before a card loop keep their ids |
| Reconcile.RegisterCardsToGrowth | src/stores/greetings.js:284-291 | a card loop only appends, and no more cards than there are new keys |
| Reconcile.RegisterCardsToMade | src/stores/greetings.js:284-291 | every card the loop appends was made for one of its names that no card before it matched, with no url |
| Reconcile.RegisterCardsToFirst | src/stores/greetings.js:284-291 | when every old key agrees with addCard and the names are non-empty, every key does after the loop |
| Reconcile.PreCardsImportSound | src/stores/greetings.js:278-299 | a pre-cards import keys its card map by exactly the lower-cased card names, makes at most one card per key, each for a name no earlier card matched, and resolves every record's card to the card addCard returns for its name, keeping everything else |
| Reconcile.LegacyCharactersSound | src/stores/greetings.js:307-315 | the legacy character loop keys its map by exactly the lower-cased names, only appends, at most one character per key, each for a name nothing before it matched; a name a stored character matches up to case takes the first such character's id |
| Reconcile.LegacyCardsSound | src/stores/greetings.js:316-322 | the legacy card loop: the same, for addCard and the non-empty card names |
| Reconcile.LegacyResolution | src/stores/greetings.js:326-336 | under a legacy import each record keeps its other fields, its card resolves to the card addCard returns, and its character list is its names resolved in order, each to the character addCharacter returns |
| Reconcile.RegisterCardToNew | src/stores/greetings.js:286-288 | a new key whose name no card matches gets a new trimmed card with the minted id and no url, appended |
| Reconcile.RegisterCardToFound | src/stores/greetings.js:286-288 | a new key whose name a card matches up to case gets the first such card's id, and nothing is appended |
| Reconcile.PaddedNamesShareCard | src/stores/greetings.js:283-291 | the card names "Intro " then "intro" give two keys but one card, named "Intro", whose id both keys hold |
| Reconcile.StoredCharacterReused | src/stores/greetings.js:309-313 | a legacy name that a stored character matches up to case ("bob" over "Bob") takes that character's id and appends nothing |
| Reconcile.PreCardsResolution | src/stores/greetings.js:278-299 | every record keeps its fields and characters, and its card resolves to the card addCard returns for its name |
| Reconcile.CharacterResolution | src/stores/greetings.js:307-336 | each name a record lists resolves to the character addCharacter returns for it; the resolved list holds only such ids, and every one of them that is non-empty |
| Reconcile.NameKeysMembers | src/stores/greetings.js:310-320 | a key is made exactly when some name lower-cases to it |
| Reconcile.CardNamesMembers | src/stores/greetings.js:317 | the card names are exactly the non-empty card strings of the records |
| Reconcile.CharacterNamesMembers | src/stores/greetings.js:308-309 | the character names are exactly the names some record lists |
| Reconcile.CardNamesCover | src/stores/greetings.js:284-290 | every non-empty card name of a record has a key among the document's keys |
| Reconcile.CharacterNamesCover | src/stores/greetings.js:307-315 | every character name of a record has a key among the document's keys |
| GreetingsStore.Store.RegisterCard | src/stores/greetings.js:317-322 | a non-empty card name goes through exactly one step of the card loop (the key, if new, gets the card addCard returns) and an empty or missing one changes nothing; the ids grow by exactly the cards appended |
| GreetingsStore.Store.RegisterCharacter | src/stores/greetings.js:310-313 | the name goes through exactly one step of the character loop (the key, if new, gets the character addCharacter returns); the ids grow by exactly the characters appended |
| GreetingsStore.Store.RegisterCharacters | src/stores/greetings.js:309-314 | the in-place loop over one record's names leaves exactly the characters and map of the character loop, for the ids it minted; the ids grow by exactly the characters appended |
| GreetingsStore.Store.RegisterName | src/stores/greetings.js:309-313 | one turn of the inner loop extends the character loop by the name at that position |
| GreetingsStore.Store.BuildCards | src/stores/greetings.js:283-291 | from no cards, the in-place loop leaves exactly the cards and map of the card loop over the records' non-empty card names; the ids grow by exactly the cards appended |
| GreetingsStore.Store.RegisterRecordCard | src/stores/greetings.js:317-322 | one record through a card loop extends it by the record's card name when that is a non-empty string, and by nothing otherwise |
| GreetingsStore.Store.RegisterRecordCharacters | src/stores/greetings.js:308-314 | one record through the character loop extends it by all the record's names, in order |
| GreetingsStore.Store.BuildLegacyMaps | src/stores/greetings.js:304-323 | the in-place loop over the records leaves exactly the character loop over all their names and the card loop over their card names, each over what was stored; the ids grow by exactly what was appended |
| GreetingsStore.Store.ImportFromJSON | src/stores/greetings.js:262-341 | over the modelled documents, the import succeeds exactly for the three recognised shapes and otherwise changes nothing (shape errors that throw midway are under Left out); the current format is stored as it stands; the pre-cards and legacy formats store exactly what the card and character loops and the resolution of the records give, and every id they mint is new to the store and distinct from the others |
| GreetingsStore.MintedFreshOfCount | src/stores/greetings.js:20-27 | when the set of ids grows by exactly the number of characters and cards appended, the appended ids are new and pairwise distinct, as `generateUniqueUUID` makes them |
| GreetingsStore.CountNewIdsExact | src/stores/greetings.js:20-27 | ids that grow a set by exactly their number are distinct and none was in it |

## Left out

- Persistence is not modelled: the localStorage load and save and the deep watch (src/stores/greetings.js:43-91) are I/O.
- The UUID format and its randomness (src/stores/greetings.js:7-17) are not modelled. A draw is any string the caller has not already rejected, so the retry loop provably ends.
- JSON text is not modelled: the import takes an already parsed `Document`, and the export gives a `Document` rather than a string.
- Import shape errors are not modelled. A parse failure is: `Document.Unparsable` makes `ImportFromJSON` return false with nothing changed. But a parsed document of the wrong shape can make the code throw after it has already written part of the state; the catch block (src/stores/greetings.js:342-345) then returns false with the collections partly overwritten. Examples: an object whose `greetings` is a non-array truthy value replaces the characters and cards (lines 268-269) and throws at line 270, or replaces the characters and empties the cards (279-280) and throws at line 284; an array whose later item is `null` appends the earlier items' characters and throws at line 308. `Document` cannot express a truthy non-array member or a non-record item, so on the model's documents `ImportFromJSON` is all-or-nothing, and the source is not.
- Records are modelled with string card and character names and with a `successors` list. The code also accepts other values. Its `typeof` guards (src/stores/greetings.js:296, 310, 317, 330-335) skip a non-string name when registering and pass it through unchanged as an id. A record without `successors` is stored without one. A record without `characters` is read as the empty list, which matches the legacy shape (line 329); the current and pre-cards shapes (lines 270-273, 293-297) store it without the field, and a later `deleteCharacter` then throws at line 370. The model does not cover these documents.
- JavaScript truthiness is modelled only for the values the store writes. An absent, `null` or `undefined` card are all `None`. Other falsy values in caller fields are not distinguished.
- Lower-casing and trimming are ASCII-only; Unicode case mapping and Unicode whitespace are not modelled.
- Aliasing between records is not modelled: every greeting owns its link lists. The one alias the code relies on, the synced greeting's own predecessor list during `syncBidirectionalLinks`, is modelled by the `owner` index.
- Vue reactivity, the computed wrappers (`allGreetings`, `allCharacters`, `allCards`) and `src/main.js` are not modelled.
- Caller fields beyond the known ones (`extras`) are merged as a map; a caller field that shadows a known field name is not modelled.
- Character records carry only an id and a name. Other fields that characters in a current-format document carry (src/stores/greetings.js:268) are dropped, unlike the extra fields of greetings and cards, which are kept.
