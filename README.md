# Food catalog: composite records and two-pass loading

A Dafny model of the core of a small C++ food catalog. The model has two parts.

**The `Food` record** (`food.cpp`), module `Foods`.
- A food is either basic, with stored keywords and calories, or composite.
- A composite derives its calories and keywords from copies of its components.
- `Food` is a recursive datatype. A composite holds copies of its components, not references, so a datatype captures this exactly.
- The composite constructor and `addComponent` keep the loops of the source. They are methods whose results are tied to reference definitions:
  - `SumCalories`;
  - `Dedup` of `AllKeywords` (first occurrence, each keyword once);
  - `MergeKeywords` (`addComponent`'s incremental rule).
- The three keyword matchers, `toString` and `fromString` are functions.

**The catalog** (`food_database.cpp`), module `FoodDb`.
- `FoodDatabase` is a class whose `foods: seq<Food>` field its methods reassign, as the C++ code changes its `std::vector` in place.
- A pointer returned by `findFoodByIdentifier` is modelled as an index into `foods`.
- Loading takes the lines of the file and works in two passes:
  - The first pass parses every line into a basic record and captures a `CompositeRelation` from composite lines.
  - The second pass resolves each relation once, in order. It rebuilds the first record with the composite's identifier from copies of its components as they stand at that moment.
- Saving produces the header line and one `toString` line per record.

**Text handling** (module `Text`).
- `Split` is the `std::getline` tokenising loop. An empty text gives no token. A trailing delimiter gives no empty last token. Interior empty fields are kept.
- `Join`, and the `int` text written by `operator<<`.
- `Stoi` is `std::stoi`: it skips leading white space, reads an optional sign and at least one digit, and ignores trailing text.

**Worked catalogs** (module `Scenarios`): a forward reference, a missing component, and a composite of a composite.

Where the code and its documented intent differ, the model follows the code:
- Every record read from a file is basic. `fromString` computes the composite flag but never uses it (`food.cpp:198-206`). A composite whose resolution fails therefore stays a basic record with the keywords and calories stored in its line.
- The composite constructor accepts an empty component list. The result is composite, with no keywords and 0 calories.
- The catalog may hold several records with the same identifier. Lookups, `addFood` and `removeFood` act on the first one.
- Resolution is a single pass. A composite whose component is a composite listed later in the file keeps a copy of that component's parsed, basic state (`SinglePassNesting`). Saving and loading again can then change the outer composite's calories.
- Building a record with `addComponent` calls, starting from `Food(id, {}, 0)`, gives the same record as the composite constructor only when at least one component is added. With none, the record stays basic (`AddAllIsComposite`).

## Model

| member | source | states |
|---|---|---|
| Text.SplitJoin | food.cpp:101-106 | tokenising the text written by the separator loop gives back the parts, when no part is empty or holds the separator |
| Text.SplitCons | food_database.cpp:34-36 | the getline loop yields the text before the first delimiter as a token and then tokenises the rest |
| Text.StoiIntToString | food.cpp:190 | `std::stoi` accepts the text `operator<<` writes for any `int` and returns that same integer |
| Text.IntToStringShape | food.cpp:108 | the written calorie field is never empty and holds neither `;` nor `,` |
| Foods.BuildComposite | food.cpp:13-35 | the composite constructor: identifier and components are as given, the record is composite even with no components, calories are the sum of the components' calories, keywords are the first-occurrence de-duplication of the components' keywords |
| Foods.CompositeKeywords | food.cpp:18-31 | a composite's keywords have no duplicates and hold every keyword of every component and nothing else |
| Foods.DedupFirstOccurrenceOrder | food.cpp:25-29 | the collected keywords appear in the order of their first occurrence across the components |
| Foods.DedupElements | food.cpp:25-29 | collecting unseen keywords keeps exactly the keywords it is given |
| Foods.DedupNoDuplicates | food.cpp:27-28 | collecting unseen keywords lists none twice |
| Foods.AddComponent | food.cpp:75-91 | `addComponent` appends the component, adds its calories, appends only its keywords not yet present (in its order, each once) and marks a record with no components composite |
| Foods.MergeKeywordsShape | food.cpp:81-85 | `addComponent` keeps the old keywords as a prefix, the new keyword set is the union of old and added keywords, and a duplicate-free list stays duplicate-free |
| Foods.MergeAppendsFresh | food.cpp:81-85 | the keywords `addComponent` appends are the component's keywords missing from the record, each once, in the component's order |
| Foods.MergeDedup | food.cpp:25-29 | merging a component's keywords into de-duplicated keywords gives the de-duplication of the concatenation, so the constructor's and `addComponent`'s rules agree |
| Foods.AddAllIsComposite | food.cpp:75-91 | `addComponent` with c1..cn from `Food(id, {}, 0)` gives the same calories, keywords and components as `Food(id, {c1..cn})`, and the same record exactly when n > 0 |
| Foods.SumCaloriesAppend | food.cpp:20-21 | one more component adds its calories to the sum and its keywords to the concatenation |
| Foods.AllKeywordsElements | food.cpp:24-25 | a keyword is in the components' concatenated keywords iff some component lists it |
| Foods.Contains | food.cpp:127-132 | the linear scan is true iff the keyword is in the list |
| Foods.MatchKeyword | food.cpp:126-133 | `matchKeyword(k)` is true iff `k` is one of the record's keywords |
| Foods.MatchAllKeywords | food.cpp:136-150 | `matchAllKeywords(ks)` is true iff every element of `ks` is a keyword of the record, and true for an empty `ks` |
| Foods.AnyPresent | food.cpp:154-160 | the nested loops find a match iff some searched keyword is present |
| Foods.MatchAnyKeyword | food.cpp:153-162 | `matchAnyKeyword(ks)` is true iff `ks` is empty or some element of `ks` is a keyword of the record |
| Foods.Deserialize | food.cpp:163-207 | `fromString` gives the empty record for fewer than three `;`-fields; otherwise a basic record without components whose identifier, keywords and calories are the first three fields |
| Foods.SerializeTokens | food.cpp:96-122 | the `;`-fields of `toString` are the identifier, the joined keywords, the calorie text and the composite part |
| Foods.SerializeRoundTrip | food.cpp:96-122 | `fromString(toString(f))` is the basic record with `f`'s identifier, keywords and calories, when the identifier has no `;` and every keyword is non-empty without `,` or `;` |
| FoodDb.FindIndex | food_database.cpp:178-185 | the position of the first record with the identifier, and None exactly when no record has it |
| FoodDb.LookupAll | food_database.cpp:82-92 | copies of the first record for each identifier, in order, and a result exactly when every identifier is present |
| FoodDb.ResolveOne | food_database.cpp:71-99 | resolving a relation keeps the identifiers in order, and changes nothing when the composite or any component is absent |
| FoodDb.ResolveOneCases | food_database.cpp:94-99 | the first record with the composite's identifier becomes the composite of the looked-up components when all are present and there is at least one, and nothing changes otherwise |
| FoodDb.ResolveAll | food_database.cpp:70-101 | resolving the relations in order never changes the length or the order of identifiers |
| FoodDb.ResolveAllStep | food_database.cpp:71 | relations are resolved one after another, each on the result of the ones before |
| FoodDb.ParsedFoods | food_database.cpp:23-58 | the first pass yields at most one record per line, each with a non-empty identifier, basic and without components |
| FoodDb.Select | food_database.cpp:187-215 | a record is in a query's result iff it is in the catalog and matches |
| FoodDb.SelectEverything | food_database.cpp:187-215 | a query that every record matches returns the whole catalog in order |
| FoodDb.EmptySearchSelectsAll | food_database.cpp:197-215 | an empty "all" search and an empty "any" search each return every record |
| FoodDb.SavedLineLoads | food_database.cpp:39-56 | the saved line of a writable record loads as its basic record and carries a relation exactly when it is a composite with components |
| FoodDb.FlagTailTokens | food.cpp:108-119 | the composite part of a line splits into the flag and the component identifiers, which split back into the identifiers |
| FoodDb.SavedLinesLoad | food_database.cpp:103-119 | the first pass over saved lines gives every record back, as a basic record, and one relation per composite with components |
| FoodDb.SaveThenLoadKeepsIdentifiers | food_database.cpp:12-119 | loading what was saved gives the same identifiers in the same order |
| FoodDb.FoodDatabase.constructor | food_database.cpp:7-9 | the catalog starts as the loaded file, or empty when the file cannot be opened |
| FoodDb.FoodDatabase.LoadFromFile | food_database.cpp:12-68 | reports whether the file could be opened; if so the records become the parsed lines with every captured relation resolved, and otherwise they are unchanged |
| FoodDb.LoadStep | food_database.cpp:23-58 | one more line adds its record, if any, and its relation, if any, at the end of what the first pass has collected |
| FoodDb.AllParsablePrefix | food_database.cpp:23 | in a file the loader reads without throwing, every line and every prefix of lines is read without throwing |
| FoodDb.FoodDatabase.ReadLines | food_database.cpp:19-58 | the first pass clears the records, then holds the parsed record of every line and the captured relations, in line order |
| FoodDb.FoodDatabase.ReadLine | food_database.cpp:25-57 | a skipped line gives nothing; otherwise a relation exactly when there are at least five fields and the fourth is `1`, and the parsed record unless its identifier is empty |
| FoodDb.FoodDatabase.ProcessCompositeRelations | food_database.cpp:70-101 | the records become the result of resolving the relations in order |
| FoodDb.FoodDatabase.CollectComponents | food_database.cpp:79-92 | the component loop (also that of `createCompositeFood`) yields copies of the first records for the identifiers, or nothing at the first absent one |
| FoodDb.FoodDatabase.SaveToFile | food_database.cpp:103-119 | when the file can be written, the header line and then each record's `toString` line, in catalog order |
| FoodDb.FoodDatabase.AddFood | food_database.cpp:154-166 | replaces the first record with the same identifier, leaving the length and every other record unchanged, or appends when there is none |
| FoodDb.FoodDatabase.RemoveFood | food_database.cpp:168-176 | reports true iff a record had the identifier, erases only the first such record keeping the order of the rest, and changes nothing otherwise |
| FoodDb.FoodDatabase.FindFoodByIdentifier | food_database.cpp:178-185 | the position of the first record with the identifier, or None |
| FoodDb.FoodDatabase.FindFoodsBy | food_database.cpp:187-215 | the matching records in catalog order, leaving the catalog unchanged |
| FoodDb.FoodDatabase.FindFoodsByKeyword | food_database.cpp:187-195 | the records having the keyword, in catalog order |
| FoodDb.FoodDatabase.FindFoodsByAllKeywords | food_database.cpp:197-205 | the records having every searched keyword, in catalog order |
| FoodDb.FoodDatabase.FindFoodsByAnyKeyword | food_database.cpp:207-215 | the records having some searched keyword (all records for an empty search), in catalog order |
| FoodDb.FoodDatabase.CreateCompositeFood | food_database.cpp:122-151 | succeeds iff the name is not taken, the identifier list is non-empty and every component exists; on failure nothing changes; on success exactly the composite of copies of the current components is appended |
| Scenarios.ForwardReference | food_database.cpp:62-65 | a composite stored before its components `Bun` (100) and `Patty` (250) loads with 350 calories and keywords `bread`, `meat` |
| Scenarios.MissingComponent | food_database.cpp:82-99 | a composite naming an absent component keeps its parsed basic state with its stored calories |
| Scenarios.SinglePassNesting | food_database.cpp:71-99 | a composite of a composite listed later keeps a copy of the inner composite's parsed state (0 calories) while the inner one resolves to 100 |

## Left out

- File opening, reading and writing. A file that can be opened is given as its sequence of lines, and one that cannot as None. Saving returns the lines it would write, or None when the file cannot be written.
- The `std::cerr` warnings and errors are output only and are not modelled.
- `std::stoi` throwing on a calorie field without digits is not modelled. Loading and `Deserialize` require every such field to be parsable (`CaloriesParsable`).
- `std::stoi`'s out-of-range exception and C++ `int` overflow in calorie sums are not modelled. Calories are mathematical integers.
- `Foods.BuildComposite`, `Foods.AddComponent`: `addComponent` changes the record in place, while the model returns the updated record as a new value. `Food` has value semantics, so no aliasing is lost.
- Getters, setters, `size()` and `getAllFoods()` (`food.cpp:38-73`, `food_database.cpp:218-224`) are not modelled. The setters can break the relation between a composite's fields and its components. That relation is therefore stated only as a postcondition of the constructor and of `addComponent`, not as an invariant of the record.
- The interactive menu in `main.cpp` and its keyword parsing are not part of the catalog logic and are not modelled.
- Declarations in `food.h` and `food_database.h` are used only for field names and the shape of `CompositeRelation`.
- Character encodings are not modelled. Lines are sequences of characters, and a `\r` before a line end is an ordinary character.
