/** Loads of small catalogs written by `saveToFile`, worked through the model:
    a composite stored before its components, a composite naming a record
    that is not there, and a composite of a composite. */
module Scenarios {
  import opened Foods
  import opened FoodDb

  const Bun := Basic("Bun", ["bread"], 100)
  const Patty := Basic("Patty", ["meat"], 250)

  /** Where the first record with identifier `id` sits, given a witness. */
  lemma FindAt(foods: seq<Food>, id: string, k: nat)
    requires k < |foods| && foods[k].id == id
    requires forall j :: 0 <= j < |foods| && j != k ==> foods[j].id != id
    ensures FindIndex(foods, id) == Some(k)
  {
    assert Identifiers(foods)[k] == id;
  }

  /** Every record of the forward-reference catalog can be written. */
  lemma ForwardReferenceWritable(stored: Food)
    requires stored == Food("Combo", [], 0, true, [Bun, Patty])
    ensures WritableRecord(stored) && WritableRecord(Bun) && WritableRecord(Patty)
  {
    assert Identifiers(stored.components) == ["Bun", "Patty"];
  }

  /** The only composite record of the forward-reference catalog, seen as a relation. */
  lemma ForwardReferenceRelations(stored: Food)
    requires stored == Food("Combo", [], 0, true, [Bun, Patty])
    ensures SavedRelations([stored, Bun, Patty]) == [CompositeRelation("Combo", ["Bun", "Patty"])]
  {
    var foods := [stored, Bun, Patty];
    assert foods[..2] == [stored, Bun];
    assert foods[..2][..1] == [stored];
    assert [stored][..0] == [];
    assert Identifiers(stored.components) == ["Bun", "Patty"];
    var rel := CompositeRelation("Combo", ["Bun", "Patty"]);
    assert SavedRelation(stored) == Some(rel);
    assert SavedRelations([stored]) == [rel];
    assert SavedRelations([stored, Bun]) == [rel];
  }

  /** Resolving a single relation. */
  lemma ResolveAllOne(foods: seq<Food>, a: CompositeRelation)
    ensures ResolveAll(foods, [a]) == ResolveOne(foods, a)
  {
    assert [a][..0] == [];
  }

  /** Resolving two relations, the first before the second. */
  lemma ResolveAllTwo(foods: seq<Food>, a: CompositeRelation, b: CompositeRelation)
    ensures ResolveAll(foods, [a, b]) == ResolveOne(ResolveOne(foods, a), b)
  {
    assert [a, b][..1] == [a];
    ResolveAllOne(foods, a);
  }

  /** The stored lines of the forward-reference catalog. */
  lemma ForwardReferenceParse(stored: Food)
    requires stored == Food("Combo", [], 0, true, [Bun, Patty])
    ensures AllParsable(SavedLines([stored, Bun, Patty]))
    ensures ParsedFoods(SavedLines([stored, Bun, Patty])) == [Basic("Combo", [], 0), Bun, Patty]
    ensures Relations(SavedLines([stored, Bun, Patty])) == [CompositeRelation("Combo", ["Bun", "Patty"])]
  {
    ForwardReferenceWritable(stored);
    ForwardReferenceRelations(stored);
    SavedLinesLoad([stored, Bun, Patty]);
  }

  /** Looking up one more identifier whose first record is known. */
  lemma LookupSnoc(foods: seq<Food>, ids: seq<string>, id: string, cs: seq<Food>, i: nat)
    requires LookupAll(foods, ids) == Some(cs) && FindIndex(foods, id) == Some(i)
    ensures i < |foods| && LookupAll(foods, ids + [id]) == Some(cs + [foods[i]])
  {
    assert (ids + [id])[..|ids|] == ids;
  }

  /** Looking up one identifier whose first record is known. */
  lemma LookupSingle(foods: seq<Food>, a: string, i: nat)
    requires FindIndex(foods, a) == Some(i)
    ensures i < |foods| && LookupAll(foods, [a]) == Some([foods[i]])
  {
    assert LookupAll(foods, []) == Some([]);
    LookupSnoc(foods, [], a, [], i);
    assert [] + [a] == [a];
    assert [] + [foods[i]] == [foods[i]];
  }

  /** Looking up two identifiers whose first records are known. */
  lemma LookupPair(foods: seq<Food>, a: string, b: string, i: nat, j: nat)
    requires FindIndex(foods, a) == Some(i) && FindIndex(foods, b) == Some(j)
    ensures i < |foods| && j < |foods|
    ensures LookupAll(foods, [a, b]) == Some([foods[i], foods[j]])
  {
    LookupSingle(foods, a, i);
    LookupSnoc(foods, [a], b, [foods[i]], j);
    assert [a] + [b] == [a, b];
    assert [foods[i]] + [foods[j]] == [foods[i], foods[j]];
  }

  /** The lookups the forward-reference relation makes in the parsed records. */
  lemma ForwardReferenceLookups(parsed: seq<Food>)
    requires parsed == [Basic("Combo", [], 0), Bun, Patty]
    ensures FindIndex(parsed, "Combo") == Some(0)
    ensures LookupAll(parsed, ["Bun", "Patty"]) == Some([Bun, Patty])
  {
    FindAt(parsed, "Combo", 0);
    FindAt(parsed, "Bun", 1);
    FindAt(parsed, "Patty", 2);
    LookupPair(parsed, "Bun", "Patty", 1, 2);
  }

  /** Resolving the captured relation over the parsed records. */
  lemma ForwardReferenceResolve(parsed: seq<Food>, rel: CompositeRelation)
    requires parsed == [Basic("Combo", [], 0), Bun, Patty]
    requires rel == CompositeRelation("Combo", ["Bun", "Patty"])
    ensures ResolveAll(parsed, [rel]) == [Composite("Combo", [Bun, Patty]), Bun, Patty]
  {
    ForwardReferenceLookups(parsed);
    ResolveAllOne(parsed, rel);
    ResolveOneCases(parsed, rel);
  }

  /** The composite of a bun and a patty. */
  lemma BurgerValue()
    ensures Composite("Combo", [Bun, Patty]).calories == 350
    ensures Composite("Combo", [Bun, Patty]).keywords == ["bread", "meat"]
  {
    assert [Bun, Patty][..1] == [Bun];
    assert [Bun][..0] == [];
    assert Bun.keywords == ["bread"] && Bun.calories == 100;
    assert Patty.keywords == ["meat"] && Patty.calories == 250;
    assert AllKeywords([Bun]) == ["bread"];
    assert SumCalories([Bun]) == 100;
    assert AllKeywords([Bun, Patty]) == ["bread", "meat"];
    assert ["bread", "meat"][..1] == ["bread"];
    assert Dedup(["bread", "meat"]) == ["bread", "meat"];
  }

  /** The file `Combo;;0;1;Bun,Patty`, `Bun;bread;100;0`, `Patty;meat;250;0`
      (after the header): the composite comes first, yet after loading it has
      350 calories and the keywords `bread`, `meat`. */
  lemma ForwardReference()
    ensures var lines := SavedLines([Food("Combo", [], 0, true, [Bun, Patty]), Bun, Patty]);
            && AllParsable(lines)
            && Loaded(lines) == [Composite("Combo", [Bun, Patty]), Bun, Patty]
            && Loaded(lines)[0].calories == 350
            && Loaded(lines)[0].keywords == ["bread", "meat"]
  {
    ForwardReferenceParse(Food("Combo", [], 0, true, [Bun, Patty]));
    ForwardReferenceResolve([Basic("Combo", [], 0), Bun, Patty], CompositeRelation("Combo", ["Bun", "Patty"]));
    BurgerValue();
  }

  /** A relation that names a missing component leaves the record as parsed:
      `Combo;bread;120;1;Bun,Ghost` with no `Ghost` line stays a basic record
      with its stored keywords and calories. */
  lemma MissingComponent(parsed: seq<Food>, rel: CompositeRelation)
    requires parsed == [Basic("Combo", ["bread"], 120), Bun]
    requires rel == CompositeRelation("Combo", ["Bun", "Ghost"])
    ensures ResolveAll(parsed, [rel]) == parsed
    ensures !ResolveAll(parsed, [rel])[0].isComposite && ResolveAll(parsed, [rel])[0].calories == 120
  {
    ResolveAllOne(parsed, rel);
    var ids := Identifiers(parsed);
    assert |ids| == 2 && ids[0] == "Combo" && ids[1] == "Bun";
    assert "Ghost" !in ids;
    assert rel.componentIds[1] !in ids;
  }

  /** The first relation of the nesting catalog: `Meal` takes a copy of the
      still-basic `Combo`. */
  lemma NestingMeal(parsed: seq<Food>, meal: CompositeRelation)
    requires parsed == [Basic("Meal", [], 0), Basic("Combo", [], 0), Bun]
    requires meal == CompositeRelation("Meal", ["Combo"])
    ensures ResolveOne(parsed, meal)
         == [Composite("Meal", [Basic("Combo", [], 0)]), Basic("Combo", [], 0), Bun]
  {
    FindAt(parsed, "Meal", 0);
    FindAt(parsed, "Combo", 1);
    LookupSingle(parsed, "Combo", 1);
    ResolveOneCases(parsed, meal);
  }

  /** The second relation of the nesting catalog: `Combo` becomes the
      composite of `Bun`; the copy inside `Meal` is not touched. */
  lemma NestingCombo(mid: seq<Food>, combo: CompositeRelation)
    requires mid == [Composite("Meal", [Basic("Combo", [], 0)]), Basic("Combo", [], 0), Bun]
    requires combo == CompositeRelation("Combo", ["Bun"])
    ensures ResolveOne(mid, combo)
         == [Composite("Meal", [Basic("Combo", [], 0)]), Composite("Combo", [Bun]), Bun]
  {
    FindAt(mid, "Combo", 1);
    FindAt(mid, "Bun", 2);
    LookupSingle(mid, "Bun", 2);
    ResolveOneCases(mid, combo);
  }

  /** Composites are resolved once, in file order, from copies of their
      components as they stand at that moment: `Meal` (made of `Combo`) is
      resolved before `Combo` (made of `Bun`), so it keeps a copy of the
      still-basic `Combo` and has 0 calories while `Combo` has 100. */
  lemma SinglePassNesting(parsed: seq<Food>, meal: CompositeRelation, combo: CompositeRelation)
    requires parsed == [Basic("Meal", [], 0), Basic("Combo", [], 0), Bun]
    requires meal == CompositeRelation("Meal", ["Combo"])
    requires combo == CompositeRelation("Combo", ["Bun"])
    ensures ResolveAll(parsed, [meal, combo])
         == [Composite("Meal", [Basic("Combo", [], 0)]), Composite("Combo", [Bun]), Bun]
    ensures ResolveAll(parsed, [meal, combo])[0].calories == 0
    ensures ResolveAll(parsed, [meal, combo])[1].calories == 100
  {
    ResolveAllTwo(parsed, meal, combo);
    NestingMeal(parsed, meal);
    NestingCombo([Composite("Meal", [Basic("Combo", [], 0)]), Basic("Combo", [], 0), Bun], combo);
    NestingCalories();
  }

  lemma NestingCalories()
    ensures Composite("Meal", [Basic("Combo", [], 0)]).calories == 0
    ensures Composite("Combo", [Bun]).calories == 100
  {
    assert [Bun][..0] == [];
    assert SumCalories([Bun]) == 100;
    assert [Basic("Combo", [], 0)][..0] == [];
    assert SumCalories([Basic("Combo", [], 0)]) == 0;
  }
}
