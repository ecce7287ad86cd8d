/** The catalog (food_database.cpp): a vector of `Food` records that can hold
    repeated identifiers, the two-pass load that resolves composite records
    after every line is read, upsert/remove/lookup, keyword queries and the
    all-or-nothing creation of a composite. */
module FoodDb {
  import opened Text
  import opened Foods

  datatype Option<T> = None | Some(value: T)

  /** `CompositeRelation`: a composite's identifier and the identifiers of its
      components, captured from a line during the first pass of a load. */
  datatype CompositeRelation = CompositeRelation(foodId: string, componentIds: seq<string>)

  /** A keyword query: `findFoodsByKeyword`, `findFoodsByAllKeywords`,
      `findFoodsByAnyKeyword`. */
  datatype Query = Keyword(k: string) | AllOf(ks: seq<string>) | AnyOf(ks: seq<string>)

  /** The header line `saveToFile` writes before the records. */
  const Header: string :=
    "#" + " Food Database Format: identifier;keyword1,keyword2,...;calories;isComposite;componentId1,componentId2,..."

  // ---------------------------------------------------------------------------
  // Lookup

  /** Position of the first record with identifier `id`. */
  function FindIndex(foods: seq<Food>, id: string): (r: Option<nat>)
    ensures r.Some? ==> r.value < |foods| && foods[r.value].id == id
    ensures r.Some? ==> forall j :: 0 <= j < r.value ==> foods[j].id != id
    ensures r.None? <==> id !in Identifiers(foods)
  {
    if foods == [] then None
    else
      assert Identifiers(foods) == [foods[0].id] + Identifiers(foods[1..]);
      if foods[0].id == id then Some(0)
      else
        match FindIndex(foods[1..], id)
        case None => None
        case Some(i) => Some(i + 1)
  }

  /** Copies of the first record for each identifier in `ids`, in order, or
      None as soon as one identifier is absent. */
  function LookupAll(foods: seq<Food>, ids: seq<string>): (r: Option<seq<Food>>)
    ensures r.Some? <==> forall j :: 0 <= j < |ids| ==> ids[j] in Identifiers(foods)
    ensures r.Some? ==> |r.value| == |ids|
    ensures r.Some? ==> forall j :: 0 <= j < |ids| ==>
              FindIndex(foods, ids[j]).Some? && r.value[j] == foods[FindIndex(foods, ids[j]).value]
  {
    if ids == [] then Some([])
    else
      match LookupAll(foods, ids[..|ids| - 1])
      case None => None
      case Some(cs) =>
        match FindIndex(foods, ids[|ids| - 1])
        case None => None
        case Some(i) => Some(cs + [foods[i]])
  }

  // ---------------------------------------------------------------------------
  // Resolution (the second pass of a load)

  /** One relation of `processCompositeRelations`: when the composite and every
      component exist and there is at least one component, the first record
      with the composite's identifier becomes the composite built from copies
      of the components as they are now; otherwise nothing changes. */
  function ResolveOne(foods: seq<Food>, rel: CompositeRelation): (r: seq<Food>)
    ensures Identifiers(r) == Identifiers(foods)
    ensures (exists j :: 0 <= j < |rel.componentIds| && rel.componentIds[j] !in Identifiers(foods)) ==> r == foods
    ensures rel.foodId !in Identifiers(foods) ==> r == foods
  {
    match FindIndex(foods, rel.foodId)
    case None => foods
    case Some(i) =>
      match LookupAll(foods, rel.componentIds)
      case None => foods
      case Some(cs) =>
        if cs == [] then foods
        else
          var r := foods[i := Composite(rel.foodId, cs)];
          assert Identifiers(r) == Identifiers(foods);
          r
  }

  /** The two outcomes of resolving one relation. */
  lemma ResolveOneCases(foods: seq<Food>, rel: CompositeRelation)
    ensures var i, cs := FindIndex(foods, rel.foodId), LookupAll(foods, rel.componentIds);
            ResolveOne(foods, rel) ==
              if i.Some? && cs.Some? && cs.value != [] then foods[i.value := Composite(rel.foodId, cs.value)]
              else foods
  {
  }

  /** The relations resolved one after another, in the order they were captured. */
  function ResolveAll(foods: seq<Food>, rels: seq<CompositeRelation>): (r: seq<Food>)
    ensures Identifiers(r) == Identifiers(foods)
  {
    if rels == [] then foods else ResolveOne(ResolveAll(foods, rels[..|rels| - 1]), rels[|rels| - 1])
  }

  lemma ResolveAllStep(foods: seq<Food>, rels: seq<CompositeRelation>, r: nat)
    requires r < |rels|
    ensures ResolveAll(foods, rels[..r + 1]) == ResolveOne(ResolveAll(foods, rels[..r]), rels[r])
  {
    assert rels[..r + 1][..r] == rels[..r];
  }

  // ---------------------------------------------------------------------------
  // The first pass of a load

  /** An empty line, or one whose first character is `#`. */
  predicate Skipped(line: string)
  {
    line == [] || line[0] == '#'
  }

  /** The loader does not throw on this line. */
  predicate LineParsable(line: string)
  {
    Skipped(line) || CaloriesParsable(line)
  }

  /** The loader does not throw on any of `lines`. */
  predicate AllParsable(lines: seq<string>)
  {
    lines == [] || (AllParsable(lines[..|lines| - 1]) && LineParsable(lines[|lines| - 1]))
  }

  /** Every line of a parsable file, and every prefix of it, is parsable. */
  lemma {:induction false} AllParsablePrefix(lines: seq<string>, n: nat)
    requires AllParsable(lines) && n < |lines|
    ensures AllParsable(lines[..n]) && LineParsable(lines[n])
  {
    if n + 1 < |lines| {
      var p := lines[..|lines| - 1];
      AllParsablePrefix(p, n);
      assert p[..n] == lines[..n];
    }
  }

  /** The record a line contributes: none for a skipped line or one that
      parses to the empty identifier. */
  function LineFood(line: string): Option<Food>
    requires LineParsable(line)
  {
    if Skipped(line) then None
    else
      var f := Deserialize(line);
      if f.id == [] then None else Some(f)
  }

  /** The relation a line contributes: only a line with at least five fields
      whose fourth field is exactly `1`. */
  function LineRelation(line: string): Option<CompositeRelation>
  {
    if Skipped(line) then None
    else
      var tokens := Split(line, ';');
      if |tokens| >= 5 && tokens[3] == "1" then Some(CompositeRelation(tokens[0], Split(tokens[4], ',')))
      else None
  }

  /** The records of the first pass, in line order. */
  function ParsedFoods(lines: seq<string>): (r: seq<Food>)
    requires AllParsable(lines)
    ensures |r| <= |lines|
    ensures forall i :: 0 <= i < |r| ==> r[i].id != [] && !r[i].isComposite && r[i].components == []
  {
    if lines == [] then []
    else
      var p := ParsedFoods(lines[..|lines| - 1]);
      match LineFood(lines[|lines| - 1])
      case None => p
      case Some(f) => p + [f]
  }

  /** The relations of the first pass, in line order. */
  function Relations(lines: seq<string>): seq<CompositeRelation>
  {
    if lines == [] then []
    else
      var p := Relations(lines[..|lines| - 1]);
      match LineRelation(lines[|lines| - 1])
      case None => p
      case Some(rel) => p + [rel]
  }

  /** The catalog after loading `lines`. */
  function Loaded(lines: seq<string>): seq<Food>
    requires AllParsable(lines)
  {
    ResolveAll(ParsedFoods(lines), Relations(lines))
  }

  /** What one more line adds to the first pass. */
  lemma LoadStep(lines: seq<string>, i: nat)
    requires i < |lines| && AllParsable(lines)
    ensures AllParsable(lines[..i]) && LineParsable(lines[i]) && AllParsable(lines[..i + 1])
    ensures ParsedFoods(lines[..i + 1]) ==
              ParsedFoods(lines[..i]) + (match LineFood(lines[i]) case None => [] case Some(f) => [f])
    ensures Relations(lines[..i + 1]) ==
              Relations(lines[..i]) + (match LineRelation(lines[i]) case None => [] case Some(r) => [r])
  {
    AllParsablePrefix(lines, i);
    var q := lines[..i + 1];
    assert q[..|q| - 1] == lines[..i];
    assert q[|q| - 1] == lines[i];
  }

  /** The lines `saveToFile` writes for `foods`. */
  function SavedLines(foods: seq<Food>): seq<string>
  {
    if foods == [] then [Header] else SavedLines(foods[..|foods| - 1]) + [Serialize(foods[|foods| - 1])]
  }

  /** The records matching a query, in catalog order. */
  predicate Matches(f: Food, q: Query)
  {
    match q
    case Keyword(k) => MatchKeyword(f, k)
    case AllOf(ks) => MatchAllKeywords(f, ks)
    case AnyOf(ks) => MatchAnyKeyword(f, ks)
  }

  function Select(foods: seq<Food>, q: Query): (r: seq<Food>)
    ensures |r| <= |foods|
    ensures forall f :: f in r <==> f in foods && Matches(f, q)
  {
    if foods == [] then []
    else
      var p := Select(foods[..|foods| - 1], q);
      assert foods == foods[..|foods| - 1] + [foods[|foods| - 1]];
      if Matches(foods[|foods| - 1], q) then p + [foods[|foods| - 1]] else p
  }

  // ---------------------------------------------------------------------------
  // Properties of queries, saving and loading

  /** A query every record matches selects the whole catalog, in order. */
  lemma {:induction false} SelectEverything(foods: seq<Food>, q: Query)
    requires forall i :: 0 <= i < |foods| ==> Matches(foods[i], q)
    ensures Select(foods, q) == foods
  {
    if foods != [] {
      SelectEverything(foods[..|foods| - 1], q);
      assert foods[..|foods| - 1] + [foods[|foods| - 1]] == foods;
    }
  }

  /** An empty "all" search and an empty "any" search both return every record. */
  lemma EmptySearchSelectsAll(foods: seq<Food>)
    ensures Select(foods, AllOf([])) == foods
    ensures Select(foods, AnyOf([])) == foods
  {
    SelectEverything(foods, AllOf([]));
    SelectEverything(foods, AnyOf([]));
  }

  /** A record whose line can be written and read back: writable identifier
      and keywords, an identifier that neither is empty nor starts a comment,
      and component identifiers that are non-empty and free of `,` and `;`. */
  predicate WritableRecord(f: Food)
  {
    && WritableFields(f)
    && f.id != [] && f.id[0] != '#'
    && forall i :: 0 <= i < |f.components| ==>
         f.components[i].id != [] && ',' !in f.components[i].id && ';' !in f.components[i].id
  }

  /** The relation the line of `f` carries, if any. */
  function SavedRelation(f: Food): Option<CompositeRelation>
  {
    if f.isComposite && f.components != [] then Some(CompositeRelation(f.id, Identifiers(f.components)))
    else None
  }

  /** A saved line loads back as the basic version of its record and, for a
      composite with components, carries a relation naming exactly those
      components. */
  lemma SavedLineLoads(f: Food)
    requires WritableRecord(f)
    ensures LineParsable(Serialize(f))
    ensures LineFood(Serialize(f)) == Some(Basic(f.id, f.keywords, f.calories))
    ensures LineRelation(Serialize(f)) == SavedRelation(f)
  {
    SerializeRoundTrip(f);
    SerializeTokens(f);
    FlagTailTokens(f);
    assert Serialize(f)[0] == f.id[0];
  }

  /** The `;`-fields of the flag part of a written record with writable
      component identifiers. */
  lemma FlagTailTokens(f: Food)
    requires WritableRecord(f)
    ensures Split(FlagTail(f), ';') ==
              if f.isComposite && f.components != [] then ["1", Join(Identifiers(f.components), ',')]
              else if f.isComposite then ["1"] else ["0"]
    ensures f.isComposite && f.components != [] ==>
              Split(Join(Identifiers(f.components), ','), ',') == Identifiers(f.components)
  {
    var ids := Identifiers(f.components);
    var joined := Join(ids, ',');
    JoinAvoids(ids, ',', ';');
    SplitJoin(ids, ',');
    if f.isComposite {
      assert FlagTail(f) == "1" + [';'] + joined;
      SplitCons("1", ';', joined);
      if ids != [] {
        assert joined != [];
        SplitSingle(joined, ';');
      }
    } else {
      SplitSingle("0", ';');
    }
  }

  /** The basic versions of `foods`. */
  function Basics(foods: seq<Food>): (r: seq<Food>)
    ensures |r| == |foods|
    ensures forall i :: 0 <= i < |foods| ==> r[i] == Basic(foods[i].id, foods[i].keywords, foods[i].calories)
  {
    if foods == [] then []
    else
      var f := foods[|foods| - 1];
      Basics(foods[..|foods| - 1]) + [Basic(f.id, f.keywords, f.calories)]
  }

  /** The relations saved lines of `foods` carry, in catalog order. */
  function SavedRelations(foods: seq<Food>): seq<CompositeRelation>
  {
    if foods == [] then []
    else
      var p := SavedRelations(foods[..|foods| - 1]);
      match SavedRelation(foods[|foods| - 1])
      case None => p
      case Some(rel) => p + [rel]
  }

  /** The first pass over what `saveToFile` wrote gives back every record, as
      a basic record with its identifier, keywords and calories, and one
      relation per composite. */
  lemma SavedLinesLoad(foods: seq<Food>)
    requires forall i :: 0 <= i < |foods| ==> WritableRecord(foods[i])
    ensures AllParsable(SavedLines(foods))
    ensures ParsedFoods(SavedLines(foods)) == Basics(foods)
    ensures Relations(SavedLines(foods)) == SavedRelations(foods)
  {
    SavedLinesParsable(foods);
    SavedLinesFoods(foods);
    SavedLinesRelations(foods);
  }

  lemma {:induction false} SavedLinesParsable(foods: seq<Food>)
    requires forall i :: 0 <= i < |foods| ==> WritableRecord(foods[i])
    ensures AllParsable(SavedLines(foods))
  {
    var lines := SavedLines(foods);
    if foods == [] {
      assert Skipped(Header);
      assert lines[..0] == [];
    } else {
      SavedLinesParsable(foods[..|foods| - 1]);
      SavedLineLoads(foods[|foods| - 1]);
      assert lines[..|lines| - 1] == SavedLines(foods[..|foods| - 1]);
    }
  }

  lemma {:induction false} SavedLinesFoods(foods: seq<Food>)
    requires forall i :: 0 <= i < |foods| ==> WritableRecord(foods[i])
    ensures AllParsable(SavedLines(foods))
    ensures ParsedFoods(SavedLines(foods)) == Basics(foods)
  {
    SavedLinesParsable(foods);
    var lines := SavedLines(foods);
    if foods == [] {
      assert lines == [Header];
      assert lines[..0] == [];
    } else {
      var p := foods[..|foods| - 1];
      var f := foods[|foods| - 1];
      SavedLinesFoods(p);
      SavedLineLoads(f);
      assert lines[..|lines| - 1] == SavedLines(p);
    }
  }

  lemma {:induction false} SavedLinesRelations(foods: seq<Food>)
    requires forall i :: 0 <= i < |foods| ==> WritableRecord(foods[i])
    ensures Relations(SavedLines(foods)) == SavedRelations(foods)
  {
    var lines := SavedLines(foods);
    if foods == [] {
      assert lines == [Header];
      assert lines[..0] == [];
    } else {
      var p := foods[..|foods| - 1];
      var f := foods[|foods| - 1];
      SavedLinesRelations(p);
      SavedLineLoads(f);
      assert lines[..|lines| - 1] == SavedLines(p);
    }
  }

  lemma BasicsIdentifiers(foods: seq<Food>)
    ensures Identifiers(Basics(foods)) == Identifiers(foods)
  {
    var b := Basics(foods);
    assert forall i :: 0 <= i < |foods| ==> Identifiers(b)[i] == Identifiers(foods)[i];
  }

  /** Loading what was saved gives back the same identifiers in the same order. */
  lemma SaveThenLoadKeepsIdentifiers(foods: seq<Food>)
    requires forall i :: 0 <= i < |foods| ==> WritableRecord(foods[i])
    ensures AllParsable(SavedLines(foods))
    ensures Identifiers(Loaded(SavedLines(foods))) == Identifiers(foods)
  {
    var lines := SavedLines(foods);
    SavedLinesFoods(foods);
    var parsed := ParsedFoods(lines);
    assert Identifiers(Loaded(lines)) == Identifiers(parsed);
    BasicsIdentifiers(foods);
  }

  // ---------------------------------------------------------------------------
  // The catalog object

  class FoodDatabase {
    var foods: seq<Food>

    /** `FoodDatabase(filename)`: loads the file when it can be opened (`file`
        is None when it cannot) and starts empty otherwise. */
    constructor (file: Option<seq<string>>)
      requires file.Some? ==> AllParsable(file.value)
      ensures foods == if file.Some? then Loaded(file.value) else []
    {
      foods := [];
      new;
      var loaded := LoadFromFile(file);
    }

    /** `loadFromFile()`: when the file cannot be opened it reports false and
        leaves the records alone; otherwise the records become the parsed
        lines with every captured relation resolved. */
    method LoadFromFile(file: Option<seq<string>>) returns (ok: bool)
      requires file.Some? ==> AllParsable(file.value)
      modifies this
      ensures ok == file.Some?
      ensures foods == if file.Some? then Loaded(file.value) else old(foods)
    {
      if file.None? {
        return false;
      }
      var lines := file.value;
      var relations := ReadLines(lines);
      if relations != [] {
        ProcessCompositeRelations(relations);
      }
      return true;
    }

    /** The first pass of `loadFromFile`: clears the records, then appends the
        record of every line and collects the relations, in line order. */
    method ReadLines(lines: seq<string>) returns (relations: seq<CompositeRelation>)
      requires AllParsable(lines)
      modifies this
      ensures foods == ParsedFoods(lines) && relations == Relations(lines)
    {
      foods := [];
      relations := [];
      var i := 0;
      while i < |lines|
        invariant 0 <= i <= |lines|
        invariant AllParsable(lines[..i])
        invariant foods == ParsedFoods(lines[..i])
        invariant relations == Relations(lines[..i])
      {
        LoadStep(lines, i);
        var food, relation := ReadLine(lines[i]);
        if relation.Some? {
          relations := relations + [relation.value];
        }
        if food.Some? {
          foods := foods + [food.value];
        }
        i := i + 1;
      }
      assert lines[..i] == lines;
    }

    /** The body of the line loop of `loadFromFile`: a skipped line gives
        nothing; otherwise a relation when the line has at least five fields
        and the fourth is `1`, and the parsed record unless its identifier is
        empty. */
    method ReadLine(line: string) returns (food: Option<Food>, relation: Option<CompositeRelation>)
      requires LineParsable(line)
      ensures food == LineFood(line) && relation == LineRelation(line)
    {
      food, relation := None, None;
      if line == [] || line[0] == '#' {
        return;
      }
      var tokens := Split(line, ';');
      if |tokens| >= 5 && tokens[3] == "1" {
        relation := Some(CompositeRelation(tokens[0], Split(tokens[4], ',')));
      }
      var parsed := Deserialize(line);
      if parsed.id != [] {
        food := Some(parsed);
      }
    }

    /** `processCompositeRelations(relations)`. */
    method ProcessCompositeRelations(relations: seq<CompositeRelation>)
      modifies this
      ensures foods == ResolveAll(old(foods), relations)
    {
      ghost var start := foods;
      var r := 0;
      while r < |relations|
        invariant 0 <= r <= |relations|
        invariant foods == ResolveAll(start, relations[..r])
      {
        var relation := relations[r];
        ResolveAllStep(start, relations, r);
        ResolveOneCases(foods, relation);
        var target := FindFoodByIdentifier(relation.foodId);
        if target.Some? {
          var components := CollectComponents(relation.componentIds);
          if components.Some? && components.value != [] {
            var composite := BuildComposite(relation.foodId, components.value);
            foods := foods[target.value := composite];
          }
        }
        r := r + 1;
      }
      assert relations[..r] == relations;
    }

    /** The component loop of `processCompositeRelations` and of
        `createCompositeFood`: copies of the first record for each identifier,
        stopping at the first one that is absent. */
    method CollectComponents(ids: seq<string>) returns (found: Option<seq<Food>>)
      ensures found == LookupAll(foods, ids)
    {
      var components: seq<Food> := [];
      var j := 0;
      while j < |ids|
        invariant 0 <= j <= |ids|
        invariant LookupAll(foods, ids[..j]) == Some(components)
      {
        var c := FindFoodByIdentifier(ids[j]);
        if c.None? {
          return None;
        }
        assert ids[..j + 1][..j] == ids[..j];
        components := components + [foods[c.value]];
        j := j + 1;
      }
      assert ids[..j] == ids;
      return Some(components);
    }

    /** `saveToFile()`: when the file can be written (`writable`), the header
        line followed by one line per record in catalog order. */
    method SaveToFile(writable: bool) returns (written: Option<seq<string>>)
      ensures written.Some? <==> writable
      ensures written.Some? ==> |written.value| == |foods| + 1 && written.value[0] == Header
      ensures written.Some? ==> forall i :: 0 <= i < |foods| ==> written.value[i + 1] == Serialize(foods[i])
    {
      if !writable {
        return None;
      }
      var lines := [Header];
      var i := 0;
      while i < |foods|
        invariant 0 <= i <= |foods|
        invariant |lines| == i + 1 && lines[0] == Header
        invariant forall j :: 0 <= j < i ==> lines[j + 1] == Serialize(foods[j])
      {
        lines := lines + [Serialize(foods[i])];
        i := i + 1;
      }
      return Some(lines);
    }

    /** `addFood(food)`: replaces the first record with the same identifier,
        or appends when there is none. */
    method AddFood(food: Food)
      modifies this
      ensures match FindIndex(old(foods), food.id)
              case Some(i) => foods == old(foods)[i := food]
              case None => foods == old(foods) + [food]
    {
      var i := 0;
      while i < |foods|
        invariant 0 <= i <= |foods|
        invariant foods == old(foods)
        invariant forall j :: 0 <= j < i ==> foods[j].id != food.id
      {
        if foods[i].id == food.id {
          assert Identifiers(foods)[i] == food.id;
          foods := foods[i := food];
          return;
        }
        i := i + 1;
      }
      foods := foods + [food];
    }

    /** `removeFood(id)`: erases the first record with that identifier and
        reports whether there was one. */
    method RemoveFood(id: string) returns (removed: bool)
      modifies this
      ensures removed <==> id in Identifiers(old(foods))
      ensures match FindIndex(old(foods), id)
              case Some(i) => foods == old(foods)[..i] + old(foods)[i + 1..]
              case None => foods == old(foods)
    {
      var i := 0;
      while i < |foods|
        invariant 0 <= i <= |foods|
        invariant foods == old(foods)
        invariant forall j :: 0 <= j < i ==> foods[j].id != id
      {
        if foods[i].id == id {
          assert Identifiers(foods)[i] == id;
          foods := foods[..i] + foods[i + 1..];
          return true;
        }
        i := i + 1;
      }
      return false;
    }

    /** `findFoodByIdentifier(id)`: the position of the first record with that
        identifier (the pointer into the vector), or None. */
    method FindFoodByIdentifier(id: string) returns (r: Option<nat>)
      ensures r == FindIndex(foods, id)
    {
      var i := 0;
      while i < |foods|
        invariant 0 <= i <= |foods|
        invariant forall j :: 0 <= j < i ==> foods[j].id != id
      {
        if foods[i].id == id {
          assert Identifiers(foods)[i] == id;
          return Some(i);
        }
        i := i + 1;
      }
      return None;
    }

    /** The common loop of the three keyword queries. */
    method FindFoodsBy(q: Query) returns (result: seq<Food>)
      ensures result == Select(foods, q)
    {
      result := [];
      var i := 0;
      while i < |foods|
        invariant 0 <= i <= |foods|
        invariant result == Select(foods[..i], q)
      {
        assert foods[..i + 1][..i] == foods[..i];
        var f := foods[i];
        var matched := match q
          case Keyword(k) => MatchKeyword(f, k)
          case AllOf(ks) => MatchAllKeywords(f, ks)
          case AnyOf(ks) => MatchAnyKeyword(f, ks);
        if matched {
          result := result + [f];
        }
        i := i + 1;
      }
      assert foods[..i] == foods;
    }

    /** `findFoodsByKeyword(keyword)`. */
    method FindFoodsByKeyword(keyword: string) returns (result: seq<Food>)
      ensures result == Select(foods, Keyword(keyword))
    {
      result := FindFoodsBy(Keyword(keyword));
    }

    /** `findFoodsByAllKeywords(keywords)`. */
    method FindFoodsByAllKeywords(keywords: seq<string>) returns (result: seq<Food>)
      ensures result == Select(foods, AllOf(keywords))
    {
      result := FindFoodsBy(AllOf(keywords));
    }

    /** `findFoodsByAnyKeyword(keywords)`. */
    method FindFoodsByAnyKeyword(keywords: seq<string>) returns (result: seq<Food>)
      ensures result == Select(foods, AnyOf(keywords))
    {
      result := FindFoodsBy(AnyOf(keywords));
    }

    /** `createCompositeFood(name, componentIds)`: fails, changing nothing, when
        `name` is taken, when a component is absent or when there are no
        components; otherwise appends the composite built from copies of the
        current records. */
    method CreateCompositeFood(name: string, componentIds: seq<string>) returns (ok: bool)
      modifies this
      ensures ok <==> name !in Identifiers(old(foods)) && componentIds != []
                      && LookupAll(old(foods), componentIds).Some?
      ensures !ok ==> foods == old(foods)
      ensures ok ==> foods == old(foods) + [Composite(name, LookupAll(old(foods), componentIds).value)]
    {
      var existing := FindFoodByIdentifier(name);
      if existing.Some? {
        return false;
      }
      var found := CollectComponents(componentIds);
      if found.None? {
        return false;
      }
      var components := found.value;
      if components == [] {
        return false;
      }
      var composite := BuildComposite(name, components);
      AddFood(composite);
      return true;
    }
  }
}
