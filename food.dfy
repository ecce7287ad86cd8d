/** The `Food` record of the catalog (food.cpp): a basic food with stored
    keywords and calories, or a composite whose keywords and calories are
    derived from by-value copies of its components. */
module Foods {
  import opened Text

  /** One catalog record. `components` holds copies of other records, so a
      recursive datatype gives exactly the copy-not-alias behaviour. */
  datatype Food = Food(
    id: string,
    keywords: seq<string>,
    calories: int,
    isComposite: bool,
    components: seq<Food>)

  /** `Food()`: the empty-identifier record that also signals a parse failure. */
  const EmptyFood := Food("", [], 0, false, [])

  /** `Food(id, kw, calories)`: a basic record. */
  function Basic(id: string, kw: seq<string>, calories: int): Food
  {
    Food(id, kw, calories, false, [])
  }

  // ---------------------------------------------------------------------------
  // Reference definitions for the derived fields

  predicate NoDuplicates(s: seq<string>)
  {
    forall i, j :: 0 <= i < j < |s| ==> s[i] != s[j]
  }

  /** The elements of `s` in the order of their first occurrence, each once. */
  function Dedup(s: seq<string>): seq<string>
  {
    if s == [] then []
    else
      var d := Dedup(s[..|s| - 1]);
      if s[|s| - 1] in s[..|s| - 1] then d else d + [s[|s| - 1]]
  }

  /** The elements of `b` that do not occur in `a`, in `b`'s order. */
  function Fresh(a: seq<string>, b: seq<string>): seq<string>
  {
    if b == [] then []
    else
      var f := Fresh(a, b[..|b| - 1]);
      if b[|b| - 1] in a then f else f + [b[|b| - 1]]
  }

  /** Sum of the components' calories. */
  function SumCalories(comps: seq<Food>): int
  {
    if comps == [] then 0 else SumCalories(comps[..|comps| - 1]) + comps[|comps| - 1].calories
  }

  /** The components' keyword lists, concatenated in component order. */
  function AllKeywords(comps: seq<Food>): seq<string>
  {
    if comps == [] then [] else AllKeywords(comps[..|comps| - 1]) + comps[|comps| - 1].keywords
  }

  /** What the composite constructor `Food(id, comps)` builds. */
  function Composite(id: string, comps: seq<Food>): Food
  {
    Food(id, Dedup(AllKeywords(comps)), SumCalories(comps), true, comps)
  }

  /** The keyword rule of both the composite constructor and `addComponent`:
      `acc` followed by each keyword of `kws` that is not yet present. */
  function MergeKeywords(acc: seq<string>, kws: seq<string>): seq<string>
  {
    if kws == [] then acc
    else
      var m := MergeKeywords(acc, kws[..|kws| - 1]);
      if kws[|kws| - 1] in m then m else m + [kws[|kws| - 1]]
  }

  /** What `f.addComponent(c)` leaves in `f`. */
  function WithComponent(f: Food, c: Food): Food
  {
    Food(f.id, MergeKeywords(f.keywords, c.keywords), f.calories + c.calories,
         f.isComposite || f.components == [], f.components + [c])
  }

  /** `addComponent` applied to `f` with each of `cs` in turn. */
  function AddAll(f: Food, cs: seq<Food>): Food
  {
    if cs == [] then f else WithComponent(AddAll(f, cs[..|cs| - 1]), cs[|cs| - 1])
  }

  /** Index of the first occurrence of `x` in `s`. */
  function FirstIndex(s: seq<string>, x: string): (i: nat)
    requires x in s
    ensures i < |s| && s[i] == x && x !in s[..i]
  {
    if s[0] == x then 0 else 1 + FirstIndex(s[1..], x)
  }

  // ---------------------------------------------------------------------------
  // Properties of the reference definitions

  /** Dedup keeps exactly the elements of its input. */
  lemma {:induction false} DedupElements(s: seq<string>)
    ensures forall x :: x in Dedup(s) <==> x in s
  {
    if s != [] {
      DedupElements(s[..|s| - 1]);
      assert s == s[..|s| - 1] + [s[|s| - 1]];
    }
  }

  /** Dedup lists no element twice. */
  lemma {:induction false} DedupNoDuplicates(s: seq<string>)
    ensures NoDuplicates(Dedup(s))
  {
    if s != [] {
      DedupNoDuplicates(s[..|s| - 1]);
      DedupElements(s[..|s| - 1]);
    }
  }

  /** Dedup lists the elements in the order of their first occurrence in `s`. */
  lemma {:induction false} DedupFirstOccurrenceOrder(s: seq<string>, i: nat, j: nat)
    requires i < j < |Dedup(s)|
    ensures Dedup(s)[i] in s && Dedup(s)[j] in s
    ensures FirstIndex(s, Dedup(s)[i]) < FirstIndex(s, Dedup(s)[j])
  {
    var p := s[..|s| - 1];
    var x := s[|s| - 1];
    assert s == p + [x];
    var d := Dedup(p);
    assert Dedup(s) == if x in p then d else d + [x];
    DedupElements(p);
    if j < |d| {
      DedupFirstOccurrenceOrder(p, i, j);
      FirstIndexPrefix(p, x, d[i]);
      FirstIndexPrefix(p, x, d[j]);
    } else {
      assert Dedup(s)[j] == x && x !in p;
      assert d[i] in p;
      FirstIndexPrefix(p, x, d[i]);
      assert s[..|p|] == p;
      FirstIndexUnique(s, x, |p|);
    }
  }

  /** Appending an element does not move the first occurrence of an element
      already present. */
  lemma {:induction false} FirstIndexPrefix(p: seq<string>, x: string, y: string)
    requires y in p
    ensures y in p + [x] && FirstIndex(p + [x], y) == FirstIndex(p, y) < |p|
  {
    var k := FirstIndex(p, y);
    var s := p + [x];
    assert s[k] == y && y !in s[..k] by {
      assert s[..k] == p[..k];
    }
    FirstIndexUnique(s, y, k);
  }

  lemma FirstIndexUnique(s: seq<string>, x: string, k: nat)
    requires k < |s| && s[k] == x && x !in s[..k]
    ensures FirstIndex(s, x) == k
  {
  }

  /** `MergeKeywords(a, b)` is `a` followed by the keywords of `b` missing from
      `a`, each once, in `b`'s order. */
  lemma {:induction false} MergeAppendsFresh(a: seq<string>, b: seq<string>)
    ensures MergeKeywords(a, b) == a + Dedup(Fresh(a, b))
  {
    if b != [] {
      var p := b[..|b| - 1];
      var x := b[|b| - 1];
      MergeAppendsFresh(a, p);
      DedupElements(Fresh(a, p));
      FreshElements(a, p);
      if x !in a {
        assert Fresh(a, b) == Fresh(a, p) + [x];
        assert Fresh(a, b)[..|Fresh(a, b)| - 1] == Fresh(a, p);
      }
    }
  }

  lemma {:induction false} FreshElements(a: seq<string>, b: seq<string>)
    ensures forall x :: x in Fresh(a, b) <==> x in b && x !in a
  {
    if b != [] {
      FreshElements(a, b[..|b| - 1]);
      assert b == b[..|b| - 1] + [b[|b| - 1]];
    }
  }

  /** Merging into a de-duplicated list gives the de-duplication of the
      concatenation: the incremental and the one-pass rules agree. */
  lemma {:induction false} MergeDedup(a: seq<string>, b: seq<string>)
    ensures MergeKeywords(Dedup(a), b) == Dedup(a + b)
  {
    if b == [] {
      assert a + b == a;
    } else {
      var p := b[..|b| - 1];
      var x := b[|b| - 1];
      MergeDedup(a, p);
      DedupElements(a + p);
      assert (a + b)[..|a + b| - 1] == a + p;
      assert (a + b)[|a + b| - 1] == x;
    }
  }

  /** Properties of `addComponent`'s keyword rule that a caller relies on. */
  lemma MergeKeywordsShape(a: seq<string>, b: seq<string>)
    ensures |MergeKeywords(a, b)| >= |a| && MergeKeywords(a, b)[..|a|] == a
    ensures forall x :: x in MergeKeywords(a, b) <==> x in a || x in b
    ensures NoDuplicates(a) ==> NoDuplicates(MergeKeywords(a, b))
  {
    MergeAppendsFresh(a, b);
    DedupElements(Fresh(a, b));
    FreshElements(a, b);
    DedupNoDuplicates(Fresh(a, b));
    var r := MergeKeywords(a, b);
    assert r[..|a|] == a;
  }

  lemma SumCaloriesAppend(comps: seq<Food>, i: nat)
    requires i < |comps|
    ensures SumCalories(comps[..i + 1]) == SumCalories(comps[..i]) + comps[i].calories
    ensures AllKeywords(comps[..i + 1]) == AllKeywords(comps[..i]) + comps[i].keywords
  {
    assert comps[..i + 1][..i] == comps[..i];
  }

  /** The composite's keywords are duplicate-free, contain every keyword of
      every component and nothing else, in first-occurrence order. */
  lemma CompositeKeywords(id: string, comps: seq<Food>)
    ensures NoDuplicates(Composite(id, comps).keywords)
    ensures forall i, k :: 0 <= i < |comps| && k in comps[i].keywords ==> k in Composite(id, comps).keywords
    ensures forall k :: k in Composite(id, comps).keywords ==>
              exists i :: 0 <= i < |comps| && k in comps[i].keywords
  {
    DedupNoDuplicates(AllKeywords(comps));
    DedupElements(AllKeywords(comps));
    AllKeywordsElements(comps);
  }

  lemma {:induction false} AllKeywordsElements(comps: seq<Food>)
    ensures forall k :: k in AllKeywords(comps) <==> exists i :: 0 <= i < |comps| && k in comps[i].keywords
  {
    if comps != [] {
      var p := comps[..|comps| - 1];
      AllKeywordsElements(p);
      forall k | k in AllKeywords(comps)
        ensures exists i :: 0 <= i < |comps| && k in comps[i].keywords
      {
        if k in AllKeywords(p) {
          var i :| 0 <= i < |p| && k in p[i].keywords;
          assert comps[i] == p[i];
        } else {
          assert k in comps[|comps| - 1].keywords;
        }
      }
      forall k, i | 0 <= i < |comps| && k in comps[i].keywords
        ensures k in AllKeywords(comps)
      {
        if i < |p| {
          assert p[i] == comps[i];
        }
      }
    }
  }

  /** Building a composite by `addComponent` calls from `Food(id, {}, 0)` gives
      the same record as the composite constructor exactly when at least one
      component is added (with none the record stays basic, while the
      constructor marks it composite). */
  lemma {:induction false} AddAllIsComposite(id: string, cs: seq<Food>)
    ensures AddAll(Basic(id, [], 0), cs) == Composite(id, cs) <==> cs != []
    ensures AddAll(Basic(id, [], 0), cs).calories == SumCalories(cs)
    ensures AddAll(Basic(id, [], 0), cs).keywords == Dedup(AllKeywords(cs))
    ensures AddAll(Basic(id, [], 0), cs).components == cs
  {
    if cs == [] {
    } else if |cs| == 1 {
      var b := Basic(id, [], 0);
      assert cs[..0] == [];
      assert AddAll(b, cs) == WithComponent(b, cs[0]);
      MergeDedup([], cs[0].keywords);
      assert Dedup([]) == [];
      assert [] + cs[0].keywords == cs[0].keywords;
      assert [] + [cs[0]] == cs;
      assert AllKeywords(cs) == cs[0].keywords;
      assert SumCalories(cs) == cs[0].calories;
    } else {
      var p := cs[..|cs| - 1];
      AddAllIsComposite(id, p);
      MergeDedup(AllKeywords(p), cs[|cs| - 1].keywords);
      assert p + [cs[|cs| - 1]] == cs;
    }
  }

  // ---------------------------------------------------------------------------
  // The composite constructor and addComponent

  /** `Food(id, comps)`: sums the calories and collects the keywords of `comps`
      not seen before, then marks the record composite with `comps` as its
      components; an empty `comps` is accepted. */
  method BuildComposite(id: string, comps: seq<Food>) returns (f: Food)
    ensures f.id == id && f.isComposite && f.components == comps
    ensures f.calories == SumCalories(comps)
    ensures f.keywords == Dedup(AllKeywords(comps))
  {
    var total := 0;
    var all: seq<string> := [];
    var i := 0;
    while i < |comps|
      invariant 0 <= i <= |comps|
      invariant total == SumCalories(comps[..i])
      invariant all == Dedup(AllKeywords(comps[..i]))
    {
      var kws := comps[i].keywords;
      var j := 0;
      while j < |kws|
        invariant 0 <= j <= |kws|
        invariant all == MergeKeywords(Dedup(AllKeywords(comps[..i])), kws[..j])
      {
        if kws[j] !in all {
          all := all + [kws[j]];
        }
        assert kws[..j + 1][..j] == kws[..j];
        j := j + 1;
      }
      total := total + comps[i].calories;
      SumCaloriesAppend(comps, i);
      assert kws[..j] == kws;
      MergeDedup(AllKeywords(comps[..i]), kws);
      i := i + 1;
    }
    assert comps[..i] == comps;
    f := Food(id, all, total, true, comps);
  }

  /** `f.addComponent(c)`: appends `c`, adds its calories, appends its keywords
      not yet present, and marks `f` composite when this is its first component. */
  method AddComponent(f: Food, c: Food) returns (g: Food)
    ensures g.id == f.id && g.components == f.components + [c]
    ensures g.calories == f.calories + c.calories
    ensures g.keywords == f.keywords + Dedup(Fresh(f.keywords, c.keywords))
    ensures g.isComposite == (f.isComposite || f.components == [])
    ensures g == WithComponent(f, c)
  {
    var components := f.components + [c];
    var calories := f.calories + c.calories;
    var keywords := f.keywords;
    var j := 0;
    while j < |c.keywords|
      invariant 0 <= j <= |c.keywords|
      invariant keywords == MergeKeywords(f.keywords, c.keywords[..j])
    {
      if c.keywords[j] !in keywords {
        keywords := keywords + [c.keywords[j]];
      }
      assert c.keywords[..j + 1][..j] == c.keywords[..j];
      j := j + 1;
    }
    assert c.keywords[..j] == c.keywords;
    MergeAppendsFresh(f.keywords, c.keywords);
    var isComposite := f.isComposite;
    if !isComposite && |components| == 1 {
      isComposite := true;
    }
    g := Food(f.id, keywords, calories, isComposite, components);
  }

  // ---------------------------------------------------------------------------
  // Keyword matching

  /** The linear scan of `matchKeyword`. */
  function Contains(kws: seq<string>, k: string): (r: bool)
    ensures r <==> k in kws
  {
    if kws == [] then false else kws[0] == k || Contains(kws[1..], k)
  }

  /** `matchKeyword(k)`. */
  function MatchKeyword(f: Food, k: string): (r: bool)
    ensures r <==> k in f.keywords
  {
    Contains(f.keywords, k)
  }

  /** `matchAllKeywords(ks)`: every searched keyword is present; vacuously true
      for an empty search. */
  function MatchAllKeywords(f: Food, ks: seq<string>): (r: bool)
    ensures r <==> forall i :: 0 <= i < |ks| ==> ks[i] in f.keywords
  {
    if ks == [] then true else Contains(f.keywords, ks[0]) && MatchAllKeywords(f, ks[1..])
  }

  /** Whether some searched keyword is present (the loops of `matchAnyKeyword`). */
  function AnyPresent(kws: seq<string>, ks: seq<string>): (r: bool)
    ensures r <==> exists i :: 0 <= i < |ks| && ks[i] in kws
  {
    if ks == [] then false
    else Contains(kws, ks[0]) || AnyPresent(kws, ks[1..])
  }

  /** `matchAnyKeyword(ks)`: some searched keyword is present, or the search
      is empty. */
  function MatchAnyKeyword(f: Food, ks: seq<string>): (r: bool)
    ensures r <==> ks == [] || exists i :: 0 <= i < |ks| && ks[i] in f.keywords
  {
    AnyPresent(f.keywords, ks) || ks == []
  }

  // ---------------------------------------------------------------------------
  // The line format: identifier;kw1,kw2,...;calories;0|1[;compId1,compId2,...]

  /** The identifiers of `foods`, in order. */
  function Identifiers(foods: seq<Food>): seq<string>
  {
    seq(|foods|, i requires 0 <= i < |foods| => foods[i].id)
  }

  /** The part of `toString()` after the calorie field: the composite flag
      and, for a composite, its component identifiers. */
  function FlagTail(f: Food): string
  {
    if f.isComposite then "1" + ";" + Join(Identifiers(f.components), ',') else "0"
  }

  /** `toString()`. */
  function Serialize(f: Food): string
  {
    f.id + ";" + Join(f.keywords, ',') + ";" + IntToString(f.calories) + ";" + FlagTail(f)
  }

  /** `std::stoi` on the calorie field would not throw. */
  predicate CaloriesParsable(line: string)
  {
    var tokens := Split(line, ';');
    |tokens| >= 3 ==> IsIntText(tokens[2])
  }

  /** `fromString(line)`: fewer than three `;`-fields give the empty record;
      otherwise a basic record from the first three fields. The composite flag
      is read but not used, so no parsed record is composite. */
  function Deserialize(line: string): (r: Food)
    requires CaloriesParsable(line)
    ensures !r.isComposite && r.components == []
    ensures |Split(line, ';')| < 3 ==> r == EmptyFood
    ensures |Split(line, ';')| >= 3 ==>
              r.id == Split(line, ';')[0] && r.keywords == Split(Split(line, ';')[1], ',')
              && r.calories == Stoi(Split(line, ';')[2])
  {
    var tokens := Split(line, ';');
    if |tokens| < 3 then EmptyFood
    else
      var id := tokens[0];
      var kw := Split(tokens[1], ',');
      var calories := Stoi(tokens[2]);
      if |tokens| == 3 then Basic(id, kw, calories)
      else Basic(id, kw, calories)
  }

  /** A record's identifier and keyword texts can be written and read back:
      no `;` in the identifier, keywords non-empty and free of `,` and `;`. */
  predicate WritableFields(f: Food)
  {
    && ';' !in f.id
    && forall i :: 0 <= i < |f.keywords| ==>
         f.keywords[i] != [] && ',' !in f.keywords[i] && ';' !in f.keywords[i]
  }

  /** The `;`-fields of a written record: identifier, keywords, calories,
      then those of the flag part. */
  lemma SerializeTokens(f: Food)
    requires WritableFields(f)
    ensures Split(Serialize(f), ';') ==
              [f.id, Join(f.keywords, ','), IntToString(f.calories)] + Split(FlagTail(f), ';')
  {
    var kw := Join(f.keywords, ',');
    var cal := IntToString(f.calories);
    var tail := FlagTail(f);
    assert Serialize(f) == f.id + [';'] + (kw + [';'] + (cal + [';'] + tail));
    JoinAvoids(f.keywords, ',', ';');
    IntToStringShape(f.calories);
    SplitCons(f.id, ';', kw + [';'] + (cal + [';'] + tail));
    SplitCons(kw, ';', cal + [';'] + tail);
    SplitCons(cal, ';', tail);
  }

  /** Reading back a written record gives its identifier, keywords and
      calories as a basic record, whether or not it was composite. */
  lemma SerializeRoundTrip(f: Food)
    requires WritableFields(f)
    ensures CaloriesParsable(Serialize(f))
    ensures Deserialize(Serialize(f)) == Basic(f.id, f.keywords, f.calories)
  {
    SerializeTokens(f);
    SplitJoin(f.keywords, ',');
    StoiIntToString(f.calories);
  }
}
