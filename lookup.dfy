/**
 * The lookup engine: the prefix/exclusion filter `addIfStartsWithAndNotExcluded`,
 * the category filter `emptyOrContainsMatch`, and what `lookupResource` answers
 * for each resource name given the cached taxonomy.
 */
module AtlasLookup {
  import opened Wrappers
  import opened AtlasStrings

  const RESOURCE_TYPE_CATEGORY := "type-category"
  const RESOURCE_TYPE_NAME := "type"
  const RESOURCE_ENTITY_TYPE := "entity-type"
  const RESOURCE_ENTITY_CLASSIFICATION := "entity-classification"

  const TYPE_ENTITY := "entity"
  const TYPE_CLASSIFICATION := "classification"
  const TYPE_STRUCT := "struct"
  const TYPE_ENUM := "enum"
  const TYPE_RELATIONSHIP := "relationship"

  /** The fixed vocabulary offered for `type-category`, in the order it is offered. */
  const TYPE_CATEGORIES: seq<string> := ["classification", "enum", "entity", "relationship", "struct"]

  /** The order in which a `type` lookup visits the categories. */
  const TYPE_NAME_ORDER: seq<string> := [TYPE_CLASSIFICATION, TYPE_ENTITY, TYPE_ENUM, TYPE_STRUCT, TYPE_RELATIONSHIP]

  /** A lookup request: the user's partial input, the resource being completed, and the values already chosen per resource. */
  datatype LookupContext = LookupContext(userInput: Option<string>, resourceName: string, resources: map<string, seq<string>>)

  /** A candidate is offered when it starts with the prefix (if any) and is not already chosen. */
  predicate Accepts(value: string, prefix: Option<string>, excludeList: Option<seq<string>>)
  {
    && (prefix.None? || StartsWith(value, prefix.value))
    && !(excludeList.Some? && value in excludeList.value)
  }

  /** The candidates of `values` that pass the filter, in their original order. */
  function Filtered(values: seq<string>, prefix: Option<string>, excludeList: Option<seq<string>>): seq<string>
  {
    if |values| == 0 then []
    else
      var v := values[|values| - 1];
      Filtered(values[..|values| - 1], prefix, excludeList) + (if Accepts(v, prefix, excludeList) then [v] else [])
  }

  /** Filtering a null list of candidates offers nothing. */
  function FilteredOpt(values: Option<seq<string>>, prefix: Option<string>, excludeList: Option<seq<string>>): seq<string>
  {
    if values.None? then [] else Filtered(values.value, prefix, excludeList)
  }

  /** Filtering a concatenation filters each part and keeps their order. */
  lemma {:induction false} FilteredConcat(a: seq<string>, b: seq<string>, prefix: Option<string>, excludeList: Option<seq<string>>)
    ensures Filtered(a + b, prefix, excludeList) == Filtered(a, prefix, excludeList) + Filtered(b, prefix, excludeList)
    decreases |b|
  {
    if |b| == 0 {
      assert a + b == a;
    } else {
      var b' := b[..|b| - 1];
      assert (a + b)[..|a + b| - 1] == a + b';
      FilteredConcat(a, b', prefix, excludeList);
    }
  }

  /**
   * The filter keeps each accepted candidate as often as it occurs and drops every
   * other: the multiset of the result is that of the accepted input.
   */
  lemma {:induction false} FilteredCounts(values: seq<string>, prefix: Option<string>, excludeList: Option<seq<string>>, x: string)
    ensures multiset(Filtered(values, prefix, excludeList))[x] == if Accepts(x, prefix, excludeList) then multiset(values)[x] else 0
    decreases |values|
  {
    if |values| > 0 {
      var init := values[..|values| - 1];
      FilteredCounts(init, prefix, excludeList, x);
      assert values == init + [values[|values| - 1]];
    }
  }

  /** A candidate is offered exactly when it is among the candidates and passes the filter. */
  lemma FilteredMembership(values: seq<string>, prefix: Option<string>, excludeList: Option<seq<string>>, x: string)
    ensures x in Filtered(values, prefix, excludeList) <==> x in values && Accepts(x, prefix, excludeList)
  {
    FilteredCounts(values, prefix, excludeList, x);
  }

  /** Filtering an already filtered list changes nothing. */
  lemma {:induction false} FilteredIdempotent(values: seq<string>, prefix: Option<string>, excludeList: Option<seq<string>>)
    ensures Filtered(Filtered(values, prefix, excludeList), prefix, excludeList) == Filtered(values, prefix, excludeList)
    decreases |values|
  {
    if |values| > 0 {
      var init := values[..|values| - 1];
      var v := values[|values| - 1];
      FilteredIdempotent(init, prefix, excludeList);
      var tail := if Accepts(v, prefix, excludeList) then [v] else [];
      FilteredConcat(Filtered(init, prefix, excludeList), tail, prefix, excludeList);
      if Accepts(v, prefix, excludeList) {
        assert Filtered([v], prefix, excludeList) == Filtered([], prefix, excludeList) + [v];
      }
    }
  }

  /**
   * Only which values are excluded matters, not how often or in what order they are
   * listed: excluding a value twice has the effect of excluding it once.
   */
  lemma {:induction false} ExclusionIsASet(values: seq<string>, prefix: Option<string>, ex1: seq<string>, ex2: seq<string>)
    requires forall x :: x in ex1 <==> x in ex2
    ensures Filtered(values, prefix, Some(ex1)) == Filtered(values, prefix, Some(ex2))
    decreases |values|
  {
    if |values| > 0 {
      ExclusionIsASet(values[..|values| - 1], prefix, ex1, ex2);
    }
  }

  /** Listing an excluded value a second time does not change the result. */
  lemma ExcludeTwice(values: seq<string>, prefix: Option<string>, ex: seq<string>, x: string)
    ensures Filtered(values, prefix, Some(ex + [x, x])) == Filtered(values, prefix, Some(ex + [x]))
  {
    ExclusionIsASet(values, prefix, ex + [x, x], ex + [x]);
  }

  /**
   * `addIfStartsWithAndNotExcluded(list, value, prefix, excludeList)`: appends `value`
   * once when it is non-null, starts with the prefix (if any) and is not excluded;
   * otherwise the list is unchanged. Existing elements are never touched.
   */
  method AddIfStartsWithAndNotExcluded(list: seq<string>, value: Option<string>, prefix: Option<string>, excludeList: Option<seq<string>>)
    returns (list': seq<string>)
    ensures list' == list || (value.Some? && list' == list + [value.value])
    ensures |list'| == |list| + 1 <==>
      && value.Some?
      && (prefix.None? || StartsWith(value.value, prefix.value))
      && !(excludeList.Some? && value.value in excludeList.value)
  {
    list' := list;
    if value.None? {
      return;
    }
    if prefix.Some? && !StartsWith(value.value, prefix.value) {
      return;
    }
    if excludeList.Some? && value.value in excludeList.value {
      return;
    }
    list' := list + [value.value];
  }

  /**
   * The list overload: appends exactly the candidates of `values` that pass the
   * filter, in order; a null `values` leaves the list unchanged.
   */
  method AddAllIfStartsWithAndNotExcluded(list: seq<string>, values: Option<seq<string>>, prefix: Option<string>, excludeList: Option<seq<string>>)
    returns (list': seq<string>)
    ensures list' == list + FilteredOpt(values, prefix, excludeList)
  {
    list' := list;
    if values.None? {
      return;
    }
    var vs := values.value;
    for i := 0 to |vs|
      invariant list' == list + Filtered(vs[..i], prefix, excludeList)
    {
      assert vs[..i + 1][..i] == vs[..i];
      list' := AddIfStartsWithAndNotExcluded(list', Some(vs[i]), prefix, excludeList);
    }
    assert vs[..|vs|] == vs;
  }

  /** The test applied to each filter entry: case-insensitive equality, or the category matching the entry as a wildcard pattern. */
  predicate ItemMatches(item: string, value: string)
  {
    EqualsIgnoreCase(item, value) || WildcardMatch(value, item)
  }

  /** An entry without wildcards matches exactly the category equal to it ignoring case. */
  lemma ItemMatchesLiteral(item: string, value: string)
    requires NoWildcards(item)
    ensures ItemMatches(item, value) <==> EqualsIgnoreCase(item, value)
  {
    LiteralMatch(item, value);
  }

  /**
   * The equality test is not redundant: the entry `*?` does not match itself as a
   * pattern, yet it is accepted for the category `*?` by the equality test.
   */
  lemma ItemMatchesNeedsEquality()
    ensures ItemMatches("*?", "*?") && !WildcardMatch("*?", "*?")
  {
    StarQuestionMatchesOneChar("*?");
  }

  /** Some entry of `items` matches `value`. */
  function ContainsMatch(items: seq<string>, value: string): (r: bool)
    ensures r <==> exists i :: 0 <= i < |items| && ItemMatches(items[i], value)
  {
    if |items| == 0 then false
    else if ItemMatches(items[0], value) then true
    else
      var r := ContainsMatch(items[1..], value);
      assert forall i :: 1 <= i < |items| ==> items[i] == items[1..][i - 1];
      r
  }

  /**
   * `emptyOrContainsMatch`: a null or empty filter list accepts every category;
   * otherwise some entry must equal the category ignoring case or match it as a glob.
   */
  function EmptyOrContainsMatch(list: Option<seq<string>>, value: string): (r: bool)
    ensures r <==> list.None? || |list.value| == 0 || exists i :: 0 <= i < |list.value| && ItemMatches(list.value[i], value)
  {
    list.None? || |list.value| == 0 || ContainsMatch(list.value, value)
  }

  /** A filter list holding `*` accepts every category. */
  lemma StarAcceptsEveryCategory(list: seq<string>, value: string)
    requires "*" in list
    ensures EmptyOrContainsMatch(Some(list), value)
  {
    var i :| 0 <= i < |list| && list[i] == "*";
    StarMatchesAll(value);
    assert ItemMatches(list[i], value);
  }

  /** With no wildcard in any entry, a category is accepted exactly when some entry equals it ignoring case. */
  lemma LiteralFilter(list: seq<string>, value: string)
    requires |list| > 0
    requires forall i :: 0 <= i < |list| ==> NoWildcards(list[i])
    ensures EmptyOrContainsMatch(Some(list), value) <==> exists i :: 0 <= i < |list| && EqualsIgnoreCase(list[i], value)
  {
    forall i | 0 <= i < |list|
      ensures ItemMatches(list[i], value) <==> EqualsIgnoreCase(list[i], value)
    {
      ItemMatchesLiteral(list[i], value);
    }
  }

  /** The names of `category` offered by a `type` lookup: none unless the category filter accepts it. */
  function CategoryCandidates(typesDef: map<string, seq<string>>, category: string, typeCategories: Option<seq<string>>,
                              userInput: Option<string>, currentValues: Option<seq<string>>): seq<string>
  {
    if EmptyOrContainsMatch(typeCategories, category) then FilteredOpt(Get(typesDef, category), userInput, currentValues) else []
  }

  /** The candidates of the categories `cats`, category after category. */
  function TypeNames(typesDef: map<string, seq<string>>, cats: seq<string>, typeCategories: Option<seq<string>>,
                     userInput: Option<string>, currentValues: Option<seq<string>>): seq<string>
  {
    if |cats| == 0 then []
    else TypeNames(typesDef, cats[..|cats| - 1], typeCategories, userInput, currentValues)
         + CategoryCandidates(typesDef, cats[|cats| - 1], typeCategories, userInput, currentValues)
  }

  /** The resource names whose lookup consults (and first refreshes) the taxonomy. */
  predicate NeedsTaxonomy(resourceName: string)
  {
    resourceName == RESOURCE_TYPE_NAME || resourceName == RESOURCE_ENTITY_TYPE || resourceName == RESOURCE_ENTITY_CLASSIFICATION
  }

  /** The four resource names the engine dispatches on are distinct. */
  lemma ResourceNamesDistinct()
    ensures RESOURCE_TYPE_CATEGORY != RESOURCE_TYPE_NAME && RESOURCE_TYPE_CATEGORY != RESOURCE_ENTITY_TYPE
    ensures RESOURCE_TYPE_CATEGORY != RESOURCE_ENTITY_CLASSIFICATION && RESOURCE_TYPE_NAME != RESOURCE_ENTITY_TYPE
    ensures RESOURCE_TYPE_NAME != RESOURCE_ENTITY_CLASSIFICATION && RESOURCE_ENTITY_TYPE != RESOURCE_ENTITY_CLASSIFICATION
  {
    assert |RESOURCE_TYPE_CATEGORY| == 13 && |RESOURCE_TYPE_NAME| == 4;
    assert |RESOURCE_ENTITY_TYPE| == 11 && |RESOURCE_ENTITY_CLASSIFICATION| == 21;
  }

  /** What `lookupResource` answers for `ctx` with the taxonomy `typesDef` in the cache. */
  function LookupSpec(ctx: LookupContext, typesDef: map<string, seq<string>>): seq<string>
  {
    var userInput := ctx.userInput;
    var currentValues := Get(ctx.resources, ctx.resourceName);
    if ctx.resourceName == RESOURCE_TYPE_CATEGORY then
      Filtered(TYPE_CATEGORIES, userInput, currentValues)
    else if ctx.resourceName == RESOURCE_TYPE_NAME then
      TypeNames(typesDef, TYPE_NAME_ORDER, Get(ctx.resources, RESOURCE_TYPE_CATEGORY), userInput, currentValues)
    else if ctx.resourceName == RESOURCE_ENTITY_TYPE then
      FilteredOpt(Get(typesDef, TYPE_ENTITY), userInput, currentValues)
    else if ctx.resourceName == RESOURCE_ENTITY_CLASSIFICATION then
      FilteredOpt(Get(typesDef, TYPE_CLASSIFICATION), userInput, currentValues)
    else
      [ctx.resourceName]
  }

  /** A `type` lookup answers the candidates of the five categories in the fixed order. */
  lemma LookupSpecOfType(ctx: LookupContext, typesDef: map<string, seq<string>>)
    requires ctx.resourceName == RESOURCE_TYPE_NAME
    ensures LookupSpec(ctx, typesDef)
         == TypeNames(typesDef, TYPE_NAME_ORDER, Get(ctx.resources, RESOURCE_TYPE_CATEGORY), ctx.userInput, Get(ctx.resources, ctx.resourceName))
  {
    ResourceNamesDistinct();
  }

  /** A name is offered for the categories `cats` exactly when one of them passes the category filter and lists it. */
  lemma {:induction false} TypeNamesMembership(typesDef: map<string, seq<string>>, cats: seq<string>, typeCategories: Option<seq<string>>,
                                               userInput: Option<string>, currentValues: Option<seq<string>>, x: string)
    ensures x in TypeNames(typesDef, cats, typeCategories, userInput, currentValues) <==>
      && Accepts(x, userInput, currentValues)
      && exists c :: c in cats && EmptyOrContainsMatch(typeCategories, c) && c in typesDef && x in typesDef[c]
    decreases |cats|
  {
    if |cats| > 0 {
      var init, c := cats[..|cats| - 1], cats[|cats| - 1];
      TypeNamesMembership(typesDef, init, typeCategories, userInput, currentValues, x);
      if c in typesDef {
        FilteredMembership(typesDef[c], userInput, currentValues, x);
      }
      assert cats == init + [c];
    }
  }

  /**
   * A `type` lookup offers the union over the accepted categories: a name is offered
   * exactly when it passes the filter and belongs to some category the filter accepts.
   */
  lemma LookupTypeUnion(ctx: LookupContext, typesDef: map<string, seq<string>>, x: string)
    requires ctx.resourceName == RESOURCE_TYPE_NAME
    ensures x in LookupSpec(ctx, typesDef) <==>
      && Accepts(x, ctx.userInput, Get(ctx.resources, ctx.resourceName))
      && exists c :: c in TYPE_NAME_ORDER && EmptyOrContainsMatch(Get(ctx.resources, RESOURCE_TYPE_CATEGORY), c)
                     && c in typesDef && x in typesDef[c]
  {
    TypeNamesMembership(typesDef, TYPE_NAME_ORDER, Get(ctx.resources, RESOURCE_TYPE_CATEGORY), ctx.userInput,
                        Get(ctx.resources, ctx.resourceName), x);
  }

  /** A `type-category` lookup offers exactly the vocabulary entries that pass the filter. */
  lemma LookupTypeCategory(ctx: LookupContext, typesDef: map<string, seq<string>>, x: string)
    requires ctx.resourceName == RESOURCE_TYPE_CATEGORY
    ensures x in LookupSpec(ctx, typesDef) <==> x in TYPE_CATEGORIES && Accepts(x, ctx.userInput, Get(ctx.resources, ctx.resourceName))
  {
    FilteredMembership(TYPE_CATEGORIES, ctx.userInput, Get(ctx.resources, ctx.resourceName), x);
  }

  /**
   * Every answer for a known resource passes the filter: it starts with the user's
   * input and was not already chosen for that resource.
   */
  lemma LookupOffersOnlyAccepted(ctx: LookupContext, typesDef: map<string, seq<string>>, x: string)
    requires ctx.resourceName == RESOURCE_TYPE_CATEGORY || NeedsTaxonomy(ctx.resourceName)
    requires x in LookupSpec(ctx, typesDef)
    ensures Accepts(x, ctx.userInput, Get(ctx.resources, ctx.resourceName))
  {
    var currentValues := Get(ctx.resources, ctx.resourceName);
    if ctx.resourceName == RESOURCE_TYPE_CATEGORY {
      LookupTypeCategory(ctx, typesDef, x);
    } else if ctx.resourceName == RESOURCE_TYPE_NAME {
      LookupTypeUnion(ctx, typesDef, x);
    } else if ctx.resourceName == RESOURCE_ENTITY_TYPE {
      FilteredMembership(typesDef[TYPE_ENTITY], ctx.userInput, currentValues, x);
    } else {
      FilteredMembership(typesDef[TYPE_CLASSIFICATION], ctx.userInput, currentValues, x);
    }
  }

  /** `type-category` with input `"ent"` and nothing chosen offers exactly `["entity"]`. */
  lemma TypeCategoryExample()
    ensures LookupSpec(LookupContext(Some("ent"), RESOURCE_TYPE_CATEGORY, map[]), map[]) == ["entity"]
  {
    var p := Some("ent");
    assert !StartsWith("classification", "ent") by { assert "classification"[..3][0] == 'c'; }
    assert !StartsWith("enum", "ent") by { assert "enum"[..3][2] == 'u'; }
    assert StartsWith("entity", "ent");
    assert !StartsWith("relationship", "ent") by { assert "relationship"[..3][0] == 'r'; }
    assert !StartsWith("struct", "ent") by { assert "struct"[..3][0] == 's'; }
    var cats := TYPE_CATEGORIES;
    assert cats[..1] == ["classification"] && cats[..1][..0] == [];
    assert cats[..2][..1] == cats[..1] && cats[..2][1] == "enum";
    assert cats[..3][..2] == cats[..2] && cats[..3][2] == "entity";
    assert cats[..4][..3] == cats[..3] && cats[..4][3] == "relationship";
    assert cats[..4] == cats[..|cats| - 1] && cats[4] == "struct";
    assert Filtered(cats[..1], p, None) == [];
    assert Filtered(cats[..2], p, None) == [];
    assert Filtered(cats[..3], p, None) == ["entity"];
    assert Filtered(cats[..4], p, None) == ["entity"];
  }

  /**
   * `type` with category filter `["entity"]` over the taxonomy
   * `{entity: [Table, View], classification: [PII]}` offers `["Table", "View"]`.
   */
  lemma TypeExample()
    ensures LookupSpec(LookupContext(None, RESOURCE_TYPE_NAME, map[RESOURCE_TYPE_CATEGORY := ["entity"]]),
                       map["entity" := ["Table", "View"], "classification" := ["PII"]])
         == ["Table", "View"]
  {
    var filter := Some(["entity"]);
    var td := map["entity" := ["Table", "View"], "classification" := ["PII"]];
    var tv := ["Table", "View"];
    var ctx := LookupContext(None, RESOURCE_TYPE_NAME, map[RESOURCE_TYPE_CATEGORY := ["entity"]]);
    assert Get(ctx.resources, RESOURCE_TYPE_CATEGORY) == filter;
    assert Get(ctx.resources, ctx.resourceName) == None;
    EntityFilterExample();
    assert CategoryCandidates(td, "classification", filter, None, None) == [];
    assert Filtered(tv, None, None) == tv by {
      assert tv[..1] == ["Table"] && tv[..1][..0] == [];
    }
    assert CategoryCandidates(td, "entity", filter, None, None) == tv;
    assert CategoryCandidates(td, "enum", filter, None, None) == [];
    assert CategoryCandidates(td, "struct", filter, None, None) == [];
    assert CategoryCandidates(td, "relationship", filter, None, None) == [];
    TypeNamesStep(td, 0, filter, None, None);
    TypeNamesStep(td, 1, filter, None, None);
    TypeNamesStep(td, 2, filter, None, None);
    TypeNamesStep(td, 3, filter, None, None);
    TypeNamesStep(td, 4, filter, None, None);
  }

  /** The filter `["entity"]` accepts `entity` and rejects `classification`. */
  lemma EntityFilterExample()
    ensures EmptyOrContainsMatch(Some(["entity"]), "entity")
    ensures !EmptyOrContainsMatch(Some(["entity"]), "classification")
  {
    assert NoWildcards("entity");
    LiteralFilter(["entity"], "classification");
    assert Lower("entity") != Lower("classification") by { assert |Lower("entity")| != |Lower("classification")|; }
    assert EqualsIgnoreCase("entity", "entity");
  }

  /** The filter `["ENT*"]` accepts `entity` and rejects `enum`. */
  lemma PrefixFilterExample()
    ensures EmptyOrContainsMatch(Some(["ENT*"]), "entity")
    ensures !EmptyOrContainsMatch(Some(["ENT*"]), "enum")
  {
    assert NoWildcards("ENT");
    assert "ENT" + "*" == "ENT*";
    assert Lower("ENT") == "ent" && Lower("entity") == "entity" && Lower("enum") == "enum";
    PrefixStarMatch("ENT", "entity");
    PrefixStarMatch("ENT", "enum");
    assert !StartsWith("enum", "ent") by { assert "enum"[..3][2] == 'u'; }
    assert !EqualsIgnoreCase("ENT*", "enum") by { assert Lower("ENT*")[3] != Lower("enum")[3]; }
    assert ItemMatches(["ENT*"][0], "entity");
  }

  /**
   * The category filter `["*?"]` admits none of the five categories, so a `type`
   * lookup under it offers nothing, whatever the cache holds.
   */
  lemma StarQuestionFilterOffersNoTypes(ctx: LookupContext, typesDef: map<string, seq<string>>)
    requires ctx.resourceName == RESOURCE_TYPE_NAME
    requires Get(ctx.resources, RESOURCE_TYPE_CATEGORY) == Some(["*?"])
    ensures LookupSpec(ctx, typesDef) == []
  {
    forall c | c in TYPE_NAME_ORDER
      ensures !EmptyOrContainsMatch(Some(["*?"]), c)
    {
      StarQuestionMatchesOneChar(c);
      assert |Lower(c)| == |c| > 2;
      assert !EqualsIgnoreCase("*?", c) by { assert |Lower("*?")| == 2; }
      assert !ItemMatches(["*?"][0], c);
    }
    var r := LookupSpec(ctx, typesDef);
    if |r| > 0 {
      LookupTypeUnion(ctx, typesDef, r[0]);
      assert false;
    }
  }

  /** Appending a further part after `list + done` is appending `done` and that part after `list`. */
  lemma AppendStep(list: seq<string>, done: seq<string>, r: seq<string>, part: seq<string>, r': seq<string>)
    requires r == list + done && r' == r + part
    ensures r' == list + (done + part)
  {
  }

  /** The candidates of the first `k` categories of the fixed `type` order. */
  function TypeNamesPrefix(typesDef: map<string, seq<string>>, k: nat, typeCategories: Option<seq<string>>,
                           userInput: Option<string>, currentValues: Option<seq<string>>): seq<string>
    requires k <= |TYPE_NAME_ORDER|
  {
    TypeNames(typesDef, TYPE_NAME_ORDER[..k], typeCategories, userInput, currentValues)
  }

  /** Each further category of the `type` order appends its own candidates after the earlier ones. */
  lemma TypeNamesStep(typesDef: map<string, seq<string>>, k: nat, typeCategories: Option<seq<string>>,
                      userInput: Option<string>, currentValues: Option<seq<string>>)
    requires k < |TYPE_NAME_ORDER|
    ensures TypeNamesPrefix(typesDef, k + 1, typeCategories, userInput, currentValues)
         == TypeNamesPrefix(typesDef, k, typeCategories, userInput, currentValues)
          + CategoryCandidates(typesDef, TYPE_NAME_ORDER[k], typeCategories, userInput, currentValues)
    ensures k == 0 ==> TypeNamesPrefix(typesDef, k, typeCategories, userInput, currentValues) == []
    ensures k + 1 == |TYPE_NAME_ORDER| ==>
      TypeNamesPrefix(typesDef, k + 1, typeCategories, userInput, currentValues)
      == TypeNames(typesDef, TYPE_NAME_ORDER, typeCategories, userInput, currentValues)
  {
    assert TYPE_NAME_ORDER[..k + 1][..k] == TYPE_NAME_ORDER[..k];
    assert TYPE_NAME_ORDER[..|TYPE_NAME_ORDER|] == TYPE_NAME_ORDER;
  }

  /** Any resource name the engine does not know is echoed back as the only candidate. */
  lemma LookupPassThrough(ctx: LookupContext, typesDef: map<string, seq<string>>)
    requires ctx.resourceName != RESOURCE_TYPE_CATEGORY && !NeedsTaxonomy(ctx.resourceName)
    ensures LookupSpec(ctx, typesDef) == [ctx.resourceName]
  {
  }
}
