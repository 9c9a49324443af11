/**
 * The taxonomy cache's contents: the type headers fetched from
 * `<endpoint>/api/atlas/v2/types/typedefs/headers`, grouped into a map from
 * lower-cased category to type names, and the endpoint loop of `refreshTypesDefs`.
 */
module AtlasTypesDefs {
  import opened Wrappers
  import opened AtlasStrings
  import opened AtlasLogin

  const URL_GET_TYPESDEF_HEADERS := "/api/atlas/v2/types/typedefs/headers"

  /** One element of the parsed JSON array: an object with optional `name` and `category`, or anything else. */
  datatype TypeItem = TypeHeader(name: Option<string>, category: Option<string>) | NotAnObject

  /** The parsed body: Gson yields null for an empty body or the literal `null`. */
  datatype Payload = NullPayload | TypeList(items: seq<TypeItem>)

  /** What the typedef GET comes to: it threw (transport or parse error), returned null, or a body. */
  datatype GetOutcome = GetFailed | NullResponse | Body(payload: Payload)

  /**
   * The catalog as seen by one refresh: the decryptor, the login POST and the GET,
   * each POST and GET indexed by the outer loop's iteration (a fresh client each);
   * a POST also by its position within that iteration's login.
   */
  datatype Network = Network(
    decrypt: DecryptFn,
    post: (nat, nat, string, Option<string>, Option<string>) -> LoginAttempt,
    get: (nat, string, seq<Cookie>) -> GetOutcome)

  /** The login POST as the client of iteration `i` sends it. */
  function PostOf(net: Network, i: nat): PostFn
  {
    (k: nat, u, n, p) => net.post(i, k, u, n, p)
  }

  function TypesDefUrl(url: string): string
  {
    url + URL_GET_TYPESDEF_HEADERS
  }

  type TypesDef = map<string, seq<string>>

  /** The record carries both a name and a category. */
  predicate Contributes(t: TypeItem)
  {
    t.TypeHeader? && t.name.Some? && t.category.Some?
  }

  function CategoryKey(t: TypeItem): string
    requires Contributes(t)
  {
    Lower(t.category.value)
  }

  /** The names filed under `key`, in payload order. */
  function NamesIn(items: seq<TypeItem>, key: string): seq<string>
  {
    if |items| == 0 then []
    else
      var t := items[|items| - 1];
      NamesIn(items[..|items| - 1], key) + (if Contributes(t) && CategoryKey(t) == key then [t.name.value] else [])
  }

  /** The category keys some record of `items` contributes to. */
  function Categories(items: seq<TypeItem>): set<string>
  {
    if |items| == 0 then {}
    else
      var t := items[|items| - 1];
      Categories(items[..|items| - 1]) + (if Contributes(t) then {CategoryKey(t)} else {})
  }

  /** The map `refreshTypesDefs` builds from a parsed list. */
  function Group(items: seq<TypeItem>): TypesDef
  {
    map k | k in Categories(items) :: NamesIn(items, k)
  }

  /** A key is present exactly when some record carries that category (lower-cased). */
  lemma {:induction false} CategoriesSpec(items: seq<TypeItem>, k: string)
    ensures k in Categories(items) <==> exists i :: 0 <= i < |items| && Contributes(items[i]) && CategoryKey(items[i]) == k
    decreases |items|
  {
    if |items| > 0 {
      var init := items[..|items| - 1];
      CategoriesSpec(init, k);
      assert forall i :: 0 <= i < |init| ==> init[i] == items[i];
    }
  }

  /** Every present key has at least one name. */
  lemma {:induction false} NamesInNonEmpty(items: seq<TypeItem>, k: string)
    requires k in Categories(items)
    ensures |NamesIn(items, k)| > 0
    decreases |items|
  {
    var t := items[|items| - 1];
    if !(Contributes(t) && CategoryKey(t) == k) {
      NamesInNonEmpty(items[..|items| - 1], k);
    }
  }

  /** Each record with a name and a category files its name under its lower-cased category. */
  lemma {:induction false} NamesInHolds(items: seq<TypeItem>, i: nat)
    requires i < |items| && Contributes(items[i])
    ensures items[i].name.value in NamesIn(items, CategoryKey(items[i]))
    decreases |items|
  {
    if i < |items| - 1 {
      var init := items[..|items| - 1];
      assert init[i] == items[i];
      NamesInHolds(init, i);
    }
  }

  /**
   * Grouping: every key is lower-case and has at least one name, and every record
   * with a name and a category contributes its name under its lower-cased category.
   */
  lemma GroupSpec(items: seq<TypeItem>)
    ensures forall k :: k in Group(items) ==> IsLowerCase(k) && |Group(items)[k]| > 0
    ensures forall i :: 0 <= i < |items| && Contributes(items[i]) ==>
      CategoryKey(items[i]) in Group(items) && items[i].name.value in Group(items)[CategoryKey(items[i])]
  {
    forall k | k in Group(items)
      ensures IsLowerCase(k) && |Group(items)[k]| > 0
    {
      CategoriesSpec(items, k);
      var i :| 0 <= i < |items| && Contributes(items[i]) && CategoryKey(items[i]) == k;
      LowerIsLowerCase(items[i].category.value);
      NamesInNonEmpty(items, k);
    }
    forall i | 0 <= i < |items| && Contributes(items[i])
      ensures CategoryKey(items[i]) in Group(items) && items[i].name.value in Group(items)[CategoryKey(items[i])]
    {
      CategoriesSpec(items, CategoryKey(items[i]));
      NamesInHolds(items, i);
    }
  }

  /** A key no record carries has no names. */
  lemma {:induction false} NamesInAbsent(items: seq<TypeItem>, k: string)
    requires k !in Categories(items)
    ensures NamesIn(items, k) == []
    decreases |items|
  {
    if |items| > 0 {
      NamesInAbsent(items[..|items| - 1], k);
    }
  }

  /** Appending one record files its name lazily under its key, leaving all other keys alone. */
  lemma GroupStep(items: seq<TypeItem>, t: TypeItem)
    ensures var g, g' := Group(items), Group(items + [t]);
      g' == if Contributes(t) then g[CategoryKey(t) := (if CategoryKey(t) in g then g[CategoryKey(t)] else []) + [t.name.value]]
            else g
  {
    var s := items + [t];
    assert s[..|s| - 1] == items;
    var g, g' := Group(items), Group(s);
    if Contributes(t) {
      var key := CategoryKey(t);
      if key !in g {
        NamesInAbsent(items, key);
      }
      var h := g[key := (if key in g then g[key] else []) + [t.name.value]];
      assert g'.Keys == h.Keys;
      forall k | k in g' ensures g'[k] == h[k] {
      }
    } else {
      assert g'.Keys == g.Keys;
      forall k | k in g' ensures g'[k] == g[k] {
      }
    }
  }

  /** The payload `[{Table, ENTITY}, {PII, Classification}]` gives `entity -> [Table]` and `classification -> [PII]`. */
  lemma GroupExample()
    ensures Group([TypeHeader(Some("Table"), Some("ENTITY")), TypeHeader(Some("PII"), Some("Classification"))])
         == map["entity" := ["Table"], "classification" := ["PII"]]
  {
    var t1, t2 := TypeHeader(Some("Table"), Some("ENTITY")), TypeHeader(Some("PII"), Some("Classification"));
    assert Lower("ENTITY") == "entity";
    assert Lower("Classification") == "classification";
    var none: seq<TypeItem> := [];
    assert Group(none) == map[];
    assert Contributes(t1) && CategoryKey(t1) == "entity";
    assert Contributes(t2) && CategoryKey(t2) == "classification";
    GroupStep(none, t1);
    assert none + [t1] == [t1];
    assert Group([t1]) == Group(none)["entity" := [] + ["Table"]];
    assert [] + ["Table"] == ["Table"];
    assert Group([t1]) == map["entity" := ["Table"]];
    GroupStep([t1], t2);
    assert [t1] + [t2] == [t1, t2];
    assert "classification" !in Group([t1]);
    assert Group([t1, t2]) == Group([t1])["classification" := [] + ["PII"]];
    assert [] + ["PII"] == ["PII"];
  }

  /** The loop over the parsed list in `refreshTypesDefs`: lazy `put`, then `add` in payload order. */
  method BuildTypesDef(items: seq<TypeItem>) returns (m: TypesDef)
    ensures m == Group(items)
  {
    m := map[];
    for i := 0 to |items|
      invariant m == Group(items[..i])
    {
      var t := items[i];
      GroupStep(items[..i], t);
      assert items[..i + 1] == items[..i] + [t];
      if t.TypeHeader? {
        if t.name.Some? && t.category.Some? {
          var strCategory := Lower(t.category.value);
          var categoryList: seq<string>;
          if strCategory in m {
            categoryList := m[strCategory];
          } else {
            categoryList := [];
            m := m[strCategory := categoryList];
          }
          categoryList := categoryList + [t.name.value];
          m := m[strCategory := categoryList];
        }
      }
    }
    assert items[..|items|] == items;
  }

  /**
   * The parsed list endpoint `k` yields: the login of iteration `k` succeeded and the
   * GET to that endpoint with the login's cookies returned a JSON list.
   */
  function UsableAt(urls: seq<string>, k: nat, user: Option<string>, secret: Option<string>, net: Network): Option<seq<TypeItem>>
    requires k < |urls|
  {
    match Login(urls, user, secret, net.decrypt, PostOf(net, k))
    case Failure(_) => None
    case Success(resp) =>
      match net.get(k, TypesDefUrl(urls[k]), resp.cookies)
      case Body(TypeList(items)) => Some(items)
      case _ => None
  }

  /** The endpoint loop of `refreshTypesDefs` from iteration `i` on: the map of the first usable endpoint, or null. */
  function Fetch(urls: seq<string>, i: nat, user: Option<string>, secret: Option<string>, net: Network): Option<TypesDef>
    requires i <= |urls|
    decreases |urls| - i
  {
    if i == |urls| then None
    else
      match UsableAt(urls, i, user, secret, net)
      case Some(items) => Some(Group(items))
      case None => Fetch(urls, i + 1, user, secret, net)
  }

  /**
   * The loop yields a map exactly when some endpoint is usable, and then it is the
   * grouping of the first usable endpoint's list; later endpoints are not consulted.
   */
  lemma {:induction false} FetchSpec(urls: seq<string>, i: nat, user: Option<string>, secret: Option<string>, net: Network)
    requires i <= |urls|
    ensures var r := Fetch(urls, i, user, secret, net);
      && (r.None? <==> forall k :: i <= k < |urls| ==> UsableAt(urls, k, user, secret, net).None?)
      && (r.Some? ==> exists k :: && i <= k < |urls| && UsableAt(urls, k, user, secret, net).Some?
                                  && (forall j :: i <= j < k ==> UsableAt(urls, j, user, secret, net).None?)
                                  && r.value == Group(UsableAt(urls, k, user, secret, net).value))
    decreases |urls| - i
  {
    if i < |urls| {
      if UsableAt(urls, i, user, secret, net).None? {
        FetchSpec(urls, i + 1, user, secret, net);
        var r := Fetch(urls, i, user, secret, net);
        assert r == Fetch(urls, i + 1, user, secret, net);
        if r.Some? {
          var k :| && i + 1 <= k < |urls| && UsableAt(urls, k, user, secret, net).Some?
                   && (forall j :: i + 1 <= j < k ==> UsableAt(urls, j, user, secret, net).None?)
                   && r.value == Group(UsableAt(urls, k, user, secret, net).value);
          assert forall j :: i <= j < k ==> UsableAt(urls, j, user, secret, net).None?;
        }
      }
    }
  }

  /** The cache after a refresh: replaced by the fetched map, or kept when the subject is null or nothing was fetched. */
  function AfterRefresh(cached: TypesDef, subjectPresent: bool, urls: seq<string>, user: Option<string>, secret: Option<string>, net: Network): TypesDef
  {
    if !subjectPresent then cached
    else match Fetch(urls, 0, user, secret, net)
      case None => cached
      case Some(m) => m
  }

  /**
   * A refresh keeps the cache without a login subject or when no endpoint is usable;
   * otherwise it installs the fetched map, whose keys are lower-case with non-empty lists.
   */
  lemma AfterRefreshSpec(cached: TypesDef, subjectPresent: bool, urls: seq<string>, user: Option<string>, secret: Option<string>, net: Network)
    ensures !subjectPresent ==> AfterRefresh(cached, subjectPresent, urls, user, secret, net) == cached
    ensures subjectPresent && Fetch(urls, 0, user, secret, net).Some? ==>
      AfterRefresh(cached, subjectPresent, urls, user, secret, net) == Fetch(urls, 0, user, secret, net).value
    ensures (forall k :: 0 <= k < |urls| ==> UsableAt(urls, k, user, secret, net).None?) ==>
      AfterRefresh(cached, subjectPresent, urls, user, secret, net) == cached
    ensures subjectPresent && Fetch(urls, 0, user, secret, net).Some? ==>
      var m := AfterRefresh(cached, subjectPresent, urls, user, secret, net);
      forall k :: k in m ==> IsLowerCase(k) && |m[k]| > 0
  {
    FetchSpec(urls, 0, user, secret, net);
    if subjectPresent && Fetch(urls, 0, user, secret, net).Some? {
      var k :| && 0 <= k < |urls| && UsableAt(urls, k, user, secret, net).Some?
               && Fetch(urls, 0, user, secret, net).value == Group(UsableAt(urls, k, user, secret, net).value);
      GroupSpec(UsableAt(urls, k, user, secret, net).value);
    }
  }

  // The loop as written assigns `ret = new HashMap<>()` before iterating the parsed list.
  // When the list is null the iteration throws, the exception is swallowed, and the
  // empty map stays in `ret` while the loop moves on to the next endpoint.

  /** The endpoint loop exactly as written, carrying `ret` across iterations. */
  function FetchAsWritten(urls: seq<string>, i: nat, user: Option<string>, secret: Option<string>, net: Network,
                          ret: Option<TypesDef>): Option<TypesDef>
    requires i <= |urls|
    decreases |urls| - i
  {
    if i == |urls| then ret
    else
      match Login(urls, user, secret, net.decrypt, PostOf(net, i))
      case Failure(_) => FetchAsWritten(urls, i + 1, user, secret, net, ret)
      case Success(resp) =>
        match net.get(i, TypesDefUrl(urls[i]), resp.cookies)
        case Body(TypeList(items)) => Some(Group(items))
        case Body(NullPayload) => FetchAsWritten(urls, i + 1, user, secret, net, Some(map[]))
        case _ => FetchAsWritten(urls, i + 1, user, secret, net, ret)
  }

  /**
   * `refreshTypesDefs` around the loop as written: the new cache and the result.
   * A non-null map from the loop replaces the cache and answers true.
   */
  function RefreshAsWritten(cached: TypesDef, subjectPresent: bool, urls: seq<string>, user: Option<string>, secret: Option<string>,
                            net: Network): (TypesDef, bool)
  {
    if !subjectPresent then (cached, false)
    else match FetchAsWritten(urls, 0, user, secret, net, None)
      case None => (cached, false)
      case Some(m) => (m, true)
  }

  /**
   * Starting with no map or an empty one, the loop as written returns the corrected
   * loop's map whenever there is one, and otherwise no map or an empty one.
   */
  lemma {:induction false} FetchAsWrittenFromEmpty(urls: seq<string>, i: nat, user: Option<string>, secret: Option<string>,
                                                   net: Network, ret: Option<TypesDef>)
    requires i <= |urls|
    requires ret == None || ret == Some(map[])
    ensures var w := FetchAsWritten(urls, i, user, secret, net, ret);
      && (Fetch(urls, i, user, secret, net).Some? ==> w == Fetch(urls, i, user, secret, net))
      && (Fetch(urls, i, user, secret, net).None? ==> w == None || w == Some(map[]))
    decreases |urls| - i
  {
    if i < |urls| {
      match Login(urls, user, secret, net.decrypt, PostOf(net, i))
      case Failure(_) =>
        FetchAsWrittenFromEmpty(urls, i + 1, user, secret, net, ret);
      case Success(resp) =>
        match net.get(i, TypesDefUrl(urls[i]), resp.cookies)
        case Body(TypeList(items)) =>
        case Body(NullPayload) =>
          FetchAsWrittenFromEmpty(urls, i + 1, user, secret, net, Some(map[]));
        case _ =>
          FetchAsWrittenFromEmpty(urls, i + 1, user, secret, net, ret);
    }
  }

  /**
   * Every client starts with an empty cache, and from there the refresh as written
   * leaves the same cache as the corrected one: the wiped map is the map it started with.
   */
  lemma RefreshAsWrittenFromEmptyCache(subjectPresent: bool, urls: seq<string>, user: Option<string>, secret: Option<string>,
                                       net: Network)
    ensures RefreshAsWritten(map[], subjectPresent, urls, user, secret, net).0
         == AfterRefresh(map[], subjectPresent, urls, user, secret, net)
  {
    FetchAsWrittenFromEmpty(urls, 0, user, secret, net, None);
  }

  /** Endpoint `k` logged in and its GET body parsed to null. */
  predicate NullBodyAt(urls: seq<string>, k: nat, user: Option<string>, secret: Option<string>, net: Network)
    requires k < |urls|
  {
    match Login(urls, user, secret, net.decrypt, PostOf(net, k))
    case Failure(_) => false
    case Success(resp) => net.get(k, TypesDefUrl(urls[k]), resp.cookies) == Body(NullPayload)
  }

  /** Without a null body the loop as written and the corrected loop agree. */
  lemma {:induction false} FetchAsWrittenAgrees(urls: seq<string>, i: nat, user: Option<string>, secret: Option<string>, net: Network)
    requires i <= |urls|
    requires forall k :: i <= k < |urls| ==> !NullBodyAt(urls, k, user, secret, net)
    ensures FetchAsWritten(urls, i, user, secret, net, None) == Fetch(urls, i, user, secret, net)
    decreases |urls| - i
  {
    if i < |urls| {
      assert !NullBodyAt(urls, i, user, secret, net);
      FetchAsWrittenAgrees(urls, i + 1, user, secret, net);
    }
  }

  /**
   * A single endpoint whose login succeeds and whose GET body is empty: as written,
   * the refresh replaces the non-empty cache by an empty map and answers true,
   * although no endpoint yielded a list; the corrected refresh keeps the cache.
   */
  lemma NullBodyWipesCache(cached: TypesDef, resp: ClientResponse)
    requires cached != map[]
    ensures var net := Network(s => s, (i, k, u, n, p) => Responded(resp), (i, u, c) => Body(NullPayload));
      && FetchAsWritten(["http://atlas"], 0, None, None, net, None) == Some(map[])
      && RefreshAsWritten(cached, true, ["http://atlas"], None, None, net) == (map[], true)
      && RefreshAsWritten(cached, true, ["http://atlas"], None, None, net).0 != cached
      && Fetch(["http://atlas"], 0, None, None, net) == None
      && AfterRefresh(cached, true, ["http://atlas"], None, None, net) == cached
  {
    var net := Network(s => s, (i, k, u, n, p) => Responded(resp), (i, u, c) => Body(NullPayload));
    assert Login(["http://atlas"], None, None, net.decrypt, PostOf(net, 0)) == Success(resp);
  }
}
