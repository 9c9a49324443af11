/**
 * `AtlasServiceClient`: the client built for one Atlas service from its
 * configuration. Its only mutable state is the cached taxonomy `typesDef`.
 */
module AtlasClient {
  import opened Wrappers
  import opened AtlasEndpoints
  import opened AtlasLogin
  import opened AtlasTypesDefs
  import opened AtlasLookup

  const CONFIG_REST_ADDRESS := "atlas.rest.address"
  const CONFIG_USERNAME := "username"
  const CONFIG_PASSWORD := "password"

  /** The message of a successful connection test. */
  const CONNECTION_TEST_OK := "ConnectionTest Successful"

  class AtlasServiceClient {
    const restAddress: Option<string>
    const userName: Option<string>
    const password: Option<string>

    /** The cached taxonomy: lower-cased category to type names. */
    var typesDef: TypesDef

    /** Reads the address list and credentials from the service configuration; the cache starts empty. */
    constructor (serviceConfig: map<string, string>)
      ensures restAddress == Get(serviceConfig, CONFIG_REST_ADDRESS)
      ensures userName == Get(serviceConfig, CONFIG_USERNAME)
      ensures password == Get(serviceConfig, CONFIG_PASSWORD)
      ensures typesDef == map[]
    {
      restAddress := Get(serviceConfig, CONFIG_REST_ADDRESS);
      userName := Get(serviceConfig, CONFIG_USERNAME);
      password := Get(serviceConfig, CONFIG_PASSWORD);
      typesDef := map[];
    }

    /** `getAtlasUrls`: a fresh array of the split address, each slot then stripped of trailing `/`. */
    method GetAtlasUrls() returns (ret: array<string>)
      ensures fresh(ret)
      ensures ret[..] == AtlasUrls(restAddress)
    {
      var pieces := if restAddress.None? then [] else JavaSplit(restAddress.value);
      ret := new string[|pieces|](i requires 0 <= i < |pieces| => pieces[i]);
      for i := 0 to ret.Length
        invariant forall j :: 0 <= j < i ==> ret[j] == StripTrailingSlashes(pieces[j])
        invariant forall j :: i <= j < ret.Length ==> ret[j] == pieces[j]
      {
        var url := ret[i];
        while |url| > 0 && url[|url| - 1] == '/'
          invariant StripTrailingSlashes(url) == StripTrailingSlashes(pieces[i])
        {
          url := url[..|url| - 1];
        }
        ret[i] := url;
      }
    }

    /**
     * `loginToAtlas`: tries the endpoints in order and returns the first response
     * object, or throws when none responds (at once for an empty list).
     */
    method LoginToAtlas(decrypt: DecryptFn, post: PostFn) returns (r: Result<ClientResponse, LoginError>)
      ensures r == Login(AtlasUrls(restAddress), userName, password, decrypt, post)
    {
      var urls := GetAtlasUrls();
      var ret: Option<ClientResponse> := None;
      var excp: Option<LoginError> := None;
      var loginUrl: Option<string> := None;
      ghost var pw := EffectivePassword(password, decrypt);
      var i := 0;
      while i < urls.Length
        invariant 0 <= i <= urls.Length
        invariant urls[..] == AtlasUrls(restAddress)
        invariant ret.None?
        invariant excp.Some? ==> excp.value.loginUrl.Some?
        invariant Login(urls[..], userName, password, decrypt, post)
               == LoginFrom(urls[..], i, userName, pw, post, if excp.Some? then excp.value.loginUrl else None, loginUrl)
      {
        loginUrl := Some(urls[i] + URL_LOGIN);
        var pwd := decrypt(password);
        if pwd.None? {
          pwd := password;
        }
        var attempt := post(i, loginUrl.value, userName, pwd);
        if attempt.Responded? {
          ret := Some(attempt.response);
          break;
        }
        if attempt.Aborted? {
          excp := Some(LoginError(loginUrl));
        }
        i := i + 1;
      }
      if ret.None? {
        if excp.None? {
          excp := Some(LoginError(loginUrl));
        }
        r := Failure(excp.value);
      } else {
        r := Success(ret.value);
      }
    }

    /**
     * `validateConfig` of the client: one login; its exception propagates, and
     * otherwise the connection test is reported successful.
     */
    method ValidateConfig(decrypt: DecryptFn, post: PostFn) returns (r: Result<string, LoginError>)
      ensures r.Success? <==> Login(AtlasUrls(restAddress), userName, password, decrypt, post).Success?
      ensures r.Success? ==> r.value == CONNECTION_TEST_OK
      ensures r.Failure? ==> r.error == Login(AtlasUrls(restAddress), userName, password, decrypt, post).error
    {
      var login := LoginToAtlas(decrypt, post);
      if login.Failure? {
        return Failure(login.error);
      }
      r := Success(CONNECTION_TEST_OK);
    }

    /**
     * The endpoint loop of `refreshTypesDefs`: for each endpoint a fresh client logs
     * in and fetches the type headers; the first list obtained is grouped and wins.
     */
    method FetchTypesDefs(net: Network) returns (fetched: Option<TypesDef>)
      ensures fetched == Fetch(AtlasUrls(restAddress), 0, userName, password, net)
    {
      fetched := None;
      var urls := GetAtlasUrls();
      var i := 0;
      while i < urls.Length
        invariant 0 <= i <= urls.Length
        invariant urls[..] == AtlasUrls(restAddress)
        invariant Fetch(urls[..], 0, userName, password, net) == Fetch(urls[..], i, userName, password, net)
        invariant fetched.None?
      {
        var loginResponse := LoginToAtlas(net.decrypt, PostOf(net, i));
        if loginResponse.Success? {
          var response := net.get(i, TypesDefUrl(urls[i]), loginResponse.value.cookies);
          if response.Body? && response.payload.TypeList? {
            var m := BuildTypesDef(response.payload.items);
            fetched := Some(m);
            break;
          }
        }
        i := i + 1;
      }
    }

    /**
     * `refreshTypesDefs`: replaces the cache by a freshly built map and answers true
     * when some endpoint yields a list; otherwise (also for a null login subject)
     * keeps the cache exactly as it was and answers false.
     */
    method RefreshTypesDefs(subjectPresent: bool, net: Network) returns (ret: bool)
      modifies this
      ensures ret <==> subjectPresent && Fetch(AtlasUrls(restAddress), 0, userName, password, net).Some?
      ensures typesDef == AfterRefresh(old(typesDef), subjectPresent, AtlasUrls(restAddress), userName, password, net)
    {
      ret := false;
      if !subjectPresent {
        return;
      }
      var fetched := FetchTypesDefs(net);
      if fetched.Some? {
        typesDef := fetched.value;
        ret := true;
      }
    }

    /**
     * One stanza of the `type` branch: when the category filter accepts `category`,
     * its cached names that pass the prefix/exclusion filter are appended.
     */
    method AddCategoryNames(list: seq<string>, category: string, typeCategories: Option<seq<string>>,
                            userInput: Option<string>, currentValues: Option<seq<string>>)
      returns (ret: seq<string>)
      ensures ret == list + CategoryCandidates(typesDef, category, typeCategories, userInput, currentValues)
    {
      ret := list;
      if EmptyOrContainsMatch(typeCategories, category) {
        ret := AddAllIfStartsWithAndNotExcluded(ret, Get(typesDef, category), userInput, currentValues);
      }
    }

    /**
     * The `type` branch of `lookupResource` after the refresh: the names of each
     * category the category filter accepts, in the order classification, entity,
     * enum, struct, relationship, appended to `list`.
     */
    method AddTypeNames(list: seq<string>, typeCategories: Option<seq<string>>, userInput: Option<string>, currentValues: Option<seq<string>>)
      returns (ret: seq<string>)
      ensures ret == list + TypeNames(typesDef, TYPE_NAME_ORDER, typeCategories, userInput, currentValues)
    {
      ret := list;
      ghost var before0 := ret;
      ret := AddCategoryNames(ret, TYPE_CLASSIFICATION, typeCategories, userInput, currentValues);
      TypeNamesStep(typesDef, 0, typeCategories, userInput, currentValues);
      AppendStep(list, TypeNamesPrefix(typesDef, 0, typeCategories, userInput, currentValues), before0,
                 CategoryCandidates(typesDef, TYPE_CLASSIFICATION, typeCategories, userInput, currentValues), ret);
      ghost var before1 := ret;
      ret := AddCategoryNames(ret, TYPE_ENTITY, typeCategories, userInput, currentValues);
      TypeNamesStep(typesDef, 1, typeCategories, userInput, currentValues);
      AppendStep(list, TypeNamesPrefix(typesDef, 1, typeCategories, userInput, currentValues), before1,
                 CategoryCandidates(typesDef, TYPE_ENTITY, typeCategories, userInput, currentValues), ret);
      ghost var before2 := ret;
      ret := AddCategoryNames(ret, TYPE_ENUM, typeCategories, userInput, currentValues);
      TypeNamesStep(typesDef, 2, typeCategories, userInput, currentValues);
      AppendStep(list, TypeNamesPrefix(typesDef, 2, typeCategories, userInput, currentValues), before2,
                 CategoryCandidates(typesDef, TYPE_ENUM, typeCategories, userInput, currentValues), ret);
      ghost var before3 := ret;
      ret := AddCategoryNames(ret, TYPE_STRUCT, typeCategories, userInput, currentValues);
      TypeNamesStep(typesDef, 3, typeCategories, userInput, currentValues);
      AppendStep(list, TypeNamesPrefix(typesDef, 3, typeCategories, userInput, currentValues), before3,
                 CategoryCandidates(typesDef, TYPE_STRUCT, typeCategories, userInput, currentValues), ret);
      ghost var before4 := ret;
      ret := AddCategoryNames(ret, TYPE_RELATIONSHIP, typeCategories, userInput, currentValues);
      TypeNamesStep(typesDef, 4, typeCategories, userInput, currentValues);
      AppendStep(list, TypeNamesPrefix(typesDef, 4, typeCategories, userInput, currentValues), before4,
                 CategoryCandidates(typesDef, TYPE_RELATIONSHIP, typeCategories, userInput, currentValues), ret);
    }

    /**
     * `lookupResource`: refreshes the cache for the resources that need the taxonomy,
     * then answers as `LookupSpec` does with the cache as it now stands.
     */
    method LookupResource(ctx: LookupContext, subjectPresent: bool, net: Network) returns (ret: seq<string>)
      modifies this
      ensures typesDef == if NeedsTaxonomy(ctx.resourceName)
                          then AfterRefresh(old(typesDef), subjectPresent, AtlasUrls(restAddress), userName, password, net)
                          else old(typesDef)
      ensures ret == LookupSpec(ctx, typesDef)
    {
      ret := [];
      var userInput := ctx.userInput;
      var currentValues := Get(ctx.resources, ctx.resourceName);
      if ctx.resourceName == RESOURCE_TYPE_CATEGORY {
        for i := 0 to |TYPE_CATEGORIES|
          invariant ret == Filtered(TYPE_CATEGORIES[..i], userInput, currentValues)
          invariant typesDef == old(typesDef)
        {
          assert TYPE_CATEGORIES[..i + 1][..i] == TYPE_CATEGORIES[..i];
          ret := AddIfStartsWithAndNotExcluded(ret, Some(TYPE_CATEGORIES[i]), userInput, currentValues);
        }
        assert TYPE_CATEGORIES[..|TYPE_CATEGORIES|] == TYPE_CATEGORIES;
        assert !NeedsTaxonomy(ctx.resourceName) by { ResourceNamesDistinct(); }
      } else if ctx.resourceName == RESOURCE_TYPE_NAME {
        var refreshed := RefreshTypesDefs(subjectPresent, net);
        var typeCategories := Get(ctx.resources, RESOURCE_TYPE_CATEGORY);
        ret := AddTypeNames(ret, typeCategories, userInput, currentValues);
        LookupSpecOfType(ctx, typesDef);
        assert NeedsTaxonomy(ctx.resourceName);
      } else if ctx.resourceName == RESOURCE_ENTITY_TYPE {
        var refreshed := RefreshTypesDefs(subjectPresent, net);
        ret := AddAllIfStartsWithAndNotExcluded(ret, Get(typesDef, TYPE_ENTITY), userInput, currentValues);
        assert ret == LookupSpec(ctx, typesDef) by { ResourceNamesDistinct(); }
      } else if ctx.resourceName == RESOURCE_ENTITY_CLASSIFICATION {
        var refreshed := RefreshTypesDefs(subjectPresent, net);
        ret := AddAllIfStartsWithAndNotExcluded(ret, Get(typesDef, TYPE_CLASSIFICATION), userInput, currentValues);
        assert ret == LookupSpec(ctx, typesDef) by { ResourceNamesDistinct(); }
      } else {
        assert !NeedsTaxonomy(ctx.resourceName);
        ret := ret + [ctx.resourceName];
      }
    }
  }

  /**
   * The cache a newly built client answers from: the refreshed map for the
   * resources that refresh it, and the empty map it starts with otherwise.
   */
  function ServiceCache(configs: map<string, string>, resourceName: string, subjectPresent: bool, net: Network): TypesDef
  {
    if NeedsTaxonomy(resourceName)
    then AfterRefresh(map[], subjectPresent, AtlasUrls(Get(configs, CONFIG_REST_ADDRESS)),
                      Get(configs, CONFIG_USERNAME), Get(configs, CONFIG_PASSWORD), net)
    else map[]
  }

  /**
   * `RangerServiceAtlas.lookupResource`: every call builds a new client from the
   * service configuration, so the lookup starts from an empty cache.
   */
  method ServiceLookupResource(configs: map<string, string>, ctx: LookupContext, subjectPresent: bool, net: Network)
    returns (ret: seq<string>)
    ensures ret == LookupSpec(ctx, ServiceCache(configs, ctx.resourceName, subjectPresent, net))
  {
    var client := new AtlasServiceClient(configs);
    ret := client.LookupResource(ctx, subjectPresent, net);
  }

  /**
   * `RangerServiceAtlas.validateConfig`: a new client's connection test, which
   * succeeds exactly when some endpoint answers the login.
   */
  method ServiceValidateConfig(configs: map<string, string>, decrypt: DecryptFn, post: PostFn)
    returns (r: Result<string, LoginError>)
    ensures r.Success? <==> exists k :: 0 <= k < |AtlasUrls(Get(configs, CONFIG_REST_ADDRESS))|
                                     && AttemptAt(AtlasUrls(Get(configs, CONFIG_REST_ADDRESS)), k, Get(configs, CONFIG_USERNAME),
                                                  EffectivePassword(Get(configs, CONFIG_PASSWORD), decrypt), post).Responded?
  {
    var client := new AtlasServiceClient(configs);
    r := client.ValidateConfig(decrypt, post);
    LoginSpec(AtlasUrls(Get(configs, CONFIG_REST_ADDRESS)), Get(configs, CONFIG_USERNAME), Get(configs, CONFIG_PASSWORD), decrypt, post);
  }

  /**
   * Because each lookup starts from an empty cache, a taxonomy lookup whose refresh
   * fetches nothing (no login subject, or no usable endpoint) offers nothing.
   */
  lemma ServiceLookupWithoutRefresh(configs: map<string, string>, ctx: LookupContext, subjectPresent: bool, net: Network)
    requires NeedsTaxonomy(ctx.resourceName)
    requires !subjectPresent || Fetch(AtlasUrls(Get(configs, CONFIG_REST_ADDRESS)), 0, Get(configs, CONFIG_USERNAME),
                                      Get(configs, CONFIG_PASSWORD), net).None?
    ensures LookupSpec(ctx, ServiceCache(configs, ctx.resourceName, subjectPresent, net)) == []
  {
    var cache := ServiceCache(configs, ctx.resourceName, subjectPresent, net);
    assert cache == map[];
    ResourceNamesDistinct();
    var r := LookupSpec(ctx, cache);
    if ctx.resourceName == RESOURCE_TYPE_NAME && |r| > 0 {
      LookupTypeUnion(ctx, cache, r[0]);
      assert false;
    }
  }
}
