/**
  The character service of the web server: it looks a character's login up in the
  cache, calls the game's API with the stored access token, refreshes the token
  once when the API answers Unauthorized, and groups a character's assets by type.

  The cache round trips, the API calls and the token refresh are not performed
  here: their outcomes are parameters, so every function below describes what the
  service does with every combination of outcomes.
*/
module Character {
  import opened Base
  import Table

  /** A stored login. */
  datatype UserEntry = UserEntry(userId: u32, name: string, aliase: seq<u32>, accessToken: string, refreshToken: string)

  /** A login handed over by the OAuth flow. */
  datatype EveOAuthUser = EveOAuthUser(userId: u32, accessToken: string, refreshToken: string)

  /** The cache's answer to a user fetch: the entry, or nothing stored. */
  datatype FetchUserRes = FetchOk(user: UserEntry) | FetchEmpty

  /** Errors of the game's API; only Unauthorized is told apart. */
  datatype ApiError = Unauthorized | OtherApiError(code: int)

  datatype ServerError =
    | UserNotFound            // no login is stored for the character
    | EveApi(error: ApiError) // the game's API failed
    | Cache(code: int)        // the cache connection or request failed

  // ---------------------------------------------------------------------------
  // lookup and save_login
  // ---------------------------------------------------------------------------

  /**
    `lookup`: a stored entry becomes `Some`, any other answer `None`; a failed
    request is passed on.
  */
  function Lookup(response: Result<FetchUserRes, ServerError>): (r: Result<Option<UserEntry>, ServerError>)
    ensures response.Err? <==> r.Err?
    ensures response.Err? ==> r.error == response.error
    ensures r.Ok? && r.value.Some? <==> response.Ok? && response.value.FetchOk?
    ensures r.Ok? && r.value.Some? ==> r.value.value == response.value.user
  {
    match response
    case Err(e) => Err(e)
    case Ok(FetchOk(x)) => Ok(Some(x))
    case Ok(_) => Ok(None)
  }

  /**
    The entry `save_login` writes: the stored entry with the new tokens, or a fresh
    entry for the login's character with no name and no aliases.
  */
  function LoginEntry(stored: Option<UserEntry>, login: EveOAuthUser): (e: UserEntry)
    ensures e.accessToken == login.accessToken && e.refreshToken == login.refreshToken
    ensures stored.Some? ==>
      e.userId == stored.value.userId && e.name == stored.value.name && e.aliase == stored.value.aliase
    ensures stored.None? ==> e.userId == login.userId && e.name == "" && e.aliase == []
  {
    match stored
    case Some(x) => x.(accessToken := login.accessToken, refreshToken := login.refreshToken)
    case None => UserEntry(login.userId, "", [], login.accessToken, login.refreshToken)
  }

  /** Saving the same login again writes the entry already written. */
  lemma LoginEntryIdempotent(stored: Option<UserEntry>, login: EveOAuthUser)
    ensures LoginEntry(Some(LoginEntry(stored, login)), login) == LoginEntry(stored, login)
  {
    var e := LoginEntry(stored, login);
    assert e.(accessToken := login.accessToken, refreshToken := login.refreshToken) == e;
  }

  /** A stored entry that already holds the login's tokens is written back unchanged. */
  lemma LoginEntryKeepsCurrent(stored: UserEntry, login: EveOAuthUser)
    requires stored.accessToken == login.accessToken && stored.refreshToken == login.refreshToken
    ensures LoginEntry(Some(stored), login) == stored
  {
    assert stored.(accessToken := login.accessToken, refreshToken := login.refreshToken) == stored;
  }

  /** What `save_login` did: the entry it wrote, if it got that far, and its result. */
  datatype Saved = Saved(written: Option<UserEntry>, result: Result<(), ServerError>)

  /**
    `save_login`: the lookup of the login's character decides the entry, which is
    then written; a failed lookup writes nothing and a failed write is passed on.
  */
  function SaveLogin(response: Result<FetchUserRes, ServerError>, login: EveOAuthUser,
                     inserted: Result<(), ServerError>): (s: Saved)
    ensures response.Err? ==> s.written == None && s.result == Err(response.error)
    ensures response.Ok? ==> s.result == inserted
    ensures response.Ok? && response.value.FetchOk? ==>
      s.written == Some(LoginEntry(Some(response.value.user), login))
    ensures response.Ok? && !response.value.FetchOk? ==> s.written == Some(LoginEntry(None, login))
  {
    var stored := Lookup(response);
    if stored.Err? then Saved(None, Err(stored.error))
    else Saved(Some(LoginEntry(stored.value, login)), inserted)
  }

  // ---------------------------------------------------------------------------
  // Refresh and retry (name, portrait, assets, blueprints)
  // ---------------------------------------------------------------------------

  /** The outward calls one request makes, in order. */
  datatype Call =
    | FirstCall(token: string)      // the API call with the stored access token
    | RefreshCall(token: string)    // the token refresh with the stored refresh token
    | InsertCall(entry: UserEntry)  // the cache write of save_login
    | RetryCall(token: string)      // the API call with the refreshed access token

  datatype Outcome<T> = Outcome(result: Result<T, ServerError>, calls: seq<Call>)

  predicate IsUnauthorized<T>(r: Result<T, ApiError>)
  {
    r.Err? && r.error == Unauthorized
  }

  /**
    The body shared by `name`, `portrait`, `assets` and `blueprints` once the login
    is known: the first API answer, the refreshed login, the lookup and write of
    its `save_login`, and the retried answer are the outcomes of those calls.
  */
  function WithRefresh<T>(oauth: UserEntry, first: Result<T, ApiError>, refresh: Result<EveOAuthUser, ApiError>,
                          relookup: Result<FetchUserRes, ServerError>, inserted: Result<(), ServerError>,
                          retry: Result<T, ApiError>): (o: Outcome<T>)
    ensures 1 <= |o.calls| <= 4 && o.calls[0] == FirstCall(oauth.accessToken)
    ensures |o.calls| > 1 <==> IsUnauthorized(first)
    ensures |o.calls| > 1 ==> o.calls[1] == RefreshCall(oauth.refreshToken)
    ensures |o.calls| > 2 <==> IsUnauthorized(first) && refresh.Ok? && relookup.Ok?
    ensures |o.calls| > 2 ==> o.calls[2] == InsertCall(LoginEntry(Lookup(relookup).value, refresh.value))
    ensures |o.calls| > 3 <==> IsUnauthorized(first) && refresh.Ok? && relookup.Ok? && inserted.Ok?
    ensures |o.calls| > 3 ==> o.calls[3] == RetryCall(refresh.value.accessToken)
    ensures first.Ok? ==> o.result == Ok(first.value)
    ensures first.Err? && !IsUnauthorized(first) ==> o.result == Err(EveApi(Unauthorized))
    ensures o.result.Ok? ==> (first.Ok? && o.result.value == first.value) ||
                             (|o.calls| == 4 && retry.Ok? && o.result.value == retry.value)
    // after the retry the request answers with the retry's own outcome
    ensures |o.calls| == 4 ==>
      o.result == (if retry.Ok? then Ok(retry.value) else Err(EveApi(retry.error)))
    // every failure on the way to the retry is passed on
    ensures IsUnauthorized(first) && refresh.Err? ==> o.result == Err(EveApi(refresh.error))
    ensures IsUnauthorized(first) && refresh.Ok? && relookup.Err? ==> o.result == Err(relookup.error)
    ensures IsUnauthorized(first) && refresh.Ok? && relookup.Ok? && inserted.Err? ==>
      o.result == Err(inserted.error)
  {
    var firstCalls := [FirstCall(oauth.accessToken)];
    if IsUnauthorized(first) then
      var refreshCalls := firstCalls + [RefreshCall(oauth.refreshToken)];
      if refresh.Err? then Outcome(Err(EveApi(refresh.error)), refreshCalls)
      else
        var user := refresh.value;
        var saved := SaveLogin(relookup, user, inserted);
        if saved.written.None? then Outcome(Err(saved.result.error), refreshCalls)
        else
          var saveCalls := refreshCalls + [InsertCall(saved.written.value)];
          if saved.result.Err? then Outcome(Err(saved.result.error), saveCalls)
          else
            var retryCalls := saveCalls + [RetryCall(user.accessToken)];
            if retry.Err? then Outcome(Err(EveApi(retry.error)), retryCalls)
            else Outcome(Ok(retry.value), retryCalls)
    else if first.Ok? then Outcome(Ok(first.value), firstCalls)
    else Outcome(Err(EveApi(Unauthorized)), firstCalls)
  }

  /**
    The refresh happens at most once: when the retried call is refused again the
    request fails with that error after exactly one refresh, one write and one retry.
  */
  lemma RefreshOnce<T>(oauth: UserEntry, first: Result<T, ApiError>, refresh: Result<EveOAuthUser, ApiError>,
                       relookup: Result<FetchUserRes, ServerError>, inserted: Result<(), ServerError>,
                       retry: Result<T, ApiError>)
    requires IsUnauthorized(first) && IsUnauthorized(retry)
    requires refresh.Ok? && relookup.Ok? && inserted.Ok?
    ensures var o := WithRefresh(oauth, first, refresh, relookup, inserted, retry);
      o.result == Err(EveApi(Unauthorized)) && |o.calls| == 4 &&
      (forall i :: 0 <= i < |o.calls| ==> (o.calls[i].RefreshCall? <==> i == 1)) &&
      (forall i :: 0 <= i < |o.calls| ==> (o.calls[i].RetryCall? <==> i == 3))
  {
    var o := WithRefresh(oauth, first, refresh, relookup, inserted, retry);
    assert o.calls == [FirstCall(oauth.accessToken), RefreshCall(oauth.refreshToken),
                       InsertCall(LoginEntry(Lookup(relookup).value, refresh.value)), RetryCall(refresh.value.accessToken)];
  }

  /**
    A refresh for a character whose login is stored keeps its name and aliases and
    records the refreshed tokens.
  */
  lemma RefreshKeepsProfile<T>(oauth: UserEntry, first: Result<T, ApiError>, refresh: Result<EveOAuthUser, ApiError>,
                               stored: UserEntry, inserted: Result<(), ServerError>, retry: Result<T, ApiError>)
    requires IsUnauthorized(first) && refresh.Ok?
    ensures var o := WithRefresh(oauth, first, refresh, Ok(FetchOk(stored)), inserted, retry);
      |o.calls| > 2 && o.calls[2].InsertCall? &&
      o.calls[2].entry.name == stored.name && o.calls[2].entry.aliase == stored.aliase &&
      o.calls[2].entry.accessToken == refresh.value.accessToken &&
      o.calls[2].entry.refreshToken == refresh.value.refreshToken
  {
  }

  /**
    A request for a character: the login lookup, which must find an entry, then the
    refresh-and-retry body.
  */
  function Authorized<T>(response: Result<FetchUserRes, ServerError>, first: Result<T, ApiError>,
                         refresh: Result<EveOAuthUser, ApiError>, relookup: Result<FetchUserRes, ServerError>,
                         inserted: Result<(), ServerError>, retry: Result<T, ApiError>): (o: Outcome<T>)
    ensures response.Err? ==> o == Outcome(Err(response.error), [])
    ensures response.Ok? && !response.value.FetchOk? ==> o == Outcome(Err(UserNotFound), [])
    ensures o.calls != [] <==> response.Ok? && response.value.FetchOk?
    ensures o.calls != [] ==> o.calls[0] == FirstCall(response.value.user.accessToken)
  {
    var stored := Lookup(response);
    if stored.Err? then Outcome(Err(stored.error), [])
    else if stored.value.None? then Outcome(Err(UserNotFound), [])
    else WithRefresh(stored.value.value, first, refresh, relookup, inserted, retry)
  }

  /** Without a stored login nothing is fetched from the API. */
  lemma NoLoginNoData<T>(response: Result<FetchUserRes, ServerError>, first: Result<T, ApiError>,
                                            refresh: Result<EveOAuthUser, ApiError>, relookup: Result<FetchUserRes, ServerError>,
                                            inserted: Result<(), ServerError>, retry: Result<T, ApiError>)
    ensures Authorized(response, first, refresh, relookup, inserted, retry).result.Ok? ==>
      response.Ok? && response.value.FetchOk?
  {
  }

  // ---------------------------------------------------------------------------
  // Asset aggregation
  // ---------------------------------------------------------------------------

  /** An asset of a character; fields the service does not read are kept in `other`. */
  datatype CharacterAsset = CharacterAsset(typeId: u32, quantity: int, other: seq<int>)

  function TypeOf(a: CharacterAsset): (r: u32)
  {
    a.typeId
  }

  /** The sum of the quantities of the assets of type `t`. */
  function Total(assets: seq<CharacterAsset>, t: u32): (r: int)
    ensures (forall i :: 0 <= i < |assets| ==> assets[i].quantity >= 0) ==> r >= 0
    decreases |assets|
  {
    if assets == [] then 0
    else
      var a := assets[|assets| - 1];
      Total(assets[..|assets| - 1], t) + (if a.typeId == t then a.quantity else 0)
  }

  /**
    The map the aggregation loop builds: the first asset of a type is inserted as
    is, each later one adds its quantity to it.
  */
  function Grouped(assets: seq<CharacterAsset>): (r: map<u32, CharacterAsset>)
    ensures |r| <= |assets|
    ensures assets != [] ==> |r| > 0
    decreases |assets|
  {
    if assets == [] then map[]
    else
      var m := Grouped(assets[..|assets| - 1]);
      var a := assets[|assets| - 1];
      if a.typeId in m then m[a.typeId := m[a.typeId].(quantity := m[a.typeId].quantity + a.quantity)]
      else m[a.typeId := a]
  }

  /** A type that does not occur adds nothing. */
  lemma {:induction false} TotalAbsent(assets: seq<CharacterAsset>, t: u32)
    requires t !in Table.BatchKeys(assets, TypeOf)
    ensures Total(assets, t) == 0
    decreases |assets|
  {
    if assets != [] {
      var n := |assets| - 1;
      assert assets[n] in assets;
      assert Table.BatchKeys(assets[..n], TypeOf) <= Table.BatchKeys(assets, TypeOf);
      TotalAbsent(assets[..n], t);
    }
  }

  /** The grouped types are exactly the input's types. */
  lemma {:induction false} GroupedKeys(assets: seq<CharacterAsset>)
    ensures Grouped(assets).Keys == Table.BatchKeys(assets, TypeOf)
    decreases |assets|
  {
    if assets != [] {
      var n := |assets| - 1;
      GroupedKeys(assets[..n]);
      forall t | t in Table.BatchKeys(assets, TypeOf)
        ensures t in Table.BatchKeys(assets[..n], TypeOf) || t == assets[n].typeId
      {
        var x :| x in assets && x.typeId == t;
        var j :| 0 <= j < |assets| && assets[j] == x;
        if j < n {
          assert assets[..n][j] == x;
        }
      }
      forall t | t in Table.BatchKeys(assets[..n], TypeOf)
        ensures t in Table.BatchKeys(assets, TypeOf)
      {
        var x :| x in assets[..n] && x.typeId == t;
        assert x in assets;
      }
      assert assets[n] in assets;
      assert Table.BatchKeys(assets, TypeOf) == Table.BatchKeys(assets[..n], TypeOf) + {assets[n].typeId};
    }
  }

  /** Each type is stored under its own id, with the total quantity of that type. */
  lemma {:induction false} GroupedTotals(assets: seq<CharacterAsset>)
    ensures Table.KeyedBy(Grouped(assets), TypeOf)
    ensures forall t :: t in Grouped(assets) ==> Grouped(assets)[t].quantity == Total(assets, t)
    decreases |assets|
  {
    if assets != [] {
      var n := |assets| - 1;
      var a := assets[n];
      GroupedTotals(assets[..n]);
      if a.typeId !in Grouped(assets[..n]) {
        GroupedKeys(assets[..n]);
        TotalAbsent(assets[..n], a.typeId);
      }
    }
  }

  /** The fields other than the quantity come from the first asset of each type. */
  lemma {:induction false} GroupedFirst(assets: seq<CharacterAsset>, i: nat)
    requires i < |assets|
    requires forall j :: 0 <= j < i ==> assets[j].typeId != assets[i].typeId
    ensures assets[i].typeId in Grouped(assets)
    ensures Grouped(assets)[assets[i].typeId] == assets[i].(quantity := Total(assets, assets[i].typeId))
    decreases |assets|
  {
    var n := |assets| - 1;
    var t := assets[i].typeId;
    if i == n {
      GroupedKeys(assets[..n]);
      assert t !in Table.BatchKeys(assets[..n], TypeOf);
      TotalAbsent(assets[..n], t);
    } else {
      GroupedFirst(assets[..n], i);
    }
  }

  /** The accumulation loop: `and_modify` adds the quantity, `or_insert` keeps the first asset. */
  method Accumulate(assets: seq<CharacterAsset>) returns (grouped: map<u32, CharacterAsset>)
    ensures grouped == Grouped(assets)
  {
    grouped := map[];
    for i := 0 to |assets|
      invariant grouped == Grouped(assets[..i])
    {
      assert assets[..i + 1][..i] == assets[..i];
      var asset := assets[i];
      if asset.typeId in grouped {
        grouped := grouped[asset.typeId := grouped[asset.typeId].(quantity := grouped[asset.typeId].quantity + asset.quantity)];
      } else {
        grouped := grouped[asset.typeId := asset];
      }
    }
    assert assets[..|assets|] == assets;
  }

  /**
    The aggregation of `assets`: a loop that accumulates per type, then the map's
    values in its iteration order (`order` is the order of the types it took).
  */
  method Aggregate(assets: seq<CharacterAsset>) returns (result: seq<CharacterAsset>, ghost order: seq<u32>)
    ensures Table.Enumerates(order, Table.BatchKeys(assets, TypeOf))
    ensures |result| == |order|
    ensures forall i :: 0 <= i < |result| ==> order[i] in Grouped(assets) && result[i] == Grouped(assets)[order[i]]
    ensures forall i, j :: 0 <= i < j < |result| ==> result[i].typeId != result[j].typeId
    ensures forall i :: 0 <= i < |result| ==> result[i].quantity == Total(assets, result[i].typeId)
    ensures Table.BatchKeys(result, TypeOf) == Table.BatchKeys(assets, TypeOf)
  {
    var grouped := Accumulate(assets);
    result, order := Table.Flatten(grouped);
    GroupedKeys(assets);
    GroupedTotals(assets);
    assert forall i :: 0 <= i < |result| ==> result[i].typeId == order[i];
    forall t | t in Table.BatchKeys(result, TypeOf)
      ensures t in Table.BatchKeys(assets, TypeOf)
    {
      var x :| x in result && x.typeId == t;
      var i :| 0 <= i < |result| && result[i] == x;
      assert order[i] in Table.Elements(order);
    }
    forall t | t in Table.BatchKeys(assets, TypeOf)
      ensures t in Table.BatchKeys(result, TypeOf)
    {
      assert t in Table.Elements(order);
      var i :| 0 <= i < |order| && order[i] == t;
      assert result[i] in result;
    }
  }

  /**
    `assets`: the request for the character's assets, aggregated by type when it
    succeeds.
  */
  method Assets(response: Result<FetchUserRes, ServerError>, first: Result<seq<CharacterAsset>, ApiError>,
                refresh: Result<EveOAuthUser, ApiError>, relookup: Result<FetchUserRes, ServerError>,
                inserted: Result<(), ServerError>, retry: Result<seq<CharacterAsset>, ApiError>)
    returns (r: Result<seq<CharacterAsset>, ServerError>)
    ensures var o := Authorized(response, first, refresh, relookup, inserted, retry);
      (o.result.Err? ==> r == Err(o.result.error)) &&
      (o.result.Ok? ==>
        (r.Ok? &&
         Table.BatchKeys(r.value, TypeOf) == Table.BatchKeys(o.result.value, TypeOf) &&
         (forall i, j :: 0 <= i < j < |r.value| ==> r.value[i].typeId != r.value[j].typeId) &&
         (forall i :: 0 <= i < |r.value| ==>
            r.value[i].typeId in Grouped(o.result.value) && r.value[i] == Grouped(o.result.value)[r.value[i].typeId])))
  {
    var o := Authorized(response, first, refresh, relookup, inserted, retry);
    if o.result.Err? {
      return Err(o.result.error);
    }
    var grouped, order := Aggregate(o.result.value);
    GroupedTotals(o.result.value);
    return Ok(grouped);
  }
}
