/** Properties of the registry across calls: de-duplication, counting
    allocation, what each call leaves unchanged, how redirects are counted,
    and the end-to-end session from an empty store. */
module RegistryProperties {
  import opened KeyValueStore
  import opened Registry
  import Base62

  /** An empty store satisfies the registry invariant. */
  lemma EmptyStoreConsistent()
    ensures Consistent(map[])
  {
  }

  // insert_url

  /** A URL already registered gets its stored token back, and the store is
      left exactly as it was: no counter increment and no writes. */
  lemma InsertRepeat(db: Db, url: string)
    requires Consistent(db) && ReverseKey(url) in db
    ensures Insert(db, url) == Step(Ok(db[ReverseKey(url)].text), db)
  {
    ReverseTruthy(db, url);
  }

  /** A new URL advances the counter by exactly one (absent counting as 0),
      gets the base-62 encoding of the new counter value, which no earlier
      forward entry uses, and exactly three keys are written. */
  lemma InsertNew(db: Db, url: string)
    requires Consistent(db) && ReverseKey(url) !in db && Counter(db) < MaxInt64
    ensures var n := Counter(db) + 1;
            var shortId := Base62.ToBase62(n);
            var after := Insert(db, url);
            after.result == Ok(shortId) &&
            TargetKey(shortId) !in db &&
            Counter(after.db) == n &&
            after.db[TargetKey(shortId)] == Text(url) &&
            after.db[ReverseKey(url)] == Text(shortId) &&
            after.db.Keys == db.Keys + {LastIdKey, TargetKey(shortId), ReverseKey(url)} &&
            (forall k :: k in db && k != LastIdKey ==> after.db[k] == db[k])
  {
    var n := Counter(db) + 1;
    var shortId := Base62.ToBase62(n);
    FreshToken(db, n);
    KeysApart(url, shortId);
    assert Insert(db, url).db == Allocate(db, url, n);
    AllocateCounter(db, url, n);
  }

  /** With the counter at the signed 64-bit maximum, INCR fails and a new URL
      is refused with the store unchanged. */
  lemma InsertCounterExhausted(db: Db, url: string)
    requires Consistent(db) && ReverseKey(url) !in db && Counter(db) == MaxInt64
    ensures Insert(db, url) == Step(Err(StoreFailure(Overflow)), db)
  {
  }

  /** After a successful insert the URL and its token point at each other. */
  lemma InsertRegisters(db: Db, url: string)
    requires Consistent(db) && Insert(db, url).result.Ok?
    ensures var after := Insert(db, url);
            var shortId := after.result.value;
            ReverseKey(url) in after.db && after.db[ReverseKey(url)] == Text(shortId) &&
            TargetKey(shortId) in after.db && after.db[TargetKey(shortId)] == Text(url)
  {
    if ReverseKey(url) in db {
      InsertRepeat(db, url);
    } else {
      InsertNew(db, url);
    }
  }

  /** Re-submission is idempotent: a second insert of the same URL returns the
      same token and changes nothing, so the counter advances at most once. */
  lemma InsertIdempotent(db: Db, url: string)
    requires Consistent(db)
    ensures Consistent(Insert(db, url).db)
    ensures Counter(db) <= Counter(Insert(db, url).db) <= Counter(db) + 1
    ensures Insert(db, url).result.Ok? ==>
              Insert(Insert(db, url).db, url) == Insert(db, url)
  {
    var after := Insert(db, url);
    InsertKeepsConsistent(db, url);
    if ReverseKey(url) in db {
      InsertRepeat(db, url);
    } else if Counter(db) < MaxInt64 {
      InsertNew(db, url);
      InsertRegisters(db, url);
      InsertRepeat(after.db, url);
    }
  }

  /** Forward entries are immutable: neither insert_url nor redirect_url
      changes a token's target once it is written. */
  lemma TargetsUnchanged(db: Db, url: string, shortId: string, id: string)
    requires Consistent(db) && TargetKey(id) in db
    ensures TargetKey(id) in Insert(db, url).db && Insert(db, url).db[TargetKey(id)] == db[TargetKey(id)]
    ensures TargetKey(id) in Redirect(db, shortId).db && Redirect(db, shortId).db[TargetKey(id)] == db[TargetKey(id)]
  {
    KeysApart(id, shortId);
    KeysApart(url, id);
    if ReverseKey(url) !in db && Counter(db) < MaxInt64 {
      InsertNew(db, url);
    }
  }

  /** Distinct URLs never share a token: two successive inserts of different
      URLs return different tokens. */
  lemma DistinctUrlsDistinctTokens(db: Db, u: string, v: string)
    requires Consistent(db) && u != v
    requires Insert(db, u).result.Ok?
    ensures Consistent(Insert(db, u).db)
    ensures Insert(Insert(db, u).db, v).result.Ok? ==>
              Insert(Insert(db, u).db, v).result.value != Insert(db, u).result.value
  {
    var s1 := Insert(db, u);
    InsertKeepsConsistent(db, u);
    InsertRegisters(db, u);
    var s2 := Insert(s1.db, v);
    if s2.result.Ok? {
      InsertRegisters(s1.db, v);
      var a, b := s1.result.value, s2.result.value;
      TargetsUnchanged(s1.db, v, a, a);
      assert s2.db[TargetKey(a)] == Text(u);
      assert s2.db[TargetKey(b)] == Text(v);
    }
  }

  // redirect_url and url_info

  /** An unknown token is NotFound for both redirect_url and url_info, and
      neither changes the store. */
  lemma UnknownToken(db: Db, shortId: string)
    requires Consistent(db) && TargetKey(shortId) !in db
    ensures Redirect(db, shortId) == Step(Err(NotFound), db)
    ensures Info(db, shortId) == Err(NotFound)
  {
  }

  /** A known token redirects to its target and its click count goes up by
      exactly one, absent counting as 0; no other key changes. */
  lemma RedirectKnown(db: Db, shortId: string)
    requires Consistent(db) && Resolvable(db, shortId) && Clicks(db, shortId) < MaxInt64
    ensures Redirect(db, shortId)
         == Step(Ok(db[TargetKey(shortId)].text), db[ClickKey(shortId) := Count(Clicks(db, shortId) + 1)])
  {
  }

  /** url_info observes each redirect: the count it reports rises by one and
      the target it reports stays the same. */
  lemma RedirectSeenByInfo(db: Db, shortId: string)
    requires Consistent(db) && Redirect(db, shortId).result.Ok?
    ensures Consistent(Redirect(db, shortId).db)
    ensures Info(db, shortId).Ok?
    ensures Info(Redirect(db, shortId).db, shortId)
         == Ok(Info(db, shortId).value.(clickCount := Info(db, shortId).value.clickCount + 1))
  {
    RedirectKeepsConsistent(db, shortId);
    KeysApart(shortId, shortId);
  }

  /** Round trip: the token insert_url returns for a non-empty URL resolves
      to that URL, for url_info and for redirect_url. */
  lemma InsertThenResolve(db: Db, url: string)
    requires Consistent(db) && url != [] && Insert(db, url).result.Ok?
    ensures Consistent(Insert(db, url).db)
    ensures var after := Insert(db, url);
            var shortId := after.result.value;
            Info(after.db, shortId).Ok? && Info(after.db, shortId).value.linkTarget == url &&
            Redirect(after.db, shortId).result != Err(NotFound) &&
            (Redirect(after.db, shortId).result.Ok? ==> Redirect(after.db, shortId).result.value == url)
  {
    InsertKeepsConsistent(db, url);
    InsertRegisters(db, url);
  }

  /** A freshly shortened URL starts at zero clicks; url_info any number of
      times and then one redirect leave the count at exactly one. */
  lemma NewTokenClicks(db: Db, url: string)
    requires Consistent(db) && url != [] && ReverseKey(url) !in db && Counter(db) < MaxInt64
    ensures var after := Insert(db, url);
            var shortId := after.result.value;
            Consistent(after.db) &&
            Info(after.db, shortId) == Ok(LinkInfo(url, shortId, 0)) &&
            Redirect(after.db, shortId).result == Ok(url) &&
            Consistent(Redirect(after.db, shortId).db) &&
            Info(Redirect(after.db, shortId).db, shortId) == Ok(LinkInfo(url, shortId, 1))
  {
    var after := Insert(db, url);
    var shortId := after.result.value;
    NewTokenUnclicked(db, url);
    InsertKeepsConsistent(db, url);
    RedirectKnown(after.db, shortId);
    RedirectSeenByInfo(after.db, shortId);
  }

  /** The token of a new URL has no click counter yet. */
  lemma NewTokenUnclicked(db: Db, url: string)
    requires Consistent(db) && url != [] && ReverseKey(url) !in db && Counter(db) < MaxInt64
    ensures var after := Insert(db, url);
            var shortId := after.result.value;
            after.result.Ok? && Resolvable(after.db, shortId) &&
            after.db[TargetKey(shortId)] == Text(url) && Clicks(after.db, shortId) == 0
  {
    var after := Insert(db, url);
    InsertNew(db, url);
    var shortId := after.result.value;
    KeysApart(shortId, url);
    FreshToken(db, Counter(db) + 1);
    assert ClickKey(shortId) !in db;
  }

  /** insert_url does not check its argument: an empty URL gets a token, but
      the empty target is falsy, so redirect_url and url_info report NotFound. */
  lemma EmptyUrlUnreachable(db: Db)
    requires Consistent(db) && Insert(db, []).result.Ok?
    ensures Consistent(Insert(db, []).db)
    ensures Redirect(Insert(db, []).db, Insert(db, []).result.value).result == Err(NotFound)
    ensures Info(Insert(db, []).db, Insert(db, []).result.value) == Err(NotFound)
  {
    InsertKeepsConsistent(db, []);
    InsertRegisters(db, []);
  }

  // A whole session from an empty store: shorten a URL, shorten it again,
  // shorten a second URL, follow the first token, ask for its info, and
  // follow a token that was never handed out.

  const FirstUrl: string := "https://example.com/a"
  const SecondUrl: string := "https://example.com/b"

  /** The first two counter values encode as the one-symbol tokens "1" and "2". */
  lemma SessionTokens()
    ensures Base62.ToBase62(1) == "1" && Base62.ToBase62(2) == "2"
  {
    Base62.SymbolAt(1);
    Base62.SymbolAt(2);
  }

  /** The first URL gets token "1"; submitting it again changes nothing. */
  lemma SessionFirstUrl()
    ensures var s1 := Insert(map[], FirstUrl);
            s1.result == Ok("1") && Counter(s1.db) == 1 && Consistent(s1.db) &&
            s1.db.Keys == {LastIdKey, TargetKey("1"), ReverseKey(FirstUrl)} &&
            s1.db[TargetKey("1")] == Text(FirstUrl) &&
            Insert(s1.db, FirstUrl) == s1
  {
    SessionTokens();
    InsertNew(map[], FirstUrl);
    InsertIdempotent(map[], FirstUrl);
  }

  /** The second URL gets token "2"; the first token's entry is untouched,
      and no click counter exists yet. */
  lemma SessionSecondUrl(s1: Db)
    requires s1.Keys == {LastIdKey, TargetKey("1"), ReverseKey(FirstUrl)}
    requires Consistent(s1) && Counter(s1) == 1 && s1[TargetKey("1")] == Text(FirstUrl)
    ensures var s3 := Insert(s1, SecondUrl);
            s3.result == Ok("2") && Counter(s3.db) == 2 && Consistent(s3.db) &&
            s3.db[TargetKey("1")] == Text(FirstUrl) &&
            s3.db.Keys == {LastIdKey, TargetKey("1"), ReverseKey(FirstUrl), TargetKey("2"), ReverseKey(SecondUrl)}
  {
    SessionSecondFresh(s1.Keys);
    SessionTokens();
    InsertNew(s1, SecondUrl);
    InsertKeepsConsistent(s1, SecondUrl);
    var s3 := Insert(s1, SecondUrl);
    assert s3.result == Ok("2");
    assert s3.db.Keys == s1.Keys + {LastIdKey, TargetKey("2"), ReverseKey(SecondUrl)};
    assert s3.db[TargetKey("1")] == s1[TargetKey("1")];
  }

  /** The keys the first insert leaves: the second URL has no reverse entry
      yet, and token "1"'s forward key is none of the keys the second insert
      writes. */
  lemma SessionSecondFresh(keys: set<string>)
    requires keys == {LastIdKey, TargetKey("1"), ReverseKey(FirstUrl)}
    ensures ReverseKey(SecondUrl) !in keys
    ensures TargetKey("1") != LastIdKey && TargetKey("1") != TargetKey("2") && TargetKey("1") != ReverseKey(SecondUrl)
  {
    assert FirstUrl != SecondUrl by { assert FirstUrl[20] != SecondUrl[20]; }
    KeysApart(FirstUrl, SecondUrl);
    KeysApart("1", SecondUrl);
    KeysApart("1", "2");
  }

  /** Following token "1" reaches the first URL and url_info then reports one
      click; the never issued token "9" is NotFound and changes nothing. */
  lemma SessionRedirects(s3: Db)
    requires s3.Keys == {LastIdKey, TargetKey("1"), ReverseKey(FirstUrl), TargetKey("2"), ReverseKey(SecondUrl)}
    requires Consistent(s3) && s3[TargetKey("1")] == Text(FirstUrl)
    ensures var s4 := Redirect(s3, "1");
            s4.result == Ok(FirstUrl) && Consistent(s4.db) &&
            Info(s4.db, "1") == Ok(LinkInfo(FirstUrl, "1", 1)) &&
            Redirect(s4.db, "9") == Step(Err(NotFound), s4.db)
  {
    SessionKeys();
    RedirectKnown(s3, "1");
    RedirectSeenByInfo(s3, "1");
    UnknownToken(Redirect(s3, "1").db, "9");
  }

  /** The keys the session writes: token "1" has no click counter yet, and
      token "9" has no forward entry even after "1" is clicked. */
  lemma SessionKeys()
    ensures var keys := {LastIdKey, TargetKey("1"), ReverseKey(FirstUrl), TargetKey("2"), ReverseKey(SecondUrl)};
            ClickKey("1") !in keys && TargetKey("9") !in keys + {ClickKey("1")}
  {
    KeysApart("1", FirstUrl);
    KeysApart("1", SecondUrl);
    KeysApart("1", "2");
    KeysApart("9", FirstUrl);
    KeysApart("9", SecondUrl);
    KeysApart("9", "1");
    KeysApart("9", "2");
    assert "9" != "1" && "9" != "2";
  }

  /** The session as a whole. */
  lemma Session()
    ensures var s1 := Insert(map[], FirstUrl);
            s1.result == Ok("1") && Counter(s1.db) == 1 && Consistent(s1.db) &&
            var s2 := Insert(s1.db, FirstUrl);
            s2 == s1 &&
            var s3 := Insert(s2.db, SecondUrl);
            s3.result == Ok("2") && Counter(s3.db) == 2 && Consistent(s3.db) &&
            var s4 := Redirect(s3.db, "1");
            s4.result == Ok(FirstUrl) && Consistent(s4.db) &&
            Info(s4.db, "1") == Ok(LinkInfo(FirstUrl, "1", 1)) &&
            Redirect(s4.db, "9") == Step(Err(NotFound), s4.db)
  {
    var s1 := Insert(map[], FirstUrl);
    SessionFirstUrl();
    SessionSecondUrl(s1.db);
    SessionRedirects(Insert(s1.db, SecondUrl).db);
  }
}
