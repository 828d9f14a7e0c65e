/** Model of the URL registry in shortly.py: shortening with de-duplication,
    allocation from a counter, resolving with click counting, and the info
    lookup, all over the key-value store of module KeyValueStore.

    Each registry operation appears twice: as a method of class Shortly that
    makes the source's store calls one by one, and as a function on the
    database (Insert, Redirect, Info) that is its specification. Each method
    is proved equal to its function, and the lemmas are about the functions. */
module Registry {
  import opened KeyValueStore
  import Base62

  datatype Error = NotFound | StoreFailure(cause: StoreError)

  datatype Result<T> = Ok(value: T) | Err(error: Error)

  /** What one registry operation returns, with the database it leaves. */
  datatype Step<T> = Step(result: Result<T>, db: Db)

  /** What url_info hands to its template. */
  datatype LinkInfo = LinkInfo(linkTarget: string, shortId: string, clickCount: int)

  // The four key shapes the registry uses.

  const LastIdKey: string := "last-url-id"

  function ReverseKey(url: string): string { "reverse-url:" + url }

  function TargetKey(shortId: string): string { "url-target:" + shortId }

  function ClickKey(shortId: string): string { "click-count:" + shortId }

  /** The allocation counter: the value of last-url-id, absent counting as 0. */
  function Counter(db: Db): int {
    if LastIdKey in db && db[LastIdKey].Count? then db[LastIdKey].count else 0
  }

  /** The click count url_info reports: `int(get(...) or 0)`. */
  function Clicks(db: Db, shortId: string): int {
    if ClickKey(shortId) in db && db[ClickKey(shortId)].Count? then db[ClickKey(shortId)].count else 0
  }

  // The registry invariant, in five parts.

  /** The counter, when present, is an integer INCR has produced. */
  ghost predicate CounterValid(db: Db) {
    LastIdKey in db ==> db[LastIdKey].Count? && 0 <= db[LastIdKey].count <= MaxInt64
  }

  /** Every forward entry belongs to a token the counter has already handed
      out: its key is canonical base-62 and decodes to 1..counter. */
  ghost predicate TargetsValid(db: Db) {
    forall id :: TargetKey(id) in db ==>
      db[TargetKey(id)].Text? && Base62.IsCanonical(id) && 0 < Base62.Decode(id) <= Counter(db)
  }

  /** Every reverse entry names a token whose forward entry is that URL. */
  ghost predicate ReversesValid(db: Db) {
    forall url :: ReverseKey(url) in db ==>
      db[ReverseKey(url)].Text? &&
      TargetKey(db[ReverseKey(url)].text) in db &&
      db[TargetKey(db[ReverseKey(url)].text)] == Text(url)
  }

  /** Click counters are integers and exist only for allocated tokens. */
  ghost predicate ClicksValid(db: Db) {
    forall id :: ClickKey(id) in db ==>
      db[ClickKey(id)].Count? && 0 <= db[ClickKey(id)].count <= MaxInt64 && TargetKey(id) in db
  }

  /** Allocation leaves no gaps: every value the counter has handed out has
      its forward entry. With TargetsValid, a forward entry exists exactly for
      the tokens of 1..counter (ForwardIffAllocated). */
  ghost predicate AllocatedValid(db: Db) {
    forall m: nat :: 1 <= m <= Counter(db) ==> TargetKey(Base62.ToBase62(m)) in db
  }

  /** The state every sequence of registry calls from an empty store keeps. */
  ghost predicate Consistent(db: Db) {
    CounterValid(db) && TargetsValid(db) && ReversesValid(db) && ClicksValid(db) && AllocatedValid(db)
  }

  /** A mapping exists that redirect_url and url_info accept (a present,
      non-empty target). */
  predicate Resolvable(db: Db, shortId: string) {
    TargetKey(shortId) in db && Truthy(db[TargetKey(shortId)])
  }

  /** insert_url on the database `db`. */
  function Insert(db: Db, url: string): (s: Step<string>)
    requires Consistent(db)
    ensures s.result.Err? ==> s.db == db && s.result.error.StoreFailure?
    ensures s.result.Ok? ==> ReverseKey(url) in s.db && s.db[ReverseKey(url)] == Text(s.result.value)
    ensures s.result.Ok? ==> TargetKey(s.result.value) in s.db && s.db[TargetKey(s.result.value)] == Text(url)
    ensures s.result.Ok? && ReverseKey(url) !in db ==>
              Counter(s.db) == Counter(db) + 1 && s.result.value == Base62.ToBase62(Counter(s.db))
    ensures ReverseKey(url) in db ==> s.db == db
  {
    if ReverseKey(url) in db && Truthy(db[ReverseKey(url)]) then
      Step(Ok(db[ReverseKey(url)].text), db)
    else
      match IncrReply(db, LastIdKey)
      case Failed(e) => Step(Err(StoreFailure(e)), db)
      case Incremented(n) => Step(Ok(Base62.ToBase62(n)), Allocate(db, url, n))
  }

  /** The new-URL writes of insert_url: the counter set to `n`, then the
      forward and the reverse mapping for the token of `n`. */
  function Allocate(db: Db, url: string, n: nat): (r: Db)
    ensures var shortId := Base62.ToBase62(n);
            r.Keys == db.Keys + {LastIdKey, TargetKey(shortId), ReverseKey(url)} &&
            r[LastIdKey] == Count(n) && Counter(r) == n &&
            r[TargetKey(shortId)] == Text(url) && r[ReverseKey(url)] == Text(shortId)
    ensures forall k :: k in db && k != LastIdKey && k != TargetKey(Base62.ToBase62(n)) && k != ReverseKey(url) ==>
              r[k] == db[k]
  {
    var shortId := Base62.ToBase62(n);
    KeysApart(url, shortId);
    db[LastIdKey := Count(n)][TargetKey(shortId) := Text(url)][ReverseKey(url) := Text(shortId)]
  }

  /** redirect_url on the database `db`: the target, after counting the click. */
  function Redirect(db: Db, shortId: string): (s: Step<string>)
    requires Consistent(db)
    ensures s.result == Err(NotFound) <==> !Resolvable(db, shortId)
    ensures s.result.Err? ==> s.db == db
    ensures s.result.Err? && s.result != Err(NotFound) ==> s.result == Err(StoreFailure(Overflow))
    ensures s.result.Ok? ==>
              s.result.value == db[TargetKey(shortId)].text &&
              s.db == db[ClickKey(shortId) := Count(Clicks(db, shortId) + 1)]
  {
    if !Resolvable(db, shortId) then
      Step(Err(NotFound), db)
    else
      match IncrReply(db, ClickKey(shortId))
      case Failed(e) => Step(Err(StoreFailure(e)), db)
      case Incremented(_) => Step(Ok(db[TargetKey(shortId)].text), AfterIncr(db, ClickKey(shortId)))
  }

  /** url_info on the database `db`. */
  function Info(db: Db, shortId: string): (r: Result<LinkInfo>)
    requires Consistent(db)
    ensures r.Err? <==> !Resolvable(db, shortId)
    ensures r.Err? ==> r.error == NotFound
    ensures r.Ok? ==> r.value.linkTarget == db[TargetKey(shortId)].text && r.value.linkTarget != []
    ensures r.Ok? ==> r.value.shortId == shortId && 0 <= r.value.clickCount <= MaxInt64
    ensures r.Ok? ==> r.value.clickCount == Clicks(db, shortId)
  {
    if !Resolvable(db, shortId) then Err(NotFound)
    else Ok(LinkInfo(db[TargetKey(shortId)].text, shortId, Clicks(db, shortId)))
  }

  /** Where `__call__` sends a request path. */
  datatype Handler = StaticFiles(path: string) | Application(path: string)

  const StaticPrefix: string := "/static"

  /** `__call__`: paths under /static go to the static file server with the
      prefix removed; every other path goes to the application unchanged. */
  function Route(path: string): (h: Handler)
    ensures h.StaticFiles? <==> StaticPrefix <= path
    ensures h.StaticFiles? ==> StaticPrefix + h.path == path
    ensures h.Application? ==> h.path == path
  {
    if |path| >= |StaticPrefix| && path[..|StaticPrefix|] == StaticPrefix then
      StaticFiles(path[|StaticPrefix|..])
    else
      Application(path)
  }

  /** The application object with its store connection. */
  class Shortly {
    const redis: Store

    ghost predicate Valid()
      reads this, redis
    {
      Consistent(redis.data)
    }

    constructor (store: Store)
      requires Consistent(store.data)
      ensures redis == store && Valid()
    {
      redis := store;
    }

    /** insert_url: the stored token on a repeat, otherwise a new token from
        the incremented counter, with both mappings written. */
    method InsertUrl(url: string) returns (r: Result<string>)
      requires Valid()
      modifies redis
      ensures Valid()
      ensures Step(r, redis.data) == Insert(old(redis.data), url)
    {
      ghost var db := redis.data;
      var existing := redis.Get(ReverseKey(url));
      if existing.Some? && Truthy(existing.value) {
        return Ok(existing.value.text);
      }
      var urlNum := redis.Incr(LastIdKey);
      if urlNum.Failed? {
        return Err(StoreFailure(urlNum.error));
      }
      var shortId := Base62.Encode(urlNum.value);
      redis.Set(TargetKey(shortId), Text(url));
      redis.Set(ReverseKey(url), Text(shortId));
      r := Ok(shortId);
      InsertKeepsConsistent(db, url);
    }

    /** redirect_url: NotFound for an unknown token, otherwise the target
        after one more click is counted. */
    method RedirectUrl(shortId: string) returns (r: Result<string>)
      requires Valid()
      modifies redis
      ensures Valid()
      ensures Step(r, redis.data) == Redirect(old(redis.data), shortId)
    {
      ghost var db := redis.data;
      var linkTarget := redis.Get(TargetKey(shortId));
      if !(linkTarget.Some? && Truthy(linkTarget.value)) {
        return Err(NotFound);
      }
      var clicks := redis.Incr(ClickKey(shortId));
      if clicks.Failed? {
        return Err(StoreFailure(clicks.error));
      }
      r := Ok(linkTarget.value.text);
      RedirectKeepsConsistent(db, shortId);
    }

    /** url_info: reads two keys and changes nothing. */
    method UrlInfo(shortId: string) returns (r: Result<LinkInfo>)
      requires Valid()
      ensures r == Info(redis.data, shortId)
      ensures r.Err? <==> !Resolvable(redis.data, shortId)
      ensures r.Ok? ==> r.value.linkTarget == redis.data[TargetKey(shortId)].text
      ensures r.Ok? ==> r.value.clickCount == (if ClickKey(shortId) in redis.data then redis.data[ClickKey(shortId)].count else 0)
    {
      var linkTarget := redis.Get(TargetKey(shortId));
      if !(linkTarget.Some? && Truthy(linkTarget.value)) {
        return Err(NotFound);
      }
      var clickCount := redis.Get(ClickKey(shortId));
      var count := if clickCount.Some? && Truthy(clickCount.value) then clickCount.value.count else 0;
      r := Ok(LinkInfo(linkTarget.value.text, shortId, count));
    }
  }

  // Facts about the key shapes.

  lemma KeyShapes(s: string)
    ensures ReverseKey(s)[0] == 'r' && ReverseKey(s)[12..] == s
    ensures TargetKey(s)[0] == 'u' && TargetKey(s)[11..] == s
    ensures ClickKey(s)[0] == 'c' && ClickKey(s)[12..] == s
    ensures LastIdKey[0] == 'l'
  {
  }

  /** The four key shapes never collide, and each shape is injective. */
  lemma KeysApart(a: string, b: string)
    ensures ReverseKey(a) == ReverseKey(b) <==> a == b
    ensures TargetKey(a) == TargetKey(b) <==> a == b
    ensures ClickKey(a) == ClickKey(b) <==> a == b
    ensures ReverseKey(a) != TargetKey(b) && ReverseKey(a) != ClickKey(b) && TargetKey(a) != ClickKey(b)
    ensures LastIdKey != ReverseKey(a) && LastIdKey != TargetKey(a) && LastIdKey != ClickKey(a)
    ensures LastIdKey != ReverseKey(b) && LastIdKey != TargetKey(b) && LastIdKey != ClickKey(b)
  {
    KeyShapes(a);
    KeyShapes(b);
  }

  /** A reverse entry of a consistent database is never empty, so the
      truthiness test in insert_url is plain presence. */
  lemma ReverseTruthy(db: Db, url: string)
    requires Consistent(db) && ReverseKey(url) in db
    ensures db[ReverseKey(url)].Text? && Truthy(db[ReverseKey(url)])
    ensures Base62.IsCanonical(db[ReverseKey(url)].text)
  {
    var id := db[ReverseKey(url)].text;
    assert TargetKey(id) in db;
  }

  /** A token the counter has not reached yet has no forward entry. */
  lemma FreshToken(db: Db, n: nat)
    requires Consistent(db) && n > Counter(db)
    ensures TargetKey(Base62.ToBase62(n)) !in db
  {
    var id := Base62.ToBase62(n);
    Base62.DecodeEncoding(n);
  }

  /** insert_url keeps the registry invariant. */
  lemma InsertKeepsConsistent(db: Db, url: string)
    requires Consistent(db)
    ensures Consistent(Insert(db, url).db)
  {
    if ReverseKey(url) in db && Truthy(db[ReverseKey(url)]) {
      return;
    }
    var reply := IncrReply(db, LastIdKey);
    if reply.Failed? {
      return;
    }
    if ReverseKey(url) in db {
      ReverseTruthy(db, url);
    }
    var n := reply.value;
    assert Insert(db, url).db == Allocate(db, url, n);
    AllocateCounter(db, url, n);
    AllocateTargets(db, url, n);
    AllocateReverses(db, url, n);
    AllocateClicks(db, url, n);
    AllocateDense(db, url, n);
  }

  /** The precondition shared by the four parts of the proof above: a new
      URL and the counter value INCR has just returned. */
  ghost predicate Allocating(db: Db, url: string, n: int) {
    Consistent(db) && ReverseKey(url) !in db && n == Counter(db) + 1 && n <= MaxInt64
  }

  lemma AllocateCounter(db: Db, url: string, n: nat)
    requires Allocating(db, url, n)
    ensures Counter(Allocate(db, url, n)) == n && CounterValid(Allocate(db, url, n))
  {
    KeysApart(url, Base62.ToBase62(n));
  }

  lemma AllocateTargets(db: Db, url: string, n: nat)
    requires Allocating(db, url, n)
    ensures TargetsValid(Allocate(db, url, n))
  {
    var id := Base62.ToBase62(n);
    var db1 := Allocate(db, url, n);
    AllocateCounter(db, url, n);
    Base62.EncodingCanonical(n);
    Base62.DecodeEncoding(n);
    forall i | TargetKey(i) in db1
      ensures db1[TargetKey(i)].Text? && Base62.IsCanonical(i) && 0 < Base62.Decode(i) <= Counter(db1)
    {
      KeysApart(url, i);
      KeysApart(i, id);
      if i != id {
        assert TargetKey(i) in db;
      }
    }
  }

  lemma AllocateReverses(db: Db, url: string, n: nat)
    requires Allocating(db, url, n)
    ensures ReversesValid(Allocate(db, url, n))
  {
    var id := Base62.ToBase62(n);
    var db1 := Allocate(db, url, n);
    FreshToken(db, n);
    KeysApart(url, id);
    forall u | ReverseKey(u) in db1
      ensures db1[ReverseKey(u)].Text?
      ensures TargetKey(db1[ReverseKey(u)].text) in db1
      ensures db1[TargetKey(db1[ReverseKey(u)].text)] == Text(u)
    {
      KeysApart(u, url);
      if u != url {
        KeysApart(u, id);
        assert ReverseKey(u) in db;
        var j := db[ReverseKey(u)].text;
        assert TargetKey(j) in db;
        KeysApart(j, id);
        KeysApart(url, j);
      }
    }
  }

  lemma AllocateClicks(db: Db, url: string, n: nat)
    requires Allocating(db, url, n)
    ensures ClicksValid(Allocate(db, url, n))
  {
    var id := Base62.ToBase62(n);
    var db1 := Allocate(db, url, n);
    forall i | ClickKey(i) in db1
      ensures db1[ClickKey(i)].Count? && 0 <= db1[ClickKey(i)].count <= MaxInt64 && TargetKey(i) in db1
    {
      KeysApart(url, i);
      KeysApart(i, id);
      assert ClickKey(i) in db;
    }
  }

  lemma AllocateDense(db: Db, url: string, n: nat)
    requires Allocating(db, url, n)
    ensures AllocatedValid(Allocate(db, url, n))
  {
    var db1 := Allocate(db, url, n);
    forall m: nat | 1 <= m <= Counter(db1)
      ensures TargetKey(Base62.ToBase62(m)) in db1
    {
      if m < n {
        assert TargetKey(Base62.ToBase62(m)) in db;
      }
    }
  }

  /** A forward entry exists exactly for the tokens the counter has handed
      out: the canonical tokens whose value lies in 1..counter. */
  lemma ForwardIffAllocated(db: Db, shortId: string)
    requires Consistent(db)
    ensures TargetKey(shortId) in db <==>
              Base62.IsCanonical(shortId) && 0 < Base62.Decode(shortId) <= Counter(db)
  {
    if Base62.IsCanonical(shortId) && 0 < Base62.Decode(shortId) <= Counter(db) {
      Base62.CanonicalIsEncoding(shortId);
      assert TargetKey(Base62.ToBase62(Base62.Decode(shortId))) in db;
    }
  }

  /** redirect_url keeps the registry invariant. */
  lemma RedirectKeepsConsistent(db: Db, shortId: string)
    requires Consistent(db)
    ensures Consistent(Redirect(db, shortId).db)
  {
    if !Resolvable(db, shortId) || IncrReply(db, ClickKey(shortId)).Failed? {
      return;
    }
    var n := IncrReply(db, ClickKey(shortId)).value;
    var db1 := Redirect(db, shortId).db;
    assert db1 == db[ClickKey(shortId) := Count(n)];
    KeysApart(shortId, shortId);
    assert Counter(db1) == Counter(db);
    assert TargetsValid(db1) by {
      forall i | TargetKey(i) in db1
        ensures db1[TargetKey(i)].Text? && Base62.IsCanonical(i) && 0 < Base62.Decode(i) <= Counter(db1)
      {
        KeysApart(i, shortId);
        assert TargetKey(i) in db;
      }
    }
    assert ReversesValid(db1) by {
      forall u | ReverseKey(u) in db1
        ensures db1[ReverseKey(u)].Text?
        ensures TargetKey(db1[ReverseKey(u)].text) in db1
        ensures db1[TargetKey(db1[ReverseKey(u)].text)] == Text(u)
      {
        KeysApart(u, shortId);
        assert ReverseKey(u) in db;
        KeysApart(db[ReverseKey(u)].text, shortId);
      }
    }
    assert ClicksValid(db1) by {
      forall i | ClickKey(i) in db1
        ensures db1[ClickKey(i)].Count? && 0 <= db1[ClickKey(i)].count <= MaxInt64 && TargetKey(i) in db1
      {
        KeysApart(i, shortId);
      }
    }
    assert AllocatedValid(db1) by {
      forall m: nat | 1 <= m <= Counter(db1)
        ensures TargetKey(Base62.ToBase62(m)) in db1
      {
        assert TargetKey(Base62.ToBase62(m)) in db;
      }
    }
  }
}
