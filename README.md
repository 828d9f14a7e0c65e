# Shortly URL shortener, modelled in Dafny

Shortly is a small URL-shortener web application. Its core consists of two parts:

* a base-62 encoder (`base62_encoder` with the `BASE62` alphabet in `utils.py`), which
  turns a counter value into a short token;
* a URL registry (`insert_url`, `redirect_url` and `url_info` in `shortly.py`),
  kept in a Redis database under four key shapes. `last-url-id` is the allocation
  counter. `url-target:<id>` is the forward mapping, `reverse-url:<url>` is the
  reverse mapping and `click-count:<id>` is the per-token click counter.

The project has four modules, one per file:

* `Base62` (`base62.dfy`): the alphabet and `Encode`, which is the encoder's
  `while number:` loop as a method. It is proved against `ToBase62`, a recursive
  reference definition, and against `Decode`, which reads a token positionally.
  The lemmas prove the round trip, canonical form, injectivity, uniqueness of the
  canonical token and its length bounds.
* `KeyValueStore` (`store.dfy`): the part of Redis the registry uses. `Store` is a
  class whose `data` field is a map from keys to values, with `Get`, `Set` and
  `Incr`. Values are typed: `Text` for what SET writes and `Count` for what INCR
  keeps. INCR treats an absent key as 0. It refuses a `Text` value ("not an
  integer") and refuses to go past the signed 64-bit maximum ("overflow"). A failed
  INCR changes nothing.
* `Registry` (`shortly.dfy`): the class `Shortly` holds the store, and its methods
  follow the source call by call. Each operation is defined twice:
  * a method, proved equal to a function on the database, which is its
    specification;
  * `Insert` and `Redirect` take the old database and return the result together
    with the new database;
  * `Info` takes the current database and returns only the result, because
    `UrlInfo` writes nothing.

  Both mutating methods keep the registry invariant `Consistent`, which has five
  parts:
  * the counter is a 64-bit integer;
  * every forward key is a canonical token whose value lies in 1..counter;
  * every value in 1..counter has its forward entry, so allocation leaves no gaps;
  * every reverse entry points back through its forward entry;
  * click counters exist only for issued tokens.

  `Route` models the `/static` prefix split in `__call__`.
* `RegistryProperties` (`registry_properties.dfy`): facts that span several calls.
  They cover de-duplication and idempotence, allocation from the counter, what each
  call leaves unchanged, click counting as seen by `url_info`, and a whole session
  from an empty store.

Python truthiness is modelled as written:
* `insert_url` returns an existing token only when the reverse entry is present
  and non-empty;
* `redirect_url` and `url_info` report NotFound for an absent or empty target.

`insert_url` does not check its argument, so an empty URL gets a token, but that
token never resolves (`EmptyUrlUnreachable`).

The click-counter INCR in `redirect_url` is not guarded (shortly.py:67). A failed
INCR propagates, so `RedirectUrl` returns that store error and no target.

## Model

| member | source | states |
|---|---|---|
| Base62.Encode | utils.py:11-20 | the encoder's loop yields the standard base-62 representation of `number` (ToBase62), and that token, read positionally over the alphabet, is `number` again; zero gives "0" |
| Base62.SymbolAt | utils.py:4 | position d of the alphabet holds the symbol with digit value d: decimal digits, then a-z, then A-Z |
| Base62.SymbolValue | utils.py:4 | every digit value below 62 has a symbol in the alphabet whose value is that digit |
| Base62.DigitSymbol | utils.py:4 | every alphabet character is the symbol of its own digit value, so symbols and digit values are in one-to-one correspondence |
| Base62.AlphabetMembers | utils.py:4 | a character is in the alphabet exactly when it is one of the 62 digit characters |
| Base62.StepShape | utils.py:15-18 | proof step for Encode, the defining equation of ToBase62 split by cases: one loop step: the representation of n is that of n div 62 followed by the symbol of n mod 62, or just that symbol when n < 62 |
| Base62.StepValue | utils.py:15-18 | one loop step keeps the value invariant: prepending the digit of n mod 62 to the token moves n div 62 up one positional weight |
| Base62.DecodePrepend | utils.py:18 | prepending a symbol adds its digit value times 62^length to the positional value |
| Base62.AppendDigit | utils.py:15-18 | the representation of q*62+d is the representation of q with the symbol of d appended, or just that symbol when q is 0 |
| Base62.DecodeEncoding | utils.py:11-20 | round trip: every encoder output is over the alphabet and decodes back to the input |
| Base62.EncodingCanonical | utils.py:12-20 | every output is non-empty and over the alphabet, and for a positive input it does not start with '0' |
| Base62.EncodingInAlphabet | utils.py:18 | every symbol of every output is a member of BASE62 |
| Base62.EncodingZero | utils.py:12-13 | the output is "0" exactly when the input is 0 |
| Base62.EncodingInjective | utils.py:11-20 | distinct numbers get distinct tokens |
| Base62.CanonicalLowerBound | utils.py:15-18 | a canonical token not starting with '0' has value at least 62^(length-1), and so is positive |
| Base62.CanonicalIsEncoding | utils.py:11-20 | every canonical token is the encoder's output for its own value, so the encoder is onto the canonical tokens |
| Base62.EncodingLength | utils.py:15-18 | a k-symbol output for n > 0 satisfies 62^(k-1) <= n < 62^k |
| KeyValueStore.IncrReply | shortly.py:57 | INCR replies 1 on an absent key and the stored integer plus one otherwise, never above the signed 64-bit maximum; it is refused as not an integer exactly when the key holds a SET value, and refused as overflow exactly when the stored integer is already at the maximum |
| KeyValueStore.AfterIncr | shortly.py:57 | after INCR, the database is unchanged on failure; on success exactly the incremented key is added or overwritten, with the reply as its value |
| KeyValueStore.Store.constructor | shortly.py:16 | the model's initial store is empty; populated stores enter through Registry.Shortly.constructor, which accepts any consistent store |
| KeyValueStore.Store.Get | shortly.py:54 | GET returns the stored value exactly when the key is present, and nothing otherwise |
| KeyValueStore.Store.Set | shortly.py:59-60 | SET overwrites or creates exactly one key |
| KeyValueStore.Store.Incr | shortly.py:57 | INCR replies as IncrReply does and stores the new value only on success |
| Registry.Route | shortly.py:86-91 | a path goes to the static file server exactly when it starts with "/static", with the prefix stripped so that prefix plus new path is the old path; otherwise it goes to the application unchanged |
| Registry.Insert | shortly.py:53-61 | insert_url as a function: a failure is a store error with the database unchanged; on success the URL's reverse entry holds the returned token, whose forward entry holds the URL; for a new URL the counter advances by one and the token is its base-62 encoding; a URL already registered leaves the database unchanged |
| Registry.Allocate | shortly.py:57-60 | the new-URL writes: exactly the counter, the forward key and the reverse key are added or overwritten, with the counter at n, the forward entry holding the URL and the reverse entry holding the token; every other key keeps its value |
| Registry.Redirect | shortly.py:63-68 | redirect_url as a function: NotFound exactly when the target is absent or empty; any failure leaves the database unchanged, and the only other failure is counter overflow; on success the result is the target and the only change is the click counter set to one more than before, absent counting as 0 |
| Registry.Info | shortly.py:70-79 | url_info as a function: NotFound exactly when the target is absent or empty, and otherwise the non-empty target, the token, and the click count, absent counting as 0, within 0..2^63-1 |
| Registry.Shortly.constructor | shortly.py:15-16 | the application is bound to its store, which must satisfy the registry invariant |
| Registry.Shortly.InsertUrl | shortly.py:53-61 | insert_url returns the stored token for a URL already registered; otherwise it increments last-url-id, encodes the new value, and writes the forward mapping and then the reverse mapping; an INCR failure is returned and nothing is written; the registry invariant is kept |
| Registry.Shortly.RedirectUrl | shortly.py:63-68 | redirect_url gives NotFound for an absent or empty target and changes nothing; otherwise it counts one click and returns the target; a failed INCR is returned as an error; the registry invariant is kept |
| Registry.Shortly.UrlInfo | shortly.py:70-79 | url_info gives NotFound exactly when the target is absent or empty; otherwise it returns the target, the token and the click count, with an absent counter reported as 0; it writes nothing |
| Registry.KeyShapes | shortly.py:54-74 | every key starts with its shape's prefix, and the part after the prefix is the argument |
| Registry.KeysApart | shortly.py:54-74 | the four key shapes never collide across shapes, and each shape is injective in its argument |
| Registry.ReverseTruthy | shortly.py:54-56 | in a consistent database a reverse entry is a non-empty canonical token, so the de-duplication test succeeds whenever the entry exists |
| Registry.FreshToken | shortly.py:57-59 | the token of a counter value not yet reached has no forward entry, so insert_url never overwrites an issued token |
| Registry.ForwardIffAllocated | shortly.py:57-59 | in a consistent database a forward entry exists exactly for the canonical tokens whose value lies in 1..counter, i.e. exactly for the tokens insert_url has handed out |
| Registry.AllocateDense | shortly.py:57-59 | after allocating n, every value 1..n has its forward entry |
| Registry.InsertKeepsConsistent | shortly.py:53-61 | insert_url, on every path, keeps the registry invariant |
| Registry.AllocateCounter | shortly.py:57 | after allocating value n, the counter reads n and is within range |
| Registry.AllocateTargets | shortly.py:58-59 | after allocating n, every forward key is still a canonical token within 1..counter |
| Registry.AllocateReverses | shortly.py:59-60 | after allocating n, every reverse entry, old and new, points back through its forward entry |
| Registry.AllocateClicks | shortly.py:57-60 | after allocating n, every click counter is still an in-range integer of an issued token |
| Registry.RedirectKeepsConsistent | shortly.py:63-68 | redirect_url, on every path, keeps the registry invariant |
| RegistryProperties.EmptyStoreConsistent | shortly.py:16 | an empty database satisfies the registry invariant |
| RegistryProperties.InsertRepeat | shortly.py:54-56 | a URL already registered gets its stored token back, and the database is left exactly as it was |
| RegistryProperties.InsertNew | shortly.py:57-61 | a new URL advances the counter by one; the result is the base-62 encoding of the new value, whose forward key was unused; exactly three keys are written and every other key is unchanged |
| RegistryProperties.InsertCounterExhausted | shortly.py:57 | with last-url-id at the signed 64-bit maximum, a new URL is refused with an overflow error and the database is unchanged |
| RegistryProperties.InsertRegisters | shortly.py:53-61 | after a successful insert, the URL and its token map to each other |
| RegistryProperties.InsertIdempotent | shortly.py:53-61 | inserting the same URL twice returns the same token, the second insert changes nothing, and the counter advances at most once |
| RegistryProperties.TargetsUnchanged | shortly.py:53-68 | neither insert_url nor redirect_url changes a forward entry once it exists |
| RegistryProperties.DistinctUrlsDistinctTokens | shortly.py:53-61 | two different URLs inserted in turn get different tokens |
| RegistryProperties.UnknownToken | shortly.py:63-73 | a token with no forward entry is NotFound for both redirect_url and url_info, and the database is unchanged |
| RegistryProperties.RedirectKnown | shortly.py:63-68 | a resolvable token redirects to its target, and its click count rises by exactly one, with absent counting as 0; no other key changes |
| RegistryProperties.RedirectSeenByInfo | shortly.py:63-79 | after a successful redirect, url_info reports the same target and a click count one higher |
| RegistryProperties.InsertThenResolve | shortly.py:53-79 | the token returned for a non-empty URL resolves to that URL in url_info; redirect_url never reports NotFound for it and, when it succeeds, returns that URL |
| RegistryProperties.NewTokenClicks | shortly.py:57-79 | a newly shortened URL shows 0 clicks in url_info; one redirect reaches the URL, and url_info then shows 1 |
| RegistryProperties.NewTokenUnclicked | shortly.py:57-60 | the token of a new URL has a forward entry holding the URL and no click counter yet |
| RegistryProperties.EmptyUrlUnreachable | shortly.py:53-79 | an empty URL is given a token, but that token is NotFound for redirect_url and url_info because the empty target is falsy |
| RegistryProperties.SessionTokens | utils.py:11-20 | proof step for the session lemmas: the counter values 1 and 2 encode as "1" and "2" |
| RegistryProperties.SessionFirstUrl | shortly.py:53-61 | from an empty database, the first URL gets token "1" and the counter reads 1; submitting the URL again changes nothing |
| RegistryProperties.SessionSecondUrl | shortly.py:53-61 | in the database the first insert leaves, a second, different URL gets token "2" and the counter reads 2; the first token's forward entry is untouched and exactly five keys exist |
| RegistryProperties.SessionKeys | shortly.py:57-67 | proof step for SessionRedirects, key-membership facts only: in that session's database, token "1" has no click counter, and token "9" has no forward entry, even after a click on "1" |
| RegistryProperties.SessionSecondFresh | shortly.py:54-60 | proof step for SessionSecondUrl, key facts only: after the first insert the second URL has no reverse entry, and token "1"'s forward key is none of the keys the second insert writes |
| RegistryProperties.SessionRedirects | shortly.py:63-79 | in that database, following "1" reaches the first URL and url_info then reports 1 click; following "9" is NotFound and changes nothing |
| RegistryProperties.Session | shortly.py:53-79 | the whole session: tokens "1" and "2", de-duplication on a repeat, one counted click on "1" seen by url_info, and NotFound for "9" |

## Left out

- `add_url`, `is_valid_url`, `render_template`, `dispatch_request`, `wsgi_app` and the werkzeug routing map: form handling, URL-scheme checking (via `urlparse`), HTML templates and HTTP dispatch are web-framework plumbing around the registry, not part of this model.
- The static-file server (WhiteNoise) behind `__call__`: only the path split in `Route` is modelled.
- The `__main__` block, the configuration and the Redis connection (host, port, timeouts, connection failures): the store is modelled as an in-memory map. The only store errors modelled are INCR's two refusals, on a value that is not an integer and on overflow.
- Bytes versus text: redis-py returns `bytes` from GET, so the Python `insert_url` returns `bytes` on a repeat but `str` for a new URL, and `redirect_url` redirects to a `bytes` target. The model uses one string type throughout.
- KeyValueStore.Value: values are typed. Redis stores every value as a string, and INCR accepts any string that spells a decimal integer, so after `SET k "5"`, `INCR k` gives 6. The model never reads a value written by SET as an integer. This does not affect the registry, which never INCRs a key it SETs (Registry.KeysApart).
- Concurrency: each registry call is modelled as atomic. The race in which two simultaneous inserts of the same URL both miss the reverse lookup and allocate two tokens is not modelled.
- Base62.Encode: takes a `nat`. In Python `base62_encoder` never terminates on a negative number, because floor division keeps it at -1. The registry only passes INCR replies, which are at least 1.
- Registry.Shortly.constructor: requires the store to be consistent, rather than building the Redis client itself. An empty store is consistent (`EmptyStoreConsistent`).
- The BASE62 string is written as three concatenated pieces (digits, lower case, upper case). They spell the same 62 characters in the same order.
