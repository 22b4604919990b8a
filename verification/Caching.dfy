/** The bounded embedding cache and the memo wrapper around the embedder. */
module Caching {
  import opened Text

  datatype Vector = Vector(values: seq<real>)

  /** The hash of a text, by which it is cached. */
  datatype Key = Digest(hex: string)

  /** What is stored under a key: a vector, or None, which Python's get does not tell from a miss. */
  type Entry = Option<Vector>

  /** What counts as a use of a key: a get that hits, or a put. */
  datatype Use = Hits(key: Key) | Stores(key: Key, value: Entry)

  function Without(keys: seq<Key>, key: Key): seq<Key> {
    if keys == [] then []
    else if keys[0] == key then Without(keys[1..], key)
    else [keys[0]] + Without(keys[1..], key)
  }

  /** key becomes the most recent of keys. */
  function Touch(keys: seq<Key>, key: Key): seq<Key> {
    [key] + Without(keys, key)
  }

  /** All keys ever used, the most recently used first. */
  function Recency(history: seq<Use>): seq<Key> {
    if history == [] then []
    else Touch(Recency(history[..|history| - 1]), history[|history| - 1].key)
  }

  /** The value last put under key. */
  function LastPut(history: seq<Use>, key: Key): Option<Entry> {
    if history == [] then None
    else
      var last := history[|history| - 1];
      if last.Stores? && last.key == key then Some(last.value) else LastPut(history[..|history| - 1], key)
  }

  lemma {:induction false} WithoutSplits(a: seq<Key>, b: seq<Key>, key: Key)
    ensures Without(a + b, key) == Without(a, key) + Without(b, key)
  {
    if a == [] {
      assert a + b == b;
    } else {
      assert (a + b)[1..] == a[1..] + b;
      WithoutSplits(a[1..], b, key);
    }
  }

  lemma {:induction false} WithoutMembers(keys: seq<Key>, key: Key, k: Key)
    ensures k in Without(keys, key) <==> k in keys && k != key
  {
    if keys != [] {
      WithoutMembers(keys[1..], key, k);
      assert keys == [keys[0]] + keys[1..];
    }
  }

  /** Every key of the list was used before time. */
  ghost predicate AllBefore(keys: seq<Key>, times: map<Key, int>, time: int) {
    forall k :: k in keys ==> k in times && times[k] < time
  }

  /** Every key was used, each later than those after it. */
  ghost predicate LatestFirst(keys: seq<Key>, times: map<Key, int>) {
    keys == [] || (keys[0] in times && AllBefore(keys[1..], times, times[keys[0]]) && LatestFirst(keys[1..], times))
  }

  lemma {:induction false} WithoutLatestFirst(keys: seq<Key>, key: Key, times: map<Key, int>, now: int)
    requires LatestFirst(keys, times)
    ensures LatestFirst(Without(keys, key), times[key := now])
  {
    if keys != [] {
      WithoutLatestFirst(keys[1..], key, times, now);
      forall k | k in Without(keys[1..], key) ensures k in keys[1..] && k != key { WithoutMembers(keys[1..], key, k); }
    }
  }

  /** A key that is used becomes the one used last. */
  lemma TouchLatestFirst(keys: seq<Key>, key: Key, times: map<Key, int>, now: int)
    requires LatestFirst(keys, times) && AllBefore(keys, times, now)
    ensures LatestFirst(Touch(keys, key), times[key := now])
  {
    WithoutLatestFirst(keys, key, times, now);
    forall k | k in Without(keys, key) ensures k in keys && k != key { WithoutMembers(keys, key, k); }
  }

  lemma TouchMembers(keys: seq<Key>, key: Key, k: Key)
    ensures k in Touch(keys, key) <==> k in keys || k == key
  {
    WithoutMembers(keys, key, k);
  }

  /** There are as many different keys as entries in the list. */
  lemma {:induction false} CountKeys(keys: seq<Key>, times: map<Key, int>, s: set<Key>)
    requires LatestFirst(keys, times) && forall k :: k in s <==> k in keys
    ensures |s| == |keys|
  {
    if keys == [] {
      assert s == {};
    } else {
      assert keys == [keys[0]] + keys[1..] && keys[0] in keys;
      CountKeys(keys[1..], times, s - {keys[0]});
    }
  }

  /** Dropping the key at the end, the one used longest ago, keeps the order. */
  lemma {:induction false} DropOldest(keys: seq<Key>, times: map<Key, int>, oldest: Key)
    requires keys != [] && LatestFirst(keys, times)
    requires oldest in keys && forall k :: k in keys ==> times[oldest] <= times[k]
    ensures oldest == keys[|keys| - 1] && LatestFirst(keys[..|keys| - 1], times - {oldest})
    ensures forall k :: k in keys[..|keys| - 1] <==> k in keys && k != oldest
  {
    assert keys == [keys[0]] + keys[1..];
    if |keys| > 1 {
      var tail := keys[1..];
      assert tail[0] in tail;
      DropOldest(tail, times, oldest);
      assert keys[..|keys| - 1] == [keys[0]] + tail[..|tail| - 1];
      assert keys[..|keys| - 1][1..] == tail[..|tail| - 1];
    }
  }

  lemma {:induction false} OldestExists(keys: seq<Key>, times: map<Key, int>)
    requires keys != [] && LatestFirst(keys, times)
    ensures var k := keys[|keys| - 1]; k in times && forall l :: l in keys ==> l in times && times[k] <= times[l]
  {
    if |keys| > 1 {
      var tail := keys[1..];
      OldestExists(tail, times);
      assert tail[|tail| - 1] == keys[|keys| - 1] && keys[|keys| - 1] in tail;
      assert keys == [keys[0]] + tail;
    }
  }

  /** Using a key keeps the cached keys the most recently used ones. */
  lemma TouchPrefix(history: seq<Use>, recent: seq<Key>, use: Use)
    requires recent <= Recency(history)
    ensures Touch(recent, use.key) <= Recency(history + [use])
  {
    var older := Recency(history)[|recent|..];
    assert Recency(history) == recent + older && (history + [use])[..|history|] == history;
    WithoutSplits(recent, older, use.key);
  }

  /** recent lists the keys of a dictionary. */
  ghost predicate Lists(recent: seq<Key>, keys: set<Key>) {
    forall k :: k in keys <==> k in recent
  }

  /** recent lists the cached keys: they are the most recently used of all, in order, and each has the value
      last put under it. */
  ghost predicate Holds(cache: map<Key, Entry>, times: map<Key, int>, maxSize: int,
                        history: seq<Use>, recent: seq<Key>)
  {
    && Lists(recent, cache.Keys) && Lists(recent, times.Keys)
    && |recent| <= (if maxSize > 0 then maxSize else 0)
    && recent <= Recency(history)
    && LatestFirst(recent, times)
    && Current(cache, history)
  }

  /** now is later than every recorded access. */
  ghost predicate Later(times: map<Key, int>, now: int) {
    forall k :: k in times ==> times[k] < now
  }

  lemma RecordHolds(cache: map<Key, Entry>, times: map<Key, int>, maxSize: int, history: seq<Use>,
                    recent: seq<Key>, use: Use, value: Entry, now: int)
    requires Holds(cache, times, maxSize, history, recent) && Later(times, now)
    requires use.key in recent || |recent| < maxSize
    requires match use case Hits(key) => key in cache && value == cache[key] case Stores(_, v) => value == v
    ensures Holds(cache[use.key := value], times[use.key := now], maxSize, history + [use], Touch(recent, use.key))
  {
    var recent' := Touch(recent, use.key);
    TouchPrefix(history, recent, use);
    TouchLatestFirst(recent, use.key, times, now);
    LastPutStep(cache, history, use, value);
    TouchLists(recent, cache.Keys, use.key);
    TouchLists(recent, times.Keys, use.key);
    assert cache[use.key := value].Keys == cache.Keys + {use.key};
    assert times[use.key := now].Keys == times.Keys + {use.key};
    CountKeys(recent, times, times.Keys);
    CountKeys(recent', times[use.key := now], times.Keys + {use.key});
  }

  lemma TouchLists(recent: seq<Key>, keys: set<Key>, key: Key)
    requires Lists(recent, keys)
    ensures Lists(Touch(recent, key), keys + {key})
  {
    forall k ensures k in keys + {key} <==> k in Touch(recent, key) { TouchMembers(recent, key, k); }
  }

  /** A get that hits. */
  lemma HitHolds(cache: map<Key, Entry>, times: map<Key, int>, maxSize: int, history: seq<Use>,
                 recent: seq<Key>, key: Key, now: int)
    requires Holds(cache, times, maxSize, history, recent) && Later(times, now) && key in cache
    ensures Holds(cache, times[key := now], maxSize, history + [Hits(key)], Touch(recent, key))
    ensures LastPut(history, key) == Some(cache[key])
  {
    RecordHolds(cache, times, maxSize, history, recent, Hits(key), cache[key], now);
    assert cache[key := cache[key]] == cache;
  }

  lemma CachedIsRecent(cache: map<Key, Entry>, times: map<Key, int>, maxSize: int, history: seq<Use>,
                       recent: seq<Key>, key: Key)
    requires Holds(cache, times, maxSize, history, recent)
    ensures key in cache <==> key in recent
  {
    assert key in cache <==> key in cache.Keys;
  }

  lemma CountsAgree(cache: map<Key, Entry>, times: map<Key, int>, maxSize: int, history: seq<Use>,
                    recent: seq<Key>)
    requires Holds(cache, times, maxSize, history, recent)
    ensures |cache| == |recent| == |times|
  {
    CountKeys(recent, times, cache.Keys);
    CountKeys(recent, times, times.Keys);
  }

  /** Some recorded access is the oldest. */
  lemma OldestAccess(cache: map<Key, Entry>, times: map<Key, int>, maxSize: int, history: seq<Use>,
                     recent: seq<Key>)
    requires Holds(cache, times, maxSize, history, recent) && |cache| > 0
    ensures exists k :: IsOldest(times, k)
  {
    CountKeys(recent, times, cache.Keys);
    OldestExists(recent, times);
    assert IsOldest(times, recent[|recent| - 1]);
  }

  predicate IsOldest(times: map<Key, int>, oldest: Key) {
    oldest in times && forall k :: k in times ==> times[oldest] <= times[k]
  }

  lemma EvictHolds(cache: map<Key, Entry>, times: map<Key, int>, maxSize: int, history: seq<Use>,
                   recent: seq<Key>, oldest: Key)
    requires Holds(cache, times, maxSize, history, recent) && IsOldest(times, oldest)
    ensures recent != []
    ensures Holds(cache - {oldest}, times - {oldest}, maxSize, history, recent[..|recent| - 1])
  {
    DropOldest(recent, times, oldest);
    assert (cache - {oldest}).Keys == cache.Keys - {oldest} && (times - {oldest}).Keys == times.Keys - {oldest};
  }

  class EmbeddingCache {
    var cache: map<Key, Entry>
    var accessTimes: map<Key, int>
    const maxSize: int
    const hash: string -> Key
    ghost var history: seq<Use>
    ghost var recent: seq<Key>

    ghost predicate Valid()
      reads this
    {
      Holds(cache, accessTimes, maxSize, history, recent)
    }

    constructor (maxSize: int, hash: string -> Key)
      ensures Valid() && history == [] && recent == [] && this.maxSize == maxSize && this.hash == hash
    {
      this.maxSize, this.hash := maxSize, hash;
      cache, accessTimes, history, recent := map[], map[], [], [];
    }

    /** A hit is a use; a miss changes nothing. */
    method Get(text: string, now: int) returns (found: Option<Vector>)
      requires Valid() && Later(accessTimes, now)
      modifies this
      ensures Valid()
      ensures hash(text) in old(recent) ==> LastPut(old(history), hash(text)) == Some(found)
      ensures hash(text) !in old(recent) ==> found == None
      ensures Later(accessTimes, now + 1)
      ensures hash(text) in old(recent) ==> (
                && history == old(history) + [Hits(hash(text))] && recent == Touch(old(recent), hash(text)))
      ensures hash(text) !in old(recent) ==> (
                && history == old(history) && recent == old(recent) && accessTimes == old(accessTimes))
    {
      var key := hash(text);
      CachedIsRecent(cache, accessTimes, maxSize, history, recent, key);
      if key in cache {
        HitHolds(cache, accessTimes, maxSize, history, recent, key, now);
        accessTimes := accessTimes[key := now];
        found := cache[key];
        history := history + [Hits(key)];
        recent := Touch(recent, key);
      } else {
        found := None;
      }
    }

    /** The least recently used key goes. */
    method EvictOldest(ghost now: int)
      requires Valid() && Later(accessTimes, now) && |cache| > 0
      modifies this`cache, this`accessTimes, this`recent
      ensures Valid() && Later(accessTimes, now)
      ensures old(recent) != [] && recent == old(recent)[..|old(recent)| - 1]
    {
      OldestAccess(cache, accessTimes, maxSize, history, recent);
      var oldest :| IsOldest(accessTimes, oldest);
      EvictHolds(cache, accessTimes, maxSize, history, recent, oldest);
      cache, accessTimes := cache - {oldest}, accessTimes - {oldest};
      recent := recent[..|recent| - 1];
    }

    method Store(key: Key, embedding: Entry, now: int)
      requires Valid() && Later(accessTimes, now) && |recent| < maxSize
      modifies this
      ensures Valid() && Later(accessTimes, now + 1)
      ensures history == old(history) + [Stores(key, embedding)] && recent == Touch(old(recent), key)
    {
      RecordHolds(cache, accessTimes, maxSize, history, recent, Stores(key, embedding), embedding, now);
      cache := cache[key := embedding];
      accessTimes := accessTimes[key := now];
      history := history + [Stores(key, embedding)];
      recent := Touch(recent, key);
    }

    /** At capacity a key is evicted first, even when text itself is cached. With no capacity at all there is
        nothing to evict, and the search for the oldest key raises. */
    method Put(text: string, embedding: Entry, now: int) returns (raised: bool)
      requires Valid() && Later(accessTimes, now)
      modifies this
      ensures Valid() && (raised <==> maxSize <= 0)
      ensures !raised ==> history == old(history) + [Stores(hash(text), embedding)]
      ensures !raised ==>
                recent == Touch(if |old(recent)| >= maxSize then old(recent)[..|old(recent)| - 1] else old(recent),
                                hash(text))
      ensures raised ==> history == old(history) && recent == old(recent)
      ensures Later(accessTimes, now + 1)
    {
      var key := hash(text);
      CountsAgree(cache, accessTimes, maxSize, history, recent);
      if |cache| >= maxSize {
        if |cache| == 0 {
          return true;
        }
        EvictOldest(now);
      }
      Store(key, embedding, now);
      raised := false;
    }
  }

  /** Every cached value is the one last put under its key. */
  ghost predicate Current(cache: map<Key, Entry>, history: seq<Use>) {
    forall k :: k in cache ==> LastPut(history, k) == Some(cache[k])
  }

  lemma LastPutStep(cache: map<Key, Entry>, history: seq<Use>, use: Use, value: Entry)
    requires Current(cache, history)
    requires match use case Hits(key) => key in cache && value == cache[key] case Stores(_, v) => value == v
    ensures Current(cache[use.key := value], history + [use])
  {
    assert (history + [use])[..|history|] == history;
  }

  /** What a call to the provider comes to: an exception, or what it returns, which is None when it makes no
      attempt at all. */
  datatype Given = Raises | Returns(value: Entry)

  /** Every value put is the one the provider gives for every text of that hash. */
  ghost predicate Faithful(history: seq<Use>, hash: string -> Key, provider: string -> Given) {
    forall i, text :: 0 <= i < |history| && history[i].Stores? && history[i].key == hash(text) ==>
      provider(text) == Returns(history[i].value)
  }

  ghost predicate Injective(hash: string -> Key) {
    forall a, b :: hash(a) == hash(b) ==> a == b
  }

  /** Then whatever is cached is what the provider would give, after any interleaving of gets and puts. */
  lemma {:induction false} CachedAsProvided(
    history: seq<Use>, hash: string -> Key, provider: string -> Given, text: string)
    requires Faithful(history, hash, provider)
    ensures LastPut(history, hash(text)).Some? ==> provider(text) == Returns(LastPut(history, hash(text)).value)
  {
    if history != [] {
      var init, last := history[..|history| - 1], history[|history| - 1];
      assert Faithful(init, hash, provider) by { assert forall i :: 0 <= i < |init| ==> init[i] == history[i]; }
      CachedAsProvided(init, hash, provider, text);
      assert history[|history| - 1] == last;
    }
  }

  lemma FaithfulStep(history: seq<Use>, use: Use, hash: string -> Key, provider: string -> Given, text: string)
    requires Injective(hash) && Faithful(history, hash, provider)
    requires use.Hits? || (use.key == hash(text) && provider(text) == Returns(use.value))
    ensures Faithful(history + [use], hash, provider)
  {
  }

  /** What every step of the memo wrapper relies on and keeps, so that the steps of different calls may come in
      any order. */
  ghost predicate Keeps(memo: EmbeddingCache, provider: string -> Given)
    reads memo
  {
    memo.Valid() && Injective(memo.hash) && Faithful(memo.history, memo.hash, provider)
  }

  /** The memo wrapper up to its call of the provider: a cached vector is what the provider would return. */
  method CachedGet(memo: EmbeddingCache, ghost provider: string -> Given, text: string, now: int)
    returns (cached: Option<Vector>)
    requires Keeps(memo, provider) && Later(memo.accessTimes, now)
    modifies memo
    ensures Keeps(memo, provider) && Later(memo.accessTimes, now + 1)
    ensures cached.Some? ==> provider(text) == Returns(cached) && memo.maxSize > 0
  {
    CachedAsProvided(memo.history, memo.hash, provider, text);
    FaithfulStep(memo.history, Hits(memo.hash(text)), memo.hash, provider, text);
    cached := memo.Get(text, now);
  }

  /** And after it, other calls having run meanwhile: what the provider returned, None included, is put, which
      raises only for a cache without room for anything. */
  method CachedPut(memo: EmbeddingCache, ghost provider: string -> Given, text: string, given: Given, now: int)
    returns (result: Given)
    requires Keeps(memo, provider) && Later(memo.accessTimes, now) && given == provider(text)
    modifies memo
    ensures Keeps(memo, provider) && Later(memo.accessTimes, now + 1)
    ensures result == if memo.maxSize > 0 then given else Raises
    ensures result.Returns? ==> memo.recent != [] && memo.recent[0] == memo.hash(text)
  {
    match given {
      case Raises => return Raises;
      case Returns(embedding) =>
        FaithfulStep(memo.history, Stores(memo.hash(text), embedding), memo.hash, provider, text);
        var raised := memo.Put(text, embedding, now);
        return if raised then Raises else given;
    }
  }

  /** A call with no other between: with a deterministic provider it gives what the provider gives. */
  method CachedGenerate(memo: EmbeddingCache, provider: string -> Given, text: string, now: int, later: int)
    returns (result: Given)
    requires Keeps(memo, provider) && Later(memo.accessTimes, now) && now < later
    modifies memo
    ensures Keeps(memo, provider)
    ensures result == if memo.maxSize > 0 then provider(text) else Raises
  {
    var cached := CachedGet(memo, provider, text, now);
    if cached.Some? { return Returns(cached); }
    result := CachedPut(memo, provider, text, provider(text), later);
  }
}
