/**
  The `/contests` handler of coding-contest-backend/server.js: it answers
  from the cache while the stored list is live, and otherwise runs the three
  adapters, merges their lists, stores the merged list under "allContests"
  and answers with it. The clock reading and what each request produced are
  parameters.
*/
module Route {
  import opened Wrappers
  import opened JsDate
  import opened Server
  import opened Cache

  /** The cache key the handler uses. */
  const CacheKey := "allContests"

  /** The standard TTL the server's cache is created with, in seconds. */
  const StdTtl := 600

  /** The AtCoder adapter's result, as a function of what its request produced. */
  function AtCoderList(page: Result<seq<Row>, string>, now: int, parse: EngineParse): seq<Contest> {
    match page
    case Success(rows) => SortByStartDate(AtCoderSpec(rows, now, parse), parse)
    case Failure(_) => []
  }

  /** What a request that misses the cache computes: the three lists, merged. */
  function Fresh(
    codeforces: Result<seq<CodeforcesEntry>, string>, codechef: Result<seq<CodeChefEntry>, string>,
    atcoder: Result<seq<Row>, string>, now: int, parse: EngineParse): seq<Contest>
  {
    Merge(CodeforcesContests(codeforces), CodeChefContests(codechef, parse), AtCoderList(atcoder, now, parse), parse)
  }

  /**
    GET /contests. On a hit the cached list is the answer and nothing is
    fetched (an empty array is truthy, so an empty cached list is a hit too).
    On a miss the handler fetches, merges, stores the list with the standard
    TTL and answers with it. Every adapter turns its own failure into an empty
    list, so the 500 answer cannot occur. `now` is the clock when the request
    arrives, read by `get`; `setNow` is the clock once the fetches are done,
    which `set` reads to stamp the expiry.
  */
  method HandleContests(
    cache: NodeCache<seq<Contest>>, now: int, setNow: int,
    codeforces: Result<seq<CodeforcesEntry>, string>, codechef: Result<seq<CodeChefEntry>, string>,
    atcoder: Result<seq<Row>, string>, parse: EngineParse)
    returns (body: seq<Contest>, fetched: bool)
    requires now <= setNow
    modifies cache
    ensures Lookup(old(cache.entries), CacheKey, now).Some? ==>
      && !fetched
      && body == Lookup(old(cache.entries), CacheKey, now).value
      && cache.entries == old(cache.entries)
    ensures Lookup(old(cache.entries), CacheKey, now).None? ==>
      && fetched
      && body == Fresh(codeforces, codechef, atcoder, now, parse)
      && cache.entries == old(cache.entries)[CacheKey := Entry(body, Expiry(setNow, cache.stdTtl))]
  {
    var cached := cache.Get(CacheKey, now);
    if cached.Some? {
      return cached.value, false;
    }
    var cf := CodeforcesContests(codeforces);
    var cc := CodeChefContests(codechef, parse);
    var ac := AtCoderContests(atcoder, now, parse);
    var all := Merge(cf, cc, ac, parse);
    cache.Set(CacheKey, all, setNow);
    body, fetched := all, true;
  }

  /**
    Two requests to a server whose cache has the standard TTL, the second
    arriving after the first has stored its list: when the first one fetched,
    every request up to ten minutes after that store, the last millisecond
    included, gets the same list without fetching, and any later one fetches.
    The window starts when the fetches finish, not when the first request
    arrived.
  */
  method TwoRequests(
    cache: NodeCache<seq<Contest>>, first: int, setFirst: int, second: int, setSecond: int,
    codeforces: Result<seq<CodeforcesEntry>, string>, codechef: Result<seq<CodeChefEntry>, string>,
    atcoder: Result<seq<Row>, string>, parse: EngineParse)
    returns (body1: seq<Contest>, fetched1: bool, body2: seq<Contest>, fetched2: bool)
    requires cache.stdTtl == StdTtl && 0 <= first <= setFirst <= second <= setSecond
    modifies cache
    ensures fetched1 && second <= setFirst + 600000 ==> body2 == body1 && !fetched2
    ensures fetched1 && second > setFirst + 600000 ==> fetched2
  {
    body1, fetched1 := HandleContests(cache, first, setFirst, codeforces, codechef, atcoder, parse);
    ghost var stored := cache.entries;
    body2, fetched2 := HandleContests(cache, second, setSecond, codeforces, codechef, atcoder, parse);
    if fetched1 {
      assert stored[CacheKey] == Entry(body1, setFirst + 600000);
    }
  }
}
