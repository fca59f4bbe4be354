/** The analysis cache (src/lib/llmcache.js): one JSON file per item key
    holding `{timestamp, data, prompt, provider}`, read back only while it is
    at most 24 hours old.

    The cache directory is a map from item key to what the key's file holds;
    the clock (`Date.now()`) and the outcome of the write are parameters. */
module LlmCache {
  import opened Js

  /** 24 hours in milliseconds. */
  const Day: int := 24 * 60 * 60 * 1000

  /** The provider stored when the caller passes none. */
  const DefaultProvider: string := "perplexity"

  /** A cache entry as stored. `timestamp` is what `Date.now() - cached.timestamp`
      sees: a file edited to lack a numeric timestamp gives NaN. */
  datatype Entry<D> = Entry(timestamp: Number, data: D, prompt: string, provider: string)

  /** A key's file: content that `JSON.parse` rejects (an empty file, or the
      partial text a failed write leaves), or that parses to null so that
      reading `.timestamp` throws, is `Unreadable`. */
  datatype File<D> = Unreadable | Parsed(entry: Entry<D>)

  type Store<D> = map<string, File<D>>

  /** `Date.now() - cached.timestamp > 24 * 60 * 60 * 1000`. A comparison with
      NaN is false, so an entry without a numeric timestamp never expires. */
  predicate Expired<D>(e: Entry<D>, now: int) {
    e.timestamp.Finite? && now - e.timestamp.n > Day
  }

  /** `getCachedAnalysis(itemKey)` at time `now`: the stored entry, unchanged,
      or `None` (null) when the file is missing, unreadable or expired. Every
      failure is caught, so the lookup never throws. */
  function Get<D>(store: Store<D>, key: string, now: int): (r: Option<Entry<D>>)
    ensures r.Some? <==> key in store && store[key].Parsed? && !Expired(store[key].entry, now)
    ensures r.Some? ==> r.value == store[key].entry
  {
    if key !in store then None
    else match store[key]
      case Unreadable => None
      case Parsed(e) => if Expired(e, now) then None else Some(e)
  }

  /** The entry `cacheAnalysis` writes at time `now`; an omitted provider
      defaults to "perplexity". */
  function NewEntry<D>(data: D, prompt: string, provider: Option<string>, now: int): (e: Entry<D>)
    ensures e.timestamp == Finite(now) && e.data == data && e.prompt == prompt
    ensures e.provider == if provider.Some? then provider.value else DefaultProvider
  {
    Entry(Finite(now), data, prompt, if provider.Some? then provider.value else DefaultProvider)
  }

  /** How the write of `cacheAnalysis` ended. `Untouched`: creating the
      directory or opening the file failed, so nothing was written. `Truncated`:
      `fs.writeFile` opened the file, which empties it, and then failed, leaving
      an empty or partial file; a strict prefix of the serialised entry is not
      valid JSON. Either failure is caught and logged. */
  datatype Outcome = Written | Untouched | Truncated

  /** `cacheAnalysis(itemKey, analysis, prompt, provider)` at time `now`, whose
      write ends as `outcome`. A successful write replaces the key's whole
      file; a failed one changes at most the key's own file. */
  function Put<D>(store: Store<D>, key: string, data: D, prompt: string, provider: Option<string>,
                  now: int, outcome: Outcome): (store': Store<D>)
    ensures outcome == Written ==> key in store' && store'[key] == Parsed(NewEntry(data, prompt, provider, now))
    ensures outcome == Untouched ==> store' == store
    ensures outcome == Truncated ==> key in store' && store'[key] == Unreadable
    ensures forall k :: k != key ==> (k in store' <==> k in store)
    ensures forall k :: k != key && k in store ==> store'[k] == store[k]
  {
    match outcome
    case Written => store[key := Parsed(NewEntry(data, prompt, provider, now))]
    case Untouched => store
    case Truncated => store[key := Unreadable]
  }

  /** A successful write read back at most 24 hours later returns exactly the
      entry written. */
  lemma PutThenGet<D>(store: Store<D>, key: string, data: D, prompt: string, provider: Option<string>,
                      now: int, later: int)
    requires later - now <= Day
    ensures Get(Put(store, key, data, prompt, provider, now, Written), key, later)
            == Some(Entry(Finite(now), data, prompt, if provider.Some? then provider.value else DefaultProvider))
  {
  }

  /** ... and more than 24 hours later returns null. */
  lemma PutThenGetExpired<D>(store: Store<D>, key: string, data: D, prompt: string, provider: Option<string>,
                             now: int, later: int)
    requires later - now > Day
    ensures Get(Put(store, key, data, prompt, provider, now, Written), key, later) == None
  {
  }

  /** Writing one key changes no lookup of another key. */
  lemma PutKeepsOtherKeys<D>(store: Store<D>, key: string, data: D, prompt: string, provider: Option<string>,
                             now: int, outcome: Outcome, other: string, at: int)
    requires other != key
    ensures Get(Put(store, key, data, prompt, provider, now, outcome), other, at) == Get(store, other, at)
  {
  }

  /** A write that fails after opening the file loses the key's entry: every
      later lookup of the key is null, however fresh the old entry was. */
  lemma TruncatedWriteLosesEntry<D>(store: Store<D>, key: string, data: D, prompt: string, provider: Option<string>,
                                    now: int, later: int)
    ensures Get(Put(store, key, data, prompt, provider, now, Truncated), key, later) == None
  {
  }

  /** Whatever the outcome of a write, a later lookup of the key gives null,
      the entry just written, or what the lookup gave before the write: a
      write never brings back any other entry. */
  lemma PutLookupOutcomes<D>(store: Store<D>, key: string, data: D, prompt: string, provider: Option<string>,
                             now: int, outcome: Outcome, later: int)
    ensures var r := Get(Put(store, key, data, prompt, provider, now, outcome), key, later);
            r.None? || r == Get(store, key, later) || r == Some(NewEntry(data, prompt, provider, now))
  {
  }

  /** The later of two writes to a key wins: nothing of the earlier entry
      survives. */
  lemma PutOverwrites<D>(store: Store<D>, key: string,
                         data1: D, prompt1: string, provider1: Option<string>, now1: int,
                         data2: D, prompt2: string, provider2: Option<string>, now2: int)
    ensures Put(Put(store, key, data1, prompt1, provider1, now1, Written), key, data2, prompt2, provider2, now2, Written)
            == Put(store, key, data2, prompt2, provider2, now2, Written)
  {
  }

  /** An entry exactly 24 hours old, or stamped in the future, is still
      returned: expiry is strict. */
  lemma ExpiryIsStrict<D>(store: Store<D>, key: string, now: int)
    requires key in store && store[key].Parsed? && store[key].entry.timestamp.Finite?
    requires now - store[key].entry.timestamp.n <= Day
    ensures Get(store, key, now) == Some(store[key].entry)
  {
  }

  /** Once an entry has expired it stays expired as the clock moves on. */
  lemma ExpiryIsMonotone<D>(store: Store<D>, key: string, now: int, later: int)
    requires now <= later && Get(store, key, now).None?
    ensures Get(store, key, later).None?
  {
  }

  /** A file whose timestamp is not a number is returned however late it is
      read. */
  lemma NaNTimestampNeverExpires<D>(store: Store<D>, key: string, now: int)
    requires key in store && store[key].Parsed? && store[key].entry.timestamp.NaN?
    ensures Get(store, key, now) == Some(store[key].entry)
  {
  }
}
