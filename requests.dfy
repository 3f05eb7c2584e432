/** The sequential start of `make_request`: the client lookup of
    `get_or_build_client`, then the method check. */
module Requests {
  import opened Results
  import opened Timeouts
  import opened ClientCaching
  import opened Methods

  /** The fields of `RequestOptions` that the modelled steps read. The
      emulation is given by its label, the result of `emulation_label`. */
  datatype RequestOptions = RequestOptions(
    emulation: string,
    verb: string,
    proxy: Option<string>,
    timeout: u64)

  /** The cache key `get_or_build_client` derives from the options. */
  function KeyFor(options: RequestOptions): (key: ClientKey)
    requires NoBucketOverflow(options.timeout)
    ensures key.emulation == options.emulation && key.proxy == options.proxy
    ensures key.timeoutBucket >= options.timeout && key.timeoutBucket as int % BucketMs as int == 0
  {
    ClientKey(options.emulation, options.proxy, BucketTimeout(options.timeout))
  }

  /** Requests that differ only in timeouts of the same bucket share a key,
      and so share a cached client; all timeouts up to one bucket width do. */
  lemma ShortTimeoutsShareKey(o1: RequestOptions, o2: RequestOptions)
    requires o1.emulation == o2.emulation && o1.proxy == o2.proxy
    requires o1.timeout <= BucketMs && o2.timeout <= BucketMs
    ensures KeyFor(o1) == KeyFor(o2)
  {
    ShortTimeoutsShareFirstBucket(o1.timeout);
    ShortTimeoutsShareFirstBucket(o2.timeout);
  }

  /** Two requests share a cached client exactly when they agree on the
      emulation label and the proxy and their timeouts round to one bucket. */
  lemma SameKeyIff(o1: RequestOptions, o2: RequestOptions)
    requires NoBucketOverflow(o1.timeout) && NoBucketOverflow(o2.timeout)
    requires o1.timeout >= 1 && o2.timeout >= 1
    ensures KeyFor(o1) == KeyFor(o2) <==>
      o1.emulation == o2.emulation && o1.proxy == o2.proxy &&
      (o1.timeout as int - 1) / BucketMs as int == (o2.timeout as int - 1) / BucketMs as int
  {
    SameBucketIff(o1.timeout, o2.timeout);
  }

  /** `get_or_build_client`: look the client up under the options' key,
      building it (outcome `built`) on a miss. */
  method GetOrBuildClient<C>(cache: ClientCache<C>, options: RequestOptions, built: Result<C>)
    returns (r: Result<C>)
    requires cache.Valid() && NoBucketOverflow(options.timeout)
    modifies cache
    ensures cache.Valid()
    ensures var key := KeyFor(options);
      key in old(cache.clients) ==>
        r == Ok(old(cache.clients)[key]) && cache.clients == old(cache.clients) &&
        cache.order == Bumped(old(cache.order), key)
    ensures var key := KeyFor(options);
      key !in old(cache.clients) && built.Err? ==>
        r == built && cache.clients == old(cache.clients) && cache.order == old(cache.order)
    ensures var key := KeyFor(options);
      key !in old(cache.clients) && built.Ok? ==>
        r == built && cache.order == Bumped(old(cache.order), key) &&
        cache.clients == old(cache.clients)[key := built.value] - Keys(Evicted(old(cache.order), key))
  {
    r := cache.GetOrTryInsert(KeyFor(options), built);
  }

  /** The start of `make_request`: the client is looked up (and cached)
      before the method is checked, so a build failure wins over a bad
      method, and a request with an unsupported method still leaves its
      client in the cache. On a hit the stored client is used and the
      builder's outcome plays no part. */
  method PrepareRequest<C>(cache: ClientCache<C>, options: RequestOptions, built: Result<C>)
    returns (r: Result<(C, HttpMethod)>)
    requires cache.Valid() && NoBucketOverflow(options.timeout)
    modifies cache
    ensures cache.Valid()
    ensures var key := KeyFor(options);
      key in old(cache.clients) ==>
        cache.clients == old(cache.clients) && cache.order == Bumped(old(cache.order), key) &&
        r == WithMethod(old(cache.clients)[key], options.verb)
    ensures var key := KeyFor(options);
      key !in old(cache.clients) && built.Err? ==>
        r == Err(built.error) && cache.clients == old(cache.clients) && cache.order == old(cache.order)
    ensures var key := KeyFor(options);
      key !in old(cache.clients) && built.Ok? ==>
        cache.order == Bumped(old(cache.order), key) &&
        cache.clients == old(cache.clients)[key := built.value] - Keys(Evicted(old(cache.order), key)) &&
        r == WithMethod(built.value, options.verb)
  {
    var client := GetOrBuildClient(cache, options, built);
    if client.Err? {
      return Err(client.error);
    }
    var verb := NormalizeMethod(options.verb);
    if verb.Err? {
      return Err(verb.error);
    }
    r := Ok((client.value, verb.value));
  }

  /** The outcome of the method check once `client` is in hand: the client
      paired with the normalised method, or the unsupported-method error. */
  function WithMethod<C>(client: C, verb: string): (r: Result<(C, HttpMethod)>)
    ensures r.Ok? ==> r.value.0 == client && r.value.1.Name() == EffectiveMethod(verb)
    ensures r.Err? ==> r.error == UnsupportedPrefix + EffectiveMethod(verb)
    ensures r.Ok? <==> NormalizeMethod(verb).Ok?
  {
    match NormalizeMethod(verb)
    case Ok(m) => Ok((client, m))
    case Err(e) => Err(e)
  }
}
