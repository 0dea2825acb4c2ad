/**
 * The etcd backend (pkg/providers/asg/etcd/etcd.go): the members come from the
 * initial-cluster descriptor, overlaid at configuration time by a cache file that a
 * reconciler may have written before a restart; status queries read that cache.
 */
module Etcd {
  import opened Wrappers
  import opened Providers
  import opened Asg

  /** The backend's configuration, bound from the keys `name`, `size`, `initial-cluster` and `cache-file`. */
  datatype Config = Config(name: string, size: int, initialCluster: string, cacheFile: string)

  /** The zero configuration the parameters are bound onto. */
  const Zero := Config("", 0, "", "")

  /** Binding the parameter map onto `c`, field by field. */
  function Bind(params: map<string, Param>, c: Config): Bound<Config> {
    var name := BindString(params, "name", c.name);
    var size := BindInt(params, "size", c.size);
    var cluster := BindString(params, "initial-cluster", c.initialCluster);
    var file := BindString(params, "cache-file", c.cacheFile);
    Bound(Config(name.value, size.value, cluster.value, file.value), name.ok && size.ok && cluster.ok && file.ok)
  }

  /** The persisted cache file: recorded members and a declared size. */
  datatype Cluster = Cluster(instances: map<string, string>, size: int)

  /**
   * The cache after configuration: the descriptor's members, overwritten by the cache
   * file's entries when the file could be read and decoded (`None` otherwise).
   */
  function Overlay(seed: map<string, string>, file: Option<Cluster>): map<string, string> {
    match file
    case None => seed
    case Some(cluster) => seed + cluster.instances
  }

  /** Without a readable cache file the cache is the descriptor's map. */
  lemma OverlayMissingFile(seed: map<string, string>)
    ensures Overlay(seed, None) == seed
  {
  }

  /**
   * With a readable cache file, the cache holds the names of both, the file's address
   * for every name the file records, and the descriptor's address for the others.
   */
  lemma OverlayFileWins(seed: map<string, string>, cluster: Cluster)
    ensures var c := Overlay(seed, Some(cluster));
      && c.Keys == seed.Keys + cluster.instances.Keys
      && (forall k :: k in cluster.instances ==> c[k] == cluster.instances[k])
      && (forall k :: k in seed && k !in cluster.instances ==> c[k] == seed[k])
  {
  }

  /** The cache file's declared size plays no part: only its entries are merged. */
  lemma OverlayIgnoresFileSize(seed: map<string, string>, instances: map<string, string>, size1: int, size2: int)
    ensures Overlay(seed, Some(Cluster(instances, size1))) == Overlay(seed, Some(Cluster(instances, size2)))
  {
  }

  /**
   * After an overlay the cache can hold more members than the descriptor, and so more
   * than the declared size a successful configuration checked the descriptor against.
   */
  lemma OverlayCanOutgrowSize()
    ensures var seed := map["a" := "h1"];
      |seed| == 1 && |Overlay(seed, Some(Cluster(map["b" := "h2"], 1)))| == 2
  {
    var c := Overlay(map["a" := "h1"], Some(Cluster(map["b" := "h2"], 1)));
    assert c.Keys == {"a", "b"};
  }

  class EtcdProvider {
    var config: Config
    var cache: map<string, string>

    /** The registered provider before configuration: zero configuration, empty cache. */
    constructor ()
      ensures config == Zero && cache == map[]
    {
      config := Zero;
      cache := map[];
    }

    /**
     * `Configure`. The configuration is reset and rebound in every case. On a decode
     * error, a descriptor that does not parse or a size mismatch, the error is returned
     * and the cache is left as it was. Otherwise the cache becomes the descriptor's map
     * overlaid by the cache file at the configured path; a missing or undecodable file
     * is skipped silently. `hostOf` stands for URL parsing and `readCache` for reading
     * and decoding the cache file.
     */
    method Configure(params: map<string, Param>, hostOf: string -> Option<string>, readCache: string -> Option<Cluster>)
      returns (err: Option<Error>)
      modifies this
      ensures config == Bind(params, Zero).value
      ensures !Bind(params, Zero).ok ==> err == Some(InvalidConfiguration) && cache == old(cache)
      ensures Bind(params, Zero).ok ==>
        match ValidatedCluster(config.initialCluster, config.size, hostOf)
        case Failure(e) => err == Some(e) && cache == old(cache)
        case Success(m) => err == None && cache == Overlay(m, readCache(config.cacheFile))
    {
      config := Zero;
      var bound := Bind(params, config);
      config := bound.value;
      if !bound.ok {
        return Some(InvalidConfiguration);
      }
      var parsed := ParseCluster(config.initialCluster, hostOf);
      ghost var checked := ValidatedCluster(config.initialCluster, config.size, hostOf);
      if parsed.Failure? {
        assert checked == Failure(parsed.error);
        return Some(parsed.error);
      }
      var m := parsed.value;
      if |m| != config.size {
        assert checked == Failure(SizeMismatch(config.initialCluster, config.size, |m|));
        return Some(SizeMismatch(config.initialCluster, config.size, |m|));
      }
      assert checked == Success(m);
      cache := map[];
      Store(m);
      assert cache == m;
      var file := readCache(config.cacheFile);
      if file.Some? {
        Store(file.value.instances);
      }
      return None;
    }

    /** Writes every entry of `src` into the cache, one at a time in map order. */
    method Store(src: map<string, string>)
      modifies this`cache
      ensures cache == old(cache) + src
    {
      var rest := src.Keys;
      while rest != {}
        invariant rest <= src.Keys
        invariant cache.Keys == old(cache).Keys + (src.Keys - rest)
        invariant forall k :: k in cache ==> cache[k] == if k in src && k !in rest then src[k] else old(cache)[k]
        decreases rest
      {
        var k :| k in rest;
        cache := cache[k := src[k]];
        rest := rest - {k};
      }
    }

    /**
     * `AutoScalingGroupStatus`: one instance per cache entry, in map order; `self` is the
     * entry named exactly as the configured name, if any; the reported size is the
     * configured one, whatever the number of entries. Go's `make` with the configured
     * size as capacity panics on a negative size, hence the precondition.
     */
    method Status() returns (r: StatusReport<Instance>)
      requires config.size >= 0
      ensures ListsEntries(r.instances, cache)
      ensures r.self == if config.name in cache then Some(Instance(config.name, cache[config.name])) else None
      ensures r.size == config.size && r.err == None
    {
      var instances, self := Enumerate(cache, config.name, None);
      return StatusReport(instances, self, config.size, None);
    }
  }
}
