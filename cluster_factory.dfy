/**
 * com.exasol.bucketfs.ClusterConfigurationBucketFactory: makes one sync-aware bucket per
 * "service/bucket" name from the cluster configuration and caches it, so every later
 * request for the same name gets the same object.
 */
module ClusterConfigurationBucketFactory {

  import opened Wrappers
  import opened JavaString
  import opened BucketErrors
  import opened ReadEnabledBucket
  import opened WriteEnabledBucket
  import opened SyncAwareBucket

  /** com.exasol.config.BucketConfiguration, reduced to the credentials the factory reads. */
  datatype BucketConfiguration = BucketConfiguration(readPassword: string, writePassword: string)

  /**
   * com.exasol.config.BucketFsServiceConfiguration: the container-internal HTTP port and
   * the buckets by name (a missing name reads as null).
   */
  datatype ServiceConfiguration = ServiceConfiguration(httpPort: int, buckets: map<string, BucketConfiguration>)

  /** The service configurations by service name; a missing name reads as null. */
  type ServiceConfigurationProvider = map<string, ServiceConfiguration>

  /** getFullyQualifiedBucketName: the service name and the bucket name around one separator. */
  function FullyQualifiedBucketName(serviceName: string, bucketName: string): (key: string)
    ensures |key| == |serviceName| + 1 + |bucketName|
    ensures key[..|serviceName|] == serviceName && key[|serviceName|] == PATH_SEPARATOR
    ensures key[|serviceName| + 1..] == bucketName
  {
    serviceName + [PATH_SEPARATOR] + bucketName
  }

  /** Service names without a separator keep cache keys apart. */
  lemma FullyQualifiedBucketNameInjective(s1: string, b1: string, s2: string, b2: string)
    requires PATH_SEPARATOR !in s1 && PATH_SEPARATOR !in s2
    requires FullyQualifiedBucketName(s1, b1) == FullyQualifiedBucketName(s2, b2)
    ensures s1 == s2 && b1 == b2
  {
    var key := FullyQualifiedBucketName(s1, b1);
    assert forall j :: 0 <= j < |s1| ==> key[j] == s1[j] && s1[j] != PATH_SEPARATOR;
    assert forall j :: 0 <= j < |s2| ==> key[j] == s2[j] && s2[j] != PATH_SEPARATOR;
    assert key[|s1|] == PATH_SEPARATOR && key[|s2|] == PATH_SEPARATOR;
  }

  /** mapPort(internalPort): the exposed port; an unmapped port unboxes null. */
  function MapPort(portMappings: map<int, int>, internalPort: int): (r: Result<int, Throwable>)
    ensures r.Ok? <==> internalPort in portMappings
    ensures r.Ok? ==> r.value == portMappings[internalPort]
  {
    if internalPort in portMappings then Ok(portMappings[internalPort])
    else Err(NullPointerException("portMappings"))
  }

  /**
   * What the builder lambda of computeIfAbsent hands to a new bucket: the service name,
   * the bucket name, the factory's IP address, the mapped HTTP port and the bucket's own
   * passwords. The port is mapped before the passwords are read.
   */
  function NewBucketSettings(ipAddress: string, portMappings: map<int, int>, service: ServiceConfiguration,
                             serviceName: string, bucketName: string)
    : (r: Result<(BucketConfig, string), Throwable>)
    ensures r.Ok? <==> service.httpPort in portMappings && bucketName in service.buckets
    ensures service.httpPort !in portMappings ==> r == Err(NullPointerException("portMappings"))
    ensures r.Ok? ==>
      var (config, writePassword) := r.value;
      config.bucketFsName == serviceName && config.bucketName == bucketName && config.ipAddress == ipAddress
      && config.port == portMappings[service.httpPort]
      && config.readPassword == service.buckets[bucketName].readPassword
      && writePassword == service.buckets[bucketName].writePassword
  {
    match MapPort(portMappings, service.httpPort)
    case Err(e) => Err(e)
    case Ok(port) =>
      if bucketName !in service.buckets then Err(NullPointerException("bucketConfiguration"))
      else
        var bucketConfiguration := service.buckets[bucketName];
        Ok((BucketConfig(serviceName, bucketName, ipAddress, port, bucketConfiguration.readPassword),
            bucketConfiguration.writePassword))
  }

  /** The unit test: one service, one bucket, the port mapped to itself. */
  lemma InjectsAccessCredentials(ipAddress: string, port: int, serviceName: string, bucketName: string,
                                 readPassword: string, writePassword: string)
    ensures var service := ServiceConfiguration(port, map[bucketName := BucketConfiguration(readPassword, writePassword)]);
      var r := NewBucketSettings(ipAddress, map[port := port], service, serviceName, bucketName);
      r.Ok? && r.value.0.readPassword == readPassword && r.value.1 == writePassword
      && r.value.0.port == port
  {
  }

  class ClusterConfigurationBucketFactory {
    var bucketsCache: map<string, SyncAwareBucket>
    const ipAddress: string
    const serviceConfigurationProvider: ServiceConfigurationProvider
    const portMappings: map<int, int>
    const monitor: Monitor

    constructor (monitor: Monitor, ipAddress: string, serviceConfigurationProvider: ServiceConfigurationProvider,
                 portMappings: map<int, int>)
      ensures this.monitor == monitor && this.ipAddress == ipAddress
      ensures this.serviceConfigurationProvider == serviceConfigurationProvider
      ensures this.portMappings == portMappings
      ensures bucketsCache == map[]
    {
      this.monitor := monitor;
      this.ipAddress := ipAddress;
      this.serviceConfigurationProvider := serviceConfigurationProvider;
      this.portMappings := portMappings;
      bucketsCache := map[];
    }

    /** getBucketFromCache(cacheKey): the cached bucket, or null for a name never built. */
    function GetBucketFromCache(cacheKey: string): (b: Option<SyncAwareBucket>)
      reads this
      ensures b.Some? <==> cacheKey in bucketsCache
      ensures b.Some? ==> b.value == bucketsCache[cacheKey]
    {
      if cacheKey in bucketsCache then Some(bucketsCache[cacheKey]) else None
    }

    /**
     * updateBucketCache: the service and bucket configuration are looked up first (a
     * missing service throws even on a cache hit); on a miss a new bucket is built and
     * cached, on a hit nothing changes. A failing build leaves the cache as it was.
     */
    method UpdateBucketCache(serviceName: string, bucketName: string, cacheKey: string)
      returns (r: Outcome<Throwable>)
      modifies this
      ensures serviceName !in serviceConfigurationProvider ==>
        r == Fail(NullPointerException("serviceConfiguration")) && bucketsCache == old(bucketsCache)
      ensures serviceName in serviceConfigurationProvider && cacheKey in old(bucketsCache) ==>
        r == Pass && bucketsCache == old(bucketsCache)
      ensures serviceName in serviceConfigurationProvider && cacheKey !in old(bucketsCache) ==>
        var settings := NewBucketSettings(ipAddress, portMappings, serviceConfigurationProvider[serviceName],
                                          serviceName, bucketName);
        (settings.Err? ==> r == Fail(settings.error) && bucketsCache == old(bucketsCache))
        && (settings.Ok? ==>
              r == Pass && bucketsCache.Keys == old(bucketsCache).Keys + {cacheKey}
              && (forall k :: k in old(bucketsCache) ==> bucketsCache[k] == old(bucketsCache)[k])
              && fresh(bucketsCache[cacheKey]) && fresh(bucketsCache[cacheKey].bucket)
              && bucketsCache[cacheKey].bucket.config == settings.value.0
              && bucketsCache[cacheKey].bucket.writePassword == settings.value.1
              && bucketsCache[cacheKey].bucket.uploadHistory == map[]
              && bucketsCache[cacheKey].monitor == monitor)
    {
      if serviceName !in serviceConfigurationProvider {
        return Fail(NullPointerException("serviceConfiguration"));
      }
      var serviceConfiguration := serviceConfigurationProvider[serviceName];
      if cacheKey in bucketsCache {
        return Pass;
      }
      var settings := NewBucketSettings(ipAddress, portMappings, serviceConfiguration, serviceName, bucketName);
      if settings.Err? {
        return Fail(settings.error);
      }
      var writeEnabled := new WriteEnabledBucket(settings.value.0, settings.value.1);
      var bucket := new SyncAwareBucket(writeEnabled, monitor);
      bucketsCache := bucketsCache[cacheKey := bucket];
      r := Pass;
    }

    /**
     * getBucket(serviceName, bucketName): the cached bucket for "service/bucket", built on
     * the first request; a later request returns the very same object.
     */
    method GetBucket(serviceName: string, bucketName: string) returns (r: Result<SyncAwareBucket, Throwable>)
      modifies this
      ensures var key := FullyQualifiedBucketName(serviceName, bucketName);
        (r.Ok? ==> key in bucketsCache && r.value == bucketsCache[key])
        && (r.Ok? && key in old(bucketsCache) ==> r.value == old(bucketsCache)[key])
        && (r.Err? ==> bucketsCache == old(bucketsCache))
        && (forall k :: k in old(bucketsCache) ==> k in bucketsCache && bucketsCache[k] == old(bucketsCache)[k])
        && bucketsCache.Keys <= old(bucketsCache).Keys + {key}
      ensures r.Ok? <==>
        serviceName in serviceConfigurationProvider
        && (FullyQualifiedBucketName(serviceName, bucketName) in old(bucketsCache)
            || NewBucketSettings(ipAddress, portMappings, serviceConfigurationProvider[serviceName],
                                 serviceName, bucketName).Ok?)
    {
      var cacheKey := FullyQualifiedBucketName(serviceName, bucketName);
      var outcome := UpdateBucketCache(serviceName, bucketName, cacheKey);
      if outcome.Fail? {
        return Err(outcome.error);
      }
      var cached := GetBucketFromCache(cacheKey);
      r := Ok(cached.value);
    }
  }
}
