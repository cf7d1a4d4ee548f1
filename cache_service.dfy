/** The administrative clear of the whole key-value cache. */
module CacheAdmin {
  import opened KeyValue

  class CacheService {
    const redis: Redis

    constructor (client: Redis)
      ensures redis == client
    {
      redis := client;
    }

    /**
     * `clearAllCache`: lists every key (`KEYS *`); with none there answers 0
     * and deletes nothing, otherwise deletes all the listed keys at once and
     * answers how many were listed.
     */
    method ClearAllCache() returns (cleared: nat)
      modifies redis
      ensures cleared == |old(redis.entries)|
      ensures redis.entries == map[]
      ensures cleared == 0 ==> redis.entries == old(redis.entries)
    {
      var keys := redis.AllKeys();
      if |keys| == 0 {
        return 0;
      }
      var _ := redis.DelAll(keys);
      assert redis.entries.Keys == {};
      cleared := |keys|;
    }
  }
}
