/**
  Teardown of the session-resumption cache (`tls_cache_deinit`).

  The hash table is modelled as the sequence of its entries in the order
  the table's iterator visits them; the hash function and the chaining are
  not part of the model. Each entry holds a session id and a session-data
  buffer together with the number of bytes of each that are in use.
 */
module SessionCache {
  import opened CTypes

  datatype CacheEntry = CacheEntry(
    sessionId: seq<uint8>,
    sessionIdSize: nat,
    sessionData: seq<uint8>,
    sessionDataSize: nat)

  datatype HashDb = HashDb(table: seq<CacheEntry>, entries: int)

  /** The recorded data size fits the data buffer: the cache's invariant
      that teardown relies on, since that many bytes are zeroed in place.
      The id size is never used to index anything here. */
  predicate WellFormed(e: CacheEntry) {
    e.sessionDataSize <= |e.sessionData|
  }

  predicate AllWellFormed(db: HashDb) {
    forall i :: 0 <= i < |db.table| ==> WellFormed(db.table[i])
  }

  /** The scrub-before-free invariant, for one entry as it was before
      teardown and as it is when its memory is released: an entry that held
      session data has every byte of that data zeroed and both sizes reset;
      an entry that held none is released untouched. */
  predicate SafeToFree(before: CacheEntry, atFree: CacheEntry)
    requires WellFormed(before)
  {
    if before.sessionDataSize > 0 then
      && atFree.sessionDataSize == 0
      && atFree.sessionIdSize == 0
      && |atFree.sessionData| == |before.sessionData|
      && (forall k :: 0 <= k < before.sessionDataSize ==> atFree.sessionData[k] == 0)
    else
      atFree == before
  }

  /** `safe_memset(buf, 0, n)`: zero the first `n` bytes of a buffer. */
  method SafeMemset(buf: seq<uint8>, n: nat) returns (out: seq<uint8>)
    requires n <= |buf|
    ensures |out| == |buf|
    ensures forall k :: 0 <= k < n ==> out[k] == 0
    ensures forall k :: n <= k < |buf| ==> out[k] == buf[k]
  {
    out := buf;
    var i := 0;
    while i < n
      invariant 0 <= i <= n
      invariant |out| == |buf|
      invariant forall k :: 0 <= k < i ==> out[k] == 0
      invariant forall k :: i <= k < |buf| ==> out[k] == buf[k]
    {
      out := out[i := 0];
      i := i + 1;
    }
  }

  /** The scrub step applied to one entry during teardown. */
  function Scrub(e: CacheEntry): (r: CacheEntry)
    requires WellFormed(e)
    ensures SafeToFree(e, r)
    // nothing but the live data bytes and the two sizes changes
    ensures r.sessionId == e.sessionId
    ensures forall k :: e.sessionDataSize <= k < |e.sessionData| ==> r.sessionData[k] == e.sessionData[k]
    ensures WellFormed(r)
  {
    if e.sessionDataSize > 0 then
      e.(sessionData := seq(e.sessionDataSize, _ => 0) + e.sessionData[e.sessionDataSize..],
         sessionDataSize := 0,
         sessionIdSize := 0)
    else e
  }

  /** A scrubbed entry has nothing left to scrub. */
  lemma ScrubIdempotent(e: CacheEntry)
    requires WellFormed(e)
    ensures Scrub(Scrub(e)) == Scrub(e)
    ensures Scrub(e).sessionDataSize == 0
  {
  }

  /** `tls_cache_deinit`: visit every entry, scrub it if it holds session
      data, release it, then clear the table and the counter. `freed` lists
      each entry in the state it had when it was released. */
  method CacheDeinit(db: HashDb) returns (freed: seq<CacheEntry>, cleared: HashDb)
    requires AllWellFormed(db)
    ensures |freed| == |db.table|
    ensures forall i :: 0 <= i < |freed| ==> SafeToFree(db.table[i], freed[i])
    ensures forall i :: 0 <= i < |freed| ==> freed[i] == Scrub(db.table[i])
    ensures cleared.table == [] && cleared.entries == 0
  {
    freed := [];
    var i := 0;
    while i < |db.table|
      invariant 0 <= i <= |db.table|
      invariant |freed| == i
      invariant forall j :: 0 <= j < i ==> freed[j] == Scrub(db.table[j])
    {
      var cache := db.table[i];
      if cache.sessionDataSize > 0 {
        var zeroed := SafeMemset(cache.sessionData, cache.sessionDataSize);
        assert zeroed == seq(cache.sessionDataSize, _ => 0) + cache.sessionData[cache.sessionDataSize..];
        cache := cache.(sessionData := zeroed, sessionDataSize := 0, sessionIdSize := 0);
      }
      freed := freed + [cache];
      i := i + 1;
    }
    cleared := HashDb([], 0);
  }
}
