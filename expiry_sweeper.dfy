/** The expiry sweeper: on every tick it walks the preview cache root and
    removes each preview directory last modified more than `previewAge`
    milliseconds before the tick. The directory is modelled as a map from
    preview name to last-modified time; the clock is read once per sweep and
    passed in as `now`. */
module ExpirySweeper {

  /** The default preview lifetime: one hour, in milliseconds. */
  const DefaultPreviewAge: int := 1000 * 60 * 60

  /** The sweeper's tick period. */
  function SweepInterval(previewAge: int): (interval: int)
    ensures previewAge >= 0 ==> 0 <= 2 * interval <= previewAge <= 2 * interval + 1
    ensures previewAge >= 2 ==> interval > 0
  {
    previewAge / 2
  }

  /** A preview is expired when it was last modified strictly before
      `now - previewAge`. */
  predicate Expired(mtime: int, now: int, previewAge: int): (expired: bool)
    ensures expired <==> now - mtime > previewAge
  {
    mtime < now - previewAge
  }

  /** What a sweep at `now` leaves in the cache root. */
  function Unexpired(entries: map<string, int>, now: int, previewAge: int): (kept: map<string, int>)
    ensures kept.Keys <= entries.Keys
    ensures forall name :: name in entries ==> (name in kept <==> !Expired(entries[name], now, previewAge))
    ensures forall name :: name in kept ==> kept[name] == entries[name]
  {
    map name | name in entries && !Expired(entries[name], now, previewAge) :: entries[name]
  }

  /** The cache root on disk. */
  class PreviewRoot {
    var entries: map<string, int>

    constructor (entries: map<string, int>)
      ensures this.entries == entries
    {
      this.entries := entries;
    }

    /** One tick: list the root, read each entry's last-modified time, remove
        the expired ones. Returns the names removed. */
    method RemoveExpiredPreviews(now: int, previewAge: int) returns (removed: set<string>)
      modifies this
      ensures entries == Unexpired(old(entries), now, previewAge)
      ensures removed == old(entries).Keys - entries.Keys
    {
      ghost var listed := entries;
      var pending := entries.Keys;
      removed := {};
      while pending != {}
        invariant pending <= listed.Keys
        invariant entries == map name | name in listed &&
                               (name in pending || !Expired(listed[name], now, previewAge)) :: listed[name]
        invariant removed == listed.Keys - entries.Keys
        decreases pending
      {
        var name :| name in pending;
        var lastModified := entries[name];
        if lastModified < now - previewAge {
          entries := entries - {name};
          removed := removed + {name};
        }
        pending := pending - {name};
      }
    }
  }

  /** The comparison is strict: a preview exactly `previewAge` old is kept. */
  lemma BoundaryEntryKept(entries: map<string, int>, name: string, now: int, previewAge: int)
    requires name in entries && entries[name] == now - previewAge
    ensures name in Unexpired(entries, now, previewAge)
  {
  }

  /** A preview last modified at `t` is removed by a sweep after `t +
      previewAge` and kept by one before. */
  lemma SweepAroundLifetime(entries: map<string, int>, name: string, previewAge: int, eps: int)
    requires name in entries && eps > 0
    ensures name !in Unexpired(entries, entries[name] + previewAge + eps, previewAge)
    ensures name in Unexpired(entries, entries[name] + previewAge - eps, previewAge)
  {
  }

  /** Sweeping twice at the same time removes nothing more. */
  lemma SweepIdempotent(entries: map<string, int>, now: int, previewAge: int)
    ensures Unexpired(Unexpired(entries, now, previewAge), now, previewAge) == Unexpired(entries, now, previewAge)
  {
  }

  /** A later sweep keeps no preview that an earlier one removed. */
  lemma LaterSweepKeepsLess(entries: map<string, int>, now1: int, now2: int, previewAge: int)
    requires now1 <= now2
    ensures Unexpired(entries, now2, previewAge).Keys <= Unexpired(entries, now1, previewAge).Keys
  {
  }

  /** Ticks fall at `start + k * SweepInterval(previewAge)` for k >= 1. A
      preview modified at or after `start` is removed by a tick no later than
      one interval after it expires. */
  lemma RemovedWithinOneInterval(start: int, mtime: int, previewAge: int)
    requires SweepInterval(previewAge) > 0 && start <= mtime
    ensures exists k: nat :: 1 <= k &&
              Expired(mtime, start + k * SweepInterval(previewAge), previewAge) &&
              start + k * SweepInterval(previewAge) <= mtime + previewAge + SweepInterval(previewAge)
  {
    var period := SweepInterval(previewAge);
    var span := mtime + previewAge - start;
    assert previewAge >= 2;
    var k := span / period + 1;
    assert span == (span / period) * period + span % period;
    assert k * period == (span / period) * period + period;
    assert Expired(mtime, start + k * period, previewAge);
  }

  /** With the default one-hour lifetime the sweeper ticks every half hour,
      so a preview modified at or after the first tick's start is removed by
      a tick at most 90 minutes after its last modification. */
  lemma DefaultLifetimeBound(start: int, mtime: int)
    requires start <= mtime
    ensures exists k: nat :: 1 <= k &&
              Expired(mtime, start + k * (30 * 60 * 1000), DefaultPreviewAge) &&
              start + k * (30 * 60 * 1000) <= mtime + 90 * 60 * 1000
  {
    assert SweepInterval(DefaultPreviewAge) == 30 * 60 * 1000;
    RemovedWithinOneInterval(start, mtime, DefaultPreviewAge);
  }
}
