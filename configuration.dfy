/**
 * The settings table (`configuration`): one integer value per setting.
 * The counters are created with a default value the first time they are
 * read; the memory size has no default and must have been set before it
 * is read.
 */
module Configuration {

  /** The rows the settings table can hold (its `setting_id` column). */
  datatype Setting = MemorySize | PartitionConsecutiveNumber | Compactions | Condensations

  /** A setting that is created on first read. */
  predicate IsCounter(s: Setting) {
    s != MemorySize
  }

  /** The value a counter is created with: 1 for the partition number, 0 for the two counts. */
  function Default(s: Setting): int
    requires IsCounter(s)
  {
    if s == PartitionConsecutiveNumber then 1 else 0
  }

  /** The value a getter of counter `s` returns on table `m`. */
  function Counter(m: map<Setting, int>, s: Setting): int
    requires IsCounter(s)
  {
    if s in m then m[s] else Default(s)
  }

  /** The table after a getter of `s` has stored the default when the row was missing. */
  function WithDefault(m: map<Setting, int>, s: Setting): (r: map<Setting, int>)
    requires IsCounter(s)
    ensures s in r && r[s] == Counter(m, s)
    ensures s in m ==> r == m
    ensures forall t :: t != s ==> (t in r <==> t in m) && (t in m ==> r[t] == m[t])
  {
    if s in m then m else m[s := Default(s)]
  }

  /** The table after counter `s` has been raised `k` times by one. */
  function Bumped(m: map<Setting, int>, s: Setting, k: nat): (r: map<Setting, int>)
    requires IsCounter(s)
    ensures k > 0 ==> s in r
    ensures Counter(r, s) == Counter(m, s) + k
    ensures (MemorySize in r <==> MemorySize in m) && (MemorySize in m ==> r[MemorySize] == m[MemorySize])
  {
    if k == 0 then m else m[s := Counter(m, s) + k]
  }

  /** Raising counter `s` leaves what a getter of any other counter returns. */
  lemma BumpedOther(m: map<Setting, int>, s: Setting, k: nat, t: Setting)
    requires IsCounter(s) && IsCounter(t) && s != t
    ensures Counter(Bumped(m, s, k), t) == Counter(m, t)
  {
  }

  /** Raising a counter once more after `k` raises is raising it `k + 1` times. */
  lemma BumpedAgain(m: map<Setting, int>, s: Setting, k: nat)
    requires IsCounter(s)
    ensures Bumped(Bumped(m, s, k), s, 1) == Bumped(m, s, k + 1)
  {
  }

  /** Raises of two different counters commute. */
  lemma BumpedCommute(m: map<Setting, int>, s: Setting, t: Setting, j: nat, k: nat)
    requires IsCounter(s) && IsCounter(t) && s != t
    ensures Bumped(Bumped(m, s, j), t, k) == Bumped(Bumped(m, t, k), s, j)
  {
  }

  /** One more raise of each of two counters, after `j` raises of each. */
  lemma BumpedBoth(m: map<Setting, int>, s: Setting, t: Setting, j: nat)
    requires IsCounter(s) && IsCounter(t) && s != t
    ensures Bumped(Bumped(Bumped(Bumped(m, s, j), t, j), s, 1), t, 1) == Bumped(Bumped(m, s, j + 1), t, j + 1)
  {
    BumpedCommute(m, s, t, j, j);
    BumpedAgain(Bumped(m, t, j), s, j);
    BumpedCommute(m, s, t, j + 1, j);
    BumpedAgain(Bumped(m, s, j + 1), t, j);
  }

  class ConfigurationTable {
    var settings: map<Setting, int>

    /** An empty settings table. */
    constructor ()
      ensures settings == map[]
    {
      settings := map[];
    }

    /** `reset_configuration`: deletes every row, so each counter reads its default again. */
    method ResetConfiguration()
      modifies this
      ensures settings == map[]
      ensures forall s :: IsCounter(s) ==> Counter(settings, s) == Default(s)
    {
      settings := map[];
    }

    /**
     * `get_compactions`, `get_condensations`, `get_partition_consecutive_number`:
     * returns the stored value, inserting the default row first when it is missing.
     */
    method GetCounter(s: Setting) returns (v: int)
      requires IsCounter(s)
      modifies this
      ensures v == Counter(old(settings), s)
      ensures settings == WithDefault(old(settings), s)
    {
      if s !in settings {
        settings := settings[s := Default(s)];
      }
      v := settings[s];
    }

    /**
     * `increment_compactions`, `increment_condensations`,
     * `increment_partition_consecutive_number`: reads the counter (creating
     * it with its default) and stores that value plus one.
     */
    method IncrementCounter(s: Setting)
      requires IsCounter(s)
      modifies this
      ensures settings == Bumped(old(settings), s, 1)
    {
      var current := GetCounter(s);
      settings := settings[s := current + 1];
    }

    /** `set_memory_size`: inserts the row or overwrites it. */
    method SetMemorySize(size: int)
      modifies this
      ensures settings == old(settings)[MemorySize := size]
      ensures MemorySize in settings && settings[MemorySize] == size
    {
      settings := settings[MemorySize := size];
    }

    /** `get_memory_size`: the row must exist (the source unwraps the lookup). */
    method GetMemorySize() returns (size: int)
      requires MemorySize in settings
      ensures size == settings[MemorySize]
    {
      size := settings[MemorySize];
    }
  }
}
