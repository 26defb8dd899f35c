/**
 * The persisted results map shared by all instances. Only the three map
 * operations the program uses are modelled: get, put and remove, each on
 * a plain map of keys to numbers.
 */
module Store {
  import opened Protocol

  class ResultsMap {
    var entries: map<string, int>

    constructor (initial: map<string, int>)
      ensures entries == initial
    {
      entries := initial;
    }

    /** `get`: the stored number, or None for Java's `null`. */
    function Get(key: string): (r: Option<int>)
      reads this
    {
      Lookup(entries, key)
    }

    /** `put`: overwrite (or add) one entry. */
    method Put(key: string, value: int)
      modifies this
      ensures entries == old(entries)[key := value]
    {
      entries := entries[key := value];
    }

    /** `remove`: drop one entry, if present. */
    method Remove(key: string)
      modifies this
      ensures entries == old(entries) - {key}
    {
      entries := entries - {key};
    }
  }
}
