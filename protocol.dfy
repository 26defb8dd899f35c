/**
 * The shared results record as a map from keys to numbers: the keys one
 * instance uses, and the three updates it makes to the map, Join (register
 * as a worker), Fold (add the local count) and Deregister (unregister).
 */
module Protocol {

  datatype Option<T> = None | Some(value: T)

  /** `resultsMap.get(key)`: the stored number, or `null` (None) when the key is absent. */
  function Lookup(m: map<string, int>, key: string): Option<int>
  {
    if key in m then Some(m[key]) else None
  }

  /** The key of the number of active workers on a file: its path followed by "-processors". */
  function ProcessorsKey(filename: string): (k: string)
    ensures k != filename
    ensures |k| == |filename| + 11 && k[..|filename|] == filename
  {
    filename + "-processors"
  }

  /** `m` and `m'` agree on every key except `a` and `b`. */
  ghost predicate SameExcept(m: map<string, int>, m': map<string, int>, a: string, b: string)
  {
    forall k :: k != a && k != b ==> (k in m <==> k in m') && (k in m ==> m[k] == m'[k])
  }

  /**
   * Join: when no worker is registered (key absent or 0) this instance
   * starts a new generation, one worker and no result; otherwise it adds
   * itself to the workers and leaves the result alone. No other key changes.
   */
  function Joined(m: map<string, int>, filename: string): (r: map<string, int>)
    ensures var p := ProcessorsKey(filename);
            && p in r
            && ((p !in m || m[p] == 0) ==> r[p] == 1 && filename !in r)
            && ((p in m && m[p] != 0) ==> r[p] == m[p] + 1 && Lookup(r, filename) == Lookup(m, filename))
            && SameExcept(m, r, p, filename)
  {
    var p := ProcessorsKey(filename);
    if p !in m || m[p] == 0 then m[p := 1] - {filename}
    else m[p := m[p] + 1]
  }

  /**
   * Fold: the result becomes the previous result (0 when absent) plus the
   * local count. With a non-negative count the result never decreases, and
   * no other key changes.
   */
  function Folded(m: map<string, int>, filename: string, local: nat): (r: map<string, int>)
    ensures filename in r
    ensures r[filename] - local == (if filename in m then m[filename] else 0)
    ensures filename in m ==> r[filename] >= m[filename]
    ensures SameExcept(m, r, filename, filename)
  {
    m[filename := (if filename in m then m[filename] else 0) + local]
  }

  /**
   * Deregister, as written: the guard looks at the RESULT key. When a
   * result exists the worker count is decremented (a missing worker count
   * would then throw a NullPointerException, None here); when no result
   * exists the worker count is set to 0 whatever it was. No other key changes.
   */
  function Deregistered(m: map<string, int>, filename: string): (r: Option<map<string, int>>)
    ensures var p := ProcessorsKey(filename);
            && (r.None? <==> filename in m && p !in m)
            && (r.Some? ==> p in r.value && r.value[p] == (if filename in m then m[p] - 1 else 0))
            && (r.Some? ==> SameExcept(m, r.value, p, p))
  {
    var p := ProcessorsKey(filename);
    if filename in m then
      if p in m then Some(m[p := m[p] - 1]) else None
    else Some(m[p := 0])
  }

  /** The barrier's exit condition: the worker count reads 0. */
  predicate BarrierOpen(m: map<string, int>, filename: string)
  {
    Lookup(m, ProcessorsKey(filename)) == Some(0)
  }

  /**
   * After its own fold, an instance always takes the decrement branch of
   * Deregister: the worker count goes down by exactly one and the result
   * is kept.
   */
  lemma DeregisterAfterFoldDecrements(m: map<string, int>, filename: string, local: nat)
    requires ProcessorsKey(filename) in m
    ensures var folded := Folded(m, filename, local);
            var p := ProcessorsKey(filename);
            && Deregistered(folded, filename).Some?
            && Deregistered(folded, filename).value[p] == m[p] - 1
            && Deregistered(folded, filename).value[filename] == folded[filename]
  {
  }

  /**
   * The quirk of the guard: deregistering while no result is stored resets
   * the worker count to 0 even when other workers are still registered.
   */
  lemma DeregisterWithoutResultClearsWorkers(m: map<string, int>, filename: string)
    requires filename !in m
    ensures Deregistered(m, filename).Some?
    ensures BarrierOpen(Deregistered(m, filename).value, filename)
  {
  }

  /** Joining a run in progress registers one more worker and keeps the result. */
  lemma JoinRunInProgress(m: map<string, int>, filename: string)
    requires ProcessorsKey(filename) in m && m[ProcessorsKey(filename)] > 0
    ensures Joined(m, filename)[ProcessorsKey(filename)] == m[ProcessorsKey(filename)] + 1
    ensures Lookup(Joined(m, filename), filename) == Lookup(m, filename)
    ensures !BarrierOpen(Joined(m, filename), filename)
  {
  }

  /** The three updates of one instance in turn: join, fold `local`, deregister. */
  function OneRun(m: map<string, int>, filename: string, local: nat): (r: Option<map<string, int>>)
    ensures r.Some?
  {
    DeregisterAfterFoldDecrements(Joined(m, filename), filename, local);
    Deregistered(Folded(Joined(m, filename), filename, local), filename)
  }

  /**
   * A lone instance, one that finds no registered worker, leaves the worker
   * count at 0 (so it passes the barrier at once) and finds exactly its own
   * local count as the result: nothing is left over from an earlier run.
   */
  lemma LoneInstanceReportsOwnCount(m: map<string, int>, filename: string, local: nat)
    requires ProcessorsKey(filename) !in m || m[ProcessorsKey(filename)] == 0
    ensures BarrierOpen(OneRun(m, filename, local).value, filename)
    ensures Lookup(OneRun(m, filename, local).value, filename) == Some(local)
  {
  }

  /**
   * An instance that joins a run in progress leaves the worker count as it
   * found it, and adds its local count to the
   * result it found (0 when there was none).
   */
  lemma LateInstanceAddsItsCount(m: map<string, int>, filename: string, local: nat)
    requires ProcessorsKey(filename) in m && m[ProcessorsKey(filename)] != 0
    ensures var r := OneRun(m, filename, local).value;
            && r[ProcessorsKey(filename)] == m[ProcessorsKey(filename)]
            && r[filename] == local + (if filename in m then m[filename] else 0)
  {
  }
}
