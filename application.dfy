/**
 * One run of the program against one file: register in the shared
 * results map, walk the file chunk by chunk counting the zero bits of the
 * chunks whose lock succeeds, fold the local count into the shared
 * result, unregister, and report once no worker is registered.
 *
 * The operating system's byte-range lock is an oracle: `claimed` holds the
 * indices of the passes whose `tryLock` succeeds for this instance. The
 * file is its sequence of bytes.
 */
module Application {
  import opened Bits
  import opened Chunking
  import opened Protocol
  import opened Store

  /** How a run ends. */
  datatype Outcome =
    | Reported(total: Option<int>)  // the barrier is open: the stored result is printed (`null` when absent)
    | Waiting(processors: int)      // peers are still registered: the barrier keeps polling
    | Crashed                       // a missing worker count was unboxed: NullPointerException

  class Instance {
    /** The path of the file, and the key of its result. */
    const filename: string
    /** The zero bits this process has counted (the static field `countOfZeroBytes`). */
    var countOfZeroBytes: nat

    constructor (filename: string)
      ensures this.filename == filename && countOfZeroBytes == 0
    {
      this.filename := filename;
      countOfZeroBytes := 0;
    }

    /** Register as a worker; start a new generation when none is registered. */
    method Join(results: ResultsMap)
      modifies results
      ensures results.entries == Joined(old(results.entries), filename)
    {
      var processors := ProcessorsKey(filename);
      if results.Get(processors) == None || results.Get(processors) == Some(0) {
        results.Put(processors, 1);
        results.Remove(filename);
      } else {
        results.Put(processors, results.Get(processors).value + 1);
      }
    }

    /**
     * The position loop. Every pass requests a lock on `ChunkSize` bytes
     * from the current position; whatever the outcome, the position then
     * advances by the chunk size. A locked chunk is mapped and each of its
     * bytes adds its zero bits to `countOfZeroBytes`. Returns the ranges
     * requested, in order.
     */
    method Scan(file: seq<int8>, claimed: set<nat>) returns (requests: seq<Range>)
      modifies this`countOfZeroBytes
      ensures countOfZeroBytes == old(countOfZeroBytes) + InstanceZeroBits(file, claimed)
      ensures |requests| == Passes(|file|, ChunkSize(|file|))
      ensures forall k :: 0 <= k < |requests| ==> requests[k] == Requested(ChunkSize(|file|), k)
    {
      var size := |file|;
      var chunkSize := ChunkSize(size);
      var position := 0;
      var pass := 0;
      requests := [];
      while position < size
        invariant position == Offset(chunkSize, pass)
        invariant pass <= Passes(size, chunkSize)
        invariant |requests| == pass
        invariant forall k :: 0 <= k < pass ==> requests[k] == Requested(chunkSize, k)
        invariant countOfZeroBytes == old(countOfZeroBytes) + ClaimedZeroBits(file, chunkSize, claimed, pass)
        decreases size - position
      {
        PassesIsCeiling(size, chunkSize, pass);
        OffsetShift(chunkSize, pass);
        requests := requests + [Range(position, chunkSize)];
        if pass !in claimed {
          // the lock is held elsewhere: skip the chunk
          position := position + chunkSize;
          pass := pass + 1;
          continue;
        }
        // The source's byte loop runs over the whole mapped buffer, whose
        // limit is the chunk size even past the end of the file; the model
        // counts only the bytes of the range that exist (see the README's
        // Findings and Left out sections).
        CountChunk(file, position, Min(position + chunkSize, size));
        position := position + chunkSize;
        pass := pass + 1;
      }
      if size > 0 {
        PassesIsCeiling(size, chunkSize, pass);
      }
    }

    /** The byte loop over one mapped chunk: every byte adds its zero bits. */
    method CountChunk(file: seq<int8>, from: nat, to: nat)
      requires from <= to <= |file|
      modifies this`countOfZeroBytes
      ensures countOfZeroBytes == old(countOfZeroBytes) + ZeroBitsIn(file[from..to])
    {
      var cursor := from;
      while cursor < to
        invariant from <= cursor <= to
        invariant countOfZeroBytes == old(countOfZeroBytes) + ZeroBitsIn(file[from..cursor])
      {
        ZeroBitsInExtend(file, from, cursor);
        countOfZeroBytes := countOfZeroBytes + ZeroBitsOf(file[cursor]);
        cursor := cursor + 1;
      }
    }

    /** Add the local count to the shared result (0 when there is none). */
    method Fold(results: ResultsMap)
      modifies results
      ensures results.entries == Folded(old(results.entries), filename, countOfZeroBytes)
    {
      var current := results.Get(filename);
      results.Put(filename, if current != None then current.value + countOfZeroBytes else countOfZeroBytes);
    }

    /**
     * Unregister, with the guard on the result key. Returns false when the
     * worker count it unboxes is missing, leaving the map as it was.
     */
    method Deregister(results: ResultsMap) returns (ok: bool)
      modifies results
      ensures ok == Deregistered(old(results.entries), filename).Some?
      ensures ok ==> results.entries == Deregistered(old(results.entries), filename).value
      ensures !ok ==> results.entries == old(results.entries)
    {
      var processors := ProcessorsKey(filename);
      if results.Get(filename) != None {
        var workers := results.Get(processors);
        if workers == None {
          return false;
        }
        results.Put(processors, workers.value - 1);
      } else {
        results.Put(processors, 0);
      }
      return true;
    }
  }

  /**
   * The whole of `main` for one file once its arguments are checked: join,
   * scan, fold, deregister, then the barrier test and the report. The map
   * ends as the three updates leave it. A lone instance (no worker
   * registered when it starts) passes the barrier at once and reports
   * exactly its own count.
   */
  method Run(results: ResultsMap, filename: string, file: seq<int8>, claimed: set<nat>)
      returns (outcome: Outcome, requests: seq<Range>)
    modifies results
    ensures Some(results.entries) == OneRun(old(results.entries), filename, InstanceZeroBits(file, claimed))
    ensures ProcessorsKey(filename) in results.entries
    ensures outcome == if BarrierOpen(results.entries, filename)
                       then Reported(Lookup(results.entries, filename))
                       else Waiting(results.entries[ProcessorsKey(filename)])
    ensures ProcessorsKey(filename) !in old(results.entries) || old(results.entries)[ProcessorsKey(filename)] == 0
            ==> outcome == Reported(Some(InstanceZeroBits(file, claimed)))
    ensures |requests| == Passes(|file|, ChunkSize(|file|))
  {
    ghost var start := results.entries;
    var app := new Instance(filename);
    app.Join(results);
    requests := app.Scan(file, claimed);
    app.Fold(results);
    DeregisterAfterFoldDecrements(Joined(start, filename), filename, app.countOfZeroBytes);
    var ok := app.Deregister(results);
    if !ok {
      outcome := Crashed;
      assert false;
      return;
    }
    var processors := ProcessorsKey(filename);
    var workers := results.Get(processors);
    if workers == None {
      outcome := Crashed;
      assert false;
      return;
    }
    if workers.value != 0 {
      outcome := Waiting(workers.value);
      return;
    }
    outcome := Reported(results.Get(filename));
    if ProcessorsKey(filename) !in start || start[ProcessorsKey(filename)] == 0 {
      LoneInstanceReportsOwnCount(start, filename, InstanceZeroBits(file, claimed));
    }
  }
}
