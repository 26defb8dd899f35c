# zerobyte: a Dafny model

zerobyte is a console utility that counts the zero bits of a file. Several
instances can be started on the same file; they share the work by locking
chunks of the file, and they meet in a persisted results map. Each
instance registers as a worker under the key `<path>-processors`. It walks
the file chunk by chunk and counts the zero bits of every chunk it manages
to lock. Then it adds its local count to the result stored under `<path>`,
unregisters, and waits until the worker count reads 0. At that point it
prints the stored result.

The model follows `main` in `Application.java` one step at a time:

- `bits.dfy` (module `Bits`): Java's signed `byte` (`int8`),
  `Byte.toUnsignedInt`, `Integer.bitCount`, and the zero bits of one byte
  and of a byte sequence. The zero bits are checked against an independent
  digit-by-digit count (`ZeroBitsBelow`).
- `chunking.dfy` (module `Chunking`): the chunk size, the number of passes
  of the position loop, the byte range each pass requests and the part of it
  that exists in the file, and the zero bits one instance collects for a
  given set of won locks. It also shows that instances whose locks partition
  the chunks add up to the whole file.
- `protocol.dfy` (module `Protocol`): the two keys and the three updates one
  instance makes to the shared map (join, fold, deregister) as functions on
  `map<string, int>`, plus the barrier's exit condition.
- `store.dfy` (module `Store`): the results map as a mutable object with
  `get`, `put` and `remove`.
- `application.dfy` (module `Application`): the program's static state (the
  file name and the `countOfZeroBytes` field) as a class. Its methods do what
  `main` does step by step, with the position loop and the byte loop as
  `while` loops. `Run` is one whole run and ends either with a report or
  waiting at the barrier.
- `generation.dfy` (module `Generation`): several instances whose whole
  operations on the shared map interleave in any order within one
  generation. An invariant ties
  the map to the instances' phases. When every instance has finished, every
  barrier is open and the result is the sum of the local counts; when the
  locks partition the file, that sum is the zero bits of the whole file.

The operating system's `tryLock` is an oracle. The set `claimed` holds the
indices of the passes whose lock succeeds for the instance. The file is its
sequence of bytes.

## Model

| member | source | states |
|---|---|---|
| Bits.ToUnsignedInt | src/main/java/ru/malltshik/zerobyte/Application.java:101 | the unsigned value of a byte is below 256 and equals the signed value modulo 256 |
| Bits.OnesAndZerosFillWidth | src/main/java/ru/malltshik/zerobyte/Application.java:101 | for a value of width w, the one bits counted by `bitCount` plus the zero bits below w make exactly w |
| Bits.NoOnesOnlyForZero | src/main/java/ru/malltshik/zerobyte/Application.java:101 | `bitCount` is 0 exactly for the value 0 |
| Bits.AllOnesOnlyForMax | src/main/java/ru/malltshik/zerobyte/Application.java:101 | for a value of width w, `bitCount` is w exactly for 2^w - 1 |
| Bits.ZeroBitsOf | src/main/java/ru/malltshik/zerobyte/Application.java:101 | `8 - bitCount(toUnsignedInt(b))` is at most 8 and equals the number of zero bits among the byte's 8 bit positions |
| Bits.ZeroBitsOfExtremes | src/main/java/ru/malltshik/zerobyte/Application.java:101 | a byte has 8 zero bits exactly when it is 0x00, and none exactly when it is 0xFF (-1) |
| Bits.ZeroBitsIn | src/main/java/ru/malltshik/zerobyte/Application.java:100-102 | the zero bits of a byte sequence are at most 8 per byte |
| Bits.ZeroBitsInConcat | src/main/java/ru/malltshik/zerobyte/Application.java:100-102 | counting is additive over concatenation, so the bytes can be counted in any split |
| Bits.ZeroBitsInRepeated | src/main/java/ru/malltshik/zerobyte/Application.java:100-102 | n copies of one byte hold n times that byte's zero bits |
| Chunking.ChunkSize | src/main/java/ru/malltshik/zerobyte/Application.java:81 | the chunk size is the file size capped at Integer.MAX_VALUE: never above either, one of the two, and positive for a non-empty file |
| Chunking.OffsetIsProduct | src/main/java/ru/malltshik/zerobyte/Application.java:105 | after k passes the position is k times the chunk size |
| Chunking.OffsetGrows | src/main/java/ru/malltshik/zerobyte/Application.java:105 | the position never moves back, and moves strictly forward with a positive chunk size |
| Chunking.Passes | src/main/java/ru/malltshik/zerobyte/Application.java:84-106 | the loop stops at the first pass whose position reaches the size; the position before the last pass is still inside the file; no pass exactly for an empty file |
| Chunking.PassesIsCeiling | src/main/java/ru/malltshik/zerobyte/Application.java:84 | pass k runs exactly when its position is below the size |
| Chunking.PassesIsDivisionCeiling | src/main/java/ru/malltshik/zerobyte/Application.java:84-106 | the number of passes is the size divided by the chunk size, rounded up |
| Chunking.EmptyFileNoPasses | src/main/java/ru/malltshik/zerobyte/Application.java:81-84 | an empty file has chunk size 0, runs no pass and counts nothing |
| Chunking.Scanned | src/main/java/ru/malltshik/zerobyte/Application.java:97-102 | the bytes read in a pass are exactly those of the requested range that exist in the file |
| Chunking.ScannedRangesTileFile | src/main/java/ru/malltshik/zerobyte/Application.java:84-106 | the read ranges are non-empty, start at 0, each starts where the previous ends, and the last ends at the file size |
| Chunking.OneChunkRequestIsWholeFile | src/main/java/ru/malltshik/zerobyte/Application.java:81-87 | a non-empty file no larger than Integer.MAX_VALUE is one pass whose request is the whole file |
| Chunking.LastRequestOverrunsFile | src/main/java/ru/malltshik/zerobyte/Application.java:87-97 | for a file of Integer.MAX_VALUE + 1 bytes the second request reaches past the end of the file, while only one byte of it exists |
| Chunking.ClaimedZeroBits | src/main/java/ru/malltshik/zerobyte/Application.java:87-105 | after n passes an instance has counted at most 8 bits per byte walked |
| Chunking.NothingClaimedNothingCounted | src/main/java/ru/malltshik/zerobyte/Application.java:91-93 | an instance that wins no lock counts nothing |
| Chunking.ClaimOneMore | src/main/java/ru/malltshik/zerobyte/Application.java:91-102 | winning one more lock adds exactly that chunk's zero bits |
| Chunking.SameClaimsBelow | src/main/java/ru/malltshik/zerobyte/Application.java:87-93 | the count after n passes depends only on which of those n locks were won |
| Chunking.AllClaimedCountsPrefix | src/main/java/ru/malltshik/zerobyte/Application.java:84-106 | winning every lock of the first n passes counts exactly the zero bits of the bytes walked so far |
| Chunking.InstanceZeroBits | src/main/java/ru/malltshik/zerobyte/Application.java:81-106 | an instance's count is at most 8 bits per byte |
| Chunking.AllLocksCountWholeFile | src/main/java/ru/malltshik/zerobyte/Application.java:81-106 | an instance that wins every lock counts exactly the zero bits of the whole file |
| Chunking.SumClaimedStep | src/main/java/ru/malltshik/zerobyte/Application.java:87-102 | among instances, a chunk with one owner adds its zero bits to their total once, and an unowned chunk adds nothing |
| Chunking.PartitionCountsPrefix | src/main/java/ru/malltshik/zerobyte/Application.java:16-19 | when each of the first n chunks is locked by exactly one instance, their counts add up to the zero bits of those chunks |
| Chunking.LocalCounts | src/main/java/ru/malltshik/zerobyte/Application.java:32 | one local count per instance, each that instance's count for its won locks |
| Chunking.SumOfLocalCounts | src/main/java/ru/malltshik/zerobyte/Application.java:16-19 | the sum of the instances' local counts is their joint count over all passes (`SumClaimed`) |
| Chunking.PartitionCountsWholeFile | src/main/java/ru/malltshik/zerobyte/Application.java:16-19 | when every chunk is locked by exactly one instance, the local counts add up to the zero bits of the whole file |
| Chunking.ScenarioBytes | src/main/java/ru/malltshik/zerobyte/Application.java:101 | 0x0F and 0xF0 have 4 zero bits each, 0x00 has 8 and 0xFF has none |
| Chunking.HalfHoldsSixteen | src/main/java/ru/malltshik/zerobyte/Application.java:100-102 | the bytes 0F F0 00 FF hold 16 zero bits |
| Chunking.SixteenByteFiles | src/main/java/ru/malltshik/zerobyte/Application.java:81-106 | a 16-byte file is one pass; all 0xFF counts 0, all 0x00 counts 128 |
| Chunking.TwoEqualHalves | src/main/java/ru/malltshik/zerobyte/Application.java:16-19 | a file of two equal halves cut at the half: the owner of either chunk counts one half, and the file holds twice that |
| Chunking.TwoHalvesScenario | src/main/java/ru/malltshik/zerobyte/Application.java:16-19 | the 8-byte file 0F F0 00 FF 0F F0 00 FF in chunks of 4 split between two instances: 16 each, 32 in all (a split the program's own chunk size never makes; see the next row) |
| Chunking.EightByteFileIsOneChunk | src/main/java/ru/malltshik/zerobyte/Application.java:81-106 | the program walks that 8-byte file in one chunk: the instance that locks it counts all 32 zero bits and any other counts none |
| Protocol.ProcessorsKey | src/main/java/ru/malltshik/zerobyte/Application.java:59 | the worker-count key is the path followed by "-processors", and never equals the path |
| Protocol.Joined | src/main/java/ru/malltshik/zerobyte/Application.java:67-75 | with no worker registered the count becomes 1 and the old result is dropped; otherwise the count grows by one and the result is kept; no other key changes |
| Protocol.Folded | src/main/java/ru/malltshik/zerobyte/Application.java:108-110 | the result becomes the previous result (0 when absent) plus the local count, never decreases, and no other key changes |
| Protocol.Deregistered | src/main/java/ru/malltshik/zerobyte/Application.java:112-113 | it fails (a null worker count is unboxed) exactly when a result exists but no worker count; otherwise the count is decremented when a result exists and set to 0 when none does; no other key changes |
| Protocol.DeregisterAfterFoldDecrements | src/main/java/ru/malltshik/zerobyte/Application.java:108-113 | right after its own fold an instance always decrements the worker count by one and keeps the result |
| Protocol.DeregisterWithoutResultClearsWorkers | src/main/java/ru/malltshik/zerobyte/Application.java:113 | deregistering while no result is stored sets the count to 0 and opens the barrier, whatever the count was |
| Protocol.JoinRunInProgress | src/main/java/ru/malltshik/zerobyte/Application.java:72-75 | joining a running generation adds one worker, keeps the result and keeps the barrier closed |
| Protocol.OneRun | src/main/java/ru/malltshik/zerobyte/Application.java:67-113 | join, fold and deregister by one instance never fail |
| Protocol.LoneInstanceReportsOwnCount | src/main/java/ru/malltshik/zerobyte/Application.java:67-119 | an instance that finds no worker registered opens the barrier itself and finds exactly its own count, with nothing left from an earlier run |
| Protocol.LateInstanceAddsItsCount | src/main/java/ru/malltshik/zerobyte/Application.java:72-113 | an instance joining a running generation leaves the worker count as it found it and adds its count to the result it found |
| Store.ResultsMap.constructor | src/main/java/ru/malltshik/zerobyte/Application.java:62-65 | the map opens with the entries already persisted |
| Store.ResultsMap.Put | src/main/java/ru/malltshik/zerobyte/Application.java:69 | `put` overwrites or adds exactly one entry |
| Store.ResultsMap.Remove | src/main/java/ru/malltshik/zerobyte/Application.java:70 | `remove` drops exactly one entry, if present |
| Application.Instance.constructor | src/main/java/ru/malltshik/zerobyte/Application.java:32 | a new instance has its file name and a local count of 0 |
| Application.Instance.Join | src/main/java/ru/malltshik/zerobyte/Application.java:67-75 | the map ends as `Protocol.Joined` describes |
| Application.Instance.Scan | src/main/java/ru/malltshik/zerobyte/Application.java:81-106 | the position loop adds exactly the instance's zero-bit count for its won locks; it makes one request per pass, the k-th being chunk-size bytes at k times the chunk size |
| Application.Instance.CountChunk | src/main/java/ru/malltshik/zerobyte/Application.java:100-102 | the byte loop adds exactly the zero bits of the mapped bytes |
| Application.Instance.Fold | src/main/java/ru/malltshik/zerobyte/Application.java:108-110 | the map ends as `Protocol.Folded` describes, with the local count |
| Application.Instance.Deregister | src/main/java/ru/malltshik/zerobyte/Application.java:112-113 | it succeeds exactly when `Protocol.Deregistered` does and then leaves that map; on failure the map is unchanged |
| Application.Run | src/main/java/ru/malltshik/zerobyte/Application.java:59-119 | the map ends as one run leaves it; the outcome is the stored result when the worker count reads 0, otherwise waiting; a lone instance reports exactly its own count; one request per pass |
| Generation.StepPreservesInv | src/main/java/ru/malltshik/zerobyte/Application.java:67-113 | every operation taken within a generation succeeds and keeps the invariant: worker count = registered instances, result present exactly when someone folded, and equal to the sum folded |
| Generation.ExecuteKeepsInv | src/main/java/ru/malltshik/zerobyte/Application.java:67-113 | a whole one-generation interleaving runs without failure and keeps the invariant |
| Generation.BarrierOpensOnlyWhenAllDeregistered | src/main/java/ru/malltshik/zerobyte/Application.java:115-116 | during a generation the barrier is open exactly when no instance is still scanning or waiting to deregister |
| Generation.ResultNeverDecreases | src/main/java/ru/malltshik/zerobyte/Application.java:108-113 | within a generation under way, no operation lowers the stored result |
| Generation.AllDoneContributedSum | src/main/java/ru/malltshik/zerobyte/Application.java:108-110 | when all instances have finished, the folded total is the sum of their counts |
| Generation.GenerationReportsSum | src/main/java/ru/malltshik/zerobyte/Application.java:16-19 | instances that start with no worker registered and all finish one generation open every barrier on the sum of their local counts |
| Generation.GenerationCountsWholeFile | src/main/java/ru/malltshik/zerobyte/Application.java:16-19 | if their locks partition the file's chunks, every instance reports the zero bits of the whole file |
| Generation.TwoInstancesInLockstep | src/main/java/ru/malltshik/zerobyte/Application.java:16-19 | two instances that join, fold and deregister in alternation end with the barrier open on the sum of their two counts |

## Left out

- The argument checks and their exit code 255 (lines 42-52) are not modelled, and neither are the console messages and the timer (lines 55-56, 119-120). `Run` starts from a checked file name and returns the value that would be printed.
- ChronicleMap's construction and its persistence to the temporary file (lines 34-35, 62-65) are not modelled. The map is a plain `map<string, int>` that survives between runs only because the caller passes it in. Its capacity of 50 000 entries is not modelled.
- `RandomAccessFile`, `FileChannel` and `map` are not modelled: the file is its byte sequence. `tryLock` is the oracle set `claimed`, fixed for the run. The model does not release locks; the source never releases them either, so they stay held until the process exits.
- What `FileChannel.map` does with a requested range that reaches past the end of the file is not modelled; `Chunking.Scanned` counts only the bytes that exist (see Findings).
- The busy wait `while (get(processors) != 0) sleep(1)` (line 116) is modelled only by its exit condition: `Run` returns `Waiting(n)` where the real loop keeps polling. `Generation` models the waiting by letting other instances take their steps.
- Operations on the shared map are atomic in `Generation`. The source's separate `get` and `put` calls from two processes can interleave and lose an update; this is not modelled.
- Generation.GenerationReportsSum: covers only one generation. An instance that joins after the worker count returned to 0 but before every earlier instance has read the result starts a new generation, and Join drops that result; `Protocol.Joined` states this step.
- Application.Instance.Scan: `countOfZeroBytes` is a Java `long` and the position is a `long` too; their 64-bit wrap-around is not modelled (it needs a file of more than 2^60 bytes).
- A file whose own path ends in "-processors" would share its key with another file's worker count; the model keeps the two keys of one file distinct and leaves this collision out.
- A file of at most Integer.MAX_VALUE bytes is always one chunk, because the chunk size is the file size capped at Integer.MAX_VALUE. Splits such as an 8-byte file in chunks of 4 bytes, or a 1 MiB file in chunks of 256 KiB, never arise in the code. The chunk lemmas therefore take the chunk size as a parameter.

## Findings

| source | as written | input that shows it | evidently intended | confidence | as-written member | corrected member |
|---|---|---|---|---|---|---|
| src/main/java/ru/malltshik/zerobyte/Application.java:87-97 | every pass requests and maps `CHUNK_SIZE` bytes from the position, including the last pass | a file of 2^31 bytes: chunk size 2^31 - 1, the second pass requests 2^31 - 1 bytes from offset 2^31 - 1, but only 1 byte exists there | the last pass maps only the bytes that remain, `min(CHUNK_SIZE, size - position)` | not executed | Chunking.LastRequestOverrunsFile | Chunking.Scanned |
