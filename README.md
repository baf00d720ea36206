# fsgc in Dafny

A model of `fsgc`, the garbage collector for the gorilla/sessions
`FilesystemStore`. A `GC` owns a directory path, a maximum session age and a
collection interval. While running it holds a ticker. Each collection lists the
directory and attempts to remove every entry that is not a directory, named
`session_…`, whose modification time is more than the maximum age before the
clock reading taken for that sweep. A removal that fails is ignored.

- `fsgc.dfy`, module `Fsgc`:
  - the `time.Duration` units and the defaults: 7 × 24 h maximum age, 1 h interval;
  - `HasPrefix` (Go's `strings.HasPrefix`) and the sweep rule (`IsSessionFile`, `Expired`, `Eligible`);
  - the specification of one sweep: `Swept` over the directory map, and `Doomed` over a listing;
  - the collector's state as a value (`GCState`) and its transitions (`NewState`, `WithMaxAge`, `WithInterval`, `Started`, `Stopped`);
  - `class GC` with fields `dir` (a `const`, since nothing assigns it after `New`), `maxAge`, `interval` and `ticker`, where `ticker: Option<int>` holds the period captured by `Start`.
- `fsgc_test.dfy`, module `FsgcTest`: the scenario of `TestGC` as a client of the class.

The directory is a `map<string, Entry>` from names to `Entry(isDir, modTime)`.
The file system is outside the program, so `Collect` takes it as values and
changes no field of the GC:
- `listing` is what `os.Open` followed by `f.Readdir(0)` reported: `Failed(OpenError | ReaddirError)`, or `Listed(infos)` in directory order, each `FileInfo(name, entry)`;
- `entries` is the directory's contents;
- `now` is the single reading of `time.Now()`;
- `removeFails` is the set of names whose `os.Remove` fails.

`Collect` returns the error (`None` for nil) and the directory's contents
afterwards. The listing need not agree with `entries`: by name, the sweep
removes what the listing judged eligible, as `os.Remove` does, and removing a
name that has gone is a silent no-op. When the listing is complete and current
(`Lists`), the result is exactly `Swept`.

## Model

| member | source | states |
|---|---|---|
| `Fsgc.HasPrefixIffConcat` | fsgc.go:133 | the prefix test holds exactly when the name is `session_` followed by some string (both directions) |
| `Fsgc.DoomedMembers` | fsgc.go:132-141 | a name is removed by the loop over a listing iff some listed element with that name is a non-directory, `session_`-named, strictly older than maxAge, and its removal does not fail |
| `Fsgc.SweepOfListing` | fsgc.go:127-141 | sweeping a complete, current listing leaves exactly the entries not removed under the sweep rule (`Swept`), whatever the listing order |
| `Fsgc.NonSessionSurvives` | fsgc.go:133-135 | directories and names without the `session_` prefix are kept, with their entries unchanged |
| `Fsgc.UnexpiredSurvives` | fsgc.go:136 | an entry whose age is at most maxAge is kept with its entry unchanged; the comparison is strict, so an entry exactly maxAge old is kept |
| `Fsgc.ExpiredSessionGone` | fsgc.go:136-139 | an expired session file is absent afterwards iff its removal did not fail |
| `Fsgc.SweptOnlyRemoves` | fsgc.go:132-141 | the sweep never adds or alters an entry: the remaining names are a subset, each with its old entry |
| `Fsgc.SweptIdempotent` | fsgc.go:131-141 | a second sweep with the same clock and the same failing removals changes nothing |
| `Fsgc.SweptLeavesNoEligible` | fsgc.go:136-139 | with no failing removal, no entry eligible for removal remains |
| `Fsgc.SweptMonotone` | fsgc.go:131-136 | a later clock or a smaller maxAge keeps no more entries |
| `Fsgc.StartIdempotent` | fsgc.go:94-97 | starting a started collector changes nothing; after Start the collector runs |
| `Fsgc.StopIdempotent` | fsgc.go:111-115 | stopping a stopped collector changes nothing; after Stop it does not run |
| `Fsgc.RestartAfterStop` | fsgc.go:97 | after Stop, Start runs again with the then-current interval as period, with every other field unchanged |
| `Fsgc.StopUndoesStart` | fsgc.go:94-97 | Start followed by Stop leaves the same state as Stop alone |
| `Fsgc.IntervalAppliesAtNextStart` | fsgc.go:81 | changing the interval while running keeps the running period; the new interval is the period after a Stop and Start |
| `Fsgc.SettersCommute` | fsgc.go:70-83 | MaxAge and Interval change different fields, commute, and leave the running state alone |
| `Fsgc.GC.New` | fsgc.go:61-67 | a new collector has the given dir, maxAge 7 × 24 h, interval 1 h, and no ticker (stopped) |
| `Fsgc.GC.MaxAge` | fsgc.go:70-75 | sets maxAge only; interval and ticker unchanged; returns the same object |
| `Fsgc.GC.Interval` | fsgc.go:78-83 | sets interval only; maxAge and ticker unchanged; returns the same object |
| `Fsgc.GC.Start` | fsgc.go:91-104 | when running, nothing changes; otherwise ticker becomes `Some(interval)`; maxAge and interval unchanged; returns the same object |
| `Fsgc.GC.Stop` | fsgc.go:108-116 | ticker becomes None (a no-op when not running); maxAge and interval unchanged |
| `Fsgc.GC.Collect` | fsgc.go:119-143 | a failed open or listing returns that error and removes nothing; otherwise it returns nil and removes exactly the doomed names; on a complete listing the result is `Swept`; no field of the GC changes |
| `FsgcTest.TestGC` | fsgc_test.go:19-53 | with an interval of 100 ms, the first tick's sweep returns nil, removes `session_1` (aged DefaultMaxAge + 10 min) and keeps `session_2` |

## Left out

- The goroutine that calls `Collect` on every tick and ignores its error (fsgc.go:98-102) because it exists for concurrency and timing. The model records only "running with period p" in `ticker`; `TestGC` plays one tick by calling `Collect` at `t0 + interval`.
- `sync.Mutex` locking: each method is taken to run atomically.
- The real file system (`os.Open`, `f.Readdir`, `f.Close`, `os.Remove`, `filepath.Join`) and `time.Now()`: these are I/O and become the parameters of `Collect` described above. Removal is by name within the directory, so path joining is not modelled.
- `time.NewTicker` panics on a non-positive period. `GC.Start` carries this as a precondition (`Running() || interval > 0`) and does not model the panic.
- `Time.Sub` saturates at the int64 limits, and `time.Duration` is a 64-bit integer. The model uses unbounded integers, so `now - modTime` never saturates.
- `strings.HasPrefix` compares bytes, while the model compares the characters of a `string`. For the ASCII prefix `session_` the two agree.
