# sabot transfer core in Dafny

sabot streams bytes through a chain of worker processes joined by OS pipes.
Typical chains are a file reader, a tar archiver, a gzip compressor and an S3
uploader. This project models the bookkeeping core of `src/transfer.py` and
proves its properties:

- **Manifests** (`manifest.dfy`). A manifest names each walked path inside an
  archive. `arcname` strips a `relpath` base and prepends an `arcpath`
  prefix. Iteration keeps the paths the callback accepts.
- **Format resolution** (`archive.dfy`). `archive_factory` looks a format up
  case-insensitively in `archive_map`. It derives the `tarfile` stream mode
  (`|gz`, `|bz2`).
- **Defaults** (`defaults.dfy`). `get_defaults` folds the class-level
  `Defaults` dictionaries along the method resolution order. `__init__` then
  sets one attribute per default, with keyword arguments taking precedence.
- **Byte accounting** (`throughput.dfy`). `Throughput` is a running byte
  counter with a start time that is set once.
- **Pipes and workers** (`pipeline.dfy`). The pieces are:
  - `TransferPipe`: the close state of a pipe's two ends.
  - `PipeManager`: the registry from worker name to mode to pipe, with
    `_add_pipe`, `connect` and `close`.
  - The endpoint half of `TransferWorker`: bind, read, write, init, finalize,
    `run`, `start` and `transfer_callback`.
  - `TransferManager`: `plumb_workers`, `start_workers`, `close_pipes` and
    `start`.

Pure code is modelled as functions and lemmas. Code that mutates state is
modelled as classes with `modifies` clauses:

- the registry, its counter and the pipes' close flags;
- the workers' bound ends, counters and phases;
- the throughput counters.

Every path below is relative to the repository root.

Two kinds of input are parameters:

- Things the program gets from the operating system: the current directory,
  the walk, clock readings, the bytes a read returns, and the outcome of a
  worker's `transfer()`.
- Worker names, which the source draws at random from a uuid.

The source is Python 2 code: see `basestring` at src/hooks.py:40, and the commented-out `print` statement at src/transfer.py:213.
Where the behaviour of a file object matters, such as the order of the checks
in a pipe read, the model follows Python 2.

## Model

| member | source | states |
|---|---|---|
| Manifests.Join | src/transfer.py:37 | `os.path.join`: an absolute right-hand path replaces the left one. Otherwise the result starts with the left components and ends with exactly the right ones. |
| Manifests.RelPath | src/transfer.py:35 | `os.path.relpath` always yields a relative, non-empty path ("." when both are the same). |
| Manifests.RelPartsOfPrefix | src/transfer.py:35 | Below its start, relpath strips exactly the start's components. If the path equals the start, the result is ".". |
| Manifests.RelPartsRoundTrip | src/transfer.py:35 | Round trip: start + relpath(path, start) == path for every path strictly below the start. |
| Manifests.RelPathStripsPrefix | src/transfer.py:35 | The same prefix strip stated on paths, after making both absolute against the working directory. |
| Manifests.RelPathRoundTrip | src/transfer.py:35 | Round trip on paths: join(abspath(start), relpath(path, start)) == abspath(path) below the start. |
| Manifests.RelPartsNoParDir | src/transfer.py:35 | relpath of a path below its start introduces no ".." component. |
| Manifests.Arcname | src/transfer.py:33-38 | With neither option set the path is returned unchanged. With `relpath` set, the name is absolute exactly when a set `arcpath` is absolute. |
| Manifests.ArcnameStripsThenPrefixes | src/transfer.py:33-38 | With both options set, the name is the `arcpath` components followed by the path's components below the `relpath` base: strip first, then prefix. |
| Manifests.ArcnameStaysInside | src/transfer.py:33-38 | Under these conditions the name stays inside the archive root: with `relpath` set, the path below its base, a relative or unset `arcpath` and no ".." in the inputs, the archive name is relative and has no "..". |
| Manifests.ArcnameCanEscape | src/transfer.py:33-38 | Outside those conditions the name can escape the archive root. Without `relpath`, the absolute path /etc stays absolute. With `relpath` /a, the path /b becomes ../b. |
| Manifests.Entries | src/transfer.py:40-45 | Iteration yields at most one entry per walked path. |
| Manifests.EntriesSound | src/transfer.py:40-45 | Every yielded pair is a walked path that has no callback or that the callback accepts, paired with its `arcname`. |
| Manifests.EntriesComplete | src/transfer.py:40-45 | Every walked path that has no callback or that the callback accepts is yielded with its `arcname`. |
| Manifests.EntriesAppend | src/transfer.py:40-45 | Iteration is compositional: the entries of a concatenated walk are the concatenated entries, in walk order. |
| Manifests.EntriesSkipRejected | src/transfer.py:42-43 | A rejected path contributes nothing and leaves its neighbours' entries as they were. |
| Manifests.EntriesWithoutCallback | src/transfer.py:40-45 | Without a callback, entry i is exactly (walk[i], arcname(walk[i])) for every i. |
| Archive.Lower | src/transfer.py:341 | `lower()` keeps the length and lower-cases each ASCII letter position by position. |
| Archive.ArchiveFactory | src/transfer.py:340-349 | Fails iff the lower-cased format is not in `archive_map`, with ValueError text naming the lower-cased format. On success it returns the map's chain. The mode is the given mode plus "\|gz" for tar.gz/tgz, "\|bz2" for tar.bz2/tbz2, and nothing for every other format. |
| Archive.ArchiveFactoryAsWritten | src/transfer.py:340-349 | The code as written fails on exactly the same inputs with the same error, but returns nothing on success. |
| Archive.LowerIdempotent | src/transfer.py:341 | Lower-casing twice equals lower-casing once. |
| Archive.CaseInsensitive | src/transfer.py:341 | Formats that lower-case alike resolve identically. |
| Archive.ModeSuffix | src/transfer.py:345-349 | The suffix the membership tests derive is "", "\|gz" or "\|bz2". It is non-empty only for a chain containing 'tar'. |
| Archive.SuffixFollowsFormat | src/transfer.py:329-349 | For every registered format, the `'tar' in chain` / `'gz' in chain` / `'bz2' in chain` tests give exactly the suffix the format name stands for. That includes 'zip', whose value is a plain string tested by substring. |
| Archive.TarGzFormats | src/transfer.py:329-347 | "tar.gz" and "tgz" resolve to (tar, gz) with mode + "\|gz". |
| Archive.TarBz2Formats | src/transfer.py:329-349 | "tar.bz2" and "tbz2" resolve to (tar, bz2) with mode + "\|bz2". |
| Archive.UnsuffixedFormats | src/transfer.py:329-349 | "tar", "gz" and "bz2" resolve to their chains and leave the mode unchanged. |
| Archive.ZipLeavesModeUnchanged | src/transfer.py:337-345 | "ZIP" finds the plain string 'zip'. Its substring test for 'tar' is false, so the mode is unchanged. |
| Archive.UnknownFormatFails | src/transfer.py:341-344 | "RAR" fails with "undiscernible archive format 'rar'". |
| Archive.AsWrittenDropsResolution | src/transfer.py:340-349 | For ("r", "tar.gz") the written code returns nothing, where the computed stream mode is "r\|gz". |
| Defaults.MergeDefaultsLookup | src/transfer.py:198-205 | A key has a default iff some class in the MRO declares it. Its value is the one of the most-derived declaring class. |
| Defaults.SubclassOverrides | src/transfer.py:198-205 | A value in the most-derived class overrides every base-class value. |
| Defaults.InheritedBufsize | src/transfer.py:182-184 | A worker whose subclasses do not redeclare `bufsize` gets 65536. |
| Defaults.GetDefaults | src/transfer.py:198-205 | The loop over the reversed MRO computes exactly the fold `MergeDefaults`. |
| Defaults.Configure | src/transfer.py:193-196 | One attribute per default key: the keyword argument when given, the default otherwise. |
| Defaults.ConfigureIgnoresUnknownKeywords | src/transfer.py:193-196 | A keyword argument without a default changes nothing. |
| Defaults.FileReaderAttributes | src/transfer.py:293-297 | A FileReader built with only a path has bufsize 65536, that path and mode "rb". |
| Accounting.SumAppend | src/transfer.py:135 | One more update adds its size to the total. |
| Accounting.SumMonotone | src/transfer.py:135 | The total never decreases as updates accumulate. |
| Accounting.Throughput.constructor | src/transfer.py:127-129 | The counter starts at 0 and no start time is set. |
| Accounting.Throughput.Update | src/transfer.py:131-135 | The counter grows by exactly `size` and stays the sum of all sizes. The start time is set by the first update and never changed afterwards. |
| Pipeline.RequestFor | src/transfer.py:120-123 | A size of `None`, 0 or "" (falsy), or a negative size within the C `long` range, reads to the end. A positive size in that range bounds the read by that size. The file read rejects a non-empty string with TypeError, and a non-zero integer outside [-2^63, 2^63 - 1] with OverflowError. |
| Pipeline.TransferPipe.constructor | src/transfer.py:100-104 | A new pipe belongs to its manager, with both ends open. |
| Pipeline.TransferPipe.CloseWrite | src/transfer.py:109-111 | The write end ends closed. A second call changes nothing. The read end never changes. |
| Pipeline.TransferPipe.CloseRead | src/transfer.py:113-115 | The read end ends closed. A second call changes nothing. The write end never changes. |
| Pipeline.TransferPipe.Close | src/transfer.py:106-107 | Delegates to the manager: exactly the ends registered to another worker become closed. |
| Pipeline.TransferPipe.Write | src/transfer.py:117-118 | Writing fails with ValueError iff the write end is closed. |
| Pipeline.TransferPipe.Read | src/transfer.py:120-123 | A closed read end raises ValueError. Otherwise a size the file read cannot convert raises that conversion's error: TypeError for a string, OverflowError for an integer beyond a C `long`. Otherwise the result is the operating system's bytes for the request the size selects. The order is Python 2's file `read`, which checks for a closed file first. |
| Pipeline.RegisterLookup | src/transfer.py:53-56 | Registering adds exactly the new end. It keeps the worker's other end and every other worker's entry. |
| Pipeline.RegisterKeepsRegistryOk | src/transfer.py:52-56 | Registering an unregistered end for a worker that lacks that mode keeps the registry consistent: names listed once, no end held twice. |
| Pipeline.ModeKeyword | src/transfer.py:57 | The keyword `_add_pipe` passes is one `endpoint_bind` accepts. |
| Pipeline.EndpointBindAsWritten | src/transfer.py:153-157 | The code as written always raises. It raises TypeError iff a keyword is not `read`/`write`, and NameError otherwise. |
| Pipeline.ConnectAsWrittenRaises | src/transfer.py:60-64 | As written, `connect` raises TypeError at the `pipe_read=` call. `_add_pipe`'s bind would raise NameError for either mode. |
| Pipeline.CloseAsWritten | src/transfer.py:67-73 | As written, `close(name)` raises AttributeError iff some worker other than `name` holds an end. |
| Pipeline.CloseAsWrittenRaisesAfterPlumbing | src/transfer.py:67-73 | After wiring two or more workers, the first of them not named "__root__", the written `close("__root__")` raises AttributeError. |
| Pipeline.PipeManager.constructor | src/transfer.py:48-50 | An empty registry with `pipe_count` 0. |
| Pipeline.PipeManager.CloseEndsOf | src/transfer.py:69-73 | One step of `close`: exactly the ends registered to that worker become closed. |
| Pipeline.PipeManager.Close | src/transfer.py:67-73 | Afterwards an end is closed iff it was closed before or it is registered to a worker other than `name`. |
| Pipeline.OwnEndsNotForeign | src/transfer.py:67-73 | The ends `name` holds belong to no other worker, so `close(name)` leaves them untouched. |
| Pipeline.PipeManager.AddPipe | src/transfer.py:52-58 | Succeeds iff the worker has no end of that mode; otherwise AssertionError with nothing changed. On success the end is registered and bound, the other end is kept, and the registry stays consistent. |
| Pipeline.PipeManager.Connect | src/transfer.py:60-65 | Succeeds iff the source lacks a write end and the target lacks a read end. On success the new open pipe becomes the source's write end and the target's read end, and `pipe_count` and the pipe list grow by one. If the source already has a write end, nothing changes. If only the target's read end exists, the failure leaves the new pipe registered and bound as the source's write end, and the target untouched. |
| Pipeline.PipeManager.AddReader | src/transfer.py:64-65 | Registers the read end and then counts the pipe. On failure the registry, the count and the target are unchanged. |
| Pipeline.ReadSize | src/transfer.py:176 | An explicit size wins. Otherwise the worker's `bufsize` attribute is passed on, whatever its value. It fails, with AttributeError, iff no size is given and the attribute is missing. |
| Pipeline.TransferWorker.constructor | src/transfer.py:186-196 | Attributes are the defaults folded along the MRO, overridden by keyword arguments. No ends are bound, and the worker is not started. Both throughput objects are new, with counter 0, no start time and an empty update history (src/transfer.py:150-151). |
| Pipeline.TransferWorker.EndpointBind | src/transfer.py:153-157 | Binds each end that is given and keeps the other. |
| Pipeline.TransferWorker.Write | src/transfer.py:171-173 | Fails iff no write end is bound (AttributeError) or it is closed (ValueError). On success the write counter grows by exactly `len(data)`, and the update is recorded with its clock reading. |
| Pipeline.TransferWorker.Read | src/transfer.py:175-179 | Uses the given size or `bufsize`; a missing attribute raises AttributeError. An unbound read end raises AttributeError, ahead of any check on the size. Then the pipe read decides, in Python 2 order: ValueError when the end is closed, else TypeError for a non-empty string size or OverflowError for an integer size beyond a C `long`, else the bytes read. On success the read counter grows by exactly their length, with the clock reading recorded. |
| Pipeline.TransferWorker.EndpointInit | src/transfer.py:159-163 | A worker with a bound end closes exactly the ends registered to other workers. A worker without one changes nothing. |
| Pipeline.TransferWorker.EndpointFinalize | src/transfer.py:165-169 | A worker with a bound end closes, through the manager, every end registered to a worker not named "final". A worker without one changes nothing. |
| Pipeline.TransferWorker.Run | src/transfer.py:212-218 | The phases are init, transfer, finalize, in that order, whether or not the transfer raised. The transfer's outcome propagates. |
| Pipeline.TransferWorker.Start | src/transfer.py:207-209 | The worker is daemonized and its transfer count reset to 0. |
| Pipeline.TransferWorker.TransferCallback | src/transfer.py:220-221 | Before `start` it raises AttributeError. Afterwards it adds the byte count unchecked, so a negative count lowers the total. The count stays the sum of all reported counts. |
| Pipeline.TotalAppend | src/transfer.py:220-221 | One more report adds exactly its count, of either sign, to the total that `transfer_count` keeps. |
| Pipeline.ChainEnds | src/transfer.py:76-81 | In a chain of n workers, every end refers to one of the n - 1 pipes. |
| Pipeline.ChainEndsBoundary | src/transfer.py:76-81 | The first worker has no read end, the last has no write end, and every other end is present. |
| Pipeline.ChainPipeOwners | src/transfer.py:76-81 | Pipe k has exactly one writer, worker k, and one reader, worker k + 1. |
| Pipeline.EndsOf | src/transfer.py:76-81 | A worker's registry entry holds exactly the modes its chain position gives it. |
| Pipeline.WiredCanConnect | src/transfer.py:55 | While plumbing distinct names, the `_add_pipe` assertion never fires. |
| Pipeline.WiredStep | src/transfer.py:79-81 | One `connect` of the next worker extends a wired chain by one pipe. |
| Pipeline.WiredHoldsEveryEnd | src/transfer.py:76-81 | In a wired chain, pipe k is worker k's write end and worker k + 1's read end. |
| Pipeline.ChainBoundStep | src/transfer.py:79-81 | Binding the new pipe to the last two workers extends the bound chain by one worker. |
| Pipeline.ChainClosedByRoot | src/transfer.py:83-84 | In a wired chain without a worker named "__root__", `close("__root__")` closes both ends of every pipe. |
| Pipeline.TransferManager.constructor | src/transfer.py:75 | The manager is its worker list, in order, with no registry until plumbing. |
| Pipeline.TransferManager.ConnectPair | src/transfer.py:79-81 | One iteration: the registry grows by one pipe, stays wired, and the pipe becomes worker i - 1's write end and worker i's read end. No other worker's ends change. |
| Pipeline.TransferManager.ConnectNext | src/transfer.py:79-81 | One iteration preserves the loop invariant: wired, bound along the chain, all pipes open and distinct. |
| Pipeline.TransferManager.PlumbWorkers | src/transfer.py:76-81 | An empty list raises IndexError. Otherwise a fresh registry holds n - 1 open, distinct pipes with `pipe_count` n - 1. It is wired as a chain, and each worker is bound to the chain's ends. Nothing else of any worker changes: attributes, phases, daemon flag, transfer count and reported counts. |
| Pipeline.TransferManager.ClosePipes | src/transfer.py:83-84 | Without a registry it raises AttributeError. Otherwise exactly the ends registered to workers other than "__root__" become closed. |
| Pipeline.TransferManager.StartWorkers | src/transfer.py:86-88 | Every worker is daemonized with count 0. No worker's bound ends, attributes or phases change. |
| Pipeline.TransferManager.PlumbAndStart | src/transfer.py:90-92 | Plumbing then starting: the plumbing guarantees hold, and every worker is started. Its attributes and phases are as before. |
| Pipeline.TransferManager.Start | src/transfer.py:90-93 | Combines the three steps. Workers are wired and bound as a chain of n - 1 pipes, and started, with their attributes and phases as before. An end is closed iff a worker other than "__root__" holds it. With no worker named "__root__", every pipe is closed at both ends in the parent. |

## Left out

- OS pipes, file descriptors, blocking I/O and the bytes in transit. A pipe is only its two close flags, and the bytes a read returns are a function parameter.
- Process creation, `join` (src/transfer.py:95-97) and `super().start()` (src/transfer.py:210). They are concurrency.
- Per-process descriptor copies. After a fork each process has its own copy of every descriptor. The model keeps one shared close state per pipe, so `endpoint_init`, `endpoint_finalize` and `close_pipes` act on that one state.
- The compression, tar, file, URI and S3 workers (src/transfer.py:223-327). Their `transfer` methods are library and I/O calls. `run` takes the transfer's outcome as a parameter.
- `Manifest.walk` and `get_size` (src/transfer.py:22-31). They are a filesystem traversal (which is also broken as written). The walk is an input sequence.
- `os.path.normpath`. Paths are component lists assumed to be normalised (no "." or "..", no empty components), so `abspath` is prefixing the working directory.
- Manifests.RelPath: `os.path.relpath` raises ValueError for an empty path. The model's empty path `Path(false, [])` is instead the working directory. The walk builds every path with `os.path.join(root, name)`, so it never yields an empty one.
- `Throughput.throughput` (src/transfer.py:137-144). It is float division over wall-clock time and uses an undefined `now`. The clock is an abstract timestamp parameter of `Update`.
- uuid-based worker naming (src/transfer.py:188-189). It is random. Names are given strings, and `plumb_workers` requires them distinct.
- `upload_factory` (src/transfer.py:351-356). It is an unfinished stub calling undefined functions.
- src/hooks.py, src/session.py, setup.py and test/test.py. They are S3 SDK glue, packaging and integration tests.
- Archive.Lower: `str.lower()` is modelled for ASCII letters only. Other Unicode case mappings are not modelled.
- Pipeline.PipeManager.Close: the `name=None` default is the case of a name no worker has.
- Pipeline.TransferPipe.Close: `close(name=None)` also has a default. The model makes `name` a required parameter, and the default is the case of a name no worker has.
- Archive.ArchiveFactory: the defaults `mode='r'` and `ext="tar.gz"` are not default parameters. A call without arguments is `ArchiveFactory("r", "tar.gz")`, whose result `AsWrittenDropsResolution` states.
- Manifests.Arcname: the option values "" and `None` are both `Unset`. A `relpath` or `arcpath` of "." is not represented. It is truthy, and its normalised form is the working directory itself, whereas the model's path components are taken as already normalised.

## Findings

| source | as written | input that shows it | evidently intended | confidence | as-written member | corrected member |
|---|---|---|---|---|---|---|
| src/transfer.py:62 | `connect` calls `target.endpoint_bind(pipe_read=pipe)`, a keyword `endpoint_bind(self, read=None, write=None)` does not accept: TypeError | any `connect(a, b)` | the read end is bound by `_add_pipe(target, "read", pipe)`, so the line is dropped | not executed | Pipeline.ConnectAsWrittenRaises | Pipeline.PipeManager.Connect |
| src/transfer.py:153-157 | `endpoint_bind` tests `pipe_read` / `pipe_write`, names unbound in its scope: NameError on every call | `endpoint_bind(read=p)` from `_add_pipe` | test the parameters `read` / `write` | not executed | Pipeline.EndpointBindAsWritten | Pipeline.TransferWorker.EndpointBind |
| src/transfer.py:67-73 | `close` calls `close_read()` / `close_write()` on the per-worker dictionary of ends: AttributeError | `close("__root__")` after plumbing two workers | close `pp["read"]` / `pp["write"]` | not executed | Pipeline.CloseAsWrittenRaisesAfterPlumbing | Pipeline.PipeManager.Close |
| src/transfer.py:340-349 | `archive_factory` computes the chain and the stream mode but has no `return`, so it yields None | `archive_factory("r", "tar.gz")` | return the chain and the mode "r\|gz" | not executed | Archive.AsWrittenDropsResolution | Archive.ArchiveFactory |
