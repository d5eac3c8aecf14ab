# Perishable file system, modelled in Dafny

`PerishableFileSystem` watches a directory tree for files with one extension.
Each file it knows about is a *perishable*: the file's full path together with
a lifetime that ends when the file goes away. The object keeps three pieces of
state:

- `FileSouls`: the registry, from a full path to that path's `LifetimeSource`;
- `AllFiles`: the perishable collection, to which every (path, lifetime) pair
  is added;
- `OnError`: the error channel.

The object starts with an initial scan of the directory. From then on the
watcher's Created, Deleted, Changed, Renamed and Error events update the
state. Disposing it stops the watcher and makes every remaining lifetime
immortal, so that shutting down does not look like every file being deleted.

The model has four modules:

- `Lifetimes` (`lifetimes.dfy`): the three states a lifetime source can be
  in (`Alive`, `Ended`, `Immortal`). It defines `End` (EndLifetime) and
  `Immortalize` (ImmortalizeLifetime).
- `FileFilter` (`file_filter.dfy`): the watcher filter `"*." +
  extension.Trim('.')`. .NET's `String.Trim(char)` is written out as
  `TrimStart`/`TrimEnd`.
- `PerishableRegistry` (`registry.dfy`): the registry as a state machine over
  values. An `FsState` holds:
  - `souls`: the registry map;
  - `sources`: the table of every lifetime source ever created, where
    `SourceId` is an index into it;
  - `items`: every pair added to `AllFiles`, in order;
  - `errors`: the error log;
  - `disposed`.

  There is one step function per handler. The invariant `Inv` says four
  things:
  - every registered path maps to an existing Alive source (Immortal once
    disposed);
  - every registration was delivered to the collection;
  - no source was delivered twice;
  - a delivered item is live (its source has not ended) exactly when it is
    still its path's registration.

  The lemmas state what each step does, and that each step keeps `Inv`.
- `PerishableFiles` (`perishable_file_system.dfy`): the class
  `PerishableFileSystem`. Its fields are updated in place by the handler
  methods. Each method is proved to move `Model()` exactly as its step
  function prescribes, so the lemmas of `PerishableRegistry` apply to the
  object.

Created, Changed and Deleted call each other. Created on a registered path
runs Changed. Changed runs Deleted, then Created. After Deleted the path is
absent, so the inner Created takes the insert branch and the recursion stops
after one round. The `decreases` clauses of `CreatedStep`/`ChangedStep` and of
`OnCreated`/`OnChanged` state this.

A Created event on a path without an extension is taken for a directory and
handed to `addDir` (RX_THING/PerishableFileWatcher.cs:72-79). That walk looks
like a rescan, but it recurses into `addDir` for every file and never calls
`addFile`, so it registers nothing. `CreatedStep` therefore leaves the
registry unchanged in that case.

## Model

| member | source | states |
|---|---|---|
| Lifetimes.End | RX_THING/PerishableFileWatcher.cs:107 | EndLifetime ends every source that is not immortal, and an immortal source stays immortal |
| Lifetimes.Immortalize | RX_THING/PerishableFileWatcher.cs:56 | ImmortalizeLifetime makes every source that has not ended immortal, and an ended source stays ended |
| Lifetimes.Transitions | RX_THING/PerishableFileWatcher.cs:56 | ending twice is ending once; immortalizing twice is immortalizing once; ending an immortal source changes nothing; an ended or immortal source never changes state again |
| FileFilter.TrimStart | RX_THING/PerishableFileWatcher.cs:18 | the result is a suffix of the input; what was cut is all c; the result does not start with c |
| FileFilter.TrimEnd | RX_THING/PerishableFileWatcher.cs:18 | the result is a prefix of the input; what was cut is all c; the result does not end with c |
| FileFilter.Trim | RX_THING/PerishableFileWatcher.cs:18 | the trimmed extension is no longer than the input and neither starts nor ends with the trimmed character |
| FileFilter.Filter | RX_THING/PerishableFileWatcher.cs:18 | the filter starts with "*." and the part after it neither starts nor ends with '.' |
| FileFilter.TrimOfPadded | RX_THING/PerishableFileWatcher.cs:18 | Trim removes exactly the runs of c around a core that does not start or end with c |
| FileFilter.TrimIgnoresPadding | RX_THING/PerishableFileWatcher.cs:18 | extra runs of c on either side do not change what Trim returns |
| FileFilter.FilterIgnoresDots | RX_THING/PerishableFileWatcher.cs:18 | any dots before or after the configured extension give the same filter |
| FileFilter.FilterExamples | RX_THING/PerishableFileWatcher.cs:18 | "txt", ".txt", "txt." and "..txt.." all give the filter "*.txt" |
| FileFilter.FilterOfDotsOnly | RX_THING/PerishableFileWatcher.cs:18 | an extension made only of dots, or an empty one, gives the bare filter "*." |
| PerishableRegistry.Live | RX_THING/PerishableFileWatcher.cs:49 | the live set holds exactly the delivered items whose lifetime has not ended |
| PerishableRegistry.Inv | RX_THING/PerishableFileWatcher.cs:47-51 | the registry invariant: every registered path holds an existing Alive source (Immortal once disposed) that was delivered to AllFiles; no source is delivered twice; an item is live exactly while it is its path's registration |
| PerishableRegistry.RegisterStep | RX_THING/PerishableFileWatcher.cs:33-41 | a new LifetimeSource, then TryAdd. A fresh Alive source is appended either way. An absent path is mapped to it and one item is delivered. A present path keeps its registration and items, and the given error is logged |
| PerishableRegistry.DeletedStep | RX_THING/PerishableFileWatcher.cs:104-109 | TryRemove, then EndLifetime on the removed source: the path leaves the registry, EndLifetime is applied to the source it had, and items, errors and the source count are unchanged |
| PerishableRegistry.CreatedStep | RX_THING/PerishableFileWatcher.cs:64-95 | no extension: the state is unchanged. Otherwise, registered or not, the path ends up mapped to the newest source (one past the old count), which is Alive; exactly one item for it is delivered; no error is logged |
| PerishableRegistry.ChangedStep | RX_THING/PerishableFileWatcher.cs:60-63 | Deleted, then Created. For a file the result is a fresh Alive source delivered as one item. Without an extension it is just the Deleted step |
| PerishableRegistry.RenamedStep | RX_THING/PerishableFileWatcher.cs:113-116 | Deleted of the old path, then Created of the new one. For a new path with an extension, the registered keys lose the old path and gain the new one, which holds a fresh Alive source delivered as one item. Otherwise it is just the Deleted step |
| PerishableRegistry.AddCreatedFileStep | RX_THING/PerishableFileWatcher.cs:97-102 | a new source, AddOrUpdate, then Add: the path is mapped to the fresh source; a source it had is ended; exactly one item is delivered; no error is logged |
| PerishableRegistry.ErrorStep | RX_THING/PerishableFileWatcher.cs:110-112 | the error is forwarded: exactly one WatcherFailure is appended to the log, and nothing else changes |
| PerishableRegistry.DisposeStep | RX_THING/PerishableFileWatcher.cs:53-58 | the watcher is stopped and every registered source is immortalized: registry, items and errors are unchanged; no source changes whether it has ended; no registered source is left Alive |
| PerishableRegistry.ScanSteps | RX_THING/PerishableFileWatcher.cs:24-43 | the scan insert for each scanned path in turn: one new source per path; every earlier and every scanned path ends up registered |
| PerishableRegistry.SourcesDistinct | RX_THING/PerishableFileWatcher.cs:47 | under the invariant, no lifetime source is shared by two registered paths |
| PerishableRegistry.LiveSetIsRegistry | RX_THING/PerishableFileWatcher.cs:47-51 | the paths of the live items are exactly the registered paths; each live item carries its path's registered source; no path has two live items |
| PerishableRegistry.RegisterSpec | RX_THING/PerishableFileWatcher.cs:33-41 | scan insert keeps the invariant; an absent path gets a fresh Alive source and exactly one new item with no other path touched; a present path leaves registry and items unchanged and logs exactly one error; no earlier source changes |
| PerishableRegistry.DeletedSpec | RX_THING/PerishableFileWatcher.cs:104-109 | Deleted keeps the invariant, removes only that path, ends the source it had, touches no other source or item, and changes nothing when the path was not registered |
| PerishableRegistry.CreatedSpec | RX_THING/PerishableFileWatcher.cs:64-95 | Created of a file keeps the invariant; the path gets a fresh Alive source and one new item; any source it had is ended; no other path or source changes; an extensionless path changes nothing |
| PerishableRegistry.ChangedSpec | RX_THING/PerishableFileWatcher.cs:60-63 | Changed ends the old source and registers a fresh one that differs from the old, delivered as one new item, so identity is not preserved |
| PerishableRegistry.RenamedSpec | RX_THING/PerishableFileWatcher.cs:113-116 | Renamed keeps the invariant; the old path is unregistered and its source ended; the new path gets a fresh Alive source and one new item, ending any source it had; no other path or source changes |
| PerishableRegistry.RenamedRemovesOld | RX_THING/PerishableFileWatcher.cs:113-116 | after Renamed the old path is gone (unless it was renamed onto itself) and its source has ended |
| PerishableRegistry.RenamedRegistersNew | RX_THING/PerishableFileWatcher.cs:113-116 | after Renamed to a file, the new path holds a fresh source delivered once; the sources of both paths have ended; nothing else changed |
| PerishableRegistry.RenamedEndsOld | RX_THING/PerishableFileWatcher.cs:114 | the source the old path had is ended after Renamed |
| PerishableRegistry.RenamedEndsNew | RX_THING/PerishableFileWatcher.cs:115 | a source the new path already had is ended after Renamed |
| PerishableRegistry.RenamedKeepsOthers | RX_THING/PerishableFileWatcher.cs:113-116 | Renamed touches no path other than the two named, and no source other than theirs |
| PerishableRegistry.AddCreatedFileSpec | RX_THING/PerishableFileWatcher.cs:97-102 | add-or-replace keeps the invariant, ends any previous source of the path, maps the path to a fresh source, and delivers exactly one item whether or not the path was present |
| PerishableRegistry.AddCreatedFileIsCreated | RX_THING/PerishableFileWatcher.cs:80-102 | addCreatedFile and the Created handler have the same effect on every file |
| PerishableRegistry.ErrorSpec | RX_THING/PerishableFileWatcher.cs:110-112 | a watcher error only appends to the error log; registry, sources and items are untouched |
| PerishableRegistry.LiveKeepsUnended | RX_THING/PerishableFileWatcher.cs:49 | the live set depends only on which sources have ended |
| PerishableRegistry.DisposeSpec | RX_THING/PerishableFileWatcher.cs:53-58 | Dispose makes every registered source Immortal and ends none; registry, items and live set are unchanged; a later EndLifetime on a registered source has no effect |
| PerishableRegistry.DisposeIdempotent | RX_THING/PerishableFileWatcher.cs:53-58 | disposing twice is the same as disposing once |
| PerishableRegistry.ImmortalizeOneMore | RX_THING/PerishableFileWatcher.cs:55-57 | one more turn of the Dispose loop immortalizes one more registered source |
| PerishableRegistry.ScanKeeps | RX_THING/PerishableFileWatcher.cs:24-43 | the initial scan keeps the registry invariant |
| PerishableRegistry.ScanKeys | RX_THING/PerishableFileWatcher.cs:32-37 | after the scan, a path is registered exactly when it was registered before or was scanned |
| PerishableRegistry.ScanSpec | RX_THING/PerishableFileWatcher.cs:24-43 | the initial scan keeps the invariant and registers exactly the scanned paths |
| PerishableRegistry.ScanAccounting | RX_THING/PerishableFileWatcher.cs:32-42 | each scanned path creates one source and gives either one delivered item or one duplicate error, never both |
| PerishableRegistry.Walkthrough | RX_THING/PerishableFileWatcher.cs:17-116 | scan a, create b, delete a, rename b to c, dispose: the live set after each step is [a], [a, b], [b], [c], [c]; at the end a's and b's lifetimes have ended, c's is immortal, and no error was raised |
| PerishableFiles.PerishableFileSystem.constructor | RX_THING/PerishableFileWatcher.cs:17-44 | the filter is "*." plus the trimmed extension, and the state is the initial scan of the given files, which satisfies the invariant |
| PerishableFiles.PerishableFileSystem.TryRegister | RX_THING/PerishableFileWatcher.cs:34-41 | a fresh source, then TryAdd: the new state is RegisterStep's and the invariant holds |
| PerishableFiles.PerishableFileSystem.OnDeleted | RX_THING/PerishableFileWatcher.cs:104-109 | the new state is DeletedStep's; the path is no longer registered; the invariant holds |
| PerishableFiles.PerishableFileSystem.OnCreated | RX_THING/PerishableFileWatcher.cs:64-95 | the new state is CreatedStep's for the path's HasExtension; the invariant holds |
| PerishableFiles.PerishableFileSystem.OnChanged | RX_THING/PerishableFileWatcher.cs:60-63 | the new state is ChangedStep's, that is, Deleted followed by Created; the invariant holds |
| PerishableFiles.PerishableFileSystem.OnRenamed | RX_THING/PerishableFileWatcher.cs:113-116 | the new state is RenamedStep's, that is, Deleted of the old path followed by Created of the new one; the invariant holds |
| PerishableFiles.PerishableFileSystem.OnWatcherError | RX_THING/PerishableFileWatcher.cs:110-112 | before Dispose, the error is forwarded: the new state is ErrorStep's and the invariant holds |
| PerishableFiles.PerishableFileSystem.AddCreatedFile | RX_THING/PerishableFileWatcher.cs:97-102 | the new state is AddCreatedFileStep's; the invariant holds |
| PerishableFiles.PerishableFileSystem.Dispose | RX_THING/PerishableFileWatcher.cs:53-58 | the loop over FileSouls.Values immortalizes exactly the registered sources; the new state is DisposeStep's; the invariant holds |
| PerishableFiles.PerishableFileSystem.CurrentFiles | RX_THING/PerishableFileWatcher.cs:49-51 | the loop returns the live set of AllFiles; its paths are exactly the registered paths, each with its registered source |

## Left out

- The directory watcher (`FSWatcherWrapper`, RX_THING/PerishableFileWatcher.cs:124-168) is not modelled. This covers the setup of `FileSystemWatcher`, `EnableRaisingEvents` and the nulling of `Host`. It is operating-system event plumbing. The handlers are methods called directly with the event's path.
- Handlers after Dispose: the watcher wrapper stops forwarding events once it is disposed (lines 146-155 forward through `Host?.`, and line 160 clears `Host`). So every handler method, the error handler included, requires `!disposed`.
- Directory enumeration is not modelled: `Directory.GetDirectories`/`GetFiles` and the recursive walks at lines 26-43 and 72-79 are file-system I/O. The initial scan is a loop over a given sequence of already normalised full paths. So whether the scan descends into subdirectories (the `includeSubdirectories` argument, `true` by default, line 17 and line 27) is decided by whoever builds that sequence; the watcher's own `IncludeSubdirectories` setting (line 132) is left out with the watcher.
- The exception thrown by the extensionless-Created walk is not modelled. At line 77 the walk calls `addDir(file)` for each file, and line 73 then calls `Directory.GetDirectories` on a file path, which throws. The walk therefore throws out of the handler at the first file it meets. It also throws when the path is an extensionless file, or no longer exists. When this happens inside Changed or Renamed, the Deleted half has already run. The model keeps only the state effect, which is none: `CreatedStep` returns its state unchanged, and `ChangedStep`/`RenamedStep` keep the effect of their Deleted half.
- Path library calls: `Path.GetFullPath` is not modelled, and the scanned paths are taken as already full. `Path.HasExtension` is a function given to the constructor. The old full path of a Renamed event is given directly. The string reconstruction at line 114 (`OldFullPath.Replace(OldName, "")`, recombined by `FileSystemEventArgs`) is not modelled.
- `LifetimeSource`/`Lifetime` and `PerishableCollection` belong to a library that is not part of this model. They are replaced by the three-state table and by an append-only sequence of delivered items.
  - The live set a new subscriber is first given is computed by `CurrentFiles`.
  - The stream of later additions from `CurrentAndFutureFiles` (line 51) is not modelled.
  - The atomicity of taking a snapshot and attaching to the live stream is not modelled; it is a concurrency property of that library.
- Concurrency: `ConcurrentDictionary` and the watcher's threads are not modelled. Every handler is one sequential, atomic step.
- Error delivery is not modelled. The error log records every `OnError?.Invoke` site that is reached, not the errors some handler received. A duplicate during the initial scan (line 39) is raised inside the constructor, before any handler can be attached to `OnError` (line 118), so it is never delivered. In the source that duplicate can happen only when a watcher thread races with the scan, since the watcher is enabled (line 19) before the scan starts (line 24). In the model it happens only when `initialFiles` repeats a path.
- The error payloads are not modelled: the `ErrorEventArgs`/`Exception` objects and their messages (lines 39-40, 90-91, 111) are reduced to the three cases of `Error`.
- The unreachable `else` branch of `addFile` (lines 89-92) is not modelled separately. `TryAdd` cannot fail there for a single sequential step, because the key was just checked to be absent. The model shares the insert with the initial scan, whose failure branch is reachable.
- Lifetimes.Immortalize: immortalizing an ended source is modelled as a no-op. The model never reaches it: Dispose only immortalizes registered sources, which are Alive.
- RX_THING/MainWindow.cs is user-interface and demonstration code and is not part of this model.
