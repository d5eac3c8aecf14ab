/**
 * PerishableFileSystem: the registry of watched files, updated in place by
 * the watcher's event handlers. Each handler is one sequential step and is
 * proved to take the registry from one state to the state the step functions
 * of PerishableRegistry prescribe, so every lemma proved there holds of it.
 */
module PerishableFiles {
  import opened Lifetimes
  import opened FileFilter
  import opened PerishableRegistry

  class PerishableFileSystem {
    /** The watcher's file-name filter, "*." and the trimmed extension. */
    const filter: string
    /** Path.HasExtension, which belongs to the platform and is taken as given. */
    const hasExtension: Path -> bool

    /** FileSouls: full path to the lifetime source that path owns. */
    var fileSouls: map<Path, SourceId>
    /** Every LifetimeSource created so far, by SourceId. */
    var sources: seq<LifeState>
    /** Every (path, lifetime) pair added to the AllFiles collection, in order. */
    var allFiles: seq<Item>
    /** Every error raised through OnError, in order. */
    var errors: seq<Error>
    /** Set once Dispose has stopped the watcher. */
    var disposed: bool

    function Model(): FsState
      reads this
    {
      FsState(fileSouls, sources, allFiles, errors, disposed)
    }

    ghost predicate Valid()
      reads this
    {
      Inv(Model())
    }

    /** Builds the filter, then inserts every file found by the initial scan. */
    constructor (extension: string, initialFiles: seq<Path>, hasExtension: Path -> bool)
      ensures filter == Filter(extension) && this.hasExtension == hasExtension
      ensures Valid() && !disposed
      ensures Model() == ScanSteps(Initial, initialFiles)
    {
      filter := Filter(extension);
      this.hasExtension := hasExtension;
      fileSouls, sources, allFiles, errors, disposed := map[], [], [], [], false;
      new;
      var i := 0;
      while i < |initialFiles|
        invariant 0 <= i <= |initialFiles|
        invariant Model() == ScanSteps(Initial, initialFiles[..i])
      {
        ScanSpec(Initial, initialFiles[..i]);
        assert initialFiles[..i + 1][..i] == initialFiles[..i];
        ghost var next := ScanSteps(Initial, initialFiles[..i + 1]);
        assert next == RegisterStep(Model(), initialFiles[i], InitialScanDuplicate);
        TryRegister(initialFiles[i], InitialScanDuplicate);
        i := i + 1;
      }
      assert initialFiles[..i] == initialFiles;
      ScanSpec(Initial, initialFiles);
    }

    /**
     * A new LifetimeSource and FileSouls.TryAdd: on success the pair goes to
     * AllFiles, on failure `err` is raised.
     */
    method TryRegister(p: Path, err: Error)
      requires Valid() && !disposed
      modifies this
      ensures Valid() && !disposed
      ensures Model() == RegisterStep(old(Model()), p, err)
    {
      RegisterSpec(Model(), p, err);
      var source := |sources|;
      sources := sources + [Alive];
      if p !in fileSouls {
        fileSouls := fileSouls[p := source];
        allFiles := allFiles + [Item(p, source)];
      } else {
        errors := errors + [err];
      }
    }

    /** fileSystemWatcher_Deleted: TryRemove, then EndLifetime on the removed source. */
    method OnDeleted(p: Path)
      requires Valid() && !disposed
      modifies this
      ensures Valid() && !disposed
      ensures p !in fileSouls
      ensures Model() == DeletedStep(old(Model()), p)
    {
      DeletedSpec(Model(), p);
      if p in fileSouls {
        var source := fileSouls[p];
        fileSouls := fileSouls - {p};
        sources := EndAt(sources, source);
      }
    }

    /**
     * fileSystemWatcher_Created: a path without an extension is a directory,
     * whose walk registers nothing; a file already registered is handled as
     * Changed; any other file is registered.
     */
    method OnCreated(p: Path)
      requires Valid() && !disposed
      modifies this
      ensures Valid() && !disposed
      ensures Model() == CreatedStep(old(Model()), p, hasExtension(p))
      decreases if p in fileSouls then 2 else 0
    {
      CreatedSpec(Model(), p, hasExtension(p));
      if hasExtension(p) {
        if p in fileSouls {
          OnChanged(p);
        } else {
          TryRegister(p, CreatedDuplicate);
        }
      }
    }

    /** fileSystemWatcher_Changed: Deleted, then Created. */
    method OnChanged(p: Path)
      requires Valid() && !disposed
      modifies this
      ensures Valid() && !disposed
      ensures Model() == ChangedStep(old(Model()), p, hasExtension(p))
      decreases 1
    {
      OnDeleted(p);
      OnCreated(p);
    }

    /** fileSystemWatcher_Renamed: Deleted of the old path, then Created of the new one. */
    method OnRenamed(oldPath: Path, newPath: Path)
      requires Valid() && !disposed
      modifies this
      ensures Valid() && !disposed
      ensures Model() == RenamedStep(old(Model()), oldPath, newPath, hasExtension(newPath))
    {
      OnDeleted(oldPath);
      OnCreated(newPath);
    }

    /** fileSystemWatcher_Error: forwards the watcher's error to OnError. */
    method OnWatcherError(cause: string)
      requires Valid() && !disposed
      modifies this
      ensures Valid() && !disposed
      ensures Model() == ErrorStep(old(Model()), cause)
    {
      ErrorSpec(Model(), cause);
      errors := errors + [WatcherFailure(cause)];
    }

    /**
     * addCreatedFile: a new source, AddOrUpdate (ending the source it
     * replaces), then the pair goes to AllFiles.
     */
    method AddCreatedFile(p: Path)
      requires Valid() && !disposed
      modifies this
      ensures Valid() && !disposed
      ensures Model() == AddCreatedFileStep(old(Model()), p)
    {
      AddCreatedFileSpec(Model(), p);
      var source := |sources|;
      sources := sources + [Alive];
      if p in fileSouls {
        sources := EndAt(sources, fileSouls[p]);
      }
      fileSouls := fileSouls[p := source];
      allFiles := allFiles + [Item(p, source)];
    }

    /** Dispose: stop the watcher, then immortalize every source left in FileSouls. */
    method Dispose()
      requires Valid()
      modifies this
      ensures Valid() && disposed
      ensures Model() == DisposeStep(old(Model()))
    {
      disposed := true;
      var todo := fileSouls.Values;
      ghost var done: set<SourceId> := {};
      while todo != {}
        invariant done + todo == fileSouls.Values
        invariant fileSouls == old(fileSouls) && allFiles == old(allFiles) && errors == old(errors)
        invariant disposed
        invariant sources == ImmortalizeAll(old(sources), done)
        decreases todo
      {
        var source :| source in todo;
        ImmortalizeOneMore(old(sources), done, source);
        sources := ImmortalizeAt(sources, source);
        done, todo := done + {source}, todo - {source};
      }
      assert Model() == DisposeStep(old(Model()));
      DisposeSpec(old(Model()));
    }

    /**
     * The files a new subscriber is first given: the delivered items whose
     * lifetime has not ended. They are exactly the registered files, each
     * with the lifetime of its registered source.
     */
    method CurrentFiles() returns (live: seq<Item>)
      requires Valid()
      ensures live == Live(allFiles, sources)
      ensures (set x | x in live :: x.path) == fileSouls.Keys
      ensures forall x | x in live :: x.path in fileSouls && fileSouls[x.path] == x.source
    {
      live := [];
      var i := 0;
      while i < |allFiles|
        invariant 0 <= i <= |allFiles|
        invariant live == Live(allFiles[..i], sources)
      {
        assert allFiles[..i + 1][..i] == allFiles[..i];
        if IsLive(sources, allFiles[i]) {
          live := live + [allFiles[i]];
        }
        i := i + 1;
      }
      assert allFiles[..i] == allFiles;
      LiveSetIsRegistry(Model());
    }
  }
}
