/**
 * The depot context: a depot root directory, a settings file, and the settings loaded from it.
 * `Create` validates the file name, then checks (and, when asked to, creates) the root directory,
 * then the settings file, and finally loads the settings.
 */
module DepotContexts {
  import opened Wrappers
  import opened Paths

  const DefaultConfigFileName: string := "depot.config"

  /** How the settings were loaded: merged with the machine-wide and user defaults, or from the file alone. */
  datatype MergedSettings =
    | MergedWithDefaults(settingsRoot: string, configFileName: string)
    | SpecificOnly(settingsRoot: string, configFileName: string)

  datatype DepotContext = DepotContext(depotRoot: string, configFile: string, mergedSettings: MergedSettings)

  datatype CreateError =
    | ConfigNameIsDirectory    // ArgumentException: the file name ends in a separator
    | EmptyPath                // ArgumentException from `Path.GetFullPath`
    | DepotRootNotFound        // DirectoryNotFoundException
    | DepotRootIsFile          // IOException from creating the root: a file already has its name
    | SettingsFileNotFound     // FileNotFoundException
    | SettingsPathIsDirectory  // saving the new settings file fails: a directory already has its name

  /** What a file holds: whatever was there before, or the empty settings document `SaveToDisk` writes. */
  datatype FileContent = ExistingContent(text: string) | EmptySettingsDocument

  /**
   * `Path.GetFullPath` against the current directory (normalisation of `.` and `..` is not modelled):
   * an empty path is refused, a rooted path is already full, and a relative path is resolved below
   * the current directory.
   */
  function GetFullPath(currentDirectory: string, path: string): (r: Result<string, CreateError>)
    ensures r.Failure? <==> path == []
    ensures r.Failure? ==> r.error == EmptyPath
    ensures IsRooted(path) ==> r == Success(path)
    ensures r.Success? && IsRooted(currentDirectory) ==> IsRooted(r.value)
    ensures r.Success? && !IsRooted(path) && currentDirectory != [] ==>
      |r.value| > |currentDirectory| && r.value[..|currentDirectory|] == currentDirectory
  {
    if path == [] then Failure(EmptyPath) else Success(Combine(currentDirectory, path))
  }

  /** The disk state `Create` works against. */
  datatype DiskState = DiskState(directories: set<string>, files: map<string, FileContent>)

  /**
   * The outcome of `Create` on a disk: the context or the exception, and the disk afterwards.
   * `Create` tests its inputs in this order: a directory-like file name, then the two
   * paths, then the root (missing, or taken by a file when it is to be created), then the settings
   * file (missing, or taken by a directory when it is to be written). On success both exist and
   * nothing that already existed is recreated or overwritten; an error leaves the files untouched
   * and at most adds the root directory.
   */
  function CreateOutcome(disk: DiskState, currentDirectory: string, depotRootPath: string, settingsRootPath: string,
                         configFileName: string, createDepotIfNotExist: bool, mergeDefaultSettings: bool)
    : (out: (Result<DepotContext, CreateError>, DiskState))
    ensures EndsInDirectorySeparator(configFileName) ==> out == (Failure(ConfigNameIsDirectory), disk)
    ensures !EndsInDirectorySeparator(configFileName) && (depotRootPath == [] || settingsRootPath == []) ==>
      out == (Failure(EmptyPath), disk)
    ensures out.0.Failure? ==> out.1.files == disk.files && disk.directories <= out.1.directories
    ensures !EndsInDirectorySeparator(configFileName) && depotRootPath != [] && settingsRootPath != [] ==>
      var root := GetFullPath(currentDirectory, depotRootPath).value;
      var config := Combine(GetFullPath(currentDirectory, settingsRootPath).value, configFileName);
      var rootReady := root in disk.directories || (createDepotIfNotExist && root !in disk.files);
      && (root !in disk.directories && !createDepotIfNotExist ==> out == (Failure(DepotRootNotFound), disk))
      && (root !in disk.directories && root in disk.files && createDepotIfNotExist ==> out == (Failure(DepotRootIsFile), disk))
      && (root in disk.directories && config !in disk.files && !createDepotIfNotExist ==>
            out == (Failure(SettingsFileNotFound), disk))
      && (rootReady && createDepotIfNotExist && config !in disk.files && config in disk.directories + {root} ==>
            out == (Failure(SettingsPathIsDirectory), disk.(directories := disk.directories + {root})))
      && (out.0.Success? <==>
            rootReady && (config in disk.files || (createDepotIfNotExist && config !in disk.directories + {root})))
      && (out.0.Success? ==>
            && out.0.value.depotRoot == root && out.0.value.configFile == config
            && out.1.directories == disk.directories + {root}
            && out.1.files.Keys == disk.files.Keys + {config}
            && (forall f | f in disk.files :: out.1.files[f] == disk.files[f])
            && (config !in disk.files ==> out.1.files[config] == EmptySettingsDocument))
  {
    if EndsInDirectorySeparator(configFileName) then (Failure(ConfigNameIsDirectory), disk)
    else
      var rootPath := GetFullPath(currentDirectory, depotRootPath);
      var settingsRootPath := GetFullPath(currentDirectory, settingsRootPath);
      if rootPath.Failure? then (Failure(rootPath.error), disk)
      else if settingsRootPath.Failure? then (Failure(settingsRootPath.error), disk)
      else
        var root, settingsRoot := rootPath.value, settingsRootPath.value;
        if root !in disk.directories && !createDepotIfNotExist then (Failure(DepotRootNotFound), disk)
        else if root !in disk.directories && root in disk.files then (Failure(DepotRootIsFile), disk)
        else
          var withRoot := disk.(directories := disk.directories + {root});
          var config := Combine(settingsRoot, configFileName);
          // without creation the root already existed, so `withRoot` is `disk` here
          if config !in withRoot.files && !createDepotIfNotExist then (Failure(SettingsFileNotFound), disk)
          else if config !in withRoot.files && config in withRoot.directories then (Failure(SettingsPathIsDirectory), withRoot)
          else
            var saved := if config in withRoot.files then withRoot else withRoot.(files := withRoot.files[config := EmptySettingsDocument]);
            var settings := if mergeDefaultSettings then MergedWithDefaults(settingsRoot, configFileName)
                            else SpecificOnly(settingsRoot, configFileName);
            (Success(DepotContext(root, config, settings)), saved)
  }

  /** The file system `Create` works against. */
  class Disk {
    const currentDirectory: string
    var directories: set<string>
    var files: map<string, FileContent>

    constructor (currentDirectory: string, directories: set<string>, files: map<string, FileContent>)
      ensures this.currentDirectory == currentDirectory && this.directories == directories && this.files == files
    {
      this.currentDirectory := currentDirectory;
      this.directories := directories;
      this.files := files;
    }

    function State(): DiskState
      reads this
    {
      DiskState(directories, files)
    }

    /**
     * `DepotContext.Create(depotRootPath, settingsRootPath, configFileName, createDepotIfNotExist,
     * mergeDefaultSettings)`, step by step.
     */
    method Create(depotRootPath: string, settingsRootPath: string, configFileName: string,
                  createDepotIfNotExist: bool, mergeDefaultSettings: bool)
      returns (r: Result<DepotContext, CreateError>)
      modifies this
      ensures (r, State()) == CreateOutcome(old(State()), currentDirectory, depotRootPath, settingsRootPath,
                                            configFileName, createDepotIfNotExist, mergeDefaultSettings)
    {
      if EndsInDirectorySeparator(configFileName) {
        return Failure(ConfigNameIsDirectory);
      }
      ghost var before := State();
      var rootPath := GetFullPath(currentDirectory, depotRootPath);
      if rootPath.Failure? {
        return Failure(rootPath.error);
      }
      var settingsRootPath := GetFullPath(currentDirectory, settingsRootPath);
      if settingsRootPath.Failure? {
        return Failure(settingsRootPath.error);
      }
      var root, settingsRoot := rootPath.value, settingsRootPath.value;
      if root !in directories {
        if !createDepotIfNotExist {
          return Failure(DepotRootNotFound);
        }
        if root in files {
          return Failure(DepotRootIsFile);
        }
        directories := directories + {root};
      }
      assert directories == before.directories + {root};
      var configFile := Combine(settingsRoot, configFileName);
      if configFile !in files {
        if !createDepotIfNotExist {
          return Failure(SettingsFileNotFound);
        }
        if configFile in directories {
          return Failure(SettingsPathIsDirectory);
        }
        files := files[configFile := EmptySettingsDocument];
      }
      var settings := if mergeDefaultSettings then MergedWithDefaults(settingsRoot, configFileName)
                      else SpecificOnly(settingsRoot, configFileName);
      r := Success(DepotContext(root, configFile, settings));
    }

    /** `Create(settingsRootPath, configFileName, mergeDefaultSettings)`: the current directory as root, no creation. */
    method CreateFromSettings(settingsRootPath: string, configFileName: string, mergeDefaultSettings: bool)
      returns (r: Result<DepotContext, CreateError>)
      modifies this
      ensures (r, State()) == CreateOutcome(old(State()), currentDirectory, currentDirectory, settingsRootPath,
                                            configFileName, false, mergeDefaultSettings)
    {
      r := Create(currentDirectory, settingsRootPath, configFileName, false, mergeDefaultSettings);
    }

    /** `Create(depotRootPath, createDepotIfNotExist, mergeDefaultSettings)`: settings in `depot.config` at the root. */
    method CreateForDepot(depotRootPath: string, createDepotIfNotExist: bool, mergeDefaultSettings: bool)
      returns (r: Result<DepotContext, CreateError>)
      modifies this
      ensures (r, State()) == CreateOutcome(old(State()), currentDirectory, depotRootPath, depotRootPath,
                                            DefaultConfigFileName, createDepotIfNotExist, mergeDefaultSettings)
    {
      r := Create(depotRootPath, depotRootPath, DefaultConfigFileName, createDepotIfNotExist, mergeDefaultSettings);
    }

    /** `Create(mergeDefaultSettings)`: a depot in the current directory, no creation. */
    method CreateInCurrentDirectory(mergeDefaultSettings: bool) returns (r: Result<DepotContext, CreateError>)
      modifies this
      ensures (r, State()) == CreateOutcome(old(State()), currentDirectory, currentDirectory, currentDirectory,
                                            DefaultConfigFileName, false, mergeDefaultSettings)
    {
      r := CreateForDepot(currentDirectory, false, mergeDefaultSettings);
    }
  }

  /** A second `Create` with the same arguments after a successful one finds everything in place and changes nothing. */
  lemma CreateIsIdempotent(disk: DiskState, currentDirectory: string, depotRootPath: string, settingsRootPath: string,
                           configFileName: string, createDepotIfNotExist: bool, mergeDefaultSettings: bool)
    requires CreateOutcome(disk, currentDirectory, depotRootPath, settingsRootPath, configFileName,
                           createDepotIfNotExist, mergeDefaultSettings).0.Success?
    ensures var first := CreateOutcome(disk, currentDirectory, depotRootPath, settingsRootPath, configFileName,
                                       createDepotIfNotExist, mergeDefaultSettings);
      CreateOutcome(first.1, currentDirectory, depotRootPath, settingsRootPath, configFileName,
                    false, mergeDefaultSettings) == first
  {
  }

  /** `GetDepotPackagePathResolver`: package folders are laid out below the depot root. */
  function GetDepotPackagePathResolver(context: DepotContext): (resolver: PackagePathResolver)
    ensures resolver.rootDirectory == context.depotRoot
    ensures forall p | context.depotRoot != [] && HasPlainId(p) ::
      IsWithin(resolver.PackageDirectory(p), context.depotRoot) && resolver.PackageDirectory(p) != context.depotRoot
  {
    PackagePathResolver(context.depotRoot)
  }
}
