/**
  Building the backend's configuration: locate the per-user directories,
  read and parse `config.toml`, derive the notes, build and extra
  directories from the project directory, and check that they exist.

  The per-user directories, the file read, the TOML parser and the
  existence test are an `Environment` of oracles.
 */
module Config {
  import opened Wrappers
  import opened Paths
  import opened Uuids

  /** The contents of `config.toml`; a missing `extra_directories` parses as empty. */
  datatype ConfigToml = ConfigToml(projectDirectory: Path, defaultNote: Uuid, extraDirectories: seq<Path>)

  datatype Config = Config(
    dataDirectory: Path,
    cacheDirectory: Path,
    projectDirectory: Path,
    notesSubdirectory: Path,
    extraDirectories: seq<Path>,
    buildSubdirectory: Path,
    defaultNote: Uuid)

  datatype ConfigError =
    | MissingHomeDirectory
    | ConfigRead(io: IoError)
    | ConfigParse(reason: string)
    | MissingProjectDirectory
    | MissingNotesSubdirectory
    | MissingExtraDirectory(directory: Path)

  /** The application's per-user directories, as `ProjectDirs` finds them. */
  datatype ProjectDirs = ProjectDirs(dataDir: Path, configDir: Path)

  /**
    What `try_build` consults: the per-user directories (`None` without a
    home directory), the file read, the TOML parser, and whether a path
    exists.
   */
  datatype Environment = Environment(
    projectDirs: Option<ProjectDirs>,
    read: Path -> Result<string, IoError>,
    parse: string -> Result<ConfigToml, string>,
    present: Path -> bool)

  function ConfigPath(dirs: ProjectDirs): Path {
    Join(dirs.configDir, Relative("config.toml"))
  }

  /** An extra directory: kept when absolute, otherwise taken relative to the project. */
  function ResolveDirectory(project: Path, dir: Path): Path {
    if dir.absolute then dir else Join(project, dir)
  }

  /** All extra directories resolved, in order. */
  function ResolveDirectories(project: Path, dirs: seq<Path>): (r: seq<Path>)
    ensures |r| == |dirs|
    ensures forall k :: 0 <= k < |dirs| && dirs[k].absolute ==> r[k] == dirs[k]
    ensures forall k :: 0 <= k < |dirs| && !dirs[k].absolute ==> StripPrefix(r[k], project) == Some(dirs[k])
  {
    seq(|dirs|, k requires 0 <= k < |dirs| => ResolveDirectory(project, dirs[k]))
  }

  /** The first directory of `dirs` that does not exist, if any. */
  function FirstMissing(dirs: seq<Path>, present: Path -> bool): (r: Option<Path>)
    ensures r.None? <==> forall k :: 0 <= k < |dirs| ==> present(dirs[k])
    ensures r.Some? ==> exists k :: 0 <= k < |dirs| && dirs[k] == r.value && !present(dirs[k])
                                    && forall j :: 0 <= j < k ==> present(dirs[j])
  {
    if dirs == [] then None
    else if !present(dirs[0]) then Some(dirs[0])
    else
      var rest := FirstMissing(dirs[1..], present);
      assert forall k :: 1 <= k < |dirs| ==> dirs[k] == dirs[1..][k - 1];
      rest
  }

  /** `Config::try_build`. */
  function TryBuild(env: Environment): (r: Result<Config, ConfigError>)
    ensures r.Ok? ==> env.projectDirs.Some? && r.value.cacheDirectory == r.value.dataDirectory
                      && r.value.dataDirectory == env.projectDirs.value.dataDir
    ensures r.Ok? ==>
      var c := r.value;
      env.present(c.projectDirectory) && env.present(c.notesSubdirectory)
      && forall k :: 0 <= k < |c.extraDirectories| ==> env.present(c.extraDirectories[k])
  {
    match env.projectDirs
    case None => Err(MissingHomeDirectory)
    case Some(dirs) =>
      match env.read(ConfigPath(dirs))
      case Err(e) => Err(ConfigRead(e))
      case Ok(contents) =>
        match env.parse(contents)
        case Err(e) => Err(ConfigParse(e))
        case Ok(toml) =>
          var project := toml.projectDirectory;
          var notes := Join(project, Relative("notes"));
          var build := Join(project, Relative("build"));
          var extra := ResolveDirectories(project, toml.extraDirectories);
          if !env.present(project) then Err(MissingProjectDirectory)
          else if !env.present(notes) then Err(MissingNotesSubdirectory)
          else match FirstMissing(extra, env.present)
            case Some(d) => Err(MissingExtraDirectory(d))
            case None => Ok(Config(dirs.dataDir, dirs.dataDir, project, notes, extra, build, toml.defaultNote))
  }

  /** The parsed file, when the directories are found, the read succeeds and the parse too. */
  function Parsed(env: Environment): Option<ConfigToml> {
    if env.projectDirs.None? then None
    else match env.read(ConfigPath(env.projectDirs.value))
      case Err(_) => None
      case Ok(contents) => if env.parse(contents).Err? then None else Some(env.parse(contents).value)
  }

  /**
    On success the project directory and default note are the file's, the
    notes and build directories are its `notes` and `build` children, and
    the extra directories are the file's, resolved in order.
   */
  lemma SuccessDerivesPaths(env: Environment)
    requires TryBuild(env).Ok?
    ensures Parsed(env).Some?
    ensures var c := TryBuild(env).value; var toml := Parsed(env).value;
      c.projectDirectory == toml.projectDirectory && c.defaultNote == toml.defaultNote
      && StripPrefix(c.notesSubdirectory, c.projectDirectory) == Some(Relative("notes"))
      && StripPrefix(c.buildSubdirectory, c.projectDirectory) == Some(Relative("build"))
      && |c.extraDirectories| == |toml.extraDirectories|
      && (forall k :: 0 <= k < |c.extraDirectories| ==>
            c.extraDirectories[k] == ResolveDirectory(toml.projectDirectory, toml.extraDirectories[k]))
  {
  }

  /**
    The order of the checks: a missing home directory before anything is
    read, a read failure before parsing, a parse failure before any
    existence check, then the project, the notes subdirectory and the first
    missing extra directory in list order.
   */
  lemma ErrorPriority(env: Environment)
    ensures env.projectDirs.None? <==> TryBuild(env) == Err(MissingHomeDirectory)
    ensures env.projectDirs.Some? && env.read(ConfigPath(env.projectDirs.value)).Err? ==>
      TryBuild(env) == Err(ConfigRead(env.read(ConfigPath(env.projectDirs.value)).error))
    ensures (TryBuild(env).Err? && TryBuild(env).error.ConfigParse?) <==>
      (env.projectDirs.Some? && env.read(ConfigPath(env.projectDirs.value)).Ok?
       && env.parse(env.read(ConfigPath(env.projectDirs.value)).value).Err?)
    ensures Parsed(env).Some? ==>
      var toml := Parsed(env).value;
      var extra := ResolveDirectories(toml.projectDirectory, toml.extraDirectories);
      (TryBuild(env) == Err(MissingProjectDirectory) <==> !env.present(toml.projectDirectory))
      && (TryBuild(env) == Err(MissingNotesSubdirectory) <==>
            env.present(toml.projectDirectory) && !env.present(Join(toml.projectDirectory, Relative("notes"))))
      && (TryBuild(env).Err? && TryBuild(env).error.MissingExtraDirectory? <==>
            env.present(toml.projectDirectory) && env.present(Join(toml.projectDirectory, Relative("notes")))
            && exists k :: 0 <= k < |extra| && !env.present(extra[k]))
  {
  }

  /**
    The configuration file is the only file read: two environments that
    agree on everything but the contents of other files give the same
    result.
   */
  lemma ReadsOnlyConfigFile(env: Environment, other: Path -> Result<string, IoError>)
    requires env.projectDirs.Some? ==> other(ConfigPath(env.projectDirs.value)) == env.read(ConfigPath(env.projectDirs.value))
    ensures TryBuild(env.(read := other)) == TryBuild(env)
  {
  }

  /** Without a parsed file no path's existence matters. */
  lemma NoChecksBeforeParse(env: Environment, other: Path -> bool)
    requires Parsed(env).None?
    ensures TryBuild(env.(present := other)) == TryBuild(env)
    ensures TryBuild(env).Err?
  {
  }
}
