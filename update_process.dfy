/**
 * The decision rules of the agent-side update process that drives the git
 * command line: when to clean the checkout directory, where to find the git
 * executable, and whether the process can run at all.
 *
 * The file system is a predicate on absolute paths, the agent's custom
 * properties are a map, and the version the executable reports is a function
 * of its path (it comes from running `git version`).
 */
module AgentUpdate {

  datatype Option<T> = None | Some(value: T)

  // ---------------------------------------------------------------------------
  // Clean policy

  datatype CleanPolicy = Always | OnBranchChange | Never

  /** The guard of `doClean`. */
  predicate ShouldClean(policy: CleanPolicy, branchIsCurrent: bool): (r: bool)
    ensures policy == Always ==> r
    ensures policy == OnBranchChange ==> (r <==> !branchIsCurrent)
    ensures policy == Never ==> !r
  {
    policy == Always || (!branchIsCurrent && policy == OnBranchChange)
  }

  function CleaningMessage(rootName: string, directory: string, cleanFilesPolicy: string): string
  {
    "Cleaning " + rootName + " in " + directory + " the file set " + cleanFilesPolicy
  }

  datatype Command = Clean

  /** The effects `doClean` can have: a message to the build log and a `git clean` run. */
  class UpdateProcess {
    const rootName: string
    const directory: string
    const cleanPolicy: CleanPolicy
    const cleanFilesPolicy: string
    var messages: seq<string>
    var commands: seq<Command>

    constructor (rootName: string, directory: string, cleanPolicy: CleanPolicy, cleanFilesPolicy: string)
      ensures this.rootName == rootName && this.directory == directory
      ensures this.cleanPolicy == cleanPolicy && this.cleanFilesPolicy == cleanFilesPolicy
      ensures messages == [] && commands == []
    {
      this.rootName := rootName;
      this.directory := directory;
      this.cleanPolicy := cleanPolicy;
      this.cleanFilesPolicy := cleanFilesPolicy;
      messages := [];
      commands := [];
    }

    /** Log and clean when the policy asks for it; otherwise do nothing at all. */
    method DoClean(branchIsCurrent: bool)
      modifies this
      ensures ShouldClean(cleanPolicy, branchIsCurrent) ==>
                && messages == old(messages) + [CleaningMessage(rootName, directory, cleanFilesPolicy)]
                && commands == old(commands) + [Clean]
      ensures !ShouldClean(cleanPolicy, branchIsCurrent) ==> messages == old(messages) && commands == old(commands)
    {
      if cleanPolicy == Always || (!branchIsCurrent && cleanPolicy == OnBranchChange) {
        messages := messages + ["Cleaning " + rootName + " in " + directory + " the file set " + cleanFilesPolicy];
        commands := commands + [Clean];
      }
    }
  }

  // ---------------------------------------------------------------------------
  // Locating git

  /** The property that points to the git executable. */
  const GitPathProperty := "system.git.executable.path"

  const WindowsPaths := ["C:\\Program Files\\Git\\bin", "C:\\Program Files (x86)\\Git\\bin", "C:\\cygwin\\bin"]
  const WindowsGit := "git.exe"
  const UnixPaths := ["/usr/local/bin", "/usr/bin", "/opt/local/bin", "/opt/bin"]
  const UnixGit := "git"

  /** The candidate directories of the platform, in the order they are tried. */
  function Candidates(isWindows: bool): seq<string>
  {
    if isWindows then WindowsPaths else UnixPaths
  }

  /** The executable name of the platform. */
  function Program(isWindows: bool): string
  {
    if isWindows then WindowsGit else UnixGit
  }

  /** The absolute path of `program` inside the absolute directory `dir`. */
  function FileIn(dir: string, program: string, isWindows: bool): string
  {
    dir + (if isWindows then "\\" else "/") + program
  }

  /** The first candidate directory holding the program, as an absolute file path. */
  function FirstExisting(dirs: seq<string>, program: string, isWindows: bool, fileExists: string -> bool): Option<string>
    decreases |dirs|
  {
    if dirs == [] then None
    else if fileExists(FileIn(dirs[0], program, isWindows)) then Some(FileIn(dirs[0], program, isWindows))
    else FirstExisting(dirs[1..], program, isWindows, fileExists)
  }

  /** `FirstExisting` finds the earliest directory that holds the program, and finds none only when none does. */
  lemma {:induction false} FirstExistingIsFirst(dirs: seq<string>, program: string, isWindows: bool, fileExists: string -> bool)
    ensures var r := FirstExisting(dirs, program, isWindows, fileExists);
            && (r.None? <==> forall i :: 0 <= i < |dirs| ==> !fileExists(FileIn(dirs[i], program, isWindows)))
            && (r.Some? ==> exists i :: 0 <= i < |dirs| && r.value == FileIn(dirs[i], program, isWindows)
                                       && fileExists(r.value)
                                       && forall j :: 0 <= j < i ==> !fileExists(FileIn(dirs[j], program, isWindows)))
    decreases |dirs|
  {
    if dirs != [] && !fileExists(FileIn(dirs[0], program, isWindows)) {
      FirstExistingIsFirst(dirs[1..], program, isWindows, fileExists);
      var r := FirstExisting(dirs, program, isWindows, fileExists);
      if r.Some? {
        var i :| 0 <= i < |dirs[1..]| && r.value == FileIn(dirs[1..][i], program, isWindows)
                 && fileExists(r.value) && forall j :: 0 <= j < i ==> !fileExists(FileIn(dirs[1..][j], program, isWindows));
        assert forall j :: 0 <= j < i + 1 ==> !fileExists(FileIn(dirs[j], program, isWindows)) by {
          forall j | 0 <= j < i + 1 ensures !fileExists(FileIn(dirs[j], program, isWindows)) {
            if j > 0 { assert dirs[j] == dirs[1..][j - 1]; }
          }
        }
      } else {
        forall i | 0 <= i < |dirs| ensures !fileExists(FileIn(dirs[i], program, isWindows)) {
          if i > 0 { assert dirs[i] == dirs[1..][i - 1]; }
        }
      }
    }
  }

  /** The lookup of `defaultGit`: a loop over the platform's candidates that returns at the first hit. */
  method DefaultGit(isWindows: bool, fileExists: string -> bool) returns (r: Option<string>)
    ensures r == FirstExisting(Candidates(isWindows), Program(isWindows), isWindows, fileExists)
  {
    var paths: seq<string>;
    var program: string;
    if isWindows {
      program := WindowsGit;
      paths := WindowsPaths;
    } else {
      program := UnixGit;
      paths := UnixPaths;
    }
    var k := 0;
    while k < |paths|
      invariant 0 <= k <= |paths|
      invariant FirstExisting(paths[k..], program, isWindows, fileExists) == FirstExisting(paths, program, isWindows, fileExists)
    {
      var f := FileIn(paths[k], program, isWindows);
      if fileExists(f) {
        return Some(f);
      }
      assert paths[k..][1..] == paths[k + 1..];
      k := k + 1;
    }
    return None;
  }

  /** `getGitPath`: the configured property if there is one, else the default lookup. */
  function GitPath(properties: map<string, string>, isWindows: bool, fileExists: string -> bool): (r: Option<string>)
    ensures GitPathProperty in properties ==> r == Some(properties[GitPathProperty])
    ensures GitPathProperty !in properties ==> r == FirstExisting(Candidates(isWindows), Program(isWindows), isWindows, fileExists)
  {
    if GitPathProperty in properties then Some(properties[GitPathProperty])
    else FirstExisting(Candidates(isWindows), Program(isWindows), isWindows, fileExists)
  }

  /** A configured path is used as it is, whatever the platform and whatever files exist. */
  lemma ConfiguredPathWins(properties: map<string, string>, isWindows1: bool, isWindows2: bool,
                           fileExists1: string -> bool, fileExists2: string -> bool)
    requires GitPathProperty in properties
    ensures GitPath(properties, isWindows1, fileExists1) == GitPath(properties, isWindows2, fileExists2)
                                                          == Some(properties[GitPathProperty])
  {
  }

  /** Without the property, a path is found exactly when some candidate holds the platform's executable. */
  lemma DefaultLookup(properties: map<string, string>, isWindows: bool, fileExists: string -> bool)
    requires GitPathProperty !in properties
    ensures var r := GitPath(properties, isWindows, fileExists);
            var dirs := Candidates(isWindows);
            && (r.None? <==> forall i :: 0 <= i < |dirs| ==> !fileExists(FileIn(dirs[i], Program(isWindows), isWindows)))
            && (r.Some? ==> exists i :: 0 <= i < |dirs| && r.value == FileIn(dirs[i], Program(isWindows), isWindows) && fileExists(r.value))
  {
    FirstExistingIsFirst(Candidates(isWindows), Program(isWindows), isWindows, fileExists);
  }

  /** On Windows, git installed under the first candidate directory is found there. */
  lemma PlatformExample(fileExists: string -> bool)
    requires fileExists("C:\\Program Files\\Git\\bin\\git.exe")
    ensures GitPath(map[], true, fileExists) == Some("C:\\Program Files\\Git\\bin\\git.exe")
  {
    assert FileIn(WindowsPaths[0], WindowsGit, true) == "C:\\Program Files\\Git\\bin\\git.exe";
  }

  /**
   * The platforms search different places: a git found only at "/usr/bin/git"
   * is the path on Unix and is not found on Windows.
   */
  lemma OnlyUnixGitExample()
    ensures GitPath(map[], false, f => f == "/usr/bin/git") == Some("/usr/bin/git")
    ensures GitPath(map[], true, f => f == "/usr/bin/git") == None
  {
    var only: string -> bool := f => f == "/usr/bin/git";
    assert FileIn(UnixPaths[0], UnixGit, false) == "/usr/local/bin/git";
    assert FileIn(UnixPaths[0], UnixGit, false)[5] != "/usr/bin/git"[5];
    assert FileIn(UnixPaths[1], UnixGit, false) == "/usr/bin/git";
    forall i | 0 <= i < |WindowsPaths|
      ensures !only(FileIn(WindowsPaths[i], WindowsGit, true))
    {
      assert FileIn(WindowsPaths[i], WindowsGit, true)[0] == 'C';
    }
    FirstExistingIsFirst(WindowsPaths, WindowsGit, true, only);
  }

  // ---------------------------------------------------------------------------
  // canRun

  datatype GitVersion = GitVersion(major: nat, minor: nat, revision: nat)

  /** Versions compare component by component. */
  predicate LessOrEqual(a: GitVersion, b: GitVersion)
  {
    a.major < b.major
    || (a.major == b.major && (a.minor < b.minor || (a.minor == b.minor && a.revision <= b.revision)))
  }

  /** The error for a missing path, naming `name` as the property to set. */
  function NotConfiguredMessageFor(name: string): string
  {
    "The path to git executable is not configured (the property name is " + name + ")"
  }

  /** The property name the error for a missing path gives, as the source spells it. */
  const MisspeltGitPathProperty := "system.git.excecutable.path"

  /** The error for a missing path, as the source words it. */
  function NotConfiguredMessageAsWritten(): string
  {
    NotConfiguredMessageFor(MisspeltGitPathProperty)
  }

  /** The error for a missing path, naming the property `getGitPath` reads. */
  function NotConfiguredMessage(): string
  {
    NotConfiguredMessageFor(GitPathProperty)
  }

  /** The name a not-configured message tells the user to set. */
  function NamedProperty(message: string): string
    requires |message| >= 68
  {
    message[67..|message| - 1]
  }

  /**
   * The message as written tells the user to set a property that `getGitPath`
   * never reads; the corrected message names the property it does read.
   */
  lemma NotConfiguredMessageNamesProperty()
    ensures NamedProperty(NotConfiguredMessageAsWritten()) == MisspeltGitPathProperty != GitPathProperty
    ensures NamedProperty(NotConfiguredMessage()) == GitPathProperty
  {
    assert MisspeltGitPathProperty[13] != GitPathProperty[13];
    var prefix := "The path to git executable is not configured (the property name is ";
    assert |prefix| == 67;
    assert NotConfiguredMessageAsWritten() == prefix + MisspeltGitPathProperty + ")";
    assert NotConfiguredMessage() == prefix + GitPathProperty + ")";
  }

  /** The exceptions of `canRun`: each carries what its message prints. */
  datatype RunError =
    | NotConfigured(message: string)                    // no path: the full message
    | CannotRun(path: string)                           // "Unable to run git at path <path>"
    | Unsupported(path: string, version: GitVersion)    // "Unsupported version of Git is detected at (<path>): <version>"

  /**
   * `canRun`: a path must be found, `git version` must run at the command path
   * of the process settings, and the version must be at least `minVersion`.
   * A missing path is reported with the corrected message.
   */
  function CanRun(properties: map<string, string>, isWindows: bool, fileExists: string -> bool,
                  commandPath: string, versionAt: string -> Option<GitVersion>, minVersion: GitVersion): (r: Option<RunError>)
    ensures r.None? <==> && GitPath(properties, isWindows, fileExists).Some?
                         && versionAt(commandPath).Some?
                         && LessOrEqual(minVersion, versionAt(commandPath).value)
    ensures GitPath(properties, isWindows, fileExists).None? ==> r == Some(NotConfigured(NotConfiguredMessage()))
    ensures GitPath(properties, isWindows, fileExists).Some? && versionAt(commandPath).None? ==>
              r == Some(CannotRun(GitPath(properties, isWindows, fileExists).value))
    ensures GitPath(properties, isWindows, fileExists).Some? && versionAt(commandPath).Some?
            && !LessOrEqual(minVersion, versionAt(commandPath).value) ==>
              r == Some(Unsupported(GitPath(properties, isWindows, fileExists).value, versionAt(commandPath).value))
    ensures (r.Some? && r.value.Unsupported?) ==> !LessOrEqual(minVersion, r.value.version)
  {
    match GitPath(properties, isWindows, fileExists)
    case None => Some(NotConfigured(NotConfiguredMessage()))
    case Some(path) =>
      match versionAt(commandPath)
      case None => Some(CannotRun(path))
      case Some(v) => if !LessOrEqual(minVersion, v) then Some(Unsupported(path, v)) else None
  }

  /** `canRun` as written: a missing path is reported with the misspelt property name. */
  function CanRunAsWritten(properties: map<string, string>, isWindows: bool, fileExists: string -> bool,
                           commandPath: string, versionAt: string -> Option<GitVersion>, minVersion: GitVersion): (r: Option<RunError>)
    ensures GitPath(properties, isWindows, fileExists).None? ==> r == Some(NotConfigured(NotConfiguredMessageAsWritten()))
  {
    match GitPath(properties, isWindows, fileExists)
    case None => Some(NotConfigured(NotConfiguredMessageAsWritten()))
    case Some(path) =>
      match versionAt(commandPath)
      case None => Some(CannotRun(path))
      case Some(v) => if !LessOrEqual(minVersion, v) then Some(Unsupported(path, v)) else None
  }

  /**
   * The correction changes only the message for a missing path: the written
   * one sends the user to a property `getGitPath` never reads, the corrected
   * one to the property it does read. Every other outcome is the same.
   */
  lemma CanRunCorrectsOnlyMessage(properties: map<string, string>, isWindows: bool, fileExists: string -> bool,
                                  commandPath: string, versionAt: string -> Option<GitVersion>, minVersion: GitVersion)
    ensures var written := CanRunAsWritten(properties, isWindows, fileExists, commandPath, versionAt, minVersion);
            var corrected := CanRun(properties, isWindows, fileExists, commandPath, versionAt, minVersion);
            && (GitPath(properties, isWindows, fileExists).Some? ==> written == corrected)
            && (GitPath(properties, isWindows, fileExists).None? ==>
                  && written.Some? && written.value.NotConfigured? && |written.value.message| >= 68
                  && corrected.Some? && corrected.value.NotConfigured? && |corrected.value.message| >= 68
                  && NamedProperty(written.value.message) == MisspeltGitPathProperty
                  && NamedProperty(corrected.value.message) == GitPathProperty)
  {
    NotConfiguredMessageNamesProperty();
  }
}
