/** The checks of scripts/version_checker.py around the version validator and
    the way `main` combines them into an exit code. What the script reads
    from disk, imports, or gets from `git` arrives here as a parameter. */
module VersionChecker {
  import opened Wrappers
  import opened PyText
  import opened VersionFormat

  /** The fallback version the package reports when it is not installed. */
  const DEV_VERSION: string := "0.0.0-dev"

  /** The exceptions the checks raise. */
  datatype Failure =
    | PyprojectNotFound     // FileNotFoundError: no pyproject.toml
    | PyprojectUnreadable   // pyproject.toml cannot be opened or parsed, or `project` is not a table
    | NoVersion             // ValueError: no or empty project.version
    | ImportFailed          // ImportError: the package cannot be imported
    | EmptyDynamicVersion   // RuntimeError wrapping the ValueError for an empty version
    | ChangelogUnreadable   // CHANGELOG.md exists but reading it fails, a UTF-8 decode error included

  // ---------------------------------------------------------------------
  // load_pyproject_version

  /** What reading pyproject.toml yields: no file; `Unparsable` for every
      failure between finding the file and looking up the version (the file
      cannot be opened, the TOML parser refuses it, or `project` is not a
      table); or the `project.version` entry, if any. */
  datatype Pyproject = NoFile | Unparsable | Parsed(version: Option<string>)

  function LoadPyprojectVersion(p: Pyproject): (r: Result<string, Failure>)
    ensures r.Ok? <==> p.Parsed? && p.version.Some? && p.version.value != ""
    ensures r.Ok? ==> r.value == p.version.value && r.value != ""
    ensures p.NoFile? ==> r == Err(PyprojectNotFound)
    ensures p.Unparsable? ==> r == Err(PyprojectUnreadable)
    ensures p.Parsed? && !r.Ok? ==> r == Err(NoVersion)
  {
    match p
    case NoFile => Err(PyprojectNotFound)
    case Unparsable => Err(PyprojectUnreadable)
    case Parsed(None) => Err(NoVersion)
    case Parsed(Some(version)) => if version == "" then Err(NoVersion) else Ok(version)
  }

  // ---------------------------------------------------------------------
  // check_dynamic_versioning

  /** What importing `__version__` from the package yields. */
  datatype Import = Imported(version: string) | NotImportable

  function CheckDynamicVersioning(i: Import): (r: Result<string, Failure>)
    ensures r.Ok? <==> i.Imported? && i.version != ""
    ensures r.Ok? ==> r.value == i.version
    ensures i.NotImportable? ==> r == Err(ImportFailed)
    ensures i.Imported? && i.version == "" ==> r == Err(EmptyDynamicVersion)
  {
    match i
    case NotImportable => Err(ImportFailed)
    case Imported(version) =>
      if version == DEV_VERSION then Ok(version)
      else if version != "" then Ok(version)
      else Err(EmptyDynamicVersion)
  }

  // ---------------------------------------------------------------------
  // check_changelog_mentions_version

  /** What reading CHANGELOG.md yields; `Unreadable` stands for every read
      failure of an existing file, a UTF-8 decode error included. */
  datatype Changelog = Absent | Unreadable | Present(content: string)

  /** The forms the script looks for, in its order; each contains the
      version, and the last is the version itself. */
  function VersionPatterns(version: string): (patterns: seq<string>)
    ensures |patterns| == 5 && patterns[4] == version
    ensures forall i :: 0 <= i < |patterns| ==> IsSubstring(version, patterns[i])
  {
    SubstringOfConcat("[", version, "]");
    SubstringOfConcat("## [", version, "]");
    SubstringOfConcat("# ", version, "");
    SubstringOfConcat("## ", version, "");
    assert "# " + version + "" == "# " + version;
    assert "## " + version + "" == "## " + version;
    ["[" + version + "]", "## [" + version + "]", "# " + version, "## " + version, version]
  }

  /** Whether at least one of the patterns occurs in the content. */
  function AnyOccurs(patterns: seq<string>, content: string): (r: bool)
    ensures r <==> exists i :: 0 <= i < |patterns| && IsSubstring(patterns[i], content)
  {
    if patterns == [] then false
    else
      var found := IsSubstring(patterns[0], content) || AnyOccurs(patterns[1..], content);
      assert found ==> (IsSubstring(patterns[0], content) ||
                        exists i :: 1 <= i < |patterns| && IsSubstring(patterns[i], content)) by {
        if !IsSubstring(patterns[0], content) && found {
          var j :| 0 <= j < |patterns| - 1 && IsSubstring(patterns[1..][j], content);
          assert patterns[1..][j] == patterns[j + 1];
        }
      }
      assert (exists i :: 1 <= i < |patterns| && IsSubstring(patterns[i], content)) ==> found by {
        if exists i :: 1 <= i < |patterns| && IsSubstring(patterns[i], content) {
          var i :| 1 <= i < |patterns| && IsSubstring(patterns[i], content);
          assert patterns[1..][i - 1] == patterns[i];
        }
      }
      found
  }

  function CheckChangelogMentionsVersion(log: Changelog, version: string): (r: Result<bool, Failure>)
    ensures log.Absent? ==> r == Ok(true)
    ensures log.Unreadable? ==> r == Err(ChangelogUnreadable)
    ensures log.Present? ==> r.Ok?
  {
    match log
    case Absent => Ok(true)
    case Unreadable => Err(ChangelogUnreadable)
    case Present(content) => Ok(AnyOccurs(VersionPatterns(version), content))
  }

  /** Every pattern contains the version, so the bracketed and heading forms
      add nothing: the changelog passes exactly when it contains the version. */
  lemma ChangelogIffContains(content: string, version: string)
    ensures CheckChangelogMentionsVersion(Present(content), version) == Ok(IsSubstring(version, content))
  {
    var patterns := VersionPatterns(version);
    forall i | 0 <= i < |patterns| && IsSubstring(patterns[i], content)
      ensures IsSubstring(version, content)
    {
      SubstringOfSubstring(version, patterns[i], content);
    }
    assert IsSubstring(version, content) ==> IsSubstring(patterns[4], content);
  }

  // ---------------------------------------------------------------------
  // check_git_tag_consistency

  /** What running `git describe --tags --exact-match HEAD` yields: its exit
      status and standard output, no `git` executable, or another failure. */
  datatype GitRun = Completed(returncode: int, stdout: string) | GitNotFound | GitFailed

  function CheckGitTagConsistency(run: GitRun, version: string): (ok: bool)
    ensures !ok <==> run.Completed? && run.returncode == 0 && Strip(run.stdout) != "v" + version
  {
    match run
    case Completed(code, out) => if code == 0 then Strip(out) == "v" + version else true
    case GitNotFound => true
    case GitFailed => true
  }

  /** The tag `v<version>`, printed with white space around it, is consistent. */
  lemma GitTagPrintedMatches(version: string, lead: string, trail: string)
    requires AllSpace(lead) && AllSpace(trail)
    requires version == [] || !IsSpace(version[|version| - 1])
    ensures CheckGitTagConsistency(Completed(0, lead + ("v" + version) + trail), version)
  {
    var tag := "v" + version;
    assert tag[0] == 'v' && tag[|tag| - 1] == if version == [] then 'v' else version[|version| - 1];
    StripPadded(lead, tag, trail);
  }

  // ---------------------------------------------------------------------
  // main

  /** The inputs for which the model speaks: a pyproject version, if any,
      is ASCII text without a line feed. */
  predicate InDomain(p: Pyproject) {
    p.Parsed? && p.version.Some? ==> PlainAscii(p.version.value)
  }

  /** `main`: `success` collects the failures of the format and dynamic
      version checks; an exception from loading pyproject.toml or reading the
      changelog ends the run with status 1; the changelog verdict and the git
      tag check only print. Returns the final `success` and the exit status. */
  method RunChecks(pyproject: Pyproject, dynamic: Import, log: Changelog, git: GitRun)
    returns (success: bool, exitCode: int)
    requires InDomain(pyproject)
    ensures exitCode == 0 || exitCode == 1
    ensures exitCode == 0 <==>
      LoadPyprojectVersion(pyproject).Ok? && !log.Unreadable? && success
    ensures LoadPyprojectVersion(pyproject).Ok? ==>
      var version := LoadPyprojectVersion(pyproject).value;
      (success <==> ValidateVersionFormat(version) && dynamic.Imported? &&
                    (dynamic.version == DEV_VERSION || dynamic.version == version))
  {
    success := true;
    var loaded := LoadPyprojectVersion(pyproject);
    if loaded.Err? {
      return success, 1;
    }
    var version := loaded.value;

    if !ValidateVersionFormat(version) {
      success := false;
    }

    var dynamicVersion := CheckDynamicVersioning(dynamic);
    match dynamicVersion {
      case Err(_) =>
        success := false;
      case Ok(found) =>
        if found == DEV_VERSION {
        } else if found != version {
          success := false;
        }
    }

    var mentioned := CheckChangelogMentionsVersion(log, version);
    if mentioned.Err? {
      return success, 1;
    }

    var tagged := CheckGitTagConsistency(git, version);

    exitCode := if success then 0 else 1;
  }
}
