# Version consistency checker of pyvider-telemetry, in Dafny

This project models `scripts/version_checker.py`. The script runs in CI and checks that the project's version is consistent. It does five things:

- it loads `project.version` from `pyproject.toml`;
- it checks that version against a loose form of Semantic Versioning 2.0.0;
- it compares the version with the one the installed package reports;
- it looks for the version in `CHANGELOG.md`;
- it compares the version with the git tag on `HEAD`.

Its exit status is 0 or 1. It is 0 exactly when three things hold: the pyproject version loads, the changelog can be read if it exists, and `success` holds. `success` holds exactly when the format is valid, the dynamic check does not raise, and the dynamic version is `"0.0.0-dev"` or equals the pyproject version. The changelog verdict and the git tag check only print.

The centre of the model is `validate_version_format`. It works in two steps:

1. A regular-expression match. VersionSyntax models it as a hand-rolled scanner: three digit runs separated by `.`, then an optional `-` pre-release, then an optional `+` build metadata part. Each suffix is a non-empty run over `[A-Za-z0-9.-]`. Leading zeros and empty dot-identifiers are allowed.
2. A numeric re-check. VersionFormat models it literally with Python's `str.split` and `int`, which the PyText module provides.

The comment at `scripts/version_checker.py:118` says `1.0.0+build.1` is allowed. The code rejects it: when there is no pre-release, the part in front of the first `-` still contains the build metadata, so the third `.`-field is `0+build` and `int` refuses it. The model follows the code. `VersionFormat.ValidateVersionFormatIff` states the exact accepted language: the pattern matches, and build metadata appears only after a pre-release.

Everything the script gets from outside becomes a parameter of the model: the parsed TOML, the imported `__version__`, the changelog contents and the result of `git`. The datatypes `Pyproject`, `Import`, `Changelog` and `GitRun` carry these inputs. `main` is the method `VersionChecker.RunChecks`. It keeps the script's local `success` flag and returns the exit status instead of calling `sys.exit`.

Files:
- `wrappers.dfy`: the `Option` and `Result` datatypes.
- `py_text.dfy`: the Python built-ins the script relies on. These are `str.split`, `int`, `str.strip` and the substring test `in`. It also holds the two character classes of the pattern.
- `version_syntax.dfy`: the pattern as a scanner, with `Parse` and `Render` proved to be inverses.
- `version_format.dfy`: `validate_version_format` and what it accepts.
- `version_checker.dfy`: the pyproject loader, the dynamic-version check, the changelog check, the git-tag check and `main`.

## Model

| member | source | states |
|---|---|---|
| PyText.UpTo | scripts/version_checker.py:125 | the text in front of the first `-`, as the re-check takes it: the result is a prefix of the input, does not contain the separator, and stops at the first separator or at the end |
| PyText.UpToUnique | scripts/version_checker.py:125 | those three properties determine the text in front of the first separator |
| PyText.Split | scripts/version_checker.py:125 | `str.split(sep)` returns at least one piece, its first piece is the text up to the first separator, and no piece contains the separator |
| PyText.SplitThenJoin | scripts/version_checker.py:125 | joining the pieces of `s.split(sep)` with `sep` gives back `s` |
| PyText.JoinThenSplit | scripts/version_checker.py:125 | splitting the join of separator-free pieces gives back those pieces |
| PyText.SplitCons | scripts/version_checker.py:125 | a separator-free field followed by the separator becomes the first piece, and the rest is split on its own |
| PyText.PyInt | scripts/version_checker.py:127 | `int(f)` succeeds only on text that contains a digit, and a negative result needs a leading `-` |
| PyText.PyIntOfDecimalText | scripts/version_checker.py:127 | `int(str(n)) == n` for every non-negative `n` |
| PyText.DigitRunIsInt | scripts/version_checker.py:127-128 | a non-empty run of ASCII digits is read by `int` as a non-negative number, leading zeros included |
| PyText.PlusAfterDigitsIsNoInt | scripts/version_checker.py:125-130 | `int` raises `ValueError` on a digit run followed by `+` and anything |
| PyText.Strip | scripts/version_checker.py:192 | `str.strip()` returns a part of its input that neither starts nor ends with white space; with StripPadded, it removes exactly the surrounding white space |
| PyText.TrimStart | scripts/version_checker.py:192 | left half of `str.strip()`: it removes exactly the leading white space and leaves a suffix that does not start with white space |
| PyText.TrimEnd | scripts/version_checker.py:192 | right half of `str.strip()`: it removes exactly the trailing white space and leaves a prefix that does not end with white space |
| PyText.StripPadded | scripts/version_checker.py:192 | `strip()` gives back a text that neither starts nor ends with white space, whatever white space surrounds it |
| PyText.IsSubstring | scripts/version_checker.py:163 | `p in s`: some position of `s` starts with `p`; it implies `len(p) <= len(s)` and holds whenever `p` is a prefix of `s`; SubstringOfSubstring and SubstringOfConcat state its other uses |
| PyText.SubstringOfSubstring | scripts/version_checker.py:163 | `in` is transitive: a part of a part of `s` is a part of `s` |
| PyText.SubstringOfConcat | scripts/version_checker.py:155-161 | a pattern built as `a + version + b` contains the version |
| VersionSyntax.Lead | scripts/version_checker.py:119 | the greedy run of `\d+` or `[a-zA-Z0-9\-\.]+` is inside the class and stops at the end or at the first character outside it |
| VersionSyntax.LeadOf | scripts/version_checker.py:119 | a run inside the class followed by a character outside it is matched in full, and no more |
| VersionSyntax.Parse | scripts/version_checker.py:119-122 | `re.match` of the pattern, with the groups it captures; ParseSound and ParseComplete prove it accepts exactly the texts `Render` produces from well-formed versions |
| VersionSyntax.ParseSound | scripts/version_checker.py:119-122 | every string the pattern matches is the text of a well-formed version: three digit runs, then optional non-empty `-` and `+` parts, in that order, and nothing else |
| VersionSyntax.ParseComplete | scripts/version_checker.py:119-122 | the pattern matches the text of every well-formed version and captures exactly its parts |
| VersionFormat.NumericCheck | scripts/version_checker.py:124-130 | the split-and-`int` re-check, with a `ValueError` or `IndexError` giving `false`; NumericCheckOfRender states when it holds on a version text |
| VersionFormat.ValidateVersionFormat | scripts/version_checker.py:93-130 | `validate_version_format`: the pattern matches and the re-check holds; ValidateVersionFormatIff, ValidateRender and AcceptedShape state the language it accepts |
| VersionFormat.NumericCheckOfRender | scripts/version_checker.py:124-130 | on a version text, the split-and-`int` re-check fails exactly when build metadata comes without a pre-release |
| VersionFormat.ThirdField | scripts/version_checker.py:125-127 | the first two fields in front of the first `-` are the major and minor runs; the third is the patch run, or the patch run followed by `+` when there is build metadata without a pre-release |
| VersionFormat.ValidateVersionFormatIff | scripts/version_checker.py:93-130 | `validate_version_format` is true exactly when the pattern matches and the version does not have build metadata without a pre-release |
| VersionFormat.ValidateRender | scripts/version_checker.py:117-130 | a well-formed version text, leading zeros included, is accepted exactly when it has a pre-release or has no build metadata |
| VersionFormat.AcceptedShape | scripts/version_checker.py:119-130 | an accepted string is three digit runs, then an optional pre-release, then build metadata only if a pre-release is present; its major, minor and patch read as non-negative integers |
| VersionFormat.DocumentedRelease | scripts/version_checker.py:107-109 | `"1.0.0"` is accepted |
| VersionFormat.DocumentedCandidate | scripts/version_checker.py:110-111 | `"1.0.0-rc1"` is accepted |
| VersionFormat.DocumentedInvalid | scripts/version_checker.py:112-113 | `"invalid"` is rejected |
| VersionFormat.BuildOnlyDotted | scripts/version_checker.py:118-130 | `"1.0.0+build.1"` is rejected, although the comment lists it as allowed |
| VersionFormat.BuildOnlyDashed | scripts/version_checker.py:118-130 | `"1.0.0+a-b"` is rejected |
| VersionFormat.BuildAfterPreRelease | scripts/version_checker.py:118-130 | `"1.0.0-rc1+build.1"` is accepted |
| VersionFormat.LeadingZeros | scripts/version_checker.py:119-128 | `"01.0.0"` is accepted |
| VersionChecker.LoadPyprojectVersion | scripts/version_checker.py:39-50 | a missing `pyproject.toml` raises `FileNotFoundError`; a file that cannot be opened or parsed, or whose `project` is not a table, is an error; a missing or empty `project.version` raises `ValueError`; otherwise the non-empty version is returned unchanged |
| VersionChecker.CheckDynamicVersioning | scripts/version_checker.py:73-90 | a failed import is an error and an empty version is an error; `"0.0.0-dev"` and every other non-empty version are returned unchanged |
| VersionChecker.VersionPatterns | scripts/version_checker.py:155-161 | the five patterns; each contains the version, and the last is the version itself |
| VersionChecker.AnyOccurs | scripts/version_checker.py:163 | the test over all patterns holds exactly when some pattern occurs in the content |
| VersionChecker.CheckChangelogMentionsVersion | scripts/version_checker.py:146-163 | a missing changelog passes, an unreadable one raises, and a present one always gives a verdict |
| VersionChecker.ChangelogIffContains | scripts/version_checker.py:154-163 | with a changelog present, the check passes exactly when the version is a substring of its contents; the bracketed and heading patterns add nothing |
| VersionChecker.CheckGitTagConsistency | scripts/version_checker.py:179-210 | the check fails only when `git` exits with 0 and its stripped output is not `"v" + version`; any other exit status, a missing `git` or any other failure passes |
| VersionChecker.GitTagPrintedMatches | scripts/version_checker.py:190-197 | `git` printing the tag `v<version>` with surrounding white space, such as a final line feed, is consistent |
| VersionChecker.RunChecks | scripts/version_checker.py:224-283 | the exit status is 0 or 1, and it is 0 exactly when the pyproject version loads, the changelog can be read, and `success` holds; `success` holds exactly when the format is valid, the dynamic check did not raise, and the dynamic version is `"0.0.0-dev"` or equals the pyproject version; the changelog verdict and the git tag never change it |

## Left out

- File and process I/O is not modelled: reading `pyproject.toml` with `tomllib`, reading `CHANGELOG.md`, the `sys.path` insertion, importing `pyvider.telemetry.__version__` and running `git` through `subprocess`. Their results are parameters of the model.
- `print` output is left out, and a `print` that raises is not modelled. Such a raise inside `check_dynamic_versioning` would clear `success`, and one in `check_changelog_mentions_version` would end the run with status 1. `sys.exit(n)` becomes the returned exit status.
- Python's regular-expression engine is not modelled on inputs outside `VersionFormat.PlainAscii`, which requires ASCII text without a line feed. On other inputs `\d` also matches non-ASCII decimal digits, and `$` matches in front of a final line feed. So `ValidateVersionFormat` requires `PlainAscii`, and `RunChecks` requires it of the pyproject version.
- PyText.PyInt: does not model how `int` strips surrounding white space, and does not model non-ASCII digits. On `PlainAscii` input the pattern admits neither, so `int` never sees them here. Outside that domain `\d` also matches non-ASCII digits, which `int` reads.
- A `project.version` that TOML gives as a non-string value, such as a number, is not modelled. `Pyproject.Parsed` carries a string. In Python a falsy value such as `0` or `false` raises `ValueError` in `load_pyproject_version`, and a truthy one makes `re.match` raise. Both paths end the run with status 1.
- `__version__` is modelled as a string. A non-string value is not modelled.
- The changelog is read as UTF-8, and a decode failure escapes to `main`'s outer handler. The model has no decoding: `Changelog.Unreadable` stands for every read failure.
- `Pyproject.Unparsable` stands for every failure between finding `pyproject.toml` and looking up the version: the file cannot be opened, the TOML parser refuses it, or `project` is not a table. Each of these escapes to `main`'s outer handler, and the run ends with status 1.
- In `check_git_tag_consistency`, every exception other than a missing `git` is folded into `GitRun.GitFailed`. Both cases pass, as in the source.
- `scripts/cut_up_chuck.py` is not part of this model. It is an endless asyncio loop that emits random log lines.
- `tests/conftest.py`, the nine demo programs `01_quick_start.py` to `09_async_usage.py` and the empty module `src/pyvider/telemetry/utils.py` are not part of this model.
- The telemetry engine (configuration, level resolution, emoji annotation, emission state) is not part of this model. Its source is not among the files modelled, and the script only imports its version string.
