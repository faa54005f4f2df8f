# Vortex target loading, tool gate and report naming in Dafny

Vortex (`vortex.py`) is a reconnaissance driver. It reads a file of
comma-separated IP addresses and domains (`iplist.txt`), makes sure six
external scanners are installed, and provides runners for five of them; no
`nuclei` runner appears before line 239. Each runner scans a single target and
writes its report into the project directory. `vortex.py` ends at line 239,
inside `run_owasp_zap`'s handler, so where the runners are called from is not
part of this model. This model covers the parts of the program that hold logic
rather than I/O:

- **`PyStrings`** (`pystrings.dfy`) defines the Python string operations the loader relies on:
  - `str.strip()`, with Python's whitespace set;
  - `str.split(',')`;
  - `str.replace()`, as one left-to-right pass over non-overlapping matches.

  Each one carries the laws that pin it down. `Find` is a reference search for
  the leftmost occurrence, modelled on `str.find()`. The loader does not call
  it; it serves to pin down `Replace`.
- **`TargetList`** (`target_list.dfy`) models `check_ip_list`: its two exits with status 1 and the parsing of the list.
  - The file system is a map from path to the text that reading the file yields.
  - Leaving the program with `exit(1)` is an `Exit(1, reason)` outcome.
- **`ToolGate`** (`tool_gate.dfy`) models `check_tools`.
  - It is a loop over the six tool names in their fixed order.
  - It stops at the first name missing from PATH.
  - PATH is modelled as the set of names that resolve.
- **`ScanOutput`** (`scan_output.dfy`) models the five scan runners:
  - the path each runner writes its report to;
  - how a runner turns every failure into a returned error string.

  The scanner process and the file-open step are given as outcome values.

## Model

| member | source | states |
|---|---|---|
| TargetList.CheckIpList | vortex.py:143-157 | A missing file gives `Exit(1, NotFound)`, and only a missing file does. An existing file gives `Exit(1, Blank)` exactly when all its text is whitespace. Every exit has status 1. Otherwise the targets are the parse of the stripped text: one per comma plus one, never empty. |
| TargetList.NormalizeTarget | vortex.py:156 | One piece becomes one target that is never longer than the stripped piece. A blank piece gives an empty target. |
| TargetList.ParseTargets | vortex.py:156 | The list has exactly one more target than the content has commas. |
| TargetList.NormalizeAll | vortex.py:156 | Every piece is normalised: one target per piece, in order, target i coming from piece i. |
| TargetList.ParseTargetsPiecewise | vortex.py:156 | Cut the text at its commas into pieces. Then target i is exactly the normalised piece i: order is kept and nothing is dropped. |
| TargetList.EmptyAndDuplicateKept | vortex.py:156 | `x,,x` gives three targets. The middle one is empty and the outer two are equal, so empty and repeated pieces are kept. |
| TargetList.TrailingCommaKept | vortex.py:156 | For every text, adding a trailing comma keeps the targets of the text and appends one empty target. |
| TargetList.NormalizeWithoutScheme | vortex.py:156 | A piece containing neither `http://` nor `https://` comes back exactly as its `strip()`. |
| TargetList.NormalizeHttpHost | vortex.py:156 | `http://` followed by a trimmed host without `:` gives the bare host. |
| TargetList.NormalizeHttpsHost | vortex.py:156 | `https://` followed by a trimmed host without `:` gives the bare host. The first pass, which removes `http://`, leaves it untouched. |
| TargetList.NormalizePadded | vortex.py:156 | Whitespace before a host without `:` is removed and nothing else changes. |
| TargetList.SchemesAndBlanksRemoved | vortex.py:156 | For any three hosts, `http://a, b,https://c` gives `[a, b, c]`. |
| TargetList.ThreeTargetsExample | vortex.py:156 | `http://a.com, b.com,https://c.com` gives `a.com`, `b.com`, `c.com`. |
| TargetList.HttpsHasNoHttp | vortex.py:156 | Removing `http://` does not touch a piece that starts with `https://` and has no other `:`. |
| TargetList.JoinHalves | vortex.py:156 | When the text before an `http://` has no `:`, the first pass keeps that text, removes the scheme, and goes on to remove every `http://` in the text after it. What comes before and after the scheme is glued together. |
| TargetList.RemovalCanLeaveScheme | vortex.py:156 | Removal runs in one pass and anywhere in the piece. `hthttp://tp://x` becomes `http://x`, which still contains `http://`. |
| TargetList.RemovalCanLeaveLeadingSpace | vortex.py:156 | Stripping happens before removal, so `http:// x` becomes ` x`, which has leading whitespace. |
| TargetList.SpaceAfterScheme | vortex.py:156 | Take a piece that is `http://` plus a rest r, with no trailing whitespace. Its target is r after both removals, with r not stripped again, so leading whitespace in r survives. When r has no `:`, the target is exactly r. |
| TargetList.DefaultIpListStrips | vortex.py:120-122 | The default `iplist.txt` body (a newline, the comment line, then a newline and eight blanks) is not blank, and stripping it gives exactly the comment line. |
| TargetList.DefaultIpListYieldsComment | vortex.py:120-122 | The default `iplist.txt` body is not blank. Its comment line is not filtered and becomes the two targets `# Add your IP addresses or domains here` and `separated by commas.`. |
| PyStrings.IsSpace | vortex.py:149 | The whitespace `strip()` removes is `str.isspace`'s set. The ASCII whitespace characters are in it, and no visible ASCII character is. |
| PyStrings.StripStart | vortex.py:149 | Everything before the index is whitespace, and the character at the index is not. |
| PyStrings.StripEnd | vortex.py:149 | Everything from the index on is whitespace, and the character before the index is not. |
| PyStrings.Strip | vortex.py:149 | `strip()` is applied to the whole file here and to each piece at line 156. The result is the slice between the two whitespace runs. What it removes is all whitespace, and it starts and ends with non-whitespace. It is empty iff the text is all whitespace. |
| PyStrings.StripUnique | vortex.py:149 | Stripping whitespace-only padding around a trimmed text gives back that text. |
| PyStrings.Split | vortex.py:156 | `split(',')` gives comma-count + 1 pieces. No piece contains a comma, and joining the pieces with commas gives back the text. |
| PyStrings.SplitUnique | vortex.py:156 | Splitting comma-free pieces joined with commas gives back exactly those pieces, which makes `Split` the inverse of `Join`. |
| PyStrings.Count | vortex.py:156 | The count is at most the length, and it is zero iff the character does not occur. |
| PyStrings.Find | vortex.py:156 | The result is -1 or an index at which a whole copy of the pattern fits. |
| PyStrings.FindMatches | vortex.py:156 | A non-negative result of `find` is an index at which the pattern occurs. |
| PyStrings.FindAbsent | vortex.py:156 | `Find` gives -1 iff the pattern occurs nowhere. |
| PyStrings.FindLeftmost | vortex.py:156 | No occurrence starts before the index `Find` returns. |
| PyStrings.Replace | vortex.py:156 | Replacing with the empty string never lengthens the text. |
| PyStrings.ReplaceFound | vortex.py:156 | When `find` returns index i, replacement keeps the text before i, substitutes the occurrence at i, and continues on the text after it. |
| PyStrings.ReplaceNotFound | vortex.py:156 | When `find` returns -1, replacement returns the text unchanged. |
| PyStrings.ReplaceAbsent | vortex.py:156 | With no occurrence of the pattern, replacement returns the text unchanged. |
| PyStrings.ReplaceSkipPrefix | vortex.py:156 | A prefix in which no occurrence starts is kept verbatim. |
| PyStrings.ReplaceFirstAfter | vortex.py:156 | When no occurrence starts before a given one, the text before it is kept, the replacement takes its place, and the scan resumes right after it. |
| ToolGate.CheckTools | vortex.py:90-96 | It proceeds iff all six tools are on PATH, after looking up each of them in order. Otherwise it exits with status 1 at the first missing tool. All earlier tools were found, and no later tool was looked up. |
| ScanOutput.Prefix | vortex.py:188-236 | Each runner's name prefix has at least two characters, ends in `_` and contains no `/`. |
| ScanOutput.Extension | vortex.py:188-236 | The extension starts with `.` and contains no `/`. It is `.html` exactly for ZAP. |
| ScanOutput.FileName | vortex.py:188-236 | The name is as long as prefix, target and extension together. It contains a `/` exactly when the target does. |
| ScanOutput.OutputPath | vortex.py:188-236 | The path is the project directory followed by `/`. When the target has no `/`, nothing after that separator has one, so the report lies directly in the project directory. |
| ScanOutput.FileNameShape | vortex.py:188 | The report name is the prefix, the target verbatim and the extension. |
| ScanOutput.PrefixesDiffer | vortex.py:188-236 | Two different scanners' prefixes differ within their first two characters, so neither prefix is a prefix of the other. |
| ScanOutput.FileNameInjective | vortex.py:188-236 | Distinct (scanner, target) pairs give distinct report names. |
| ScanOutput.OutputPathInjective | vortex.py:188-236 | In one project directory, distinct (scanner, target) pairs write to distinct paths. |
| ScanOutput.CrossDirectoryCollision | vortex.py:200 | Across directories the path does not determine its origin: a target containing `/` reaches a report of another directory. |
| ScanOutput.NmapPathExample | vortex.py:200 | Nmap on `10.0.0.5` in `./proj` writes `./proj/nmap_10.0.0.5.txt`. |
| ScanOutput.Run | vortex.py:184-193 | The runner returns output iff the process succeeded, its output decoded and the report opened. The returned text is the decoded output. Only the report path can change. A failed process or a failed open leaves the files unchanged. Once the report is opened it exists, and it holds the output or, after a decoding failure, nothing. |
| ScanOutput.ErrorHeading | vortex.py:192-229 | Every runner except ZAP has a heading. Each opens with `Error ` and ends with `: `. |
| ScanOutput.Returned | vortex.py:190-193 | Output is returned untouched. A caught failure becomes a message that opens with `Error ` and ends with the text of the failure. Only ZAP's string is unknown. |
| ScanOutput.RunReturns | vortex.py:184-229 | This covers a runner other than ZAP, stated in terms of its process and open outcomes. When the process succeeded, its output decoded and the report opened, it returns the decoded output. Otherwise it returns an `Error ` message that ends with the reason of the first step that failed. |
| ScanOutput.ReturnedIsAmbiguous | vortex.py:202-205 | A scanner whose output reads like its own error heading returns the same string as a failed run. |
| ScanOutput.ReportMatchesOutput | vortex.py:199-203 | When a runner returns output, its report holds exactly that output. |
| ScanOutput.UndecodableLeavesEmptyReport | vortex.py:211-215 | Output that cannot be decoded ends in an error and an empty report, because the file is opened before decoding. |
| ScanOutput.RunIdempotent | vortex.py:223-227 | Repeating a run with the same outcomes leaves the same files and result, because opening for writing truncates. |
| ScanOutput.RunsDoNotClobber | vortex.py:188-236 | A run for another (scanner, target) pair in the same project directory leaves an earlier report as it was. |

## Left out

- Process execution (`subprocess.check_output`) is not modelled.
  - A runner receives the process's outcome as a value: failure, captured text, or undecodable bytes.
  - The scanner's command-line arguments are not modelled.
- `ScanOutput.Run` models a write failure only as a failed open.
  - A failure during `f.write` itself is not modelled, for example a full disk.
  - A path that names a directory is covered: open raises inside the `try`, so that case is a failed open.
- Run: report files are a map keyed by path string, so distinct strings are distinct files. Path aliasing is not modelled: a case-insensitive file system, where `A.com` and `a.com` share one report; symbolic links; `..` through directories that already exist. `RunsDoNotClobber` holds only under this assumption.
- RunsDoNotClobber: see the line for `Run`; it states that a report is kept only for distinct path strings.
- JoinHalves: it asks that the text before the scheme has no `:`. That is enough to rule out an earlier occurrence, but it is not necessary. The exact condition, that no occurrence starts earlier, is `PyStrings.ReplaceFirstAfter`.
- SpaceAfterScheme: it asks that the piece has no trailing whitespace. Trailing whitespace would be stripped first, and that case is not stated.
- RunReturns: the converse of its first case does not hold, because output can read exactly like an error message (`ReturnedIsAmbiguous`). So the returned string does not reveal which case happened.
- `ScanOutput.ErrorHeading`: the file ends at line 239, inside `run_owasp_zap`'s handler, so ZAP's error text is not part of this model.
- `TargetList.CheckIpList` works on the text that reading the file yields.
  - Text-mode decoding and newline translation happen before this point.
  - A file that exists but cannot be read or decoded raises an uncaught exception. That case is not modelled.
  - The printed messages are not modelled.
- Logging and console output are not modelled anywhere.
- HTTP clients are not modelled (`check_version`, `query_dehashed`, `analyze_graph`). Their behaviour belongs to remote services.
- The rest of the program's setup is not modelled:
  - `install_dependencies`, which drives package installation;
  - `create_default_files` and `create_project_directory`, which are file-system side effects. The default `iplist.txt` body is used as a constant;
  - `load_config`, a wrapper over the configuration parser.
- Program parts outside the scanning core are not modelled: the banner and usage text, the dashboard, PDF, OCR, GUI and e-mail libraries, and anything after line 239.
- `PyStrings.Strip` uses Python's whitespace set as given by `str.isspace`. Text is a sequence of code points with no encoding step.
- Two points where the code is easy to misread; the model follows the code as written:
  - The report prefixes are `ssh_audit_`, `recon_ng_` and `owasp_zap_`, as written in the runners.
  - `http://` and `https://` are removed wherever they occur in a piece, not only at its start.
