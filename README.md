# pkgstate, modelled in Dafny

pkgstate keeps the packages of one or more package managers in line with a
declarative list. The list is an INI-like file: `[apt]`, `[brew]`, … headers
name a package manager, and each following line that starts with an ASCII
letter or digit names one package. A package manager needs a profile: four
shell command templates for `update`, `install`, `remove` and `installed`.
`<pkgs>` in a template is replaced by a space-separated list of package
names, and `<pkg>` by a single name.

For every section whose manager has a profile, the tool does the following:
- It runs the update command and aborts the whole run if it fails.
- It runs the installed-check for each desired package.
- It installs the missing ones in one batch. If the batch fails and there
  were two or more packages, it installs them one by one.
- It reads the manager's state file, which lists the packages it saved last
  time.
- It collects the tracked packages missing from the desired list's array.
- It saves that array as the new state, unless the desired list is empty.
- It removes the collected packages, again batch first and then, if that
  fails and there were two or more, one by one.

The filter that finds the missing packages writes them over the front of
the desired list's own array. So the removal test and the saved state see
that overwritten list, not the desired list: a desired, installed package
can be removed, and the saved state can differ from the desired list. And
a new state file reads as one empty name, which the first run removes.
Both are described under "## Findings". The model follows the code as
written, with the evidently intended rules proved beside it.

The model covers this core. It is split into six files:
- `go_strings.dfy`: the Go `strings` functions the tool relies on
  (`HasPrefix`, `HasSuffix`, `Join`, `Split`, `ReplaceAll`), with Go's
  semantics.
- `config.dfy`: the list parser `parse_config`. It is a loop over the
  file's lines, specified by a fold and by a per-section reference
  definition.
- `commands.dfy`: profiles, command templates, the shell, `update_all`,
  `is_pkg_installed`, and the batch-then-singles strategy of `pkgs_install`
  and `pkgs_remove`. The shell is a class with a success oracle and the
  record of every command it ran.
- `state.dfy`: the state file codec (`save_state` joins at newlines,
  `get_state` splits at newlines). The state directory is a class holding a
  map from manager name to file text.
- `sync.dfy`: `sync_pkgs`. The desired list is an `array`, because the
  source filters it in place: it sets `pkgs_to_install := pkgs[:0]`, which
  shares the desired slice's backing array. After the filter, the array
  holds the packages to install, followed by the untouched rest of the
  desired list. The removal test and the saved state both read this array.
- `driver.dfy`: `main`'s loop over the parsed sections.

Go's map iteration order is unspecified. The model takes it as a
parameter: any list that names each section exactly once. Whether a
manager has a profile, and what that profile says, are parameters too.

## Model

| member | source | states |
|---|---|---|
| GoStrings.JoinSplit | main.go:190-194 | Joining the pieces of `strings.Split(s, "\n")` with `"\n"` gives `s` back, for every string. |
| GoStrings.SplitJoin | main.go:190-194 | Splitting the join of a non-empty list whose elements contain no separator gives the list back. |
| GoStrings.SplitPieces | main.go:190 | A split has exactly one more piece than the string has separators, and no piece contains the separator. |
| GoStrings.ReplaceAllAbsent | main.go:134 | A template without the placeholder is left unchanged by `ReplaceAll`. |
| GoStrings.ReplaceAllSplice | main.go:140 | A prefix free of the placeholder's first character is copied, and the placeholder right after it is replaced. |
| Config.ParseConfig | main.go:63-87 | The line loop returns the fold of the lines from section "DEFAULT". Each key's list is exactly that key's package lines, in file order with duplicates. A key is present iff it has at least one entry. |
| Config.FoldLookup | main.go:73-81 | Each section's list is what it held before, followed by the package lines read while that section is current. |
| Config.FoldKeys | main.go:79 | A key is in the result iff it was in it before or some package line was read under it, so no section is stored with an empty list. |
| Config.SectionName | main.go:76 | A header line is `"[" + name + "]"`, and the section becomes the inner text. |
| Config.HeaderOf | main.go:75-76 | `"[" + name + "]"` is a header and switches to section `name`. |
| Config.EntriesArePackageLines | main.go:72-81 | Every stored entry is a line of the file, starts with `[a-zA-Z0-9]`, and is not a header. |
| Config.EntriesAppend | main.go:73-81 | Two stretches of the file read one after the other: the second starts in the section the first left current, so a reopened section is appended to. |
| Config.NoHeaderEntries | main.go:73-81 | Lines without a header all go to the section they start in. |
| Config.LeadingLinesAreDefault | main.go:71-81 | The package lines before the first header are stored under "DEFAULT" and under no other key. |
| Config.HeaderSwitchesSection | main.go:75-76 | A header line switches the section and is not itself stored. |
| Config.ParseLeadingPackage | main.go:71-81 | Example: a package and a comment before the first header. The package goes to "DEFAULT" and the comment is dropped. |
| Config.ParseReopenedSection | main.go:75-79 | Example: a reopened section is appended to, and a duplicate package is kept. |
| Commands.Shell.Run | main.go:25-32 | `run_cmd` reports the oracle's verdict for the command and records it as the last command run. |
| Commands.UpdateAll | main.go:34-39 | Runs exactly the update command and reports whether it succeeded. |
| Commands.IsPkgInstalled | main.go:133-137 | Runs exactly the installed-check with `<pkg>` replaced by the name. Installed means the check succeeded. |
| Commands.BatchThenSingles | main.go:139-149 | The commands run are exactly `BatchTrace`: the batch command, then, only if it failed and there were two or more packages, one single-package command per package. |
| Commands.PkgsInstall | main.go:139-149 | `pkgs_install` runs the batch-then-singles trace of the install template. |
| Commands.PkgsRemove | main.go:151-161 | `pkgs_remove` runs the batch-then-singles trace of the remove template. |
| Commands.BatchTraceShape | main.go:142-147 | The batch command with `<pkgs>` replaced by the space-joined names comes first. Nothing else runs iff it succeeds or there is at most one package. Otherwise exactly one single-package command runs per package, in list order, so at most 1 + n commands run. |
| Commands.SingleCmdsAt | main.go:144-146 | The i-th single-package command is the template with `<pkgs>` replaced by the i-th name alone. |
| Commands.BatchCmdAtEnd | main.go:140 | For a template that ends in `<pkgs>` and has no `<` before it, the command is the template's text followed by the space-joined names. |
| Commands.CheckCmdAtEnd | main.go:134 | For a check template that ends in `<pkg>` and has no `<` before it, the command is the template's text followed by the name. |
| StateFile.Store.GetState | main.go:177-191 | A missing state file is created empty, and the result is the file's text split at newlines. |
| StateFile.Store.SaveState | main.go:193-201 | The manager's file is replaced by the list joined with newlines, and no other file changes. |
| StateFile.Decode | main.go:190 | The state read is never empty. |
| StateFile.DecodeEncode | main.go:190-194 | Saving then reading gives the list back, when it is non-empty and newline-free. |
| StateFile.EncodeDecode | main.go:190-194 | Reading then saving gives any file's text back. |
| StateFile.EmptyFileDecode | main.go:179-190 | A new or empty state file reads as `[""]`. |
| Sync.FilterNotInstalled | main.go:207-212 | The in-place filter performs one installed-check per desired package, in order. It returns the number of missing packages. The array becomes the missing packages followed by the unchanged tail. The loop keeps the write index at or below the read index. |
| Sync.CollectRemovals | main.go:217-226 | The removal loop returns exactly the state entries, in order with duplicates, that the filtered array does not contain. |
| Sync.SyncPkgs | main.go:203-233 | The commands run follow `SyncTrace`. If the update fails, only the update runs and nothing else changes. Otherwise the array is the filtered buffer, and the state file holds the buffer when the desired list is non-empty, or keeps its text when it is empty (a missing file is created empty, main.go:179-185, and stays so). |
| Sync.ToInstallMembers | main.go:207-212 | A package is to be installed iff it is desired and its installed-check fails. |
| Sync.ToInstallExtremes | main.go:207-212 | If no package is installed, all are to be installed. If all are installed, none is. |
| Sync.BufferUnchangedIff | main.go:207-212 | The filter leaves the desired list unchanged iff the packages to install are a prefix of it. |
| Sync.BufferUnchangedAtExtremes | main.go:207-212 | With none installed, or all installed, the desired list survives the filter. |
| Sync.BufferFromDesired | main.go:207-212 | The buffer has the desired list's length and holds only desired packages. |
| Sync.BufferPair | main.go:207-212 | A two-package buffer differs from the list only when the first package is installed and the second is not, and then it is the second package twice. |
| Sync.ToRemoveMembers | main.go:220-225 | An entry is removed iff it is tracked and not in the buffer. |
| Sync.RemovesEveryUndesired | main.go:217-226 | Every tracked package that is no longer desired is removed. |
| Sync.RemovedDesiredWasInstalled | main.go:217-226 | A desired package is removed only if its installed-check succeeded. |
| Sync.SyncTraceOrder | main.go:203-233 | The update command comes first, and a failed update is the only command. After a successful update come the installed-checks in desired order. No more commands run when nothing is missing and nothing is to go. |
| Sync.ScenarioGitVimCurl | main.go:203-233 | Example: desired [git, vim], tracked [vim, curl], git missing. The run updates, checks git and vim, installs git, removes curl, and saves [git, vim]. |
| Sync.AliasedBufferRemovesDesired | main.go:207-228 | As written: desired [vim, git] with only vim installed leaves the buffer [git, git]. A tracked vim is removed, and [git, git] is saved. |
| Sync.SecondRunRemovesDesired | main.go:207-228 | As written: a run that installs vim but not git is followed by one that removes the desired, installed vim. |
| Sync.SecondRunSameOutcomes | main.go:217-228 | A second run with the same check outcomes removes nothing: it reads back the buffer it saved. |
| Sync.FirstRunRemovesEmptyName | main.go:217-226 | As written: on the first run, the missing state file reads (line 190) as `[""]`; the empty name is sent to the remove command. |
| Sync.IntendedRemovals | main.go:217-226 | Corrected removal rule: an entry is removed iff it is tracked (an empty file tracks nothing) and not one of the original desired packages. |
| Sync.IntendedRemovalsQuiet | main.go:217-228 | Under the corrected rule a first run removes nothing, and a run that reads back the list it saved removes nothing. |
| Sync.RemovalsAgreeWhenUnaliased | main.go:217-226 | The code as written and the corrected rule agree when the filter leaves the list unchanged and the state file is not empty. |
| StateFile.DecodeIntended | main.go:190 | Corrected read: the empty file reads as no packages, and only the empty file does. |
| StateFile.DecodeIntendedEncode | main.go:190-194 | Under the corrected read, saving then reading gives back every newline-free list except `[""]`, including the empty list. |
| Driver.RunOne | main.go:237-240 | One iteration: a manager without a profile runs nothing. Otherwise it runs `sync_pkgs` on a copy of its list. The run aborts iff the manager has a profile and its update fails. The state directory becomes `ManagerFiles`: the manager's file holds the saved state when its update succeeded, and nothing else changes. |
| Driver.RunAll | main.go:236-242 | The loop runs, in order, each listed manager's commands on the state directory its predecessors left, and stops after the first failed update. It aborts iff some manager with a profile fails its update. The state directory becomes `DriverFiles`. Unlisted managers and managers without a profile keep their state file. |
| Driver.SyncAll | main.go:235-242 | `main`: parse the list, then run the loop over any order of its sections, with the same four guarantees. |
| Driver.DriverFilesFrame | main.go:236-242 | The run changes only the state files of listed managers that have a profile. |
| Driver.DriverSavesProfiled | main.go:227-228 | When every manager up to and including a profiled one passes its update, that manager's file ends up holding what its `sync_pkgs` saved from the file it read before the run. |
| Driver.DriverStopsAtFailedUpdate | main.go:34-39 | After a failed update, the file of the failing manager and the files of all managers after it in the order are left as they were. |
| Driver.NoProfileNoCommands | main.go:237-238 | If no listed manager has a profile, no command runs. |
| Driver.ParsedListsWellFormed | main.go:72-81 | For every file, every parsed list is non-empty, so `sync_pkgs` always saves (line 227). Each of its names is non-empty and is one of the file's lines. |
| Driver.SavedStateReadsBack | main.go:227-228 | When no line of the file contains a newline, for every parsed list the state `sync_pkgs` saves reads back on the next run as exactly the filtered buffer it saved. |

The contracts above are stated in terms of a few definitions, which have
no contract of their own. Each models these lines:
- `GoStrings.HasPrefix` and `GoStrings.HasSuffix` (main.go:75),
  `GoStrings.ReplaceAll` (main.go:134 and main.go:140), `GoStrings.Join`
  (main.go:140 and main.go:194) and `GoStrings.Split` (main.go:190): the Go
  `strings` functions the tool calls.
- `Commands.CheckCmd` (main.go:134), `Commands.BatchCmd` (main.go:140),
  `Commands.SingleCmds` (main.go:144-146) and `Commands.BatchTrace`
  (main.go:139-149): the commands of `is_pkg_installed`, `pkgs_install` and
  `pkgs_remove`.
- `Config.IsHeader` (main.go:75), `Config.IsPackageLine` (main.go:78),
  `Config.Fold` (main.go:71-81) and `Config.ConfigOf` (main.go:63-87): the
  parser's line tests, its loop, and the map it returns.
- `StateFile.Encode` (main.go:194): the text `save_state` writes.
  `StateFile.Content` (main.go:179-186): the text `get_state` reads, where a
  missing file is created empty first.
- `Sync.Checks` (main.go:208-209), `Sync.ToInstall` (main.go:207-212),
  `Sync.Buffer` (main.go:207-212), `Sync.ToRemove` (main.go:221-224),
  `Sync.Removals` (main.go:217-226), `Sync.SavedContent` (main.go:227-228)
  and `Sync.SyncTrace` (main.go:203-233): the steps of `sync_pkgs`.
  `Sync.Installed` (main.go:136) is the value `is_pkg_installed` returns.
- `Config.Lookup` (main.go:79): a section's list, where an absent key reads
  as the empty list, as Go's read of a missing map key gives `nil`.
- `Driver.ManagerTrace`, `Driver.ManagerFiles`, `Driver.DriverTrace` and
  `Driver.DriverFiles` (main.go:236-242): the commands and the state
  directory of `main`'s loop.

## Left out

- Running commands (`run_cmd`: `/bin/sh -c`, inherited stdin, stdout and stderr) is not modelled. It is a fixed oracle `succeeds` that says whether a command string exits successfully. Outcomes cannot depend on earlier commands: an install that succeeds does not change the next installed-check. In particular, for a template without `<pkgs>`, the batch command and every single-package command are the same string, so after a failed batch the model fails every single command too, where a re-run in the source could succeed. Separate runs use separate oracles (see `Sync.SecondRunRemovesDesired`).
- Filesystem access is not modelled. The state directory is a map, and reading a missing file reads `""`. The paths of `get_state_path`, `get_config_path` and `pkg_conf_exists` are left out, along with the directory creation and every I/O error. For the same reason, whether a manager has a profile is the parameter `hasProfile`: the source looks for it in two inconsistent places (main.go:48 and main.go:118).
- Reading the profile (`get_pkg_config`, `json.Unmarshal`, whose error is ignored) is the parameter `profileOf`, which may return any four strings. `pprint` is not used by the core.
- The line scanner is not modelled: the list file is given as its sequence of lines. `\r` stripping, the token size limit and scanner errors are not modelled.
- The line regex `^[a-zA-Z0-9]` is a predicate on the first character.
- Panics are modelled as an `Aborted` outcome after which nothing more happens. Only the panic of `update_all` is modelled; the I/O panics are left out as above.
- `Commands.UpdateAll`: the panic on failure is modelled as `ok == false`, and the caller stops.
- Go strings are byte sequences, and the model's strings are sequences of Unicode characters. The separators and patterns the tool uses (`\n`, `" "`, `[`, `]`, `<pkg>`, `<pkgs>`) are all ASCII, so the results agree for valid UTF-8 text. A list file or state file holding invalid UTF-8 cannot be represented.
- `GoStrings.ReplaceAll` is modelled only for non-empty patterns. The tool uses only `<pkg>` and `<pkgs>`.
- `GoStrings.Split` is modelled only for a one-character separator, which is all the tool uses.
- The removal loop also reuses a backing array (`to_remove = state[:0]`). Every write lands at or before the index being read, so the loop's result is the filter of the state as read. It is modelled on sequences, without that aliasing.
- `main` passes each section's slice, which shares the parsed map's backing array. `sync_pkgs` overwrites it, but the map is never read again for that manager. `Driver.RunOne` therefore copies the list into a fresh array.
- Go's map iteration order is the `order` parameter.

## Findings

| source | as written | input that shows it | evidently intended | confidence | as-written member | corrected member |
|---|---|---|---|---|---|---|
| main.go:207, 222, 228 | The install filter writes into the desired list's backing array. The removal test and the saved state then read that overwritten buffer. | Desired [vim, git], vim installed, git not: the buffer is [git, git], a tracked vim is removed, and [git, git] is saved. | Test removals and save the state against the original desired list. A desired package is never removed. | not executed | Sync.AliasedBufferRemovesDesired, Sync.SecondRunRemovesDesired | Sync.IntendedRemovals, Sync.IntendedRemovalsQuiet |
| main.go:190, 219-222 | A new (empty) state file splits to `[""]`. The empty name is then "tracked", is never desired, and is passed to the remove command. | First run for a manager, with any desired list: the removals are `[""]`. | An empty state file tracks no packages. | not executed | Sync.FirstRunRemovesEmptyName, StateFile.EmptyFileDecode | StateFile.DecodeIntended, StateFile.DecodeIntendedEncode |

`Sync.SyncPkgs` and the driver model the code as written. The corrected
definitions sit beside them and are built on each other: `IntendedRemovals`
reads the state with `DecodeIntended`. `Sync.RemovalsAgreeWhenUnaliased`
states where the two rules coincide.
