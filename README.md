# Vex command core in Dafny

Vex is a command-line manager for named QEMU launch configurations. Each
configuration is a JSON file `<name>.json` in a per-user configuration
directory. A file holds the QEMU binary, its argument list, an optional
description, and the QEMU version found when the configuration was saved.

This project models the five commands that act on saved configurations:

- `exec` loads a configuration and warns when the installed QEMU version
  differs from the saved one. It replaces `${NAME}` placeholders in the
  arguments with environment variables, appends `-s -S` in debug mode,
  prints a startup banner, launches the binary and reports its exit status.
- `rename` moves a configuration to a new name. It asks before overwriting
  an existing name unless forced, and can replace the description.
- `rm` deletes a configuration.
- `list` prints every readable, well-formed configuration in directory order.
- `print` shows one configuration section by section.

Modules:

- `Config` holds the record, the errors and the directory. The directory is
  the class `Config.Store`, whose file map the write and remove methods
  update in place.
- `Substitution` models the placeholder replacement.
- `Exec`, `Rename`, `Remove`, `List` and `Print` model one command each.
- `Text` holds the renderings the commands print: decimal numbers, `join`,
  `repeat`, and Rust's `{:?}` form of strings and string lists.

Each command is a method. It takes the directory and the answers of the
outside world as parameters: the environment, the detected version, how the
launched process ended, the prompt's answer, whether a write or a deletion
succeeds, and the directory listing. It returns the command's result and
the lines it prints. `Rename.Rename` is proved equal to a pure function of
the old directory, `Rename.RenameEffect`, and the lemmas about renaming are
stated on that function.

## Model

| member | source | states |
|---|---|---|
| Config.Store.Load | src/commands/exec.rs:44-54 | A record is loaded exactly when the directory resolves, the name's file exists and it deserializes, and the record is the one that file holds. Each error holds exactly when its step is the first to fail: `LocatorFailed` when the directory does not resolve; `NotFound` with the name when the file is missing; `ReadFailed` when the file cannot be read; `DeserializeFailed` when it holds no configuration. |
| Config.ConfigFileNameInjective | src/commands/rename.rs:45-50 | Two names with the same file are the same name. |
| Config.LastDot | src/commands/list.rs:23-24 | The result is the position of the last '.' in a file name, or none when there is no dot. |
| Config.ConfigFileNameParts | src/commands/list.rs:23-24 | A non-empty name's file has extension `json` and stem equal to the name. The empty name's file `.json` has no extension. |
| Config.JsonFileIsConfigFile | src/commands/list.rs:23-24 | Every file with extension `json` has a non-empty stem and is that stem's configuration file. |
| Config.JsonStemInjective | src/commands/list.rs:23-24 | Two `json` files with the same stem are the same file. |
| Config.Store.WriteFile | src/commands/rename.rs:72-75 | A successful write stores the content under the file name and keeps every other file. A refused write changes nothing and fails with `WriteFailed`. |
| Config.Store.RemoveFile | src/commands/remove.rs:28 | A successful removal deletes exactly that file. The removal fails with `DeleteFailed` and changes nothing when it is refused or the file is absent. |
| Substitution.CloseFrom | src/commands/exec.rs:133 | The result is the first '}' at or after a position, or none when there is none. |
| Substitution.MatchAtStart | src/commands/exec.rs:133 | A match of `\$\{([^}]+)\}` at the start is found exactly when one exists, and it ends at the first '}'. |
| Substitution.Names | src/commands/exec.rs:136-137 | Every captured name is non-empty and contains no '}'. |
| Substitution.SubstituteParams | src/commands/exec.rs:132-142 | Argument lists keep their length, and each argument is substituted on its own. |
| Substitution.SplitAtMatch | src/commands/exec.rs:133 | A match splits its string into `${`, the name, `}` and the rest. |
| Substitution.SubstituteUnset | src/commands/exec.rs:137 | When no captured name is set in the environment, substitution leaves the text unchanged, because each unset placeholder is written back as `${NAME}`. |
| Substitution.NamesEmptyIff | src/commands/exec.rs:133 | No name is captured exactly when the text contains no placeholder. |
| Substitution.SubstituteNoPlaceholder | src/commands/exec.rs:136-139 | Text without a placeholder is left unchanged. |
| Substitution.SubstituteNoClose | src/commands/exec.rs:133 | Text without '}' is left unchanged. |
| Substitution.SubstituteParamsUnset | src/commands/exec.rs:132-142 | An argument list with no set names comes back unchanged. |
| Substitution.SubstituteLiteralPrefix | src/commands/exec.rs:136 | Literal text that cannot start a match is copied through as it is. Such text holds no `${`, and a final '$' in it is not followed by '{'. Bare dollars as in `$HOME` are therefore covered. |
| Substitution.SubstitutePlaceholderPrefix | src/commands/exec.rs:136-138 | A leading `${NAME}` becomes the variable's value, or stays as it is when the variable is unset. Scanning then resumes after the '}'. |
| Substitution.SubstituteEmptyBraces | src/commands/exec.rs:133 | `${}` is not a placeholder and is copied through. |
| Substitution.SubstituteTemplate | src/commands/exec.rs:136-139 | Text built from literal pieces and placeholders is filled piece by piece, left to right, in one pass. A literal piece may hold any text that cannot start a match together with what follows, including bare '$' as in `$HOME/${X}` or `$${A}`. Substituted values are not scanned again. |
| Substitution.ExampleUnset | src/commands/exec.rs:137 | `--id=${FOO}` with FOO unset stays `--id=${FOO}`. |
| Substitution.ExampleSet | src/commands/exec.rs:137 | `--id=${FOO}` with FOO=bar becomes `--id=bar`. |
| Substitution.ExampleSinglePass | src/commands/exec.rs:136-138 | A value that itself looks like a placeholder is not expanded again. |
| Substitution.ExampleNestedOpen | src/commands/exec.rs:133 | In `${a${b}` the name runs to the first '}': it is `a${b`. |
| Substitution.ExampleBareDollar | src/commands/exec.rs:133-138 | `$HOME/${X}` with X=v becomes `$HOME/v`: a '$' that does not open `${` stays literal. |
| Exec.ClassifyDrift | src/commands/exec.rs:56-70 | Each outcome of the version check holds exactly under its condition: no version saved; the same version detected; a different version detected (carrying both); no version detected. |
| Exec.DriftWarning | src/commands/exec.rs:59-68 | Nothing is printed exactly when no version was saved or the versions match. A mismatch prints four lines naming both versions. |
| Exec.StartupMessage | src/commands/exec.rs:100-129 | The banner has one header line naming the configuration and its description, if any. `-f` adds the QEMU and Args lines; debug mode adds three lines. |
| Exec.ExecCommand | src/commands/exec.rs:43-98 | A load failure stops the command before the probe and the launch. The probe runs only when a version was saved. The binary is always launched, whatever the version check found. The effective arguments are the substituted stored ones followed by `-s -S` in debug mode. The result is success exactly when the process exits with code 0. Otherwise it is a spawn error with the binary, or the exit code, or -1 when there is none. |
| Remove.RemoveCommand | src/commands/remove.rs:22-32 | An unresolved or missing configuration, or a refused deletion, is an error that changes nothing. On success exactly that file is gone, every other file is unchanged, and one confirmation line is printed. |
| Rename.Overlay | src/commands/rename.rs:67-70 | The new record keeps binary, arguments and version. Its description is the given one, or the old one when none is given. |
| Rename.Prepare | src/commands/rename.rs:45-70 | The steps before writing, run in the source's order: locate, old name must exist, confirm overwrite unless forced, read and deserialize, overlay the description. |
| Rename.RenameAsWritten | src/commands/rename.rs:39-90 | The command as written: the new file is written, then the old one is removed, even when both are the same file. It is proved equal to `RenameEffectAsWritten`; `Rename.AsWrittenAgrees` and `Rename.RenameAsWrittenMoves` state that function's properties. |
| Rename.Rename | src/commands/rename.rs:39-90 | The corrected command. It is the same as the code except that it does not remove the file just written when both names are equal. |
| Rename.RenameMissingOld | src/commands/rename.rs:45-48 | A missing old configuration is an error that changes nothing and prints nothing. |
| Rename.RenameDeclined | src/commands/rename.rs:51-59 | Declining the overwrite prompt succeeds, changes nothing, and prints the prompt and "Rename cancelled". |
| Rename.RenameNoPrompt | src/commands/rename.rs:51 | Without a taken new name, or with `--force`, the prompt's answer plays no part and at most one line is printed. |
| Rename.RenameUnreadableOld | src/commands/rename.rs:62-65 | An old file that cannot be read or deserialized stops the command before any write, with the matching error. |
| Rename.RenameWriteFails | src/commands/rename.rs:75 | A failed write is an error that leaves the directory as it was, so the old configuration survives. |
| Rename.RenameRemoveFails | src/commands/rename.rs:77-78 | A failed removal after the write is an error. The directory is then the old one with the overlaid record stored under the new name, and the old name keeps its file unchanged. |
| Rename.RenameSucceeds | src/commands/rename.rs:72-87 | A rename that goes through stores the overlaid record under the new name. When the names differ, no file remains under the old name. Every other file is unchanged. |
| Rename.RenamePassCases | src/commands/rename.rs:56-89 | Success means either a declined prompt that changed nothing or a completed move. |
| Rename.RenameAsWrittenSameNameLoses | src/commands/rename.rs:75-78 | As written, renaming a configuration to its own name reports success and leaves no file for it. |
| Rename.RenameSameNameKeeps | src/commands/rename.rs:72-78 | Corrected, renaming a configuration to its own name keeps it under the new description. |
| Rename.AsWrittenAgrees | src/commands/rename.rs:39-90 | The code as written and the corrected command give the same result, directory and output whenever the names differ. They can differ only when a configuration is renamed to its own name and the write succeeds. So every rename lemma holds of the code as written for distinct names. |
| Rename.RenameAsWrittenMoves | src/commands/rename.rs:72-87 | As written, for distinct names past the prompt and the read, there are three outcomes. A failed write changes nothing. A failed removal stores the overlaid record under the new name and keeps the old file. Otherwise the record moves to the new name, and the renamed line with the description in force is printed last. |
| List.CollectedMembers | src/commands/list.rs:20-38 | A configuration is listed exactly when some directory entry is a `json` file with that stem that reads and deserializes to it. Everything else is skipped. |
| List.ListedHasSource | src/commands/list.rs:20-38 | Every listed configuration comes from a directory entry that is a `json` file with that stem holding that record. |
| List.SourceIsListed | src/commands/list.rs:20-38 | Every such entry has its configuration listed. |
| List.CollectedPrefix | src/commands/list.rs:20-38 | What the first entries contribute is a prefix of the whole listing. |
| List.CollectedAt | src/commands/list.rs:20-38 | Listing order is directory order: an entry's configuration comes right after those of the entries before it. |
| List.CollectedNamesDistinct | src/commands/list.rs:23-29 | When the directory holds each file name once, each name is listed at most once. |
| List.ListedExactlyTheValid | src/commands/list.rs:20-38 | Over a complete listing, a name is shown exactly when it is non-empty and its file holds a well-formed record, and no name is shown twice. |
| List.CollectConfigs | src/commands/list.rs:20-38 | The entry loop: the first entry error fails the command, and otherwise the result is the collected configurations. |
| List.BlocksAt | src/commands/list.rs:44-53 | Configuration `k`'s four lines sit at positions `4k` to `4k+3` in the printed blocks. |
| List.Report | src/commands/list.rs:40-54 | An empty listing prints "No configurations found.". Otherwise the heading comes first, followed by four lines per configuration. |
| List.ReportEntry | src/commands/list.rs:44-53 | Each configuration prints its name with its description or "(no description)", its binary, its arguments in debug form, and an empty line. |
| List.PrintConfigs | src/commands/list.rs:40-54 | The printing loop emits exactly the report. |
| List.ListCommand | src/commands/list.rs:10-57 | A missing directory prints "No configurations saved yet." and succeeds. An unreadable directory or any entry error fails and prints nothing. Otherwise the command prints the report of the collected configurations. |
| Print.Separator | src/commands/print.rs:38 | The rule is sixty '=' characters. |
| Print.PrintCommand | src/commands/print.rs:23-75 | A load failure is reported and prints nothing. Otherwise the command prints the details of the loaded configuration and of the file path. |
| Print.DetailsHeader | src/commands/print.rs:37-39 | The report opens with the name, a 60-character '=' rule and a blank line. |
| Print.DetailsDescription | src/commands/print.rs:41-46 | The description block appears right after the header exactly when there is a description. |
| Print.DetailsArguments | src/commands/print.rs:53-62 | After the heading come "(no arguments)" when there are none, or else argument `i` tagged `[i]` on line `i`, in order, then a blank line. |
| Print.DetailsTail | src/commands/print.rs:64-72 | The report has a fixed length given by the description and the argument count. It ends with the full command line and the quoted configuration path. |
| Print.IndexedLinesStep | src/commands/print.rs:58-60 | Numbering one more argument appends its tagged line. |
| Print.FullCommandWords | src/commands/print.rs:66 | When no word holds a space, the full command splits back into the binary and the arguments. With no arguments it ends in a lone space. |
| Print.FullCommandNoArguments | src/commands/print.rs:66 | Without arguments the full command is the binary followed by one space. |
| Print.IndexedLineTagged | src/commands/print.rs:59 | An argument line determines its position and its argument. |
| Text.NatToString | src/commands/print.rs:59 | An index prints as at least one decimal digit, without a leading zero. |
| Text.DecimalRoundTrip | src/commands/print.rs:59 | The printed index reads back as the same number. |
| Text.NatToStringInjective | src/commands/print.rs:59 | Distinct indices print differently. |
| Text.Repeat | src/commands/print.rs:38 | `repeat` gives `n` copies of the character. |
| Text.SplitJoin | src/commands/print.rs:66 | Joining with a one-character separator that no part contains can be undone by splitting. |
| Text.UnescapeEscape | src/commands/list.rs:51 | The `{:?}` escaping of a string can be undone, so the printed form determines the string. |

## Left out

- The JSON layer: serde parsing and pretty-printing are not modelled. A configuration file is modelled as already read (`Record`, `Malformed` or `Unreadable`). Serialization failure in rename (`src/commands/rename.rs:73-74`) cannot happen in the model.
- The configuration directory's location: `config_dir` and `config_file` come from the crate's `config` module (imported at `src/commands/exec.rs:7`, `src/commands/list.rs:5` and `src/commands/remove.rs:5`), which is not part of this model. Whether the location resolves is a flag of the store. The file of a name is taken to be `<dir>/<name>.json`.
- Names containing path separators, and `Path::join` with absolute names: a name is kept as the plain text before `.json`.
- Non-UTF-8 file names, which `list` skips through `to_str`: all file names are strings here.
- Printed I/O: `println!` output is returned as a list of lines, and stdout failures are not modelled.
- `{:?}` escaping: only `\"`, `\\`, `\n`, `\r`, `\t` and `\0` are escaped. Rust's `\u{…}` escapes for other control and non-printable characters are left out.
- The version probe, process spawning, the environment and the confirmation prompt are calls into the outside world. They become parameters (`detected`, `spawn`, `env`, `io.reply`). The version probe is `get_qemu_version` (imported at `src/commands/exec.rs:8`). The prompt is `prompt_user_default_no` (imported at `src/commands/rename.rs:6`). Neither implementation is part of this model. Launching is `std::process::Command` (`src/commands/exec.rs:85-88`) and the environment is `std::env::var` (`src/commands/exec.rs:137`); both are standard-library calls outside the model.
- Exit statuses: the exit code is a plain integer, and a process ended by a signal is `Killed`, whose code is -1.
- Error texts: errors are a datatype. The different "does not exist" messages of exec, print, rm and rename all become `NotFound(name)`, and the context strings are not modelled.
- The regex engine: `Regex::new` and `replace_all` are modelled by a direct scanner for the single pattern `\$\{([^}]+)\}`, and other patterns are not supported.
- Partial effects of a failing `fs::write`: a refused write changes nothing in the model.
- `src/commands/completions.rs` and `src/commands/mod.rs`: shell completion and command dispatch are outside the modelled core.
- Concurrency: other processes changing the directory while a command runs are not modelled. The `list` listing is a parameter, and `List.ListedExactlyTheValid` holds only over a listing that matches the directory.

## Findings

| source | as written | input that shows it | evidently intended | confidence | as-written member | corrected member |
|---|---|---|---|---|---|---|
| src/commands/rename.rs:72-78 | The new file is written, then the old file is removed unconditionally. | `vex rename a a -f` with `a` saved: `a.json` is rewritten, then deleted, and the command reports success. | Renaming to the same name keeps the configuration, with the new description if one is given. | medium, not executed | Rename.RenameAsWritten, Rename.RenameAsWrittenSameNameLoses | Rename.Rename, Rename.RenameSameNameKeeps |
