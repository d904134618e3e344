# search_utility in Dafny

A model of the core of `search_utility`, a small grep-like command-line
tool written in Rust. The tool takes
`search_utility [options] <pattern> <files...>` and prints every line that
contains the pattern literally. The options are `-i` (case-insensitive),
`-n` (line numbers), `-v` (invert), `-r` (expand directories),
`-f` (file names), `-c` (colour) and `-h`/`--help`. The model covers:

- **`Config::new`** (module `CliConfig`, `cli_config.dfy`). The loop that
  skips the program name and sorts each argument into an option or a
  non-option. Then, in order: the help request, the "no pattern" and
  "no file paths" errors, the pattern and the file paths, and the `-r`
  expansion.
- **`recursively_find_all_files`** (module `Finder`, `finder.dfy`). The
  expansion of the named paths into a list of files, over a filesystem
  given as a parameter:
  - a regular file is kept as named;
  - a directory contributes the regular files its walk yields whose base
    name does not start with `.`;
  - anything else contributes nothing;
  - a failed metadata lookup or a walk error stops the search with its
    message.
- **`pattern_in_line` and `should_print`** (module `Matcher`,
  `matcher.dfy`).
  - The pattern is a literal string, since the source escapes every
    regular-expression metacharacter.
  - Matching is character by character. Under `-i`, characters are
    compared after a case-folding function.
  - Colouring wraps every non-overlapping occurrence, found left to right,
    between an `Open` and a `Close` marker.
- **`print_match`** (module `Output`, `output.dfy`). The record: the
  optional path and the optional decimal line number, then the line,
  joined by `": "`.
- **`search_file`** (module `Search`, `search.dfy`).
  - The pass over the file's line reads, printing the record of each
    emitted line.
  - It stops with "Could not open file: …" or "Could not read line N from …".
- `common.dfy` holds the shared `Result` and `Option` types.

Each loop of the source is a Dafny `method` with the same loop, proved
equal to a recursive specification function. `print_match` has no loop:
`PrintMatch`'s pushes and join are proved equal to the closed form
`FormatRecord`.

| method | specification function |
|---|---|
| `CliConfig.NewConfig` | `CliConfig.Parse` |
| `Finder.RecursivelyFindAllFiles` | `Finder.FindAll` |
| `Finder.PushWalkedFiles` | `Finder.WalkFiles` |
| `Output.PrintMatch` | `Output.FormatRecord` |
| `Search.SearchFile` | `Search.SearchFileSpec` |

The lemmas state the properties of those functions.

Representation choices:
- The seven boolean fields of the source's `Config` are the set of options
  that are on (`flags: set<Flag>`). A field is `true` exactly when its
  option is in the set.
- A displayed line is a `seq<Piece>`: characters plus `Open`/`Close`
  highlight markers.
- The filesystem is a function from a path to its metadata. For a
  directory, the metadata holds the sequence of entries its walk yields.
- A file is the sequence of its line reads, each a line or a read failure.

The model follows the code:
- The finder returns a list and keeps duplicates. A file named twice, or
  reached through its directory and by its own name, appears twice
  (`Finder.NamedFileKeptTwice`, `Finder.FileInNamedDirectoryTwice`).
- Without `-r`, a directory path stays in the file list as given. Nothing
  in `Config::new` rejects it. Depending on the platform, `search_file`
  then fails on it either at the open ("Could not open file: …") or at
  the first read ("Could not read line 1 from …"). Both are `FileInput`
  values of the model.
- A file named directly is kept even when its own name starts with `.`.
  Only walk entries are filtered.
- Only a walk entry's own base name is tested, so a walk does not prune
  hidden directories: `dir/.git/config` is kept
  (`Finder.HiddenDirectoryNotPruned`).
- "cat" occurs in "concatenate" at index 3. The highlight opens before
  index 3 and closes before index 6 (`Matcher.CatInConcatenate`).

## Model

| member | source | states |
|---|---|---|
| CliConfig.FlagSpellings | src/main.rs:44-53 | exactly the eight spellings `-i -n -v -r -f -c -h --help` name an option, and each names the one the source sets |
| CliConfig.Classify | src/main.rs:26-36 | classifying the arguments never sets the pattern or the file paths; they stay empty until the checks |
| CliConfig.ClassifyFlag | src/main.rs:39-56 | an option is on after the loop if and only if some argument after the program name spells it, wherever it stands |
| CliConfig.ClassifyNonOption | src/main.rs:39-56 | an argument is a non-option if and only if it spells no option; the program name is never classified |
| CliConfig.HelpSpelling | src/main.rs:51 | help is on if and only if `-h` or `--help` is among the arguments |
| CliConfig.RecursiveSpelling | src/main.rs:48 | recursion is on if and only if `-r` is among the arguments |
| CliConfig.ClassifyAppend | src/main.rs:53 | the non-options keep the order of the arguments |
| CliConfig.ClassifyOne | src/main.rs:44-54 | a single argument is either an option, adding no non-option, or itself the one non-option |
| CliConfig.RepeatedFlag | src/main.rs:44-51 | repeating an option changes nothing |
| CliConfig.NewConfig | src/main.rs:24-78 | the loop and the checks of `Config::new` produce exactly the result of `Parse` |
| CliConfig.ParseOutcome | src/main.rs:57-77 | for every argument vector, the empty one included: help wins with an empty pattern and file list; with no non-option the result is "Error: No pattern provided", with one it is "Error: No file paths provided"; otherwise the first non-option is the pattern and the rest are the file paths, replaced under `-r` by the finder's list, or by its error; a configuration returned, help included, has on exactly the options the arguments spell |
| CliConfig.UnknownDashIsNonOption | src/main.rs:53 | an unknown dash argument such as `-x` is a non-option, so `grep -x` lacks only file paths |
| Finder.CombineAssociative | src/main.rs:91-120 | pushing onto one list across stages does not depend on grouping, and the first error stays the result |
| Finder.RecursivelyFindAllFiles | src/main.rs:91-120 | the loop over the named paths returns exactly `FindAll` of them, stopping at the first error |
| Finder.PushWalkedFiles | src/main.rs:104-116 | the walk loop appends exactly the walk's contribution to the list so far, or returns the walk error |
| Finder.FindAllStep | src/main.rs:93-117 | one more named path adds its contribution after the rest |
| Finder.WalkFilesStep | src/main.rs:104-116 | one more walk entry adds its contribution after the rest |
| Finder.FindAllAppend | src/main.rs:91-120 | the result for two lists of paths is the result for the first followed by the result for the second, the first error winning |
| Finder.WalkFilesAppend | src/main.rs:104-116 | the same split property for the entries of one walk |
| Finder.FindAllStops | src/main.rs:95-97 | once a prefix of the paths fails, the later paths do not change the result |
| Finder.WalkFilesStops | src/main.rs:114 | once a prefix of a walk fails, the later entries do not change the result |
| Finder.WalkFilesOutcome | src/main.rs:104-116 | a walk succeeds if and only if it yields no error, fails with "Error: could not read directory" and the directory, and on success holds exactly the paths of its non-hidden regular-file entries |
| Finder.PathFilesOutcome | src/main.rs:95-117 | a named path succeeds if and only if its metadata can be read and any walk succeeds; it contributes itself if it is a regular file, its kept walk entries if it is a directory, nothing otherwise |
| Finder.FindAllOutcome | src/main.rs:91-120 | the finder succeeds if and only if every named path does, and then a path is in the result if and only if some named path contributes it |
| Finder.FindAllFirstError | src/main.rs:95-97 | the finder fails with the error of the first failing path: "Error: could not get metadata for: " and the path, or the walk error of that directory |
| Finder.NamedFileKeptTwice | src/main.rs:100-101 | a regular file named twice is in the result twice |
| Finder.FileInNamedDirectoryTwice | src/main.rs:100-111 | a file reached through its directory and by its own name is in the result twice |
| Finder.HiddenEntrySkipped | src/main.rs:107-111 | a walk yielding `a.txt` and `.hidden` contributes only `a.txt` |
| Finder.HiddenDirectoryNotPruned | src/main.rs:104-111 | a walk yielding the directory `.git` and the file `config` inside it keeps the file: a hidden directory is not pruned, and a directory entry contributes nothing |
| Matcher.StripAppend | src/main.rs:224-241 | removing highlight markers distributes over concatenation |
| Matcher.StripText | src/main.rs:224-241 | a line without markers reads back as the line |
| Matcher.OccurrenceMatches | src/main.rs:237-239 | every occurrence that colouring highlights is a real match of the pattern, at or after the scan start |
| Matcher.OccurrencesApart | src/main.rs:237-239 | highlighted occurrences are in increasing order and do not overlap |
| Matcher.OccurrencesMaximal | src/main.rs:237-239 | every match of the pattern is highlighted or lies inside an earlier highlighted occurrence |
| Matcher.OccurrencesFound | src/main.rs:226-228 | some occurrence is found if and only if the line contains the pattern |
| Matcher.OccurrencesWellPlaced | src/main.rs:237-239 | the occurrences fit in the line, in order, without overlap, so each can be wrapped |
| Matcher.StripRender | src/main.rs:237-240 | the coloured line with its markers removed is the original line |
| Matcher.RenderOpens | src/main.rs:236-239 | a highlight opens exactly before each occurrence |
| Matcher.RenderCloses | src/main.rs:236-239 | a highlight closes exactly after each occurrence, one pattern length later |
| Matcher.PairedText | src/main.rs:224-241 | plain text neither opens nor closes a highlight |
| Matcher.PairedSpan | src/main.rs:237-239 | one wrapped match opens and closes its own highlight |
| Matcher.RenderPaired | src/main.rs:237-239 | in a coloured line the highlights alternate open, close, open, …, and none is left open: each occurrence is wrapped in its own highlight |
| Matcher.PatternInLine | src/main.rs:224-241 | found if and only if the line contains the pattern; an unmatched or uncoloured line is returned unchanged; the displayed line always reads as the original; its highlights are properly paired; a coloured match opens a highlight before, and closes one after, exactly the non-overlapping occurrences found left to right |
| Matcher.ShouldPrint | src/main.rs:253-259 | a line is printed if and only if its match result differs from the invert option |
| Matcher.CatInConcatenate | src/main.rs:224-241 | "cat" in "concatenate", coloured: found, with a highlight opening before index 3 and closing before index 6 |
| Output.Digit | src/main.rs:277 | the digit character denotes the given digit |
| Output.NatToString | src/main.rs:277 | the line number's text is a non-empty string of decimal digits with no leading zero, one digit exactly below ten |
| Output.DecimalRoundTrip | src/main.rs:277 | reading the printed line number back as decimal gives the line number |
| Output.NatToStringInjective | src/main.rs:277 | different line numbers are printed differently |
| Output.JoinFront | src/main.rs:280 | joining is the first part, the separator, then the rest joined |
| Output.FormatRecordText | src/main.rs:272-281 | an uncoloured record reads as the optional path and ": ", the optional number and ": ", then the line |
| Output.PrintMatch | src/main.rs:272-281 | pushing the optional path, the optional number and the line, then joining with ": ", gives the record `FormatRecord` describes; with neither `-f` nor `-n` the record is the line itself |
| Search.LiteralPattern | src/main.rs:187-189 | the escaped pattern matches as a literal string: without `-i`, at index i exactly when the line's characters from i are the pattern; under `-i`, exactly when they agree with the pattern character by character after case folding |
| Search.Emits | src/main.rs:199-201 | a line is emitted if and only if containing the pattern differs from `-v` |
| Search.SearchFile | src/main.rs:176-209 | the read loop prints exactly the records, and returns exactly the result, of `SearchFileSpec`, with the open error "Could not open file: " and the path |
| Search.ScanOkIff | src/main.rs:196-208 | the search succeeds if and only if every line can be read |
| Search.ScanAppend | src/main.rs:196-206 | searching two runs of lines is searching the first then, if it did not fail, the second with line numbers continuing |
| Search.ScanFirstError | src/main.rs:205 | the first unreadable line, number k+1, gives "Could not read line k+1 from" the path, after the records of the lines before it |
| Search.EmittedAtShift | src/main.rs:196-206 | line j+1 of the reads is line j of their tail, one line number later |
| Search.ScanPrinted | src/main.rs:196-206 | a record is printed if and only if it is the record, with its 1-based line number, of some emitted line before every read failure |
| Search.InvertPartition | src/main.rs:199-201 | on a readable file, a search and the same search with `-v` toggled print one record per line between them |
| Search.MatchThenReadError | src/main.rs:196-206 | a matching first line is printed as it is, and an unreadable second line is reported as line 2 |
| Search.ReadLineErrorText | src/main.rs:205 | the read failure message for line 2 of `f` is "Could not read line 2 from f" |
| Search.IgnoreCaseScenario | src/main.rs:187-188 | under `-i`, "CAT" is found in "a cat" |
| Search.InvertScenario | src/main.rs:199-201 | under `-v` with colour, a line without the pattern is emitted unchanged |

## Left out

- Reading the command line, opening and reading files, and the filesystem
  lookups are parameters: the argument list, a `FileSystem` function, and
  a `FileInput` per file.
- `main` is not part of this model. It prints help, prints errors, and
  searches each file in turn, stopping at the first error. This is glue
  over the modelled functions.
- `display_help` is not part of this model. Its text has nothing to
  prove.
- Printing: `Search.SearchFile` returns the printed records in order
  instead of writing them to standard output.
- Search.LineMatcher: the regex build is assumed to succeed. The source
  builds from an escaped literal, which fails only on the regex crate's
  size limit, so the "Could not create regex builder for pattern" error
  path is not modelled.
- Search.LineMatcher: Unicode case-insensitive matching is a
  case-folding function given as a parameter, applied character by
  character. Multi-character case mappings are not modelled.
- Search.IgnoreCaseScenario: uses ASCII lower-casing as its fold.
- Matcher.PatternInLine: the ANSI red escape sequences are `Open`/`Close`
  markers. The colour crate's handling of escapes already in the line,
  and its terminal detection, are not modelled.
- Matcher.Occurrences: an empty pattern matches at every position. This
  follows the regex crate's empty matches; the source's comment assumes
  the pattern is not empty.
- Finder.RecursivelyFindAllFiles: the walk's order and its
  symbolic-link rules come from the `FileSystem` parameter.
- Finder.RecursivelyFindAllFiles: a non-UTF-8 base name, which the
  source reads as the empty name and so keeps, is not modelled, since
  names here are strings.
- Output.NatToString: `usize` is an unbounded natural number. Line
  numbers never approach the 64-bit bound.
