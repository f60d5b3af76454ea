# mini-ls, modelled in Dafny

A model of the library core of `mini-ls`, a small clone of the Unix
`ls` command. It covers four parts:

- The argument parser (`Config::build`) turns the command-line words into a
  `Config`: the directory to list and nine one-letter flags.
- The permission decoder (`get_mode`) turns a file type and a numeric mode
  into a string such as `drwxr-xr-x`.
- Each directory entry (`FileInfo`) has two renderings: a short, coloured
  name and a long line of columns.
- The listing (`LSDisplay`) sorts the entries stably by lower-cased name and
  reverses them on `-r`. It drops hidden entries unless `-a` is given, and
  writes every entry in long form with `-l`, in short form otherwise.

Modules, in dependency order:

| module | file | contents |
|---|---|---|
| `Basics` | `basics.dfy` | `Option`, `Result`, the `u32`/`u64` integer ranges |
| `Text` | `text.dfy` | prefixes and suffixes, decimal rendering, field padding, ASCII lower-casing, the order on `String` |
| `Ansi` | `ansi.dfy` | the colour codes, and what a terminal shows of a coloured string |
| `Files` | `files.dfy` | `FileType`, `FileInfo`, `short()` and `long()` |
| `Permissions` | `permissions.dfy` | `get_perm_str`, `get_mode`, an independent bit-by-bit reading of a mode, and the corrected decoder |
| `Identity` | `identity.dfy` | `get_owner_and_group_names`, with the database lookups passed in |
| `Arguments` | `arguments.dfy` | `Config`, `Config::new`, `set_flag`, `set_path` and `build` |
| `Listing` | `listing.dfy` | `LSDisplay::new` (stable sort, reversal) and `LSDisplay::display` (filter, render) |

Three behaviours of the code are easy to miss:

- **Unreadable link target.** When a symbolic link's target is not valid
  UTF-8, only the name column of its long line is emptied. The permissions,
  counts, names, size, time and the closing reset are still written
  (`Files.LongUnreadableTarget`).
- **Link count alignment.** The format string `{:<2}` left-aligns the link
  count (`Files.LongLinkCountLeftAligned`).
- **Reset code on plain entries.** Both renderings end with a reset code,
  even for a regular file, which has no colour code before its name
  (`Files.Short`, `Files.NameColumnColors`).

## Model

| member | source | states |
|---|---|---|
| Permissions.PermStr | src/lib.rs:248-258 | a triplet value the table covers (0-7 except 3) gives three characters; 3 and every value of 8 or more give the empty string |
| Permissions.PermStrIsSymbolic | src/lib.rs:248-258 | every entry of the table is the POSIX `rwx` reading of the 3-bit value's bits |
| Permissions.GetMode | src/lib.rs:261-278 | the first character is `d`, `-` or `l` by file type, whatever the mode; the length is 10 less 3 for each triplet equal to 3 |
| Permissions.GetModeByTriplets | src/lib.rs:261-278 | for every mode, including those with a triplet equal to 3: the type character, then the owner, group and other triplets in that order, each read bit by bit, a triplet of 3 contributing nothing |
| Permissions.SymbolicByTriplets | src/lib.rs:262-264 | reading the nine low mode bits one by one is the same as reading the owner, group and other triplets in turn |
| Permissions.GetModeIsSymbolic | src/lib.rs:261-278 | when no triplet is 3, the string is the type character followed by the POSIX reading of the nine low mode bits |
| Permissions.GetModeLowNineBits | src/lib.rs:262-264 | only the low nine bits matter: the file-type, setuid, setgid and sticky bits never show |
| Permissions.GetModeExamples | src/lib.rs:325-344 | the unit tests: modes 33279, 33077 and 32768 of a regular file decode to `-rwxrwxrwx`, `-r--rw-r-x` and `----------` |
| Permissions.GetModeGapExample | src/lib.rs:248-258 | as written, mode 0o733 decodes to the 4-character `-rwx` instead of ten characters |
| Permissions.GetModeGapOrderExample | src/lib.rs:261-278 | mode 0o736 decodes to `-rwxrw-`: the owner triplet stays first next to the gap |
| Permissions.PermStrFixed | src/lib.rs:248-258 | with 3 mapped to `-wx`, every triplet value is read bit by bit, and the other values are unchanged |
| Permissions.GetModeFixed | src/lib.rs:261-278 | the corrected decoder always gives ten characters, the type character and the POSIX reading of the mode, and agrees with `get_mode` wherever no triplet is 3 |
| Files.Short | src/lib.rs:84-98 | the short form starts with the type's colour (blue for a directory, cyan for a link, none for a file) and ends with a reset, with exactly the name in between |
| Files.ShortVisibleText | src/lib.rs:84-98 | a terminal shows exactly the entry's name for the short form |
| Files.NameColumn | src/lib.rs:64-79 | the name column is closed by a reset for every kind of entry |
| Files.NameColumnColors | src/lib.rs:64-79 | the name column by type: a directory's name in blue, a file's name uncoloured, a readable link as its cyan name, a reset, ` -> ` and the target, an unreadable link as the reset alone; every one closed by a reset |
| Files.Long | src/lib.rs:59-82 | the long line starts with the permission string and a space, and ends with a reset |
| Files.LongLayout | src/lib.rs:78-81 | the columns of a long line in order: permissions, the link count left-aligned in 2, owner and group right-aligned in 5, the size right-aligned in 4, the modification time and the name column, separated by single spaces |
| Files.LongVisibleText | src/lib.rs:59-82 | a terminal shows the columns followed by the name, `name -> target` for a readable link, and nothing for an unreadable one |
| Files.LongUnreadableTarget | src/lib.rs:70-74 | a link whose target is not valid UTF-8 gets the line of a plain file with an empty name: every column is still written, ending in the time, a space and the reset |
| Files.LongLinkCountLeftAligned | src/lib.rs:78-80 | a one-digit link count is left-aligned: the digit, the padding space, then the separator |
| Identity.OwnerAndGroupNames | src/lib.rs:172-192 | never fails; each column shows the name found, or its own fallback label when the id is missing or the name is not valid UTF-8, independently of the other column |
| Arguments.FlagOf | src/lib.rs:231-244 | a recognised character selects the option whose letter it is |
| Arguments.FlagOfIff | src/lib.rs:231-244 | a character selects option `f` if and only if it is `f`'s letter |
| Arguments.Set | src/lib.rs:233-241 | setting an option makes it true and leaves the path alone |
| Arguments.SetHas | src/lib.rs:233-241 | after setting `f`, an option is set if and only if it was set before or is `f` |
| Arguments.New | src/lib.rs:195-208 | a new config lists `.` and has no option set |
| Arguments.SetFlag | src/lib.rs:231-244 | a letter sets exactly its own option and keeps the others and the path; any other character changes nothing |
| Arguments.SetPath | src/lib.rs:227-229 | the path is replaced and every option is kept |
| Arguments.SetFlagIdempotent | src/lib.rs:231-244 | setting the same flag twice is the same as setting it once |
| Arguments.SetFlagCommutes | src/lib.rs:231-244 | two flags may be set in either order |
| Arguments.ConfigExtensionality | src/lib.rs:9-22 | two configs with the same path and the same options are equal |
| Arguments.ApplyFlagsSpec | src/lib.rs:216-218 | a flag group sets exactly the options whose letters it holds, on top of those already set, and keeps the path |
| Arguments.ApplyArgsSpec | src/lib.rs:214-222 | the parsing loop sets exactly the letters of the flag arguments; the path becomes the last path argument, or stays as it was when there is none |
| Arguments.Build | src/lib.rs:210-225 | `build` never fails; an option is set if and only if a flag argument after the program name holds its letter; the path is the last non-flag argument, or `.` when there is none |
| Arguments.BuildDeterminedByFlagsAndPath | src/lib.rs:210-225 | two command lines that give the same letters and the same last path parse to the same config |
| Arguments.BuildProgramNameOnly | src/lib.rs:346-351 | the unit test `no_arguments`, generalised to any program name: the result is `Config::new()` |
| Arguments.BuildPathPositionIrrelevant | src/lib.rs:214-222 | a path argument can be moved anywhere among flag arguments without changing the config |
| Arguments.BuildOneFlagGroup | src/lib.rs:214-218 | a single flag group sets its letters in order on a new config |
| Arguments.BuildFlagExamples | src/lib.rs:353-390 | the unit tests `parse_l`, `parse_la`, `parse_a_l` and `parse_al` |
| Arguments.BuildPathFirstExample | src/lib.rs:392-401 | the unit test `parse_path_al` |
| Arguments.BuildPathMiddleExample | src/lib.rs:403-412 | the unit test `parse_a_path_l`: a path between the flags gives the same config |
| Listing.Insert | src/lib.rs:119 | inserting into a sorted sequence keeps it sorted and adds exactly the one entry |
| Listing.SortByName | src/lib.rs:119 | `sort_by_key` on the lower-cased name gives a permutation of the entries, ordered by key, with entries of equal key in their input order |
| Listing.SortedStableUnique | src/lib.rs:119 | two sequences that are both sorted by key and agree on the order within every key are equal, so a stable sort has only one result |
| Listing.Reverse | src/lib.rs:120-122 | `reverse` puts the entry at position `i` at position `n-1-i` |
| Listing.ReverseMultiset | src/lib.rs:120-122 | reversing keeps every entry |
| Listing.WithKeyReverse | src/lib.rs:120-122 | after reversal the entries of each key appear in reverse order |
| Listing.NewDisplay | src/lib.rs:118-125 | the config is kept and the entries are a permutation of the input; without `-r` they are sorted and stable; with `-r` the keys do not increase and equal keys are in reverse input order |
| Listing.NewDisplayReverse | src/lib.rs:120-122 | with `-r` the stored order is exactly the reverse of the order without it |
| Listing.NewDisplayIsTheStableSort | src/lib.rs:118-125 | without `-r`, any sorted and stable rearrangement of the input is the stored order |
| Listing.Unhidden | src/lib.rs:131-136 | an entry survives the filter if and only if it was there and its name does not start with `.` |
| Listing.UnhiddenAppend | src/lib.rs:131-136 | filtering a concatenation is filtering each part and concatenating, so the kept entries stay in their stored order |
| Listing.UnhiddenOne | src/lib.rs:134 | a single entry is kept exactly when its name does not start with `.` |
| Listing.UnhiddenSorted | src/lib.rs:131-136 | the filter keeps a sorted sequence sorted |
| Listing.UnhiddenNoneHidden | src/lib.rs:131-136 | nothing is dropped when no name starts with `.` |
| Listing.ShownEntries | src/lib.rs:128-137 | with `-a` every stored entry is shown; without it exactly the entries whose names do not start with `.`, in their stored order: for every split of the stored entries, the shown ones are those kept from the front part followed by those kept from the back part |
| Listing.ShownIff | src/lib.rs:128-137 | a stored entry is shown if and only if `-a` is given or its name does not start with `.` |
| Listing.ShownSorted | src/lib.rs:118-137 | without `-r` the shown entries are in sorted order |
| Listing.RenderForm | src/lib.rs:139-145 | with `-l` an entry's piece starts with the permissions and a space, ends with a newline, and a terminal shows it as the columns, the name (or `name -> target`) and a newline; otherwise the piece starts with the type's colour, ends with two spaces, and a terminal shows it as exactly the name and two spaces |
| Listing.LongLineVisible | src/lib.rs:139-141 | a long line followed by its newline shows as the plain columns, the visible name and the newline |
| Listing.WriteEach | src/lib.rs:139-145 | one piece of output per entry, in order, each the entry's rendering |
| Listing.DisplayOutput | src/lib.rs:127-146 | `display` writes one piece per shown entry, in the stored order, each in the form the `l` flag selects |
| Listing.SortExample | src/lib.rs:118-125 | names `b`, `A`, `c` are stored as `A`, `b`, `c` |
| Listing.SortExampleReversed | src/lib.rs:118-125 | with `-r` the same names are stored as `c`, `b`, `A` |
| Text.NatToString | src/lib.rs:79-80 | a number is rendered as a non-empty string of decimal digits with no leading zero: one digit below ten, and a first digit of `0` only for zero itself |
| Text.ParseNatToString | src/lib.rs:79-80 | reading the decimal rendering back gives the number |
| Text.NatToStringInjective | src/lib.rs:79-80 | different link counts or sizes never print the same |
| Text.PadLeft | src/lib.rs:79 | `{:>w}` right-aligns: the width is at least `w`, the text comes last, spaces fill the front |
| Text.PadRight | src/lib.rs:79 | `{:<w}` left-aligns: the width is at least `w`, the text comes first, spaces fill the rest |
| Text.Lower | src/lib.rs:119 | lower-casing keeps the length, turns each upper-case ASCII letter into its lower-case letter, and keeps every other character |
| Text.LowerCaseInsensitive | src/lib.rs:119 | names that differ only in ASCII case get the same sort key |
| Text.LexLeTotal | src/lib.rs:119 | any two keys are comparable |
| Text.LexLeAntisym | src/lib.rs:119 | keys that are each at most the other are equal |
| Text.LexLeTrans | src/lib.rs:119 | the order on keys is transitive |
| Ansi.VisibleAppendPlain | src/lib.rs:78-81 | text without escape codes in front of a coloured part shows as itself |
| Ansi.VisibleDropsColor | src/lib.rs:60-62 | a colour code or reset shows as nothing |

## Left out

- `run` and `create_fileinfo`: reading a directory and the file metadata is
  filesystem I/O. The model starts from the `FileInfo` records they would
  produce.
- `format_system_time`: calendar formatting by `chrono`. The modification
  time is kept as the string it produces.
- `main.rs` and the process exit code: not part of the library core.
- `Text.Lower`: `to_lowercase` is modelled for ASCII letters only. Other
  characters with a lower-case form, and characters whose lower case is
  longer than one character, are kept unchanged.
- `Arguments.SetPath`: a `PathBuf` is kept as the plain string it was built
  from. Rust compares paths by component (`a/` equals `a`), and the model
  compares strings.
- `Listing.DisplayOutput`: the text is collected as a sequence of pieces, one
  per `print!` or `println!` call, instead of being written to standard
  output. Write errors are not modelled (the macros panic on them).
- The `u64` link count and size are natural numbers.
  Their range is recorded in the `u64` type and needs no wrap-around, since
  they are only printed.
- `FileInfo::new` and `file_name`: a constructor and an accessor. The
  datatype constructor and the `name` field stand for them.
- The flags `F`, `h`, `S`, `R`, `t` and `d` are parsed and stored exactly as
  the code does, but no operation of the core reads them. So the model gives
  them no behaviour either.
- `Identity.OwnerAndGroupNames`: the user and group databases are the two
  lookup results passed in. Reading `/etc/passwd` and `/etc/group` is I/O.
- `Files.LongVisibleText` requires the permissions, name, owner, group,
  time and link target to contain no escape character, and
  `Files.ShortVisibleText` requires it of the name. Text that holds its own
  escape codes is shown by a terminal in ways the model does not describe.
- `Listing.RenderForm` states what a terminal shows of a piece only under the
  same conditions, for the same reason; `Listing.LongLineVisible` requires them.

## Findings

| source | as written | input that shows it | evidently intended | confidence | as-written member | corrected member |
|---|---|---|---|---|---|---|
| src/lib.rs:248-258 | `get_perm_str` has no entry for 3 (write and execute, no read), so that triplet contributes nothing | mode 0o733 (475) of a regular file decodes to `-rwx`, 4 characters | `-wx` for 3, so that every mode string is ten characters (`get_mode` reserves a capacity of 10) | high; not executed | Permissions.GetModeGapExample | Permissions.GetModeFixed |
