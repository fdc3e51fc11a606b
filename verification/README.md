# FileRenamer in Dafny

FileRenamer walks a folder tree. For every file and directory it:

- looks up a replacement name when the entry's base name is a numeric node id;
- strips characters that are not allowed in a name;
- truncates the name to `MaxLength`;
- on a collision, retries with a `~1`, `~2`, … suffix until the name is free;
- moves the entry, then walks into a directory only after it has moved.

This project models that pipeline from `FileRenamer/FileTasks.cs` as pure functions over `seq<char>`. It proves what each stage guarantees and what it does not.

- `text.dfy` (module `Text`) holds the string machinery:
  - subsequences and character filtering;
  - occurrences of a pattern;
  - `Erase`, the ordinal .NET `s.Replace(p, "")`. It deletes non-overlapping matches from left to right and does not rescan its own output;
  - `Decimal`, the rendering of the retry counter.
- `naming.dfy` (module `Naming`) holds the name pipeline:
  - `StripBadChars`, `CheckLength`, and `GetNameFromStore` (the `GetNameFromDB` lookup);
  - `ResolveName`, which composes the three;
  - `Candidate`, the name proposed by attempt `i`;
  - `Retry`, the collision loop shared by `ProcessDir` and `ProcessFiles`, with its termination measure;
  - the decisions `ProcessDir` and `ProcessFiles` take.
- `walker.dfy` (module `Walker`) holds the private `Rename(path)` over an immutable in-memory tree:
  - each folder's entries are a snapshot processed in order;
  - each entry is a file, a directory, or an invalid (dangling) entry;
  - a directory is walked into only after it has moved, and then under its new path;
  - every `Move` and every invalid entry is recorded as an event in a log.
- `scenarios.dfy` (module `Scenarios`) holds whole passes over small trees. It also holds a concrete store that knows node 42 as `Projects`.

The external world enters only as parameters:

- The naming store is a `NamingStore`: a parse function standing in for `int.TryParse` and a map from node id to row.
- A missing key means the query returned no row. `None` means the `Name` column is NULL, which `DBNull.ToString()` reads as `""`.
- `MaxLength` is a `nat` in `Settings`.
- The file system is the tree of `Entry` values.
- `Directory.Exists(Path.Combine(path, c))` holds when `c` is a sibling directory's name or one of `""`, `"."`, `".."`. `Path.Combine` makes those three name the parent or its parent, which always exist.
- `File.Exists` holds when `c` is a sibling file's full name.

A file whose name is already settled is not always left alone. For a file `7.txt` whose id has no row, the code compares the extension-less base `7` with the candidate `7.txt`, which includes the extension, so the two always differ. That candidate is the file itself, so it exists, and the retry moves the file to `7~1.txt` (`Scenarios.FileWithExtensionIsMovedAside`).

Three quirks of `StripBadChars` are proved with concrete inputs:

- It is not idempotent: `"\r:\n"` becomes `"\r\n"` because CRLF removal runs before colon removal.
- It does not guarantee a name free of line breaks: `"\r\r\n\n"` becomes `"\r\n"`, and a name with no forbidden character and no CRLF pair, such as `"a\rb\n"`, keeps its lone `\r` and `\n` (in general, `Naming.StripBadCharsFixpoint`).
- Whether a lone line break survives depends on its neighbours: in `"\r/\n"` the `/` pass joins `\r` and `\n` into a CRLF, which the next pass deletes, so the result is `""`.

A quirk of the retry: the `~i` suffix is added after truncation, so a candidate can be longer than `MaxLength`.

## Model

| member | source | states |
|---|---|---|
| Text.Erase | FileRenamer/FileTasks.cs:133-137 | An ordinal replacement by the empty string only deletes characters: its result is a subsequence of its input |
| Text.EraseCharRemovesIt | FileRenamer/FileTasks.cs:133 | Replacing a one-character pattern by nothing leaves no copy of that character |
| Text.EraseKeepsOthers | FileRenamer/FileTasks.cs:133-137 | Replacement deletes only characters of the pattern: every other character survives, in order |
| Text.EraseAbsent | FileRenamer/FileTasks.cs:133-137 | Text in which the pattern does not occur comes back unchanged |
| Text.EraseShrinks | FileRenamer/FileTasks.cs:134 | Text in which the pattern occurs comes back strictly shorter |
| Text.Decimal | FileRenamer/FileTasks.cs:59 | The attempt counter in the `~{i}` suffix is rendered as a non-empty run of decimal digits with no leading zero: it starts with `0` if and only if the counter is 0 |
| Text.DecimalRoundTrip | FileRenamer/FileTasks.cs:59 | The rendering of the attempt counter in the `~{i}` suffix reads back as the same number |
| Text.DecimalInjective | FileRenamer/FileTasks.cs:59 | Different attempt counters render differently |
| Naming.StripBadChars | FileRenamer/FileTasks.cs:131-139 | The sanitised name is a subsequence of the input, so never longer. It contains none of `/ : ' ?`. Apart from those and CR/LF characters, it keeps every character of the input in order |
| Naming.StripBadCharsFixpoint | FileRenamer/FileTasks.cs:131-139 | A name passes unchanged if and only if it has no `/ : ' ?` and no CRLF pair |
| Naming.CleanTextUnchanged | FileRenamer/FileTasks.cs:131-139 | A name without forbidden characters and without CR/LF passes unchanged |
| Naming.StripBadCharsNotIdempotent | FileRenamer/FileTasks.cs:134-135 | `"\r:\n"` sanitises to `"\r\n"`, which sanitises again to `""`: CRLF removal before colon removal can create a CRLF that stays |
| Naming.CrlfPassDoesNotRescan | FileRenamer/FileTasks.cs:134 | The CRLF pass removes `\r\n` once from `"\r\r\n\n"` and does not remove the CRLF its deletion forms, so `"\r\n"` is what comes out |
| Naming.LoneLineBreaksKept | FileRenamer/FileTasks.cs:133-137 | The name `"a\rb\n"`, whose `\r` and `\n` are apart and which has no forbidden character, passes unchanged, line breaks included |
| Naming.SlashRemovalFormsCrlf | FileRenamer/FileTasks.cs:133-134 | `"\r/\n"` sanitises to `""`: deleting `/` joins the two line breaks into a CRLF, which the next pass deletes |
| Naming.CheckLength | FileRenamer/FileTasks.cs:141-151 | The result is a prefix of the name and at most `MaxLength` long. It is the whole name when the name fits, and exactly `MaxLength` characters when it does not |
| Naming.CheckLengthIdempotent | FileRenamer/FileTasks.cs:145-150 | Truncating twice is truncating once |
| Naming.GetNameFromStore | FileRenamer/FileTasks.cs:153-168 | A name that does not parse, or whose id has no row, is returned unchanged. A NULL stored name reads as `""`. Otherwise the stored name replaces the original |
| Naming.StoredNameWins | FileRenamer/FileTasks.cs:157-165 | Two names that parse to the same id with a row resolve to the same name, namely the sanitised, truncated stored name, whatever the original names were |
| Naming.NoRowFallsBack | FileRenamer/FileTasks.cs:157-167 | A name without a row resolves to its own sanitised, truncated form |
| Naming.NoRowSettledIff | FileRenamer/FileTasks.cs:63-68 | A name without a row resolves to itself if and only if it is clean, has no CRLF, and fits within `MaxLength` |
| Naming.CleanLookupResolvesToIt | FileRenamer/FileTasks.cs:63-65 | A looked-up name that is clean and fits is exactly the resolved name |
| Naming.ResolveName | FileRenamer/FileTasks.cs:54-66 | The resolved name fits within `MaxLength`, has no forbidden character, and is a subsequence of the looked-up name |
| Naming.Candidate | FileRenamer/FileTasks.cs:54-66 | A candidate is never shorter than the resolved name plus the extension, and has exactly that length if and only if it is the first attempt, the one without a `~i` suffix |
| Naming.CandidateShape | FileRenamer/FileTasks.cs:92-105 | A candidate starts with the resolved name and ends with the extension; at attempt 0 it is just those two, otherwise they are separated by `~` and digits that read back as the attempt number |
| Naming.CandidateLength | FileRenamer/FileTasks.cs:92-105 | A candidate is bounded by `MaxLength` + 1 + the digits of `i` + the extension; at attempt 0 it is also bounded by `MaxLength` + the extension |
| Naming.CandidateExceedsMaxLength | FileRenamer/FileTasks.cs:56-59 | With `MaxLength` 3, `abcdef` yields the second candidate `abc~1`, which is longer than 3 |
| Naming.CandidatesDistinct | FileRenamer/FileTasks.cs:59 | Different attempts propose different names |
| Naming.AttemptsBounded | FileRenamer/FileTasks.cs:71-74 | If the first `n` candidates all exist, then `n` is at most the number of existing names, so the retry cannot run past that |
| Naming.Retry | FileRenamer/FileTasks.cs:68-83 | The retry terminates at an attempt no greater than the number of existing names. Every earlier candidate existed and differed from the current name. It keeps the entry if and only if the final candidate is the current name. A move goes to the final candidate, which does not exist |
| Naming.RetryMovesIff | FileRenamer/FileTasks.cs:68-77 | The retry moves to `t` at attempt `k` if and only if `k` is the first attempt whose candidate is free or equal to the current name, that candidate differs from the current name, and `t` is that candidate |
| Naming.ProcessDir | FileRenamer/FileTasks.cs:49-84 | A directory's decision consults only existing directories. It settles at the first attempt whose candidate is its own name or free: every earlier candidate exists and differs from its name. It stays if and only if the settling candidate equals its name, and otherwise moves to that candidate, which does not exist |
| Naming.ProcessFiles | FileRenamer/FileTasks.cs:86-121 | A file's decision consults only existing files. The unchanged test compares the extension-less base with the candidate including the extension. It settles at the first attempt whose candidate is the base or free: every earlier candidate exists and differs from the base. It stays if and only if the settling candidate equals the base, and otherwise moves to that candidate, which does not exist |
| Naming.SettledDirKept | FileRenamer/FileTasks.cs:63-68 | A directory whose name already resolves to itself is not moved |
| Naming.FreeDirMovesFirstTry | FileRenamer/FileTasks.cs:68-77 | A directory whose resolved name differs and is free moves there with no suffix |
| Naming.TakenDirMovesToFirstSuffix | FileRenamer/FileTasks.cs:54-73 | A directory whose resolved name `R` exists, with `R~1` free, moves to `R~1` |
| Naming.SettledFileWithExtensionMoves | FileRenamer/FileTasks.cs:89-115 | A file with an extension whose base resolves to itself is not skipped: its first candidate is itself, so it moves to `base~1` + extension |
| Naming.SettledFileWithoutExtensionKept | FileRenamer/FileTasks.cs:101-106 | A file without an extension whose name resolves to itself is not moved |
| Walker.Step | FileRenamer/FileTasks.cs:22-36 | Processing an entry never changes its kind: a file stays a file, a directory a directory |
| Walker.Walk | FileRenamer/FileTasks.cs:21-37 | A pass over a snapshot yields exactly one resulting entry per snapshot entry, whether or not a fault stops it |
| Walker.WalkShape | FileRenamer/FileTasks.cs:21-37 | Each entry of the snapshot is processed once, in order, and keeps its position and kind; entries already processed are not revisited |
| Walker.StepLogInside | FileRenamer/FileTasks.cs:77-81 | A step logs only about the entry it processes and what lies below that entry |
| Walker.WalkLogInside | FileRenamer/FileTasks.cs:19-38 | A pass over a folder logs only about paths strictly inside that folder |
| Walker.ReplaceKeepsWellNamed | FileRenamer/FileTasks.cs:71-77 | Giving an entry a name no entry of the folder has, and that does not name the folder, keeps sibling names distinct |
| Walker.StepNaming | FileRenamer/FileTasks.cs:68-115 | A step either keeps the entry's name or gives it a name no sibling has and that does not denote the parent |
| Walker.StepWellNamed | FileRenamer/FileTasks.cs:77-81 | Walking a moved directory keeps its contents well named |
| Walker.NextStepWellNamed | FileRenamer/FileTasks.cs:22-36 | Processing the next entry of a well-named folder leaves the folder well named |
| Walker.WalkWellNamed | FileRenamer/FileTasks.cs:19-38 | A pass never gives two entries of a folder the same name, at any depth |
| Walker.DirectoryStep | FileRenamer/FileTasks.cs:68-83 | A kept directory is neither moved, logged nor walked into. A move onto a name only a non-directory has is refused. A moved directory is logged first, and all that its contents log lies under the new path |
| Walker.FileStep | FileRenamer/FileTasks.cs:106-120 | A kept file is untouched and unlogged. A move onto a name another entry has is refused. A moved file takes the target name, keeps its extension, and is logged once |
| Walker.InvalidEntryDoesNotStopPass | FileRenamer/FileTasks.cs:22-36 | An entry that is neither a file nor a directory is logged as an invalid path and left in place. The pass then goes on with the remaining entries, and everything they yield and log follows that one log line |
| Walker.RenameRoot | FileRenamer/FileTasks.cs:19-38 | A whole pass keeps each root entry's place and kind, logs only about paths below the root, and keeps a well-named tree well named |
| Scenarios.RenamesThenWalksContents | FileRenamer/FileTasks.cs:68-81 | A directory that resolves to a free name is moved there, and its contents are then met under the new path, not the old one |
| Scenarios.RenamesFromStoreThenWalksContents | FileRenamer/FileTasks.cs:77-81 | Directory `42`, stored as `Projects`, becomes `Projects`, and its entry `x` is logged as `Projects/x` |
| Scenarios.CollisionGetsSuffix | FileRenamer/FileTasks.cs:68-77 | With siblings `a` (settled) and `b` (resolving to `a`), `a` is left alone and `b` moves to `a~1` |
| Scenarios.CollisionExample | FileRenamer/FileTasks.cs:71-77 | In the example store, with `Projects` present, directory `42` moves to `Projects~1` and `Projects` stays |
| Scenarios.CollisionInStore | FileRenamer/FileTasks.cs:71-77 | For any store resolving `42` to `Projects` and `Projects` to itself, with `Projects` present, directory `42` moves to `Projects~1` |
| Scenarios.SettledFileMovedAside | FileRenamer/FileTasks.cs:89-115 | A lone file with an extension whose base resolves to itself is moved to `base~1` + extension, with one log line |
| Scenarios.FileWithExtensionIsMovedAside | FileRenamer/FileTasks.cs:104-115 | A file `7.txt` with no row is moved to `7~1.txt` |
| Scenarios.NullNameGetsSuffixOnly | FileRenamer/FileTasks.cs:165 | A row with a NULL name resolves to `""`, which names the parent and so exists; the directory moves to `~1` |
| Scenarios.ExampleStoreQualifies | FileRenamer/FileTasks.cs:157-167 | The example store resolves `42` to `Projects`, and `Projects` and `7` to themselves |

## Left out

- Configuration loading (`GetConfig`, the `Path`, `MaxLength`, `ConnectionString` and `LogLocation` reads). The root tree, `MaxLength` and the store are parameters instead.
- The SQL connection and query. The store is a map from node id to row. Connection failures and exceptions are not modelled.
- `int.TryParse` semantics (culture, sign, whitespace, Int32 range). The parse result is a function in the store.
- `Path.GetFileName`, `GetFileNameWithoutExtension` and `GetExtension`. A file is given already split into base and extension.
- Logging to `LogFile.txt` and the console. Each log line is an `Event` in the pass's log; the text format and the log location are not modelled.
- Real file-system I/O. A `Move` onto a name any sibling already has (a file onto a directory, or a directory onto a file) ends the pass with a `MoveRefused` fault, standing for the `IOException` that ends the program. Permission errors, locked files and concurrent changes are not modelled.
- The enumeration order of `GetFileSystemEntries`. The sibling order is the order of the input sequence.
- Windows path rules: case-insensitive comparison of names, trailing dots and spaces, and `\` separators. Names are compared exactly.
- Naming.CheckLength: counts length and truncates in Unicode scalar values (Dafny `char`), not the UTF-16 code units that .NET `Length` and `Substring` count. A name with characters outside the Basic Multilingual Plane is therefore cut later than the source cuts it, and a surrogate pair is never split in two. The `MaxLength` bounds of `Naming.ResolveName` and `Naming.CandidateLength` are in the same units.
- Naming.CheckLength: takes `MaxLength` as a `nat`. A negative `MaxLength` makes `Substring` throw in the source and is excluded by the type.
- Naming.Retry: resolves the name once per decision. The source looks it up again on every attempt, which gives the same result only while the store does not change during the retry.
- Naming.Retry: the attempt counter is unbounded. The source's `int i` would overflow after 2^31 - 1 collisions, which cannot happen with fewer existing names than that (`Naming.AttemptsBounded`).
- Walker.Step: a renamed file is recorded as the suffixed base plus the original extension. The source re-splits the new name only when it meets it again, which a pass never does.
