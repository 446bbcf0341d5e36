# liberator requirements parser, modelled in Dafny

This project models the requirements-file reader in liberator's `setup.py`: the function
`parse_requirements`, with its inner helpers `parse_line`, `parse_require_file` and
`gen_packages_items`. It turns the lines of a pip-style requirements file into the requirement
strings handed to `setup(install_requires=...)`.

- **One line** (`RequirementLine.ParseLine`). The inline comment is cut off at the first `" #"`.
  A `-r ` line names another file to include. A `-e ` line takes its package from after
  `#egg=`. Any other line is split at an optional single `;` into a package part and a platform
  marker. The package part is then split at the leftmost version operator. The alternation
  `>=|==|>` is tried in that order at each position, and only the first match is split on
  (`maxsplit=1`). This is a loose subset of PEP 508, and the model follows the code, not the PEP.
- **One file** (`RequirementFile.ParseRequireFile`). Every line is stripped. Blank lines and
  lines starting with `#` are dropped. The rest are parsed in file order, and an include line
  contributes the records of the file it names. That file is resolved against the including
  file's directory (`PosixPath.DirName`, `PosixPath.JoinPath`).
- **Items** (`PackageItems.ParseRequirements`, `PackageItems.AssembleItem`). Each record becomes
  its package name, then a version clause, then the platform marker. The version clause depends
  on `versions`: none when it is falsy, and `op + version` when it is truthy. With `"strict"`,
  the first `>=` in that text becomes `==`. The platform marker is `";" + marker`, left off on
  Python 3.4.

Python's string operations (`strip`, `find`, `split`, `join`, `startswith`, `in`,
`replace(old, new, 1)`) are written out over `seq<char>` in `PyStr`. The exceptions the code
raises become a `Result` error: `MissingEgg` for the `IndexError` of a `-e ` line without
`#egg=`, `TooManyMarkers` for the `ValueError` of unpacking more than two `;` pieces,
`FileNotFound` for opening a missing included file, and `DepthExceeded` for Python's recursion
limit on nested or cyclic includes.

The file system is a parameter: a map from path to the lines `readlines()` returns.
`sys.version.startswith("3.4")` is the boolean parameter `python34`. Include nesting is bounded
by a `fuel` parameter.

The rest of the repository, the static extraction engine (closure walker, free-name analysis,
dependency ordering, emitter), is not part of this model. None of its code is in the modelled
file.

## Model

| member | source | states |
|---|---|---|
| `PyStr.IsSpace` | setup.py:133 | the characters `str.isspace()` accepts, which `strip()` with no argument removes; no ensures of its own: `StripSlice` states that only these are cut off |
| `PyStr.StartsWith` | setup.py:95 | `s.startswith(p)`: `p` is a prefix of `s`; no ensures of its own: `ParseLine`, `IncludeLine` and `Skipped` use it for the `-r `, `-e ` and `#` tests |
| `PyStr.Contains` | setup.py:106 | `p in s`: `p` occurs at some index of `s`; no ensures of its own: `Find` is -1 exactly when it fails and `CountCharZero` relates it to the count of a character |
| `PyStr.Find` | setup.py:91 | `str.find`: -1 exactly when the pattern does not occur, otherwise its leftmost occurrence |
| `PyStr.Strip` | setup.py:133 | `str.strip`: the result is no longer than the input and neither starts nor ends with whitespace |
| `PyStr.StripSlice` | setup.py:133 | the stripped text is a slice of the input, and only whitespace lies outside it |
| `PyStr.StripIdempotent` | setup.py:133 | stripping twice is the same as stripping once |
| `PyStr.StripContains` | setup.py:120 | stripping never creates an occurrence of a substring |
| `PyStr.Split` | setup.py:107 | `str.split(sep)` gives one piece exactly when the separator does not occur |
| `PyStr.SplitJoin` | setup.py:107 | joining the split pieces with the separator gives back the string |
| `PyStr.SplitPiecesFree` | setup.py:104 | no piece of a split holds the separator |
| `PyStr.SplitHead` | setup.py:97 | the unfolding of `Split`'s definition, kept as a proof step: the first piece ends at `Find`'s leftmost separator and the others split what follows it |
| `PyStr.SplitCount` | setup.py:106-107 | splitting on one character gives one more piece than that character has occurrences |
| `PyStr.CountCharZero` | setup.py:106 | `c in s` holds exactly when `c` occurs in `s` a non-zero number of times |
| `PyStr.ReplaceFirst` | setup.py:147 | `replace(old, new, 1)` leaves text without the pattern alone, and otherwise splices the replacement over the leftmost occurrence only |
| `PyStr.Join` | setup.py:156 | `sep.join(pieces)`; no ensures of its own: `SplitJoin` proves it the inverse of `Split`, and `JoinAppend` what appending a part does to it |
| `PyStr.ReplaceFirstAfterPrefix` | setup.py:147 | when no occurrence starts inside a prefix, replacing in prefix + rest replaces in the rest |
| `RequirementLine.CutCommentKeepsStart` | setup.py:90-93 | a line that does not start with a space keeps something after its comment is cut |
| `RequirementLine.CutComment` | setup.py:90-93 | the working line is a prefix of the input and holds no `" #"`; it is the whole input when there is no `" #"`, and otherwise ends at the first one |
| `RequirementLine.OpText` | setup.py:118 | the three texts of the alternation `>=`, `==` and `>`; no ensures of its own: `OpAt` and `SplitAtOperator` state where each matches |
| `RequirementLine.OpAt` | setup.py:118-119 | the operator the alternation matches at a position: `>=` wherever `>=` starts there, else `==` wherever `==` starts, `>` only where neither does; none exactly when neither `>` nor `==` starts there |
| `RequirementLine.FindOpFrom` | setup.py:119 | the leftmost position at which some operator matches, and no match before it |
| `RequirementLine.SplitAtOperator` | setup.py:118-119 | `re.split` with `maxsplit=1`: before + op + after is the input, op matches at the end of before, and nothing earlier matches; no split means no operator anywhere |
| `RequirementLine.SplitAtOperatorText` | setup.py:118-123 | no split exactly when the text holds no `>` and no `==`; the text before the split holds neither |
| `RequirementLine.VersionedRecord` | setup.py:117-126 | the record built from the operator split; no ensures of its own: `VersionFields` states its fields |
| `RequirementLine.ParseLine` | setup.py:83-127 | an include exactly for a cut line starting `-r `; a record's `line` is the cut line; `MissingEgg` only on `-e ` lines, `TooManyMarkers` only on other lines, and no other failure |
| `RequirementLine.IncludeLine` | setup.py:95-97 | a `-r ` line includes the text after `-r ` up to the next space |
| `RequirementLine.EditableLine` | setup.py:103-104 | a `-e ` line fails exactly when it has no `#egg=`; otherwise its package is the text between the first `#egg=` and the next one, with no version and no marker |
| `RequirementLine.MarkerLine` | setup.py:106-115 | a line fails exactly when it holds two or more `;`; with none, the whole line is the package part and there is no marker; with one, the package part is the text before it and the marker is the stripped text after it |
| `RequirementLine.VersionFields` | setup.py:117-126 | the package holds no `>` and no `==`; there is a version exactly when the package part holds `>` or `==`; the version's operator and the unstripped pieces are those of `SplitAtOperator`, the pieces concatenate back to the package part, and package and version are those pieces stripped |
| `PosixPath.RFind` | setup.py:130 | `rfind`: -1 or an index in range that holds the character |
| `PosixPath.RFindIsLast` | setup.py:130 | no occurrence of the character lies after the index `RFind` returns |
| `PosixPath.TrimSlashes` | setup.py:130 | `rstrip('/')`: a prefix of the input that does not end with `/` |
| `PosixPath.TrimSlashesRemovesSlashes` | setup.py:130 | everything `TrimSlashes` cuts off is `/`, so it removes only trailing slashes |
| `PosixPath.DirName` | setup.py:130 | `dirname`; no ensures of its own: `DirNameCut` states where it cuts the path |
| `PosixPath.DirNameCut` | setup.py:130 | `dirname` is a prefix of the path: empty for a bare file name; otherwise non-empty and no longer than the text up to the last `/`, with only `/` between its end and that `/`; the whole head up to the last `/` when that head is all slashes; and without a trailing slash otherwise |
| `PosixPath.JoinPathParts` | setup.py:97 | `join` keeps an absolute name or a name under an empty directory; otherwise the result starts with the directory and ends with the name, and its length is theirs plus one exactly when a `/` had to be added between them |
| `PosixPath.JoinPath` | setup.py:97 | `os.path.join` of two parts; no ensures of its own: `JoinPathParts` states its result exactly (prefix, suffix and length) |
| `PosixPath.IncludeFromBareName` | setup.py:97-98 | `-r ` names in a file without a directory part are looked up as written |
| `RequirementFile.Chain` | setup.py:135-136 | yielding one generator's records after another's: the first exception ends the chain, otherwise the records are concatenated; no ensures of its own: `ChainUnit` and `ChainAssociative` state its laws and `LinesInfosAppend` builds on them |
| `RequirementFile.Skipped` | setup.py:133-134 | a line is dropped when it is blank or starts with `#` once stripped; no ensures of its own: `RecordsInFileOrder` states that dropped lines give no records |
| `RequirementFile.FileInfos` | setup.py:129-136 | the records of one file, the reference `ParseRequireFile` is proved equal to; no ensures of its own: `LinesInfosAppend`, `RecordsInFileOrder` and `FileRecordsCommentFree` state its properties |
| `RequirementFile.LinesInfos` | setup.py:132-136 | the records of a run of lines; no ensures of its own: `LinesInfosAppend` states its file order and `LinesRecordsCommentFree` its comment-freedom |
| `RequirementFile.RawLineInfos` | setup.py:133-135 | the records one raw line contributes; no ensures of its own: `RawLineRecordsCommentFree` states its records are comment-free |
| `RequirementFile.LineInfos` | setup.py:95-99 | the records of a kept line, which are what `ParsedInfos` gives for its parse; no ensures of its own: `ParseLineInfos` is proved equal to it and `LineRecordsCommentFree` states its records are comment-free |
| `RequirementFile.ParsedInfos` | setup.py:95-99 | the records a parsed line yields: its record, or the records of the file it includes, or the parse error; no ensures of its own: `YieldParsed` is proved equal to it and `ParsedRecordsCommentFree` states its records are comment-free |
| `RequirementFile.YieldParsed` | setup.py:95-99 | a parsed record is yielded alone; an include yields the records of the named file resolved against the including file's directory, `DepthExceeded` once the nesting bound is spent; a parse error is passed on |
| `RequirementFile.IncludedInfos` | setup.py:95-97 | the unfolding of `ParsedInfos`' include case, kept as a proof step: with nesting left, an include line yields exactly the records of the joined path, one level deeper |
| `RequirementFile.ParseRequireFile` | setup.py:129-136 | the loop over the file's stripped lines, skipping blanks and comments, gives the file's records in order, or the first error |
| `RequirementFile.ParseLineInfos` | setup.py:95-99 | a record line yields its record; an include line yields the records of the named file, resolved against the including file's directory |
| `RequirementFile.LinesInfosAppend` | setup.py:132-136 | lines are processed in file order: the records of a + b are those of a, then those of b, and the first error wins |
| `RequirementFile.RecordsInFileOrder` | setup.py:132-136 | when every kept line is a plain record, the file gives exactly one record per kept line, in order, and blank and comment lines give none |
| `RequirementFile.FileRecordsCommentFree` | setup.py:91-93 | every record from a file, and from the files it includes, has a non-empty line with no `" #"` in it |
| `RequirementFile.LineRecordsCommentFree` | setup.py:132-135 | a stripped, kept line yields records whose lines are non-empty and comment-free |
| `RequirementFile.ParsedRecordsCommentFree` | setup.py:95-99 | a parsed line whose record line is comment-free yields only comment-free records, also through includes |
| `PackageItems.Item` | setup.py:141-156 | the requirement string of one record; no ensures of its own: `ItemStartsWithPackage`, `UnversionedItem`, `LooseItem`, the `Strict*` lemmas and `MarkerLast` state its properties |
| `PackageItems.Truthy` | setup.py:142 | the truthiness of `versions`: a flag is its own value and a string is truthy exactly when non-empty; no ensures of its own: `UnversionedItem` and `LooseItem` state what each case gives |
| `PackageItems.IsStrict` | setup.py:143 | `versions == "strict"`; no ensures of its own: the `Strict*` lemmas state what strict mode gives |
| `PackageItems.VersionClause` | setup.py:142-150 | the version text an item gets; no ensures of its own: `UnversionedItem`, `LooseItem` and the `Strict*` lemmas state it per mode |
| `PackageItems.MarkerClause` | setup.py:151-155 | the marker text an item gets; no ensures of its own: `MarkerLast` states when it is present and that it comes last |
| `PackageItems.AssembleItem` | setup.py:141-156 | the parts list built with `append`/`extend` and joined is the package, then the version clause, then the marker clause |
| `PackageItems.VersionedParts` | setup.py:141-150 | the parts list before the marker is non-empty and joins to the package followed by the version clause |
| `PackageItems.AssembleItems` | setup.py:139-157 | the loop of `gen_packages_items` gives one item per record, each the item of the record at the same position |
| `PackageItems.JoinAppend` | setup.py:148-156 | appending a part to the list adds exactly that part to the joined item |
| `PackageItems.ParseRequirements` | setup.py:138-160 | no items for a missing file; otherwise the error of reading it, or one item per record in order |
| `PackageItems.ItemStartsWithPackage` | setup.py:141 | every item begins with its package name, followed by the version clause and then the marker clause |
| `PackageItems.UnversionedItem` | setup.py:142 | with `versions` falsy, no version text reaches the item |
| `PackageItems.LooseItem` | setup.py:149-150 | with `versions` truthy and not `"strict"`, the item is package + operator + version |
| `PackageItems.StrictPinsMinimum` | setup.py:143-148 | in strict mode `pkg>=v` becomes `pkg==v` |
| `PackageItems.StrictKeepsEquality` | setup.py:143-148 | in strict mode `==` is kept, and only the first `>=` inside the version text becomes `==` |
| `PackageItems.StrictGreaterBeforeEquals` | setup.py:143-148 | in strict mode a `>` whose version starts with `=` (such as `pkg> =1`) forms a `>=` and is pinned to `==` |
| `PackageItems.StrictKeepsGreater` | setup.py:143-148 | in strict mode any other `>` is kept, and only the first `>=` inside the version text becomes `==` |
| `PackageItems.MarkerLast` | setup.py:151-155 | `";" + marker` ends the item exactly when the record has a marker and the interpreter is not 3.4; otherwise the item is package + version clause |

## Left out

- `parse_version` and `static_parse` (setup.py:7-42): they need Python's `ast` module and file reading.
- `parse_description` (setup.py:45-61): it only reads a README file.
- The `setup(...)` call, `find_packages`, the classifiers and the `__main__` block (setup.py:163-210): these are packaging metadata and library calls.
- File access: `open`/`readlines` is a map from path to lines. `exists` is "the path is a key of the map". Directories, permissions and encodings are not modelled.
- Python's recursion limit: `fuel` bounds nested includes, and running out gives `DepthExceeded`. Python would raise `RecursionError` only at its own depth, which depends on the interpreter.
- Generator laziness: the generators are modelled by the list they produce. `list(...)` consumes them fully, so an exception discards the items yielded before it, as the model's error result does.
- `sys.version.startswith("3.4")` is the parameter `python34`.
- General regular-expression semantics: only the fixed alternation `>=|==|>` with `maxsplit=1` is modelled, as a leftmost search.
- `os.path.join` and `os.path.dirname` are modelled with POSIX semantics only. Windows drive letters and backslash separators are not modelled.
- The static extraction engine (closure walker, free-name analysis, cycle and duplicate handling, emitter) has no code in the modelled file and is not part of this model.
- PyStr.Strip: its own contract says only that the ends are not whitespace and the result is no longer than the input. `PyStr.StripSlice` states the rest: the result is the input with its leading and trailing whitespace cut off.
