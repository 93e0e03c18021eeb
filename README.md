# Command-file parsing and validation, modelled in Dafny

This project models the core of agent-command-sync-engine. That tool keeps
slash-command definitions for AI coding agents in one central repository.
Each command is a Markdown file under `<repository>/commands/`. The file
starts with a YAML header between `---` lines and continues with a body.
The core has two parts:

- **The parser** (`CommandParser`, `src/sync_engine/parser.py`) matches the
  header with `FRONTMATTER_PATTERN`, decodes it, and extracts the stripped
  body. It derives the command's namespace from the directories between
  `commands/` and the file. It builds a `Command` record, and it scans a
  repository by parsing every `.md` file under `commands/`, skipping the
  files that fail.
- **The validator** (`src/sync_engine/validation.py`) gathers
  `ValidationError`s in a `ValidationResult`. Its checks are:
  - the required fields and the scope of a command;
  - duplicate names within a namespace;
  - whether a header is present and decodes as YAML;
  - the metadata schema: required fields, scope, `arguments`,
    `shell_execution` and `tags`.

Modules:

| module | file | contents |
|---|---|---|
| `Text` | `text.dfy` | Python's whitespace class, `str.strip`, `join`, `split` and `str(int)` |
| `Values` | `values.dfy` | decoded YAML values, with Python truthiness, hashability, key equality and `str()`; the decoder left abstract |
| `Frontmatter` | `frontmatter.dfy` | the header pattern, characterised by the match that the regular-expression engine's backtracking selects |
| `Parser` | `parser.dfy` | `Command`, `parse_frontmatter`, `extract_body`, `_detect_namespace`, `parse_file` and `scan_repository` |
| `Validation` | `validation.dfy` | `ValidationError`, the `ValidationResult` class, `validate_command`, `validate_yaml` and `validate_metadata_schema` |
| `Duplicates` | `duplicates.dfy` | `check_duplicates` |

How each kind of code is modelled:

- **Computation** is modelled by functions: header matching, frontmatter
  decoding, body extraction, namespace detection and file parsing.
- **Step-by-step code** is modelled by methods:
  - `ValidationResult` is a class whose `errors` and `warnings` sequences
    are reassigned in place.
  - Each validator check creates a fresh result and adds errors to it one
    at a time, as the source does.
  - Each loop of the source is a loop here.
- **Specifications**: each method is proved to produce exactly the list
  that a specification function gives (`CommandErrors`, `YamlErrors`,
  `MetadataErrors`, `DuplicateErrors`, `Report`, `Scan`). Lemmas then prove
  what those lists mean.

## Model

| member | source | states |
|---|---|---|
| `Values.KeyCollision` | src/sync_engine/validation.py:187-190 | Two hashable names share a dictionary key exactly when they are equal, or are `True` and `1`, or are `False` and `0`. |
| `Text.StripEnds` | src/sync_engine/parser.py:171 | The result of `strip()` neither begins nor ends with whitespace. |
| `Text.StripEmpty` | src/sync_engine/validation.py:141 | `s.strip() == ""` holds exactly when every character of `s` is whitespace. |
| `Text.StripIgnoresLeadingSpace` | src/sync_engine/parser.py:170-171 | Whitespace in front of a text never changes what `strip()` returns. |
| `Text.StripFramed` | src/sync_engine/parser.py:170-171 | What `strip()` keeps of the text after an offset is a contiguous piece of it, with only whitespace on either side. |
| `Text.SplitJoin` | src/sync_engine/validation.py:113 | Lines that hold no newline, joined with `"\n"`, split back into the same lines. |
| `Frontmatter.LastNewlineInRunIsLast` | src/sync_engine/validation.py:19 | The greedy `\s*\n` after the closing `---` ends at the last newline of the following run of whitespace, never at an earlier one. |
| `Frontmatter.FirstClose` | src/sync_engine/validation.py:19 | The lazy `(.*?)` stops at the first closing `\n---\s*\n` at or after its start. No earlier offset closes; `None` only when no offset does. |
| `Frontmatter.MatchHeaderDelimits` | src/sync_engine/validation.py:18-21 | On a match, the text starts with `---`, whitespace and a newline. The block is followed by `\n---`, whitespace and a newline, and that is the first such closing line. The closing whitespace runs to its last newline. |
| `Frontmatter.MatchHeaderLongest` | src/sync_engine/validation.py:18-21 | A longer opening whitespace run than the chosen one leads to no header. There is no match exactly when no opening choice at all reaches a closing line. |
| `Frontmatter.SplitFrontmatter` | src/sync_engine/parser.py:48-51 | The four pieces of a match (opening line, block, closing line, rest) concatenate to the whole text. The first piece is an opening delimiter line and the third a closing one. |
| `Frontmatter.HeaderPieces` | src/sync_engine/validation.py:18-21 | A match cuts the text into an opening delimiter line, the block, a closing delimiter line and the rest. |
| `Frontmatter.EmptyBlockNeedsBlankLine` | src/sync_engine/parser.py:49 | `---\n---\n` followed by text without a newline is not a header: the closing `---` must follow a newline that comes after the opening line's newline. |
| `Parser.ParseFrontmatter` | src/sync_engine/parser.py:140-152 | The result is absent exactly when there is no header or the block does not decode. A truthy decoded value comes back unchanged, and any falsy one comes back as the empty mapping. |
| `Parser.ExtractBody` | src/sync_engine/parser.py:163-171 | Without a header, the whole content, unstripped. With one, a piece of the text after the closing delimiter line, framed by whitespace and with no whitespace at either end. |
| `Parser.BodyAfter` | src/sync_engine/parser.py:163-171 | The same facts, for a header that has already been matched. |
| `Parser.BodyAfterClosingDashes` | src/sync_engine/parser.py:170-171 | The body is the stripped text after the closing `---`, however much whitespace the closing line absorbed. |
| `Parser.NamespaceUnderRoot` | src/sync_engine/parser.py:195-203 | A file at `<root>/commands/d1/.../dn/f` has namespace `d1/.../dn`. A file directly under `commands/` has `""`. |
| `Parser.NamespaceOutsideRoot` | src/sync_engine/parser.py:198-205 | A file that is not under `<root>/commands` is in the root namespace `""`. |
| `Parser.NamespaceWithoutRoot` | src/sync_engine/parser.py:185-191 | Without a root, the namespace is the directory names between the first `commands` part of the path and the file name. |
| `Parser.NamespaceWithoutCommandsPart` | src/sync_engine/parser.py:188-193 | Without a root, a path with no `commands` part gives `""`. |
| `Parser.NamespaceModesAgree` | src/sync_engine/parser.py:185-205 | Both ways of deriving the namespace agree for the files of a repository whose own path has no `commands` part. |
| `Parser.ParseFile` | src/sync_engine/parser.py:96-129 | A command comes out exactly when the file exists and is readable, and its header decodes to a non-empty mapping. The parse raises exactly when the file is unreadable or the metadata is truthy but not a mapping. The command keeps the path, body, namespace and metadata. Each of its fields is the metadata value or that field's default. |
| `Parser.EmptyHeaderGivesNoCommand` | src/sync_engine/parser.py:104-107 | A header that decodes to nothing, or to any falsy value, gives no command. |
| `Parser.ScanRepository` | src/sync_engine/parser.py:66-84 | No commands when `commands/` does not exist. Otherwise, the commands the files parse to, in enumeration order; a file that fails or raises is skipped. |
| `Parser.ScanAppend` | src/sync_engine/parser.py:74-82 | Scanning two runs of files one after the other gives the two scans concatenated: each file is handled on its own. |
| `Parser.ScanSkipsFailure` | src/sync_engine/parser.py:75-82 | A file that does not parse drops out, and the files after it are still scanned. |
| `Parser.ScanLength` | src/sync_engine/parser.py:74-78 | A scan yields at most one command per file. |
| `Parser.ScanKeepsParsed` | src/sync_engine/parser.py:74-78 | A command is in the scan exactly when some file parses to it. |
| `Validation.ValidationResult.constructor` | src/sync_engine/validation.py:50-51 | A new result has no errors and no warnings. |
| `Validation.ValidationResult.AddError` | src/sync_engine/validation.py:58-72 | The error, with severity error, is appended to `errors`. The warnings are unchanged, and the result is no longer valid. |
| `Validation.ValidationResult.AddWarning` | src/sync_engine/validation.py:74-88 | The warning, with severity warning, is appended to `warnings`. The errors are unchanged, and so is `is_valid`. |
| `Validation.ValidationResult.FormatErrors` | src/sync_engine/validation.py:90-113 | The loop builds exactly the report: "No errors", or one formatted line per error, joined with newlines. |
| `Validation.ReportNoErrors` | src/sync_engine/validation.py:96-97 | The report is "No errors" exactly when there are no errors. |
| `Validation.ReportLines` | src/sync_engine/validation.py:99-113 | When no message or field holds a newline, splitting the report at newlines gives back one line per error, in order. |
| `Validation.LineLayout` | src/sync_engine/validation.py:101-111 | Each line is the upper-case severity and a colon, then ` field '<f>'` only for a non-empty field, then ` at line <n>` only for a non-zero line number, then ` - ` and the message. |
| `Validation.CommandErrorsShape` | src/sync_engine/validation.py:138-160 | `validate_command` records at most three errors. Each has severity error and concerns the name, the description or the scope. |
| `Validation.CommandErrorsByField` | src/sync_engine/validation.py:141-158 | An error concerns the name (or the description) exactly when that field has no non-whitespace text. It concerns the scope exactly when the scope is truthy and not `user`, `project` or `all`. |
| `Validation.CommandErrorsNone` | src/sync_engine/validation.py:138-160 | A command passes exactly when its name and description each contain a non-whitespace character and its scope is unset or valid. |
| `Validation.BlankIffNoText` | src/sync_engine/validation.py:141 | `not v or v.strip() == ""` holds exactly when `v` contains no non-whitespace character. |
| `Validation.ValidateCommand` | src/sync_engine/validation.py:129-160 | A fresh result holding exactly the errors of `CommandErrors`, and no warnings. |
| `Validation.YamlErrorsCases` | src/sync_engine/validation.py:216-242 | No header: one error at line 1. A block that fails to decode: one error, at the decoder's mark line plus two, or with no line when there is no mark. A block that decodes: no error, whatever the decoded value. |
| `Validation.YamlValidIffParsed` | src/sync_engine/validation.py:216-229 | `validate_yaml` reports nothing exactly when the parser's `parse_frontmatter` yields metadata for the same text. |
| `Validation.ValidateYaml` | src/sync_engine/validation.py:204-242 | A fresh result holding exactly the errors of `YamlErrors`, and no warnings. |
| `Validation.RequiredErrorsCases` | src/sync_engine/validation.py:258-264 | At most two errors, whatever order the set of required fields iterates in. There are none exactly when `name` and `description` are present and truthy. Each error has severity error and concerns `name` or `description`. |
| `Validation.RequiredErrorsFlag` | src/sync_engine/validation.py:259-264 | A required-field error concerns a field exactly when that field is `name` or `description` and is absent or falsy. |
| `Validation.ArgumentsErrorsNone` | src/sync_engine/validation.py:275-294 | No `arguments` error exactly when the field is absent, or is a list whose elements are all mappings with a `name` key. |
| `Validation.ArgumentErrorsCount` | src/sync_engine/validation.py:284-294 | At most one error per element, none exactly when every element is a mapping with a `name` key. Every error concerns `arguments`. |
| `Validation.ArgumentErrorsAt` | src/sync_engine/validation.py:284-294 | Element `i` contributes an error exactly when it is not a mapping with a `name` key. The errors of the elements before it, followed by its own, are a prefix of the errors for the whole list. |
| `Validation.ArgumentErrorsIndex` | src/sync_engine/validation.py:285-294 | A bad element at index `i` has its error right after the errors of the elements before it. The message names index `i` and says "must be a dictionary" for a non-mapping, "is missing 'name' field" otherwise. |
| `Validation.ArgumentErrorsPerBad` | src/sync_engine/validation.py:284-294 | There are exactly as many per-element errors as indices whose element is not a mapping with a `name` key. |
| `Validation.ArgumentErrorsPrefix` | src/sync_engine/validation.py:284 | The errors for the first `j` elements are a prefix of the errors for all of them: elements are checked in index order. |
| `Validation.MetadataErrorsNone` | src/sync_engine/validation.py:256-314 | The schema check reports nothing exactly when the metadata conforms, and every error it reports has severity error. Conforming means: name and description truthy, scope absent or valid, arguments absent or a list of named mappings, `shell_execution` absent or a boolean, tags absent or a list. |
| `Validation.EmptyMetadata` | src/sync_engine/validation.py:259-264 | Empty metadata gives exactly two errors, one for `name` and one for `description`. |
| `Validation.WhitespaceNamePassesSchema` | src/sync_engine/validation.py:260 | The schema check does not strip: a name of one space passes it. |
| `Validation.ValidateMetadataSchema` | src/sync_engine/validation.py:244-314 | A fresh result holding exactly the errors of `MetadataErrors`, and no warnings. |
| `Validation.AddRequiredErrors` | src/sync_engine/validation.py:259-264 | The loop over the required fields appends exactly their errors, in iteration order. |
| `Validation.CheckScope` | src/sync_engine/validation.py:267-273 | Appends exactly the scope error, if any. |
| `Validation.CheckArguments` | src/sync_engine/validation.py:276-294 | Appends exactly the `arguments` errors. |
| `Validation.AddArgumentErrors` | src/sync_engine/validation.py:284-294 | The loop over the elements appends one error per bad element, in index order. |
| `Validation.CheckShellExecution` | src/sync_engine/validation.py:297-303 | Appends exactly the `shell_execution` error, if any. |
| `Validation.CheckTags` | src/sync_engine/validation.py:306-312 | Appends exactly the `tags` error, if any. |
| `Duplicates.Distinct` | src/sync_engine/validation.py:176-180 | The keys of a dictionary filled in order: each element once, none missing, none repeated. |
| `Duplicates.Matching` | src/sync_engine/validation.py:186-190 | A group holds exactly the commands of the given namespace whose name has the given key: each of them is in it, and nothing else is. |
| `Duplicates.MatchingAppend` | src/sync_engine/validation.py:186-190 | Groups are built by appending in input order: the group of a concatenation is the group of the first part followed by that of the second. |
| `Duplicates.DuplicateGroupsExactly` | src/sync_engine/validation.py:193-194 | A (namespace, name) pair is reported exactly when two or more commands share that namespace and name key. |
| `Duplicates.DuplicateGroupsDistinct` | src/sync_engine/validation.py:183-200 | No pair is reported twice. |
| `Duplicates.DuplicateErrorsDescribeGroups` | src/sync_engine/validation.py:192-200 | One error per reported pair, in report order. Each error concerns `name` and shows the name, the namespace ("root namespace" for `""`) and the paths of all the group's commands in input order. |
| `Duplicates.NoErrorsIffNoCollision` | src/sync_engine/validation.py:162-202 | No error exactly when no two commands share both a namespace and a name. So commands in different namespaces never conflict. |
| `Duplicates.WithKeyOfNamespace` | src/sync_engine/validation.py:183-190 | Grouping a namespace's list by name gives the commands of that namespace with that name. |
| `Duplicates.NamespaceTableHolds` | src/sync_engine/validation.py:174-180 | After the filing loop, `namespace_commands` has an entry exactly for each namespace present, holding its commands in input order. |
| `Duplicates.NameTableHolds` | src/sync_engine/validation.py:184-190 | After the inner filing loop, `name_to_commands` has an entry exactly for each name key present, holding its commands in order. |
| `Duplicates.CheckDuplicates` | src/sync_engine/validation.py:162-202 | A fresh result holding exactly the errors of `DuplicateErrors`, and no warnings. |
| `Duplicates.FileByNamespace` | src/sync_engine/validation.py:174-180 | The filing loop builds `namespace_commands` and lists its keys in insertion order. |
| `Duplicates.FileByName` | src/sync_engine/validation.py:184-190 | The inner filing loop builds `name_to_commands` and lists its keys in insertion order. |
| `Duplicates.ReportNamespace` | src/sync_engine/validation.py:183-200 | One namespace's pass appends exactly that namespace's duplicate errors. |
| `Duplicates.ReportNames` | src/sync_engine/validation.py:192-200 | The report loop appends one error per key held by two or more commands, in key order. |

## Left out

- The parser's header pattern (parser.py:48-51) is the validator's pattern
  followed by `(.*)$`. Under DOTALL, `.*` takes the rest of the text and `$`
  then matches at its end, so that suffix always matches. The model therefore
  uses one characterisation, `MatchHeader`, for both patterns, and
  `SplitFrontmatter` only cuts the text at its offsets; the two patterns are
  not modelled separately and their agreement is not proved.
- The filesystem.
  - `Path.exists`, `read_text`, `rglob("*.md")` and `relative_to` are not
    called.
  - A scan takes whether `<root>/commands` exists and the list of
    enumerated files, each with its content or the fact that it is
    missing or unreadable.
  - The order of `rglob` is whatever order that list has.
- Paths are a root flag plus a list of names. There is no normalisation,
  no `..` and no symbolic links.
- `yaml.safe_load` is an abstract `Decoder` parameter: any total function
  from text to a value or to an error.
  - An error carries its message and an optional problem-mark line.
  - Decoded values are null, booleans, integers, strings, lists and
    string-keyed mappings. Floats, dates and non-string keys are not
    modelled.
- The diagnostics that `scan_repository` and `parse_frontmatter` print
  (parser.py:81, parser.py:151) are output only, so they are not modelled.
- Python exceptions.
  - A `parse_file` that raises is the `Raised` outcome: an unreadable file,
    or truthy metadata that is not a mapping, which has no `.get`.
    `scan_repository` skips such files as it skips `None`.
  - Several validators raise on some inputs; those inputs are excluded by
    preconditions instead:
    - `Validation.ValidateCommand` requires `Checkable`: a truthy name or
      description that is not a string has no `strip()`, and a truthy
      unhashable scope cannot be looked up in a set.
    - `Validation.ValidateMetadataSchema` requires a hashable scope.
    - `Duplicates.CheckDuplicates` requires hashable names.
- `Validation.YamlErrorsCases`: a decoder error whose `problem_mark`
  attribute exists but is `None` makes the source raise. The model gives
  every decoder error either a mark line or no mark.
- The `file_path` parameters of `validate_yaml` and
  `validate_metadata_schema` are unused by the source, so they are dropped.
- The iteration order of the set `REQUIRED_FIELDS` depends on string
  hashing. `Validation.ValidateMetadataSchema` takes it as a parameter
  `order`, which is one of the two possible orders.
- `ValidationError.severity`:
  - It is a three-value datatype, not a free string.
  - Upper-casing is modelled only for those three values.
  - The core only ever creates errors and warnings.
- `ValidationResult` is only ever constructed empty, as the core does.
  `is_valid` is the predicate `IsValid`.
- The other source files are not part of this model: `repository.py`,
  `cli.py` and `__init__.py`, which set up repositories and the
  command-line interface.
- `Text.IsSpace` covers the characters Python's `str.isspace` accepts in
  the Basic Multilingual Plane. It is used both for `strip()` and for the
  regular-expression class `\s`.
- Empty header block. A header whose block is empty needs the closing
  `---` on a line of its own after a newline that follows the opening
  line: `---\n---\nBODY` has no newline before the closing `---` (beyond
  the one that ends the opening line), so the pattern at parser.py:49 does
  not match it when `BODY` holds no newline, and the file yields no
  metadata; see
  `Frontmatter.EmptyBlockNeedsBlankLine`. Even when an empty block does
  match (`---\n\n---\n`), `parse_file` returns no command, because the
  decoded metadata is empty (`Parser.EmptyHeaderGivesNoCommand`).
