/**
 * The validator (src/sync_engine/validation.py): the error record, the
 * `ValidationResult` accumulator, and the three single-command checks of
 * `CommandValidator` (`validate_command`, `validate_yaml`,
 * `validate_metadata_schema`). `CommandValidator` keeps no state, so its
 * checks are module-level methods; each builds a fresh result step by step,
 * as the source does, and is proved to end with the errors that a
 * specification function lists.
 */
module Validation {
  import opened Text
  import opened Values
  import opened Frontmatter
  import opened Parser

  /** The three severities the error record's documentation names. */
  datatype Severity = Error | Warning | Info

  /** `severity.upper()`. */
  function Upper(s: Severity): string {
    match s
    case Error => "ERROR"
    case Warning => "WARNING"
    case Info => "INFO"
  }

  /** `ValidationError`. */
  datatype ValidationError = ValidationError(
    message: string,
    field: Option<string>,
    lineNumber: Option<int>,
    severity: Severity)

  /** One line of `format_errors`: the pieces it collects, joined with spaces. */
  function LineParts(e: ValidationError): seq<string> {
    [Upper(e.severity) + ":"]
    + (if e.field.Some? && e.field.value != "" then ["field '" + e.field.value + "'"] else [])
    + (if e.lineNumber.Some? && e.lineNumber.value != 0 then ["at line " + IntText(e.lineNumber.value)] else [])
    + ["- " + e.message]
  }

  function Line(e: ValidationError): string {
    Join(" ", LineParts(e))
  }

  /** The line of every error, in order. */
  function Lines(es: seq<ValidationError>): (lines: seq<string>)
    ensures |lines| == |es|
    ensures forall k :: 0 <= k < |es| ==> lines[k] == Line(es[k])
  {
    seq(|es|, k requires 0 <= k < |es| => Line(es[k]))
  }

  /** What `format_errors` returns for the error list `es`. */
  function Report(es: seq<ValidationError>): string {
    if es == [] then "No errors" else Join("\n", Lines(es))
  }

  /** Errors are recorded with severity error, warnings with severity warning. */
  predicate SeveritiesMatch(errors: seq<ValidationError>, warnings: seq<ValidationError>) {
    && (forall k :: 0 <= k < |errors| ==> errors[k].severity == Error)
    && (forall k :: 0 <= k < |warnings| ==> warnings[k].severity == Warning)
  }

  /** `ValidationResult`: the errors and warnings gathered so far. */
  class ValidationResult {
    var errors: seq<ValidationError>
    var warnings: seq<ValidationError>

    constructor()
      ensures errors == [] && warnings == []
    {
      errors := [];
      warnings := [];
    }

    /** `is_valid`: no errors, whatever the warnings. */
    predicate IsValid()
      reads this
    {
      |errors| == 0
    }

    method AddError(message: string, field: Option<string>, lineNumber: Option<int>)
      modifies this
      ensures errors == old(errors) + [ValidationError(message, field, lineNumber, Error)]
      ensures warnings == old(warnings)
      ensures !IsValid()
      ensures old(SeveritiesMatch(errors, warnings)) ==> SeveritiesMatch(errors, warnings)
    {
      errors := errors + [ValidationError(message, field, lineNumber, Error)];
    }

    method AddWarning(message: string, field: Option<string>, lineNumber: Option<int>)
      modifies this
      ensures warnings == old(warnings) + [ValidationError(message, field, lineNumber, Warning)]
      ensures errors == old(errors)
      ensures IsValid() == old(IsValid())
      ensures old(SeveritiesMatch(errors, warnings)) ==> SeveritiesMatch(errors, warnings)
    {
      warnings := warnings + [ValidationError(message, field, lineNumber, Warning)];
    }

    /** `format_errors`: the lines are collected one error at a time, then joined. */
    method FormatErrors() returns (text: string)
      ensures text == Report(errors)
    {
      if errors == [] {
        return "No errors";
      }
      var lines: seq<string> := [];
      for i := 0 to |errors|
        invariant lines == Lines(errors[..i])
      {
        assert errors[..i + 1][..i] == errors[..i];
        lines := lines + [Line(errors[i])];
      }
      assert errors[..|errors|] == errors;
      text := Join("\n", lines);
    }
  }

  lemma JoinHead(sep: string, parts: seq<string>)
    requires |parts| >= 1
    ensures IsPrefix(parts[0], Join(sep, parts))
  {
  }

  /** `format_errors` says "No errors" exactly when there are none. */
  lemma ReportNoErrors(es: seq<ValidationError>)
    ensures Report(es) == "No errors" <==> es == []
  {
    if es != [] {
      var first := LineParts(es[0]);
      JoinHead(" ", first);
      JoinHead("\n", Lines(es));
      assert Report(es)[0] == Upper(es[0].severity)[0];
    }
  }

  lemma {:induction false} NoCharInJoin(c: char, sep: string, parts: seq<string>)
    requires c !in sep
    requires forall k :: 0 <= k < |parts| ==> c !in parts[k]
    ensures c !in Join(sep, parts)
  {
    if |parts| > 1 {
      NoCharInJoin(c, sep, parts[1..]);
    }
  }

  lemma NoNewlineInIntText(i: int)
    ensures '\n' !in IntText(i)
  {
    var t := if i < 0 then NatText(-i) else NatText(i);
    assert forall k :: 0 <= k < |t| ==> '0' <= t[k] <= '9';
  }

  /** An error whose message and field hold no newline gives a single line. */
  lemma NoNewlineInLine(e: ValidationError)
    requires '\n' !in e.message
    requires e.field.Some? ==> '\n' !in e.field.value
    ensures '\n' !in Line(e)
  {
    if e.lineNumber.Some? {
      NoNewlineInIntText(e.lineNumber.value);
    }
    NoCharInJoin('\n', " ", LineParts(e));
  }

  /**
   * `format_errors` writes one line per error, in order: splitting the report
   * at newlines gives back the line of each error, provided no message or
   * field holds a newline itself.
   */
  lemma ReportLines(es: seq<ValidationError>)
    requires es != []
    requires forall k :: 0 <= k < |es| ==> '\n' !in es[k].message
    requires forall k :: 0 <= k < |es| ==> es[k].field.Some? ==> '\n' !in es[k].field.value
    ensures Split(Report(es), '\n') == Lines(es)
  {
    forall k | 0 <= k < |es| ensures '\n' !in Lines(es)[k] {
      NoNewlineInLine(es[k]);
    }
    SplitJoin(Lines(es), '\n');
  }

  /** Each part preceded by `sep`, all run together. */
  function Prefixed(sep: string, parts: seq<string>): string {
    if parts == [] then "" else sep + parts[0] + Prefixed(sep, parts[1..])
  }

  lemma {:induction false} JoinPrefixed(sep: string, a: string, rest: seq<string>)
    ensures Join(sep, [a] + rest) == a + Prefixed(sep, rest)
    decreases |rest|
  {
    if rest != [] {
      assert ([a] + rest)[1..] == rest;
      assert rest == [rest[0]] + rest[1..];
      JoinPrefixed(sep, rest[0], rest[1..]);
    }
  }

  lemma {:induction false} PrefixedAppend(sep: string, x: seq<string>, y: seq<string>)
    ensures Prefixed(sep, x + y) == Prefixed(sep, x) + Prefixed(sep, y)
  {
    if x == [] {
      assert x + y == y;
    } else {
      assert (x + y)[1..] == x[1..] + y;
      PrefixedAppend(sep, x[1..], y);
    }
  }

  lemma PrefixedOne(sep: string, x: string)
    ensures Prefixed(sep, [x]) == sep + x
  {
    assert Prefixed(sep, [x]) == sep + x + Prefixed(sep, []);
  }

  lemma LineFromPieces(e: ValidationError, head: string, f: seq<string>, l: seq<string>, tail: seq<string>)
    requires head == Upper(e.severity) + ":"
    requires tail == ["- " + e.message]
    requires Line(e) == Join(" ", [head] + (f + l + tail))
    ensures Line(e) == head + Prefixed(" ", f) + Prefixed(" ", l) + " - " + e.message
  {
    JoinPrefixed(" ", head, f + l + tail);
    PrefixedAppend(" ", f + l, tail);
    PrefixedAppend(" ", f, l);
    PrefixedOne(" ", tail[0]);
  }

  /** ` field 'f'` for a non-empty field, else nothing. */
  function FieldText(e: ValidationError): string {
    if e.field.Some? && e.field.value != "" then " field '" + e.field.value + "'" else ""
  }

  /** ` at line N` for a non-zero line number, else nothing. */
  function LineNumberText(e: ValidationError): string {
    if e.lineNumber.Some? && e.lineNumber.value != 0 then " at line " + IntText(e.lineNumber.value) else ""
  }

  /**
   * The layout of one line: the upper-cased severity and a colon, then
   * ` field 'f'` only for a non-empty field, then ` at line N` only for a
   * non-zero line number, then ` - ` and the message.
   */
  lemma LineLayout(e: ValidationError)
    ensures Line(e) == Upper(e.severity) + ":" + FieldText(e) + LineNumberText(e) + " - " + e.message
  {
    var head := Upper(e.severity) + ":";
    var f := if e.field.Some? && e.field.value != "" then ["field '" + e.field.value + "'"] else [];
    var l := if e.lineNumber.Some? && e.lineNumber.value != 0 then ["at line " + IntText(e.lineNumber.value)] else [];
    var tail := ["- " + e.message];
    assert LineParts(e) == [head] + (f + l + tail);
    LineFromPieces(e, head, f, l, tail);
    FieldPiece(e, f);
    LineNumberPiece(e, l);
  }

  lemma FieldPiece(e: ValidationError, f: seq<string>)
    requires f == if e.field.Some? && e.field.value != "" then ["field '" + e.field.value + "'"] else []
    ensures Prefixed(" ", f) == FieldText(e)
  {
    if f != [] {
      PrefixedOne(" ", f[0]);
    }
  }

  lemma LineNumberPiece(e: ValidationError, l: seq<string>)
    requires l == if e.lineNumber.Some? && e.lineNumber.value != 0 then ["at line " + IntText(e.lineNumber.value)] else []
    ensures Prefixed(" ", l) == LineNumberText(e)
  {
    if l != [] {
      PrefixedOne(" ", l[0]);
    }
  }

  /* ---------------- validate_command ---------------- */

  /** `VALID_SCOPES`, and the same three names in sorted order for messages. */
  const ValidScopes: set<string> := {"user", "project", "all"}
  const SortedScopes: seq<string> := ["all", "project", "user"]

  /** `scope in VALID_SCOPES`: only the three strings are members. */
  predicate ValidScope(v: Value) {
    v.Str? && v.s in ValidScopes
  }

  function ScopeMessage(scope: Value): string
    requires Hashable(scope)
  {
    "Invalid scope value '" + Render(scope) + "'. Must be one of: " + Join(", ", SortedScopes)
  }

  /** `not value or value.strip() == ""` for a field that is falsy or a string. */
  predicate Blank(v: Value)
    requires Falsy(v) || v.Str?
  {
    Falsy(v) || Strip(v.s) == ""
  }

  /**
   * What `validate_command` can run on: a truthy name or description is a
   * string (anything else has no `strip`), and a truthy scope is hashable
   * (anything else cannot be looked up in a set).
   */
  predicate Checkable(c: Command) {
    && (Falsy(c.name) || c.name.Str?)
    && (Falsy(c.description) || c.description.Str?)
    && (Falsy(c.scope) || Hashable(c.scope))
  }

  /** The error for a required field of a command that is missing or blank. */
  function MissingOrEmpty(field: string): ValidationError {
    ValidationError("Required field '" + field + "' is missing or empty", Some(field), None, Error)
  }

  /** The error for a scope that is set but not a valid one. */
  function ScopeError(scope: Value): ValidationError
    requires Hashable(scope)
  {
    ValidationError(ScopeMessage(scope), Some("scope"), None, Error)
  }

  /** The errors `validate_command` records, in the order it records them. */
  function CommandErrors(c: Command): seq<ValidationError>
    requires Checkable(c)
  {
    (if Blank(c.name) then [MissingOrEmpty("name")] else [])
    + (if Blank(c.description) then [MissingOrEmpty("description")] else [])
    + (if !Falsy(c.scope) && !ValidScope(c.scope) then [ScopeError(c.scope)] else [])
  }

  /** Some error of `es` concerns `field`. */
  predicate Flags(es: seq<ValidationError>, field: string) {
    exists k :: 0 <= k < |es| && es[k].field == Some(field)
  }

  /** A string with at least one character that is not whitespace. */
  predicate HasText(v: Value) {
    v.Str? && exists k :: 0 <= k < |v.s| && !IsSpace(v.s[k])
  }

  /**
   * `validate_command` yields at most three errors, all of severity error,
   * each about the name, the description or the scope.
   */
  lemma CommandErrorsShape(c: Command)
    requires Checkable(c)
    ensures |CommandErrors(c)| <= 3
    ensures forall k :: 0 <= k < |CommandErrors(c)| ==>
              && CommandErrors(c)[k].severity == Error
              && (|| CommandErrors(c)[k].field == Some("name")
                  || CommandErrors(c)[k].field == Some("description")
                  || CommandErrors(c)[k].field == Some("scope"))
  {
    var a := if Blank(c.name) then [MissingOrEmpty("name")] else [];
    var b := if Blank(c.description) then [MissingOrEmpty("description")] else [];
    var d := if !Falsy(c.scope) && !ValidScope(c.scope) then [ScopeError(c.scope)] else [];
    assert CommandErrors(c) == a + b + d;
    CommandFieldErrorsAppend(a, b);
    CommandFieldErrorsAppend(a + b, d);
  }

  /** Every error of `es` has severity error and is about the name, the description or the scope. */
  predicate CommandFieldErrors(es: seq<ValidationError>) {
    forall k :: 0 <= k < |es| ==>
      && es[k].severity == Error
      && (es[k].field == Some("name") || es[k].field == Some("description") || es[k].field == Some("scope"))
  }

  lemma CommandFieldErrorsAppend(x: seq<ValidationError>, y: seq<ValidationError>)
    requires CommandFieldErrors(x) && CommandFieldErrors(y)
    ensures CommandFieldErrors(x + y)
  {
    forall k | 0 <= k < |x + y|
      ensures (x + y)[k].severity == Error
      ensures (x + y)[k].field == Some("name") || (x + y)[k].field == Some("description") || (x + y)[k].field == Some("scope")
    {
      if k < |x| {
        assert (x + y)[k] == x[k];
      } else {
        assert (x + y)[k] == y[k - |x|];
      }
    }
  }

  /**
   * `validate_command` flags the name exactly when it is missing, empty or
   * whitespace only, likewise the description, and the scope exactly when
   * it is set and not one of user, project, all; it flags nothing else.
   */
  lemma CommandErrorsByField(c: Command, f: string)
    requires Checkable(c)
    ensures Flags(CommandErrors(c), f) <==>
              || (f == "name" && !HasText(c.name))
              || (f == "description" && !HasText(c.description))
              || (f == "scope" && !Falsy(c.scope) && !ValidScope(c.scope))
  {
    BlankIffNoText(c.name);
    BlankIffNoText(c.description);
    var a := if Blank(c.name) then [MissingOrEmpty("name")] else [];
    var b := if Blank(c.description) then [MissingOrEmpty("description")] else [];
    var d := if !Falsy(c.scope) && !ValidScope(c.scope) then [ScopeError(c.scope)] else [];
    assert CommandErrors(c) == a + b + d;
    FlagsAppend(a + b, d, f);
    FlagsAppend(a, b, f);
    FlagsOne(a, f);
    FlagsOne(b, f);
    FlagsOne(d, f);
  }

  /** An error list of at most one error flags the field that error names. */
  lemma FlagsOne(es: seq<ValidationError>, f: string)
    requires |es| <= 1
    ensures Flags(es, f) <==> es != [] && es[0].field == Some(f)
  {
  }

  lemma BlankIffNoText(v: Value)
    requires Falsy(v) || v.Str?
    ensures Blank(v) <==> !HasText(v)
  {
    if v.Str? {
      StripEmpty(v.s);
    }
    if v.Str? && !Falsy(v) && !HasText(v) {
      assert AllSpace(v.s);
    }
  }

  /** A command with a real name and description and a valid or unset scope passes. */
  lemma CommandErrorsNone(c: Command)
    requires Checkable(c)
    ensures CommandErrors(c) == [] <==>
              HasText(c.name) && HasText(c.description) && (Falsy(c.scope) || ValidScope(c.scope))
  {
    BlankIffNoText(c.name);
    BlankIffNoText(c.description);
  }

  /** `validate_command`. */
  method ValidateCommand(c: Command) returns (result: ValidationResult)
    requires Checkable(c)
    ensures fresh(result)
    ensures result.errors == CommandErrors(c) && result.warnings == []
  {
    result := new ValidationResult();
    if Blank(c.name) {
      result.AddError(MissingOrEmpty("name").message, Some("name"), None);
    }
    if Blank(c.description) {
      result.AddError(MissingOrEmpty("description").message, Some("description"), None);
    }
    if !Falsy(c.scope) && !ValidScope(c.scope) {
      result.AddError(ScopeError(c.scope).message, Some("scope"), None);
    }
  }

  /* ---------------- validate_yaml ---------------- */

  /** The line a decoder failure is reported at: its 0-based mark line plus two. */
  function ErrorLine(e: DecodeError): Option<int> {
    if e.markLine.Some? then Some(e.markLine.value + 2) else None
  }

  /** The errors `validate_yaml` records. */
  function YamlErrors(content: string, decode: Decoder): seq<ValidationError> {
    match MatchHeader(content)
    case None => [ValidationError("No valid YAML frontmatter found", None, Some(1), Error)]
    case Some(h) =>
      match decode(content[h.open..h.close])
      case Undecodable(e) => [ValidationError("Invalid YAML syntax: " + e.message, None, ErrorLine(e), Error)]
      case Decoded(_) => []
  }

  /**
   * `validate_yaml` reports one error at line 1 when there is no header, one
   * error at the decoder's mark line plus two (or at no line) when the block
   * does not decode, and nothing when it decodes, whatever it decodes to.
   */
  lemma YamlErrorsCases(content: string, decode: Decoder)
    ensures MatchHeader(content).None? ==>
              YamlErrors(content, decode) == [ValidationError("No valid YAML frontmatter found", None, Some(1), Error)]
    ensures MatchHeader(content).Some? ==>
              var h := MatchHeader(content).value;
              match decode(content[h.open..h.close])
              case Decoded(_) => YamlErrors(content, decode) == []
              case Undecodable(e) =>
                && |YamlErrors(content, decode)| == 1
                && YamlErrors(content, decode)[0].severity == Error
                && YamlErrors(content, decode)[0].field.None?
                && (e.markLine.Some? ==> YamlErrors(content, decode)[0].lineNumber == Some(e.markLine.value + 2))
                && (e.markLine.None? ==> YamlErrors(content, decode)[0].lineNumber.None?)
  {
  }

  /**
   * The validator and the parser agree on what a header is: `validate_yaml`
   * reports nothing exactly when `parse_frontmatter` yields metadata.
   */
  lemma YamlValidIffParsed(content: string, decode: Decoder)
    ensures YamlErrors(content, decode) == [] <==> ParseFrontmatter(content, decode).Some?
  {
    SplitFrontmatterIsMatch(content);
  }

  /** `validate_yaml`; the file path it is given plays no part. */
  method ValidateYaml(content: string, decode: Decoder) returns (result: ValidationResult)
    ensures fresh(result)
    ensures result.errors == YamlErrors(content, decode) && result.warnings == []
  {
    result := new ValidationResult();
    var header := MatchHeader(content);
    if header.None? {
      result.AddError("No valid YAML frontmatter found", None, Some(1));
      return;
    }
    var block := content[header.value.open..header.value.close];
    var decoded := decode(block);
    if decoded.Undecodable? {
      var lineNumber: Option<int> := None;
      if decoded.error.markLine.Some? {
        lineNumber := Some(decoded.error.markLine.value + 2);
      }
      result.AddError("Invalid YAML syntax: " + decoded.error.message, None, lineNumber);
    }
  }

  /* ---------------- validate_metadata_schema ---------------- */

  /**
   * The orders in which `REQUIRED_FIELDS`, a set of two strings, may be
   * iterated: Python leaves it to the string hashes.
   */
  predicate RequiredOrder(order: seq<string>) {
    order == ["name", "description"] || order == ["description", "name"]
  }

  /** The error for a required metadata field that is absent or falsy. */
  function Missing(f: string): ValidationError {
    ValidationError("Required field '" + f + "' is missing", Some(f), None, Error)
  }

  /** The error for a metadata field whose value has the wrong kind. */
  function MustBe(f: string, kind: string): ValidationError {
    ValidationError("Field '" + f + "' must be a " + kind, Some(f), None, Error)
  }

  /** The error for one required field, if it is absent or falsy. */
  function RequiredError(m: map<string, Value>, f: string): seq<ValidationError> {
    if f !in m || Falsy(m[f]) then [Missing(f)] else []
  }

  /** The errors for the required fields `fields`, in the order given. */
  function RequiredErrors(m: map<string, Value>, fields: seq<string>): seq<ValidationError> {
    if fields == [] then []
    else RequiredErrors(m, fields[..|fields| - 1]) + RequiredError(m, fields[|fields| - 1])
  }

  /** The error for the element at index `i` of `arguments`, with what is wrong with it. */
  function ArgumentAt(i: nat, problem: string): ValidationError {
    ValidationError("Argument at index " + NatText(i) + " " + problem, Some("arguments"), None, Error)
  }

  function ArgumentError(i: nat, arg: Value): seq<ValidationError> {
    if !arg.Map? then [ArgumentAt(i, "must be a dictionary")]
    else if "name" !in arg.entries then [ArgumentAt(i, "is missing 'name' field")]
    else []
  }

  /** The errors for the elements of an `arguments` list, element by element. */
  function ArgumentErrors(args: seq<Value>): seq<ValidationError> {
    if args == [] then []
    else ArgumentErrors(args[..|args| - 1]) + ArgumentError(|args| - 1, args[|args| - 1])
  }

  function ScopeErrors(m: map<string, Value>): seq<ValidationError>
    requires "scope" in m ==> Hashable(m["scope"])
  {
    if "scope" in m && !ValidScope(m["scope"]) then [ScopeError(m["scope"])] else []
  }

  function ArgumentsErrors(m: map<string, Value>): seq<ValidationError> {
    if "arguments" !in m then []
    else if !m["arguments"].List? then [MustBe("arguments", "list")]
    else ArgumentErrors(m["arguments"].items)
  }

  function ShellExecutionErrors(m: map<string, Value>): seq<ValidationError> {
    if "shell_execution" in m && !m["shell_execution"].Bool? then [MustBe("shell_execution", "boolean")] else []
  }

  function TagsErrors(m: map<string, Value>): seq<ValidationError> {
    if "tags" in m && !m["tags"].List? then [MustBe("tags", "list")] else []
  }

  /** The errors `validate_metadata_schema` records: every rule runs, in this order. */
  function MetadataErrors(m: map<string, Value>, order: seq<string>): seq<ValidationError>
    requires "scope" in m ==> Hashable(m["scope"])
  {
    RequiredErrors(m, order) + ScopeErrors(m) + ArgumentsErrors(m) + ShellExecutionErrors(m) + TagsErrors(m)
  }

  /** An argument entry the schema accepts: a mapping with a `name` key. */
  predicate GoodArgument(arg: Value) {
    arg.Map? && "name" in arg.entries
  }

  /** Both required fields are present and truthy; whitespace is not trimmed. */
  predicate RequiredPresent(m: map<string, Value>) {
    && "name" in m && !Falsy(m["name"])
    && "description" in m && !Falsy(m["description"])
  }

  /** `arguments` is absent or a list of mappings that each have a name. */
  predicate ArgumentsConform(m: map<string, Value>) {
    "arguments" in m ==> m["arguments"].List?
                         && forall k :: 0 <= k < |m["arguments"].items| ==> GoodArgument(m["arguments"].items[k])
  }

  /**
   * The metadata schema, stated on its own: name and description present and
   * truthy, scope absent or valid, arguments absent or a list of mappings
   * with a name, shell_execution absent or a boolean, tags absent or a list.
   */
  predicate Conforms(m: map<string, Value>) {
    && RequiredPresent(m)
    && ("scope" in m ==> ValidScope(m["scope"]))
    && ArgumentsConform(m)
    && ("shell_execution" in m ==> m["shell_execution"].Bool?)
    && ("tags" in m ==> m["tags"].List?)
  }

  lemma ArgumentsErrorsNone(m: map<string, Value>)
    ensures ArgumentsErrors(m) == [] <==> ArgumentsConform(m)
    ensures forall k :: 0 <= k < |ArgumentsErrors(m)| ==> ArgumentsErrors(m)[k].severity == Error
  {
    if "arguments" in m && m["arguments"].List? {
      ArgumentErrorsCount(m["arguments"].items);
    }
  }

  /** The indices of the elements of `args` that the schema rejects. */
  function BadIndices(args: seq<Value>): set<nat> {
    set k: nat | k < |args| && !GoodArgument(args[k])
  }

  /** There is at most one argument error per element, and none when every element is good. */
  lemma {:induction false} ArgumentErrorsCount(args: seq<Value>)
    ensures |ArgumentErrors(args)| <= |args|
    ensures ArgumentErrors(args) == [] <==> forall k :: 0 <= k < |args| ==> GoodArgument(args[k])
    ensures forall k :: 0 <= k < |ArgumentErrors(args)| ==>
              ArgumentErrors(args)[k].field == Some("arguments") && ArgumentErrors(args)[k].severity == Error
  {
    if args != [] {
      var init := args[..|args| - 1];
      ArgumentErrorsCount(init);
      assert forall k :: 0 <= k < |init| ==> init[k] == args[k];
    }
  }

  /** There are exactly as many argument errors as bad elements. */
  lemma {:induction false} ArgumentErrorsPerBad(args: seq<Value>)
    ensures |ArgumentErrors(args)| == |BadIndices(args)|
  {
    if args == [] {
      assert BadIndices(args) == {};
    } else {
      ArgumentErrorsPerBad(args[..|args| - 1]);
      BadIndicesSnoc(args);
    }
  }

  /** The bad indices of a list are those of its front, plus the last index if that element is bad. */
  lemma BadIndicesSnoc(args: seq<Value>)
    requires args != []
    ensures |BadIndices(args)| == |BadIndices(args[..|args| - 1])| + (if GoodArgument(args[|args| - 1]) then 0 else 1)
  {
    var init := args[..|args| - 1];
    var last := |args| - 1;
    var extra: set<nat> := if GoodArgument(args[last]) then {} else {last};
    assert BadIndices(args) == BadIndices(init) + extra;
    assert last !in BadIndices(init);
  }

  /** The errors for a prefix of the elements come first among the errors for all of them. */
  lemma {:induction false} ArgumentErrorsPrefix(args: seq<Value>, j: nat)
    requires j <= |args|
    ensures IsPrefix(ArgumentErrors(args[..j]), ArgumentErrors(args))
  {
    if j < |args| {
      var init := args[..|args| - 1];
      assert init[..j] == args[..j];
      ArgumentErrorsPrefix(init, j);
    } else {
      assert args[..j] == args;
    }
  }

  /**
   * The element at index `i` is reported exactly when it is bad, right after
   * the errors of the elements before it, in the errors for the whole list.
   */
  lemma {:induction false} ArgumentErrorsAt(args: seq<Value>, i: nat)
    requires i < |args|
    ensures ArgumentError(i, args[i]) != [] <==> !GoodArgument(args[i])
    ensures IsPrefix(ArgumentErrors(args[..i]) + ArgumentError(i, args[i]), ArgumentErrors(args))
  {
    assert args[..i + 1][..i] == args[..i];
    ArgumentErrorsPrefix(args, i + 1);
  }

  /**
   * A bad element at index `i` has its error, whose message carries `i`,
   * at the position that follows the errors of the elements before it.
   */
  lemma ArgumentErrorsIndex(args: seq<Value>, i: nat)
    requires i < |args| && !GoodArgument(args[i])
    ensures var p := |ArgumentErrors(args[..i])|;
            p < |ArgumentErrors(args)| && ArgumentErrors(args)[p] ==
              ArgumentAt(i, if !args[i].Map? then "must be a dictionary" else "is missing 'name' field")
  {
    ArgumentErrorsAt(args, i);
    var front: seq<ValidationError> := ArgumentErrors(args[..i]) + ArgumentError(i, args[i]);
    assert front[|ArgumentErrors(args[..i])|] == ArgumentError(i, args[i])[0];
  }

  lemma RequiredErrorsPair(m: map<string, Value>, a: string, b: string)
    ensures RequiredErrors(m, [a, b]) == RequiredError(m, a) + RequiredError(m, b)
  {
    assert [a, b][..1] == [a];
    assert [a][..0] == [];
    assert RequiredErrors(m, [a]) == RequiredErrors(m, []) + RequiredError(m, a);
    assert RequiredErrors(m, [a, b]) == RequiredErrors(m, [a]) + RequiredError(m, b);
  }

  lemma RequiredErrorFlags(m: map<string, Value>, f: string, field: string)
    ensures Flags(RequiredError(m, f), field) <==> f == field && (f !in m || Falsy(m[f]))
  {
    if f !in m || Falsy(m[f]) {
      assert RequiredError(m, f)[0].field == Some(f);
    }
  }

  lemma FlagsAppend(x: seq<ValidationError>, y: seq<ValidationError>, field: string)
    ensures Flags(x + y, field) <==> Flags(x, field) || Flags(y, field)
  {
    if Flags(x + y, field) {
      var k :| 0 <= k < |x + y| && (x + y)[k].field == Some(field);
      if k >= |x| {
        assert y[k - |x|].field == Some(field);
      }
    }
    if Flags(y, field) {
      var k :| 0 <= k < |y| && y[k].field == Some(field);
      assert (x + y)[|x| + k] == y[k];
    }
    if Flags(x, field) {
      var k :| 0 <= k < |x| && x[k].field == Some(field);
      assert (x + y)[k] == x[k];
    }
  }

  /**
   * One error per required field that is absent or falsy, whichever order
   * the two are checked in, each of severity error and about that field.
   */
  lemma RequiredErrorsCases(m: map<string, Value>, order: seq<string>)
    requires RequiredOrder(order)
    ensures |RequiredErrors(m, order)| <= 2
    ensures RequiredErrors(m, order) == [] <==> RequiredPresent(m)
    ensures forall k :: 0 <= k < |RequiredErrors(m, order)| ==>
              && RequiredErrors(m, order)[k].severity == Error
              && (RequiredErrors(m, order)[k].field == Some("name")
                  || RequiredErrors(m, order)[k].field == Some("description"))
  {
    var a, b := order[0], order[1];
    assert order == [a, b];
    RequiredErrorsPair(m, a, b);
    var x: seq<ValidationError>, y: seq<ValidationError> := RequiredError(m, a), RequiredError(m, b);
    assert RequiredFieldErrors(x) && RequiredFieldErrors(y);
    RequiredFieldErrorsAppend(x, y);
  }

  /** Every error of `es` has severity error and is about the name or the description. */
  predicate RequiredFieldErrors(es: seq<ValidationError>) {
    forall k :: 0 <= k < |es| ==>
      es[k].severity == Error && (es[k].field == Some("name") || es[k].field == Some("description"))
  }

  lemma RequiredFieldErrorsAppend(x: seq<ValidationError>, y: seq<ValidationError>)
    requires RequiredFieldErrors(x) && RequiredFieldErrors(y)
    ensures RequiredFieldErrors(x + y)
  {
    forall k | 0 <= k < |x + y|
      ensures (x + y)[k].severity == Error
      ensures (x + y)[k].field == Some("name") || (x + y)[k].field == Some("description")
    {
      if k < |x| {
        assert (x + y)[k] == x[k];
      } else {
        assert (x + y)[k] == y[k - |x|];
      }
    }
  }

  /** A field is flagged exactly when it is a required one and absent or falsy. */
  lemma RequiredErrorsFlag(m: map<string, Value>, order: seq<string>, field: string)
    requires RequiredOrder(order)
    ensures Flags(RequiredErrors(m, order), field) <==>
              (field == "name" || field == "description") && (field !in m || Falsy(m[field]))
  {
    var a, b := order[0], order[1];
    assert order == [a, b];
    RequiredErrorsPair(m, a, b);
    FlagsAppend(RequiredError(m, a), RequiredError(m, b), field);
    RequiredErrorFlags(m, a, field);
    RequiredErrorFlags(m, b, field);
  }

  /**
   * `validate_metadata_schema` reports nothing exactly when the metadata
   * conforms to the schema, whatever order the required fields are checked
   * in; every error it reports has severity error.
   */
  lemma MetadataErrorsNone(m: map<string, Value>, order: seq<string>)
    requires RequiredOrder(order)
    requires "scope" in m ==> Hashable(m["scope"])
    ensures MetadataErrors(m, order) == [] <==> Conforms(m)
    ensures AllErrors(MetadataErrors(m, order))
  {
    RequiredErrorsCases(m, order);
    ArgumentsErrorsNone(m);
    var r, s, a, x, t := RequiredErrors(m, order), ScopeErrors(m), ArgumentsErrors(m), ShellExecutionErrors(m), TagsErrors(m);
    assert MetadataErrors(m, order) == r + s + a + x + t;
    assert |r + s + a + x + t| == |r| + |s| + |a| + |x| + |t|;
    AllErrorsAppend(r, s);
    AllErrorsAppend(r + s, a);
    AllErrorsAppend(r + s + a, x);
    AllErrorsAppend(r + s + a + x, t);
  }

  /** Every error of `es` has severity error. */
  predicate AllErrors(es: seq<ValidationError>) {
    forall k :: 0 <= k < |es| ==> es[k].severity == Error
  }

  lemma AllErrorsAppend(x: seq<ValidationError>, y: seq<ValidationError>)
    requires AllErrors(x) && AllErrors(y)
    ensures AllErrors(x + y)
  {
    forall k | 0 <= k < |x + y| ensures (x + y)[k].severity == Error {
      if k >= |x| {
        assert (x + y)[k] == y[k - |x|];
      }
    }
  }

  /** Empty metadata lacks both required fields and nothing else. */
  lemma EmptyMetadata(order: seq<string>)
    requires RequiredOrder(order)
    ensures |MetadataErrors(map[], order)| == 2
    ensures Flags(MetadataErrors(map[], order), "name") && Flags(MetadataErrors(map[], order), "description")
  {
    RequiredErrorsCases(map[], order);
    RequiredErrorsFlag(map[], order, "name");
    RequiredErrorsFlag(map[], order, "description");
    assert MetadataErrors(map[], order) == RequiredErrors(map[], order);
  }

  /**
   * A required field that is present and truthy passes even when it is only
   * whitespace, which `validate_command` would reject.
   */
  lemma WhitespaceNamePassesSchema(order: seq<string>)
    requires RequiredOrder(order)
    ensures var m := map["name" := Str(" "), "description" := Str("d")];
            MetadataErrors(m, order) == []
  {
    var m := map["name" := Str(" "), "description" := Str("d")];
    MetadataErrorsNone(m, order);
  }

  /** `validate_metadata_schema`, with `order` the iteration order of `REQUIRED_FIELDS`. */
  method ValidateMetadataSchema(m: map<string, Value>, order: seq<string>) returns (result: ValidationResult)
    requires RequiredOrder(order)
    requires "scope" in m ==> Hashable(m["scope"])
    ensures fresh(result)
    ensures result.errors == MetadataErrors(m, order) && result.warnings == []
  {
    result := new ValidationResult();
    AddRequiredErrors(result, m, order);
    assert [] + RequiredErrors(m, order) == RequiredErrors(m, order);
    CheckScope(result, m);
    CheckArguments(result, m);
    CheckShellExecution(result, m);
    CheckTags(result, m);
  }

  /** The scope rule of `validate_metadata_schema`. */
  method CheckScope(result: ValidationResult, m: map<string, Value>)
    requires "scope" in m ==> Hashable(m["scope"])
    modifies result
    ensures result.errors == old(result.errors) + ScopeErrors(m)
    ensures result.warnings == old(result.warnings)
  {
    if "scope" in m {
      var scope := m["scope"];
      if !ValidScope(scope) {
        result.AddError(ScopeError(scope).message, Some("scope"), None);
      }
    }
  }

  /** The arguments rule of `validate_metadata_schema`. */
  method CheckArguments(result: ValidationResult, m: map<string, Value>)
    modifies result
    ensures result.errors == old(result.errors) + ArgumentsErrors(m)
    ensures result.warnings == old(result.warnings)
  {
    if "arguments" in m {
      var arguments := m["arguments"];
      if !arguments.List? {
        result.AddError(MustBe("arguments", "list").message, Some("arguments"), None);
      } else {
        AddArgumentErrors(result, arguments.items);
      }
    }
  }

  /** The shell_execution rule of `validate_metadata_schema`. */
  method CheckShellExecution(result: ValidationResult, m: map<string, Value>)
    modifies result
    ensures result.errors == old(result.errors) + ShellExecutionErrors(m)
    ensures result.warnings == old(result.warnings)
  {
    if "shell_execution" in m {
      if !m["shell_execution"].Bool? {
        result.AddError(MustBe("shell_execution", "boolean").message, Some("shell_execution"), None);
      }
    }
  }

  /** The tags rule of `validate_metadata_schema`. */
  method CheckTags(result: ValidationResult, m: map<string, Value>)
    modifies result
    ensures result.errors == old(result.errors) + TagsErrors(m)
    ensures result.warnings == old(result.warnings)
  {
    if "tags" in m {
      if !m["tags"].List? {
        result.AddError(MustBe("tags", "list").message, Some("tags"), None);
      }
    }
  }

  /** The loop of `validate_metadata_schema` over the required fields. */
  method AddRequiredErrors(result: ValidationResult, m: map<string, Value>, order: seq<string>)
    modifies result
    ensures result.errors == old(result.errors) + RequiredErrors(m, order)
    ensures result.warnings == old(result.warnings)
  {
    for i := 0 to |order|
      invariant result.errors == old(result.errors) + RequiredErrors(m, order[..i])
      invariant result.warnings == old(result.warnings)
    {
      assert order[..i + 1][..i] == order[..i];
      var f := order[i];
      if f !in m || Falsy(m[f]) {
        result.AddError(Missing(f).message, Some(f), None);
      }
    }
    assert order[..|order|] == order;
  }

  /** The loop of `validate_metadata_schema` over the elements of `arguments`. */
  method AddArgumentErrors(result: ValidationResult, args: seq<Value>)
    modifies result
    ensures result.errors == old(result.errors) + ArgumentErrors(args)
    ensures result.warnings == old(result.warnings)
  {
    for i := 0 to |args|
      invariant result.errors == old(result.errors) + ArgumentErrors(args[..i])
      invariant result.warnings == old(result.warnings)
    {
      assert args[..i + 1][..i] == args[..i];
      var arg := args[i];
      if !arg.Map? {
        result.AddError(ArgumentAt(i, "must be a dictionary").message, Some("arguments"), None);
      } else if "name" !in arg.entries {
        result.AddError(ArgumentAt(i, "is missing 'name' field").message, Some("arguments"), None);
      }
    }
    assert args[..|args|] == args;
  }
}
