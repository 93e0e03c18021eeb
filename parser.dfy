/**
 * `CommandParser` (src/sync_engine/parser.py): from the text of a command
 * file to a `Command` record, and the scan of a repository's `commands`
 * directory. The parser holds no state, so its operations are module-level
 * members here; the filesystem is replaced by the entries it would have
 * produced and the YAML library by an abstract `Decoder`.
 */
module Parser {
  import opened Text
  import opened Values
  import opened Frontmatter

  /** A path as pathlib splits it into `parts`: an optional root `/` and its names. */
  datatype Path = Path(absolute: bool, names: seq<string>)

  /** `path.parts`. */
  function Parts(p: Path): seq<string> {
    (if p.absolute then ["/"] else []) + p.names
  }

  /** `str(path)`. */
  function PathText(p: Path): string {
    if p.absolute then "/" + Join("/", p.names)
    else if p.names == [] then "."
    else Join("/", p.names)
  }

  /** `path / name`. */
  function Child(p: Path, name: string): Path {
    Path(p.absolute, p.names + [name])
  }

  predicate IsPrefix<T(==)>(a: seq<T>, b: seq<T>) {
    |a| <= |b| && b[..|a|] == a
  }

  /** The `Command` dataclass. Fields read from the metadata keep the decoded value as is. */
  datatype Command = Command(
    name: Value,
    description: Value,
    scope: Value,
    body: string,
    sourcePath: Path,
    namespace: string,
    arguments: Value,
    shellExecution: Value,
    tags: Value,
    metadata: map<string, Value>)

  /**
   * What `parse_frontmatter` returns: nothing when there is no header or the
   * decoder fails; otherwise the decoded value, with every falsy value
   * (null, false, 0, "", [], {}) replaced by the empty mapping.
   */
  function ParseFrontmatter(content: string, decode: Decoder): (r: Option<Value>)
    ensures r.None? <==> SplitFrontmatter(content).None?
                         || decode(SplitFrontmatter(content).value.block).Undecodable?
    ensures r.Some? ==> (Falsy(r.value) <==> r.value == Map(map[]))
    ensures r.Some? && !Falsy(decode(SplitFrontmatter(content).value.block).value) ==>
              r.value == decode(SplitFrontmatter(content).value.block).value
    ensures r.Some? && Falsy(decode(SplitFrontmatter(content).value.block).value) ==> r.value == Map(map[])
  {
    DecodeHeader(SplitFrontmatter(content), decode)
  }

  function DecodeHeader(header: Option<Parts>, decode: Decoder): (r: Option<Value>)
    ensures r.None? <==> header.None? || decode(header.value.block).Undecodable?
    ensures r.Some? ==> (Falsy(r.value) <==> r.value == Map(map[]))
    ensures r.Some? && !Falsy(decode(header.value.block).value) ==> r.value == decode(header.value.block).value
    ensures r.Some? && Falsy(decode(header.value.block).value) ==> r.value == Map(map[])
  {
    if header.None? then None
    else
      var d := decode(header.value.block);
      if d.Undecodable? then None
      else Some(if Falsy(d.value) then Map(map[]) else d.value)
  }

  /**
   * `extract_body`: without a header, the content itself, unstripped; with
   * one, the piece of text after the closing delimiter that whitespace alone
   * frames, neither starting nor ending with whitespace. No header line can
   * show up in it.
   */
  function ExtractBody(content: string): (r: string)
    ensures SplitFrontmatter(content).None? ==> r == content
    ensures SplitFrontmatter(content).Some? ==> FramedAfter(content, RestStart(SplitFrontmatter(content).value), r)
    ensures SplitFrontmatter(content).Some? && r != [] ==> !IsSpace(r[0]) && !IsSpace(r[|r| - 1])
  {
    BodyAfter(content, SplitFrontmatter(content))
  }

  /** The body for the header `header` of `content`, if it has one. */
  function BodyAfter(content: string, header: Option<Parts>): (r: string)
    requires header.Some? ==> RestStart(header.value) <= |content|
    ensures header.None? ==> r == content
    ensures header.Some? ==> FramedAfter(content, RestStart(header.value), r)
    ensures header.Some? && r != [] ==> !IsSpace(r[0]) && !IsSpace(r[|r| - 1])
  {
    match header
    case None => content
    case Some(p) =>
      // the text after the closing delimiter, which the pattern's last group captures
      StripFramed(content, RestStart(p));
      StripEnds(content[RestStart(p)..]);
      Strip(content[RestStart(p)..])
  }

  /**
   * The body does not depend on how much whitespace the closing delimiter
   * absorbed: it is the stripped text after the closing `---`.
   */
  lemma BodyAfterClosingDashes(content: string, p: Parts)
    requires SplitFrontmatter(content) == Some(p)
    ensures ExtractBody(content) == Strip(content[|p.opening| + |p.block| + 4..])
  {
    assert ExtractBody(content) == BodyAfter(content, Some(p));
    StripAfterClosingDashes(content, p);
  }

  lemma StripAfterClosingDashes(content: string, p: Parts)
    requires content == p.opening + p.block + p.closing + p.rest
    requires IsClosingLine(p.closing)
    ensures Strip(content[RestStart(p)..]) == Strip(content[|p.opening| + |p.block| + 4..])
  {
    assert content[RestStart(p)..] == p.rest;
    assert content[|p.opening| + |p.block| + 4..] == p.closing[4..] + p.rest;
    StripIgnoresLeadingSpace(p.closing[4..], p.rest);
  }

  /**
   * `_detect_namespace`. With a repository root, the names between
   * `<root>/commands` and the file name, joined with `/`, or "" when the file
   * is not under `<root>/commands`. Without one, the names between the first
   * `commands` part of the path and the file name, or "" when there is none.
   */
  function DetectNamespace(file: Path, root: Option<Path>): string {
    match root
    case None =>
      var parts := Parts(file);
      var i := IndexOf(parts, "commands");
      if i + 1 <= |parts| - 1 then Join("/", parts[i + 1..|parts| - 1]) else ""
    case Some(repo) =>
      var dir := Child(repo, "commands");
      if file.absolute == dir.absolute && IsPrefix(dir.names, file.names) then
        var rel := file.names[|dir.names|..];
        if |rel| == 0 then "" else Join("/", rel[..|rel| - 1])
      else ""
  }

  /** A file under `<root>/commands`: its namespace is its directory names, joined. */
  lemma NamespaceUnderRoot(root: Path, dirs: seq<string>, name: string)
    ensures DetectNamespace(Path(root.absolute, root.names + ["commands"] + dirs + [name]), Some(root))
            == Join("/", dirs)
  {
    var names := root.names + ["commands"] + dirs + [name];
    assert names[..|root.names| + 1] == root.names + ["commands"];
    var rel := names[|root.names| + 1..];
    assert rel == dirs + [name];
    assert rel[..|rel| - 1] == dirs;
  }

  /** A file outside `<root>/commands` is in the root namespace. */
  lemma NamespaceOutsideRoot(root: Path, file: Path)
    requires !(file.absolute == root.absolute && IsPrefix(root.names + ["commands"], file.names))
    ensures DetectNamespace(file, Some(root)) == ""
  {
  }

  /**
   * Without a root, the directory names after the first `commands` part
   * count; a path with no `commands` part is in the root namespace.
   */
  lemma NamespaceWithoutRoot(file: Path, pre: seq<string>, dirs: seq<string>, name: string)
    requires Parts(file) == pre + ["commands"] + dirs + [name]
    requires "commands" !in pre
    ensures DetectNamespace(file, None) == Join("/", dirs)
  {
    var parts := Parts(file);
    assert parts[|pre|] == "commands";
    assert parts[..|pre|] == pre;
    assert IndexOf(parts, "commands") == |pre|;
    assert parts[|pre| + 1..|parts| - 1] == dirs;
  }

  lemma NamespaceWithoutCommandsPart(file: Path)
    requires "commands" !in Parts(file)
    ensures DetectNamespace(file, None) == ""
  {
  }

  /**
   * The two modes agree on the files of a repository whose own path holds no
   * `commands` part.
   */
  lemma NamespaceModesAgree(root: Path, dirs: seq<string>, name: string)
    requires "commands" !in Parts(root)
    ensures var file := Path(root.absolute, root.names + ["commands"] + dirs + [name]);
            DetectNamespace(file, None) == DetectNamespace(file, Some(root))
  {
    var file := Path(root.absolute, root.names + ["commands"] + dirs + [name]);
    assert Parts(file) == Parts(root) + ["commands"] + dirs + [name];
    NamespaceUnderRoot(root, dirs, name);
    NamespaceWithoutRoot(file, Parts(root), dirs, name);
  }

  /** What the filesystem gives for one enumerated path. */
  datatype FileContent = Missing | Unreadable | Readable(text: string)

  datatype FileEntry = FileEntry(path: Path, content: FileContent)

  /**
   * How `parse_file` ends: with a `Command`, with `None`, or with an exception
   * (an unreadable file, or metadata that is not a mapping, on which `.get`
   * fails).
   */
  datatype ParseOutcome = Parsed(command: Command) | NoCommand | Raised

  /**
   * Every canonical field of `c` is the metadata's value for its key, or the
   * default when the key is absent: "" for name and description, "user" for
   * scope, false for shell_execution, and None (Null) for arguments and tags.
   */
  predicate AgreesWithMetadata(c: Command) {
    var m := c.metadata;
    && c.name == (if "name" in m then m["name"] else Str(""))
    && c.description == (if "description" in m then m["description"] else Str(""))
    && c.scope == (if "scope" in m then m["scope"] else Str("user"))
    && c.shellExecution == (if "shell_execution" in m then m["shell_execution"] else Bool(false))
    && c.arguments == (if "arguments" in m then m["arguments"] else Null)
    && c.tags == (if "tags" in m then m["tags"] else Null)
  }

  /** The record construction at the end of `parse_file`. */
  function BuildCommand(m: map<string, Value>, body: string, path: Path, namespace: string): Command {
    Command(
      name := Get(m, "name", Str("")),
      description := Get(m, "description", Str("")),
      scope := Get(m, "scope", Str("user")),
      body := body,
      sourcePath := path,
      namespace := namespace,
      arguments := Get(m, "arguments", Null),
      shellExecution := Get(m, "shell_execution", Bool(false)),
      tags := Get(m, "tags", Null),
      metadata := m)
  }

  /**
   * `parse_file`. A command comes out exactly when the file is readable, has
   * a header that decodes, and the decoded metadata is a non-empty mapping;
   * the command keeps that mapping, the given path, the extracted body and
   * the detected namespace, and its fields agree with the mapping.
   */
  function ParseFile(file: FileEntry, root: Option<Path>, decode: Decoder): (r: ParseOutcome)
    ensures r.Parsed? <==>
              && file.content.Readable?
              && ParseFrontmatter(file.content.text, decode).Some?
              && ParseFrontmatter(file.content.text, decode).value.Map?
              && ParseFrontmatter(file.content.text, decode).value.entries != map[]
    ensures r.Raised? <==>
              || file.content.Unreadable?
              || (&& file.content.Readable?
                  && ParseFrontmatter(file.content.text, decode).Some?
                  && !ParseFrontmatter(file.content.text, decode).value.Map?)
    ensures r.Parsed? ==>
              && r.command.sourcePath == file.path
              && r.command.body == ExtractBody(file.content.text)
              && r.command.namespace == DetectNamespace(file.path, root)
              && Map(r.command.metadata) == ParseFrontmatter(file.content.text, decode).value
              && AgreesWithMetadata(r.command)
  {
    match file.content
    case Missing => NoCommand
    case Unreadable => Raised
    case Readable(text) =>
      match ParseFrontmatter(text, decode)
      case None => NoCommand
      case Some(metadata) =>
        if Falsy(metadata) then NoCommand
        else if !metadata.Map? then Raised
        else
          Parsed(BuildCommand(metadata.entries, ExtractBody(text), file.path, DetectNamespace(file.path, root)))
  }

  /**
   * A header that is present but decodes to nothing (or to any falsy value)
   * gives no command: `parse_frontmatter` turns it into `{}`, which
   * `parse_file` then rejects as empty.
   */
  lemma EmptyHeaderGivesNoCommand(path: Path, text: string, root: Option<Path>, decode: Decoder)
    requires SplitFrontmatter(text).Some?
    requires decode(SplitFrontmatter(text).value.block).Decoded?
    requires Falsy(decode(SplitFrontmatter(text).value.block).value)
    ensures ParseFile(FileEntry(path, Readable(text)), root, decode) == NoCommand
  {
  }

  /** The command list one parse contributes to a scan: its command, or nothing. */
  function Kept(outcome: ParseOutcome): seq<Command> {
    if outcome.Parsed? then [outcome.command] else []
  }

  /** `parse_file` for the files of one repository. */
  function ParserFor(root: Path, decode: Decoder): FileEntry -> ParseOutcome {
    file => ParseFile(file, Some(root), decode)
  }

  /**
   * The commands a scan keeps, with `parse` standing for the parser: the
   * successful parses, in enumeration order.
   */
  function Scan(files: seq<FileEntry>, parse: FileEntry -> ParseOutcome): seq<Command> {
    if files == [] then []
    else Scan(files[..|files| - 1], parse) + Kept(parse(files[|files| - 1]))
  }

  /**
   * `scan_repository`: nothing when `<root>/commands` does not exist;
   * otherwise `files` stands for what `rglob("*.md")` enumerates under it,
   * and every file is parsed in turn, a failure skipping only that file.
   */
  method ScanRepository(root: Path, commandsExists: bool, files: seq<FileEntry>, decode: Decoder)
    returns (commands: seq<Command>)
    ensures commands == if commandsExists then Scan(files, ParserFor(root, decode)) else []
  {
    commands := [];
    if !commandsExists {
      return;
    }
    for i := 0 to |files|
      invariant commands == Scan(files[..i], ParserFor(root, decode))
    {
      assert files[..i + 1][..i] == files[..i];
      var outcome := ParseFile(files[i], Some(root), decode);
      if outcome.Parsed? {
        commands := commands + [outcome.command];
      }
    }
    assert files[..|files|] == files;
  }

  /** Scanning two runs of files one after the other scans each on its own. */
  lemma {:induction false} ScanAppend(a: seq<FileEntry>, b: seq<FileEntry>, parse: FileEntry -> ParseOutcome)
    ensures Scan(a + b, parse) == Scan(a, parse) + Scan(b, parse)
  {
    if b == [] {
      assert a + b == a;
    } else {
      assert (a + b)[..|a + b| - 1] == a + b[..|b| - 1];
      ScanAppend(a, b[..|b| - 1], parse);
    }
  }

  /** A file that does not parse drops out and does not stop the files after it. */
  lemma ScanSkipsFailure(a: seq<FileEntry>, f: FileEntry, b: seq<FileEntry>, parse: FileEntry -> ParseOutcome)
    requires !parse(f).Parsed?
    ensures Scan(a + [f] + b, parse) == Scan(a, parse) + Scan(b, parse)
  {
    var front := a + [f];
    assert front[..|front| - 1] == a;
    assert Scan(front, parse) == Scan(a, parse) + Kept(parse(f));
    ScanAppend(front, b, parse);
  }

  /** A scan keeps at most one command per file. */
  lemma {:induction false} ScanLength(files: seq<FileEntry>, parse: FileEntry -> ParseOutcome)
    ensures |Scan(files, parse)| <= |files|
  {
    if files != [] {
      ScanLength(files[..|files| - 1], parse);
    }
  }

  /** The commands of a scan are exactly the commands its files parse to. */
  lemma {:induction false} ScanKeepsParsed(files: seq<FileEntry>, parse: FileEntry -> ParseOutcome, c: Command)
    ensures c in Scan(files, parse) <==> exists i :: 0 <= i < |files| && parse(files[i]) == Parsed(c)
  {
    if files != [] {
      var init := files[..|files| - 1];
      ScanKeepsParsed(init, parse, c);
      if c in Scan(files, parse) {
        if c in Scan(init, parse) {
          var i :| 0 <= i < |init| && parse(init[i]) == Parsed(c);
          assert files[i] == init[i];
        } else {
          assert parse(files[|files| - 1]) == Parsed(c);
        }
      }
      if exists i :: 0 <= i < |files| && parse(files[i]) == Parsed(c) {
        var i :| 0 <= i < |files| && parse(files[i]) == Parsed(c);
        if i < |init| {
          assert init[i] == files[i];
        }
      }
    }
  }
}
