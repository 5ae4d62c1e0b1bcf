/** Capability profile manifests (src/profile/mod.rs): from the text of a profile to its policies. */
module ProfileManifest {
  import opened Options
  import opened ProfileText

  datatype MemoryScope =
    | Agent(agentId: string)
    | Session(sessionAgent: string, sessionId: string)
    | Namespace(namespace: string)

  /** The capabilities of the sandbox; a profile can only name the first eight. */
  datatype Capability =
    | ReadFile(value: string)
    | WriteFile(value: string)
    | ListDirectory(value: string)
    | HttpGet(value: string)
    | HttpPost(value: string)
    | ExecuteBinary(value: string)
    | MountTmpfs(value: string)
    | MemoryPreview
    | MemoryRecall
    | ReadMemory(scope: MemoryScope)
    | WriteMemory(scope: MemoryScope)
    | AllCapabilities
    | NoCapability

  datatype McpPolicy = McpPolicy(
    toolAllowlist: Option<seq<string>>,
    snapshot: bool,
    fork: bool,
    proof: bool,
    wasi: bool,
    instinct: bool,
    retry: bool)

  datatype ExecutionPolicy = ExecutionPolicy(moduleDirs: seq<string>, daemonAuthRequired: bool)

  datatype Manifest = Manifest(
    name: string,
    capabilities: seq<Capability>,
    mcp: McpPolicy,
    execution: ExecutionPolicy)

  // What parsing produces, each value with the number of its line.

  datatype ParsedValue = ParsedValue(line: nat, value: string)

  datatype RawCapability = RawCapability(
    line: nat,
    capabilityType: Option<ParsedValue>,
    path: Option<ParsedValue>,
    pattern: Option<ParsedValue>)

  datatype RawMcp = RawMcp(
    toolAllowlist: Option<seq<string>>,
    snapshot: Option<bool>,
    fork: Option<bool>,
    proof: Option<bool>,
    wasi: Option<bool>,
    instinct: Option<bool>,
    retry: Option<bool>)

  datatype RawExecution = RawExecution(moduleDirs: Option<seq<string>>, daemonAuthRequired: Option<bool>)

  datatype RawProfile = RawProfile(
    name: Option<string>,
    capabilities: seq<RawCapability>,
    mcp: Option<RawMcp>,
    execution: Option<RawExecution>)

  datatype Section = Top | InCapability(index: nat) | InMcp | InExecution

  datatype Fault =
    | UnsupportedTable
    | ExpectedAssignment
    | ExpectedKey
    | UnsupportedKey(table: string, key: string)
    | BadValue(error: ValueError)

  datatype ValidationError =
    | Io
    | Parse(line: nat, fault: Fault)
    | EmptyCapabilities
    | MissingCapabilityType(line: nat)
    | UnknownCapabilityType(line: nat, capabilityType: string)
    | MissingRequiredField(line: nat, capabilityType: string, field: string)

  // ---------------------------------------------------------------------------------------------
  // From text to statements

  function WithoutReturn(line: string): string {
    if line != "" && line[|line| - 1] == '\r' then line[..|line| - 1] else line
  }

  /** The lines of a text: each ends with a line feed that may follow a carriage return; the last may lack it. */
  function Lines(text: string): seq<string>
    decreases |text|
  {
    var k := FirstOf(text, '\n');
    if text == "" then []
    else if k == |text| then [text]
    else [WithoutReturn(text[..k])] + Lines(text[k + 1..])
  }

  /** What one line says. */
  datatype Statement = Nothing | Header(text: string) | Assign(key: string, rhs: string) | Malformed(fault: Fault)

  /** Reads a line that has no comment and no white space around it. */
  function Read(line: string): Statement {
    if line == "" then Nothing
    else if line[0] == '[' then Header(line)
    else
      var k := FirstBare(Bare, line, '=');
      if k == |line| then Malformed(ExpectedAssignment) else ReadAt(line, k)
  }

  /** Reads a line that is split at k. */
  function ReadAt(line: string, k: nat): Statement
    requires k < |line|
  {
    var key := Trim(line[..k]);
    if key == "" then Malformed(ExpectedKey) else Assign(key, Trim(line[k + 1..]))
  }

  /** A line that is neither empty nor a header is faulty exactly if it has no equals sign outside quotes, or
      nothing but white space before the first one. */
  lemma FaultyExactly(line: string)
    requires line != "" && line[0] != '['
    ensures Read(line) == Malformed(ExpectedAssignment) <==>
            forall i | 0 <= i < |line| :: !(Run(Bare, line[..i]).Bare? && line[i] == '=')
    ensures Read(line) == Malformed(ExpectedKey) <==>
            exists k :: 0 <= k < |line| && Run(Bare, line[..k]).Bare? && line[k] == '=' && Blank(line[..k])
  {
    var k := FirstBare(Bare, line, '=');
    FirstBareExact(Bare, line, '=');
    if k < |line| {
      BlankIsTrimmedAway(line[..k]);
    }
    if j :| 0 <= j < |line| && Run(Bare, line[..j]).Bare? && line[j] == '=' && Blank(line[..j]) {
      if k < j {
        EqualsIsNotBlank(line, k, j);
      }
    }
  }

  lemma EqualsIsNotBlank(line: string, k: nat, j: nat)
    requires k < j <= |line| && line[k] == '='
    ensures !Blank(line[..j])
  {
    assert line[..j][k] in line[..j];
  }

  function Core(line: string): string {
    Trim(line[..FirstBare(Bare, line, '#')])
  }

  datatype Numbered = Numbered(number: nat, statement: Statement)

  function Statements(lines: seq<string>): (ns: seq<Numbered>)
    ensures |ns| == |lines|
  {
    seq(|lines|, i requires 0 <= i < |lines| => Numbered(i + 1, Read(Core(lines[i]))))
  }

  // ---------------------------------------------------------------------------------------------
  // From statements to a raw profile

  datatype Progress = Progress(profile: RawProfile, section: Section, errors: seq<ValidationError>)

  const START := Progress(RawProfile(None, [], None, None), Top, [])
  const EMPTY_MCP := RawMcp(None, None, None, None, None, None, None)
  const EMPTY_EXECUTION := RawExecution(None, None)

  predicate Sound(p: Progress) {
    p.section.InCapability? ==> p.section.index < |p.profile.capabilities|
  }

  function Failed(p: Progress, number: nat, fault: Fault): Progress {
    p.(errors := p.errors + [Parse(number, fault)])
  }

  datatype Assigned<+T> = Set(value: T) | Refused(fault: Fault)

  function AssignMcp(mcp: RawMcp, key: string, rhs: string): Assigned<RawMcp> {
    if key == "tool_allowlist" then
      match StringArray(rhs)
      case Ok(items) => Set(mcp.(toolAllowlist := Some(items)))
      case Err(e) => Refused(BadValue(e))
    else if key !in MCP_FLAGS then Refused(UnsupportedKey("mcp", key))
    else
      match BoolValue(rhs)
      case Err(e) => Refused(BadValue(e))
      case Ok(flag) => Set(WithFlag(mcp, key, flag))
  }

  function WithFlag(mcp: RawMcp, key: string, flag: bool): RawMcp
    requires key in MCP_FLAGS
  {
    if key == "snapshot_enabled" then mcp.(snapshot := Some(flag))
    else if key == "fork_enabled" then mcp.(fork := Some(flag))
    else if key == "proof_enabled" then mcp.(proof := Some(flag))
    else if key == "wasi_enabled" then mcp.(wasi := Some(flag))
    else if key == "instinct_enabled" then mcp.(instinct := Some(flag))
    else mcp.(retry := Some(flag))
  }

  /** The flag that a key stands for. */
  function FlagOf(mcp: RawMcp, key: string): Option<bool>
    requires key in MCP_FLAGS
  {
    if key == "snapshot_enabled" then mcp.snapshot
    else if key == "fork_enabled" then mcp.fork
    else if key == "proof_enabled" then mcp.proof
    else if key == "wasi_enabled" then mcp.wasi
    else if key == "instinct_enabled" then mcp.instinct
    else mcp.retry
  }

  const MCP_FLAGS: set<string> :=
    {"snapshot_enabled", "fork_enabled", "proof_enabled", "wasi_enabled", "instinct_enabled", "retry_enabled"}

  function AssignExecution(execution: RawExecution, key: string, rhs: string): Assigned<RawExecution> {
    if key == "module_dirs" then
      match StringArray(rhs)
      case Ok(items) => Set(execution.(moduleDirs := Some(items)))
      case Err(e) => Refused(BadValue(e))
    else if key == "daemon_auth_required" then
      match BoolValue(rhs)
      case Ok(flag) => Set(execution.(daemonAuthRequired := Some(flag)))
      case Err(e) => Refused(BadValue(e))
    else Refused(UnsupportedKey("execution", key))
  }

  /** An assignment is accepted exactly for a switch with a boolean, and sets that switch and nothing else. */
  lemma McpSwitchSetAlone(mcp: RawMcp, key: string, rhs: string, other: string)
    requires key in MCP_FLAGS && other in MCP_FLAGS
    ensures AssignMcp(mcp, key, rhs).Set? <==> BoolValue(rhs).Ok?
    ensures BoolValue(rhs).Ok? ==>
              var next := AssignMcp(mcp, key, rhs).value;
              && next.toolAllowlist == mcp.toolAllowlist
              && FlagOf(next, other) == if other == key then Some(BoolValue(rhs).value) else FlagOf(mcp, other)
  {
  }

  /** Outside the switches only the allowlist is accepted, with a list of strings; it changes no switch. */
  lemma McpListSetAlone(mcp: RawMcp, key: string, rhs: string)
    requires key !in MCP_FLAGS
    ensures AssignMcp(mcp, key, rhs).Set? <==> key == "tool_allowlist" && StringArray(rhs).Ok?
    ensures AssignMcp(mcp, key, rhs).Set? ==>
              var next := AssignMcp(mcp, key, rhs).value;
              && next.toolAllowlist == Some(StringArray(rhs).value)
              && forall flag | flag in MCP_FLAGS :: FlagOf(next, flag) == FlagOf(mcp, flag)
  {
  }

  /** A list of directories or the boolean sets its own field; every other key and value is refused. */
  lemma ExecutionFieldSetAlone(execution: RawExecution, key: string, rhs: string)
    ensures AssignExecution(execution, key, rhs).Set? <==>
              (key == "module_dirs" && StringArray(rhs).Ok?) || (key == "daemon_auth_required" && BoolValue(rhs).Ok?)
    ensures AssignExecution(execution, key, rhs).Set? ==>
              var next := AssignExecution(execution, key, rhs).value;
              if key == "module_dirs"
              then next == RawExecution(Some(StringArray(rhs).value), execution.daemonAuthRequired)
              else next == RawExecution(execution.moduleDirs, Some(BoolValue(rhs).value))
  {
    assert "module_dirs"[0] != "daemon_auth_required"[0];
  }

  function AssignCapability(raw: RawCapability, key: string, value: ParsedValue): RawCapability {
    if key == "type" then raw.(capabilityType := Some(value))
    else if key == "path" then raw.(path := Some(value))
    else if key == "pattern" then raw.(pattern := Some(value))
    else raw
  }

  function OrElse<T>(option: Option<T>, default: T): T {
    if option.Some? then option.value else default
  }

  function AfterAssign(p: Progress, number: nat, key: string, rhs: string): (q: Progress)
    requires Sound(p)
    ensures Sound(q)
  {
    match p.section
    case InMcp => (
      var mcp := OrElse(p.profile.mcp, EMPTY_MCP);
      match AssignMcp(mcp, key, rhs)
      case Set(m) => p.(profile := p.profile.(mcp := Some(m)))
      case Refused(fault) => Failed(p.(profile := p.profile.(mcp := Some(mcp))), number, fault))
    case InExecution => (
      var execution := OrElse(p.profile.execution, EMPTY_EXECUTION);
      match AssignExecution(execution, key, rhs)
      case Set(e) => p.(profile := p.profile.(execution := Some(e)))
      case Refused(fault) => Failed(p.(profile := p.profile.(execution := Some(execution))), number, fault))
    case InCapability(i) => (
      match StringValue(rhs)
      case Err(e) => Failed(p, number, BadValue(e))
      case Ok(s) =>
        var raws := p.profile.capabilities;
        p.(profile := p.profile.(
           capabilities := raws[i := AssignCapability(raws[i], key, ParsedValue(number, s))])))
    case Top =>
      match StringValue(rhs)
      case Err(e) => Failed(p, number, BadValue(e))
      case Ok(s) => if key == "name" then p.(profile := p.profile.(name := Some(s))) else p
  }

  function AfterHeader(p: Progress, number: nat, text: string): (q: Progress)
    ensures Sound(p) ==> Sound(q)
  {
    if text == "[[capabilities]]" then
      p.(profile := p.profile.(capabilities := p.profile.capabilities + [RawCapability(number, None, None, None)]),
         section := InCapability(|p.profile.capabilities|))
    else if text == "[mcp]" then
      p.(profile := p.profile.(mcp := Some(OrElse(p.profile.mcp, EMPTY_MCP))), section := InMcp)
    else if text == "[execution]" then
      p.(profile := p.profile.(execution := Some(OrElse(p.profile.execution, EMPTY_EXECUTION))),
         section := InExecution)
    else Failed(p, number, UnsupportedTable)
  }

  function After(p: Progress, n: Numbered): (q: Progress)
    requires Sound(p)
    ensures Sound(q)
  {
    match n.statement
    case Nothing => p
    case Header(text) => AfterHeader(p, n.number, text)
    case Malformed(fault) => Failed(p, n.number, fault)
    case Assign(key, rhs) => AfterAssign(p, n.number, key, rhs)
  }

  function Walk(p: Progress, ns: seq<Numbered>): (q: Progress)
    requires Sound(p)
    ensures Sound(q)
    decreases |ns|
  {
    if ns == [] then p else Walk(After(p, ns[0]), ns[1..])
  }

  lemma {:induction false} WalkParts(p: Progress, a: seq<Numbered>, b: seq<Numbered>)
    requires Sound(p)
    ensures Walk(p, a + b) == Walk(Walk(p, a), b)
    decreases |a|
  {
    if a == [] {
      assert a + b == b;
    } else {
      assert (a + b)[1..] == a[1..] + b;
      WalkParts(After(p, a[0]), a[1..], b);
    }
  }

  lemma {:induction false} ErrorsStay(p: Progress, ns: seq<Numbered>)
    requires Sound(p)
    ensures p.errors <= Walk(p, ns).errors
    decreases |ns|
  {
    if ns != [] {
      ErrorsStay(After(p, ns[0]), ns[1..]);
    }
  }

  /** A key with a good value sets its field and no other; anything else is one more error. */
  method ParseMcpAssignment(mcp: RawMcp, key: string, rhs: string, number: nat, errors: seq<ValidationError>)
      returns (next: RawMcp, faults: seq<ValidationError>)
    ensures match AssignMcp(mcp, key, rhs)
            case Set(m) => next == m && faults == errors
            case Refused(fault) => next == mcp && faults == errors + [Parse(number, fault)]
  {
    next, faults := mcp, errors;
    if key == "tool_allowlist" {
      var items := ParseStringArray(rhs);
      match items {
        case Ok(values) => next := mcp.(toolAllowlist := Some(values));
        case Err(e) => faults := errors + [Parse(number, BadValue(e))];
      }
      return;
    }
    if key !in MCP_FLAGS {
      faults := errors + [Parse(number, UnsupportedKey("mcp", key))];
      return;
    }
    match BoolValue(rhs) {
      case Err(e) => faults := errors + [Parse(number, BadValue(e))];
      case Ok(flag) =>
        if key == "snapshot_enabled" {
          next := mcp.(snapshot := Some(flag));
        } else if key == "fork_enabled" {
          next := mcp.(fork := Some(flag));
        } else if key == "proof_enabled" {
          next := mcp.(proof := Some(flag));
        } else if key == "wasi_enabled" {
          next := mcp.(wasi := Some(flag));
        } else if key == "instinct_enabled" {
          next := mcp.(instinct := Some(flag));
        } else {
          next := mcp.(retry := Some(flag));
        }
    }
  }

  method ParseExecutionAssignment(execution: RawExecution, key: string, rhs: string, number: nat,
                                  errors: seq<ValidationError>)
      returns (next: RawExecution, faults: seq<ValidationError>)
    ensures match AssignExecution(execution, key, rhs)
            case Set(e) => next == e && faults == errors
            case Refused(fault) => next == execution && faults == errors + [Parse(number, fault)]
  {
    next, faults := execution, errors;
    if key == "module_dirs" {
      var items := ParseStringArray(rhs);
      match items {
        case Ok(values) => next := execution.(moduleDirs := Some(values));
        case Err(e) => faults := errors + [Parse(number, BadValue(e))];
      }
    } else if key == "daemon_auth_required" {
      match BoolValue(rhs) {
        case Ok(flag) => next := execution.(daemonAuthRequired := Some(flag));
        case Err(e) => faults := errors + [Parse(number, BadValue(e))];
      }
    } else {
      faults := errors + [Parse(number, UnsupportedKey("execution", key))];
    }
  }

  /** The end of the loop body: an assignment in the open section. */
  method TakeAssignment(p: Progress, number: nat, key: string, rhs: string) returns (q: Progress)
    requires Sound(p)
    ensures q == AfterAssign(p, number, key, rhs)
  {
    q := p;
    if p.section.InMcp? {
      var mcp, errors := ParseMcpAssignment(OrElse(p.profile.mcp, EMPTY_MCP), key, rhs, number, p.errors);
      return p.(profile := p.profile.(mcp := Some(mcp)), errors := errors);
    }
    if p.section.InExecution? {
      var execution, errors :=
        ParseExecutionAssignment(OrElse(p.profile.execution, EMPTY_EXECUTION), key, rhs, number, p.errors);
      return p.(profile := p.profile.(execution := Some(execution)), errors := errors);
    }
    var value := ParseStringValue(rhs);
    match value {
      case Err(e) => q := Failed(p, number, BadValue(e));
      case Ok(s) =>
        if p.section.InCapability? {
          var i := p.section.index;
          var raw := AssignCapability(p.profile.capabilities[i], key, ParsedValue(number, s));
          q := p.(profile := p.profile.(capabilities := p.profile.capabilities[i := raw]));
        } else if key == "name" {
          q := p.(profile := p.profile.(name := Some(s)));
        }
    }
  }

  /** The body of the line loop. */
  method TakeLine(p: Progress, number: nat, original: string) returns (q: Progress)
    requires Sound(p)
    ensures q == After(p, Numbered(number, Read(Core(original))))
  {
    var stripped := StripComment(original);
    var line := Trim(stripped);
    if line == "" {
      return p;
    }
    if line[0] == '[' {
      return AfterHeader(p, number, line);
    }
    var separator := FindUnquotedEquals(line);
    if separator.None? {
      return Failed(p, number, ExpectedAssignment);
    }
    var key := Trim(line[..separator.value]);
    if key == "" {
      return Failed(p, number, ExpectedKey);
    }
    q := TakeAssignment(p, number, key, Trim(line[separator.value + 1..]));
  }

  /** The line loop. Indexing `capabilities` with the open section never fails. */
  method ParseProfile(contents: string) returns (profile: RawProfile, errors: seq<ValidationError>)
    ensures var q := Walk(START, Statements(Lines(contents)));
            profile == q.profile && errors == q.errors
  {
    var lines := Lines(contents);
    ghost var ns := Statements(lines);
    var progress := START;
    var index := 0;
    while index < |lines|
      invariant 0 <= index <= |lines|
      invariant Sound(progress)
      invariant Walk(START, ns) == Walk(progress, ns[index..])
    {
      assert ns[index..][1..] == ns[index + 1..];
      progress := TakeLine(progress, index + 1, lines[index]);
      index := index + 1;
    }
    profile, errors := progress.profile, progress.errors;
  }

  // ---------------------------------------------------------------------------------------------
  // From a raw profile to a manifest

  function Lower(c: char): char {
    if 'A' <= c <= 'Z' then c + 32 as char else if c == '-' then '_' else c
  }

  /** ASCII lower case, with underscores for dashes. */
  function Normalized(s: string): (r: string) {
    seq(|s|, i requires 0 <= i < |s| => Lower(s[i]))
  }

  datatype Judgement = Granted(capability: Capability) | Complaint(error: ValidationError)

  datatype Kind =
    | ReadFileKind | WriteFileKind | ListDirectoryKind | HttpGetKind | HttpPostKind | ExecuteKind | TmpfsKind
    | PreviewKind | SentinelKind | UnknownKind

  /** The match on the normalized type of an entry. */
  function KindOf(kind: string): Kind {
    if kind == "read_file" then ReadFileKind
    else if kind == "write_file" then WriteFileKind
    else if kind == "list_dir" || kind == "list_directory" then ListDirectoryKind
    else if kind == "http_get" then HttpGetKind
    else if kind == "http_post" then HttpPostKind
    else if kind == "execute" || kind == "execute_binary" then ExecuteKind
    else if kind == "mount_tmpfs" then TmpfsKind
    else if kind == "memory_preview" || kind == "nexus:memory_preview" then PreviewKind
    else if kind == "all" || kind == "none" then SentinelKind
    else UnknownKind
  }

  /** The capability of a kind that has a value. */
  function Make(kind: Kind, value: string): Capability {
    match kind
    case ReadFileKind => ReadFile(value)
    case WriteFileKind => WriteFile(value)
    case ListDirectoryKind => ListDirectory(value)
    case HttpGetKind => HttpGet(value)
    case HttpPostKind => HttpPost(value)
    case ExecuteKind => ExecuteBinary(value)
    case TmpfsKind => MountTmpfs(value)
    case _ => MemoryPreview
  }

  function Required(raw: RawCapability, original: string, field: string, value: Option<ParsedValue>, kind: Kind)
    : Judgement
  {
    match value
    case None => Complaint(MissingRequiredField(raw.line, original, field))
    case Some(v) =>
      if Trim(v.value) == "" then Complaint(MissingRequiredField(v.line, original, field))
      else Granted(Make(kind, Trim(v.value)))
  }

  function Judge(raw: RawCapability): Judgement {
    if raw.capabilityType.None? then Complaint(MissingCapabilityType(raw.line))
    else
      var original := Trim(raw.capabilityType.value.value);
      var line := raw.capabilityType.value.line;
      var kind := KindOf(Normalized(original));
      match kind
      case PreviewKind => Granted(MemoryPreview)
      case SentinelKind =>
        Complaint(UnknownCapabilityType(line,
          "\"" + original + "\" is a reserved sentinel and may not appear in profile manifests"))
      case UnknownKind => Complaint(UnknownCapabilityType(line, original))
      case HttpGetKind | HttpPostKind =>
        // A URL pattern may be given as a path.
        Required(raw, original, "pattern", if raw.pattern.Some? then raw.pattern else raw.path, kind)
      case _ => Required(raw, original, "path", raw.path, kind)
  }

  /** The spellings of the type of a capability, after normalization; none if a profile cannot name it. */
  function Spellings(c: Capability): set<string> {
    match c
    case ReadFile(_) => {"read_file"}
    case WriteFile(_) => {"write_file"}
    case ListDirectory(_) => {"list_dir", "list_directory"}
    case HttpGet(_) => {"http_get"}
    case HttpPost(_) => {"http_post"}
    case ExecuteBinary(_) => {"execute", "execute_binary"}
    case MountTmpfs(_) => {"mount_tmpfs"}
    case MemoryPreview => {"memory_preview", "nexus:memory_preview"}
    case _ => {}
  }

  function KindFor(c: Capability): Kind {
    match c
    case ReadFile(_) => ReadFileKind
    case WriteFile(_) => WriteFileKind
    case ListDirectory(_) => ListDirectoryKind
    case HttpGet(_) => HttpGetKind
    case HttpPost(_) => HttpPostKind
    case ExecuteBinary(_) => ExecuteKind
    case MountTmpfs(_) => TmpfsKind
    case MemoryPreview => PreviewKind
    case AllCapabilities => SentinelKind
    case NoCapability => SentinelKind
    case _ => UnknownKind
  }

  predicate Nameable(c: Capability) {
    KindFor(c) != SentinelKind && KindFor(c) != UnknownKind
  }

  lemma SpellingsExact(kind: string, c: Capability)
    ensures kind in Spellings(c) <==> Nameable(c) && KindOf(kind) == KindFor(c)
  {
    // Differences of one character, on which the order of the match does not depend.
    assert "read_file"[0] == 'r' && "write_file"[0] == 'w' && "mount_tmpfs"[0] == 'm' && "mount_tmpfs"[1] == 'o';
    assert "list_dir"[0] == "list_directory"[0] == 'l' && |"list_dir"| != |"list_directory"|;
    assert "http_get"[0] == "http_post"[0] == 'h' && "http_get"[5] == 'g' && "http_post"[5] == 'p';
    assert "execute"[0] == "execute_binary"[0] == 'e';
    assert "memory_preview"[0] == 'm' && "memory_preview"[1] == 'e' && "nexus:memory_preview"[0] == 'n';
    assert "nexus:memory_preview"[1] == 'e' && "all"[0] == 'a' && "none"[1] == 'o';
  }

  /** The field that supplies the value: a URL pattern may be given as a path. */
  function Supplied(raw: RawCapability, c: Capability): Option<ParsedValue> {
    if (c.HttpGet? || c.HttpPost?) && raw.pattern.Some? then raw.pattern else raw.path
  }

  predicate Valued(c: Capability) {
    || c.ReadFile? || c.WriteFile? || c.ListDirectory? || c.HttpGet? || c.HttpPost? || c.ExecuteBinary?
    || c.MountTmpfs?
  }

  /** An entry grants `c` exactly when its type spells `c` and its trimmed, nonblank value is that of `c`. */
  lemma JudgeExact(raw: RawCapability, c: Capability)
    ensures Judge(raw) == Granted(c)
       <==> && raw.capabilityType.Some?
            && Normalized(Trim(raw.capabilityType.value.value)) in Spellings(c)
            && (Valued(c) ==>
                  var value := if (c.HttpGet? || c.HttpPost?) && raw.pattern.Some? then raw.pattern else raw.path;
                  value.Some? && Trim(value.value.value) == c.value != "")
  {
    if raw.capabilityType.Some? {
      JudgeByKind(raw, c);
      SpellingsExact(Normalized(Trim(raw.capabilityType.value.value)), c);
    }
  }

  lemma JudgeByKind(raw: RawCapability, c: Capability)
    requires raw.capabilityType.Some?
    ensures Judge(raw) == Granted(c)
       <==> && Nameable(c)
            && KindOf(Normalized(Trim(raw.capabilityType.value.value))) == KindFor(c)
            && (Valued(c) ==>
                  && c.value != ""
                  && Supplied(raw, c).Some?
                  && Trim(Supplied(raw, c).value.value) == c.value)
  {
  }

  /** A type is complained about exactly if it spells no capability, the reserved words among them. */
  lemma UnknownExactly(raw: RawCapability)
    requires raw.capabilityType.Some?
    ensures (Judge(raw).Complaint? && Judge(raw).error.UnknownCapabilityType?) <==>
            forall c :: Normalized(Trim(raw.capabilityType.value.value)) !in Spellings(c)
  {
    var kind := Normalized(Trim(raw.capabilityType.value.value));
    forall c
      ensures kind in Spellings(c) <==> Nameable(c) && KindOf(kind) == KindFor(c)
    {
      SpellingsExact(kind, c);
    }
    if KindOf(kind) != UnknownKind && KindOf(kind) != SentinelKind {
      assert kind in Spellings(Make(KindOf(kind), ""));
    }
  }

  /** A value that is missing is complained about under the line of the entry, and a blank one under its own. */
  lemma MissingExactly(raw: RawCapability, c: Capability)
    requires raw.capabilityType.Some? && Valued(c)
    requires Normalized(Trim(raw.capabilityType.value.value)) in Spellings(c)
    ensures var field := if c.HttpGet? || c.HttpPost? then "pattern" else "path";
            var value := if (c.HttpGet? || c.HttpPost?) && raw.pattern.Some? then raw.pattern else raw.path;
            Judge(raw) == Complaint(MissingRequiredField(if value.Some? then value.value.line else raw.line,
                                                         Trim(raw.capabilityType.value.value), field))
            <==> (value.Some? ==> Blank(value.value.value))
  {
    SpellingsExact(Normalized(Trim(raw.capabilityType.value.value)), c);
    var value := Supplied(raw, c);
    if value.Some? {
      BlankIsTrimmedAway(value.value.value);
    }
  }

  function GrantedBy(raws: seq<RawCapability>): seq<Capability> {
    if raws == [] then []
    else
      var n := |raws| - 1;
      match Judge(raws[n])
      case Granted(c) => GrantedBy(raws[..n]) + [c]
      case Complaint(_) => GrantedBy(raws[..n])
  }

  function ComplaintsOf(raws: seq<RawCapability>): seq<ValidationError> {
    if raws == [] then []
    else
      var n := |raws| - 1;
      match Judge(raws[n])
      case Granted(_) => ComplaintsOf(raws[..n])
      case Complaint(e) => ComplaintsOf(raws[..n]) + [e]
  }

  /** Every entry is either granted or complained about, never both and never neither. */
  lemma {:induction false} EntriesAreConserved(raws: seq<RawCapability>)
    ensures |GrantedBy(raws)| + |ComplaintsOf(raws)| == |raws|
  {
    if raws != [] {
      EntriesAreConserved(raws[..|raws| - 1]);
    }
  }

  ghost predicate Grants(raws: seq<RawCapability>, cs: seq<Capability>) {
    |raws| == |cs| && forall i | 0 <= i < |raws| :: Judge(raws[i]) == Granted(cs[i])
  }

  lemma GrantsSnoc(raws: seq<RawCapability>, cs: seq<Capability>, raw: RawCapability, c: Capability)
    requires Grants(raws, cs) && Judge(raw) == Granted(c)
    ensures Grants(raws + [raw], cs + [c])
  {
  }

  lemma {:induction false} UncontestedGrants(raws: seq<RawCapability>)
    requires ComplaintsOf(raws) == []
    ensures Grants(raws, GrantedBy(raws))
  {
    if raws != [] {
      var n := |raws| - 1;
      UncontestedGrants(raws[..n]);
      GrantsSnoc(raws[..n], GrantedBy(raws[..n]), raws[n], Judge(raws[n]).capability);
      assert raws == raws[..n] + [raws[n]];
    }
  }

  lemma GrantsFront(raws: seq<RawCapability>, cs: seq<Capability>)
    requires Grants(raws, cs) && raws != []
    ensures var n := |raws| - 1;
            && Grants(raws[..n], cs[..n]) && Judge(raws[n]) == Granted(cs[n]) && cs == cs[..n] + [cs[n]]
  {
    var n := |raws| - 1;
    assert forall i | 0 <= i < n :: Judge(raws[i]) == Granted(cs[i]);
  }

  lemma {:induction false} GrantsUncontested(raws: seq<RawCapability>, cs: seq<Capability>)
    requires Grants(raws, cs)
    ensures ComplaintsOf(raws) == [] && GrantedBy(raws) == cs
    decreases |raws|
  {
    if raws != [] {
      GrantsFront(raws, cs);
      GrantsUncontested(raws[..|raws| - 1], cs[..|raws| - 1]);
    }
  }

  /** Without complaints the capabilities are those of the entries, one for one and in order. */
  lemma GrantedInOrder(raws: seq<RawCapability>, cs: seq<Capability>)
    ensures ComplaintsOf(raws) == [] && GrantedBy(raws) == cs <==> Grants(raws, cs)
  {
    if ComplaintsOf(raws) == [] {
      UncontestedGrants(raws);
    }
    if Grants(raws, cs) {
      GrantsUncontested(raws, cs);
    }
  }

  method ValidateCapabilities(raws: seq<RawCapability>, before: seq<ValidationError>)
      returns (capabilities: seq<Capability>, errors: seq<ValidationError>)
    ensures raws == [] ==> capabilities == [] && errors == before + [EmptyCapabilities]
    ensures raws != [] ==> capabilities == GrantedBy(raws) && errors == before + ComplaintsOf(raws)
  {
    if raws == [] {
      return [], before + [EmptyCapabilities];
    }
    capabilities, errors := [], before;
    assert before + [] == before;
    var index := 0;
    while index < |raws|
      invariant 0 <= index <= |raws|
      invariant capabilities == GrantedBy(raws[..index])
      invariant errors == before + ComplaintsOf(raws[..index])
    {
      assert raws[..index + 1][..index] == raws[..index];
      match Judge(raws[index]) {
        case Granted(c) => capabilities := capabilities + [c];
        case Complaint(e) => errors := errors + [e];
      }
      index := index + 1;
    }
    assert raws[..index] == raws;
  }

  function McpFromRaw(raw: Option<RawMcp>): McpPolicy {
    match raw
    case None => McpPolicy(None, false, false, false, false, false, false)
    case Some(r) => McpPolicy(r.toolAllowlist, OrElse(r.snapshot, false), OrElse(r.fork, false),
      OrElse(r.proof, false), OrElse(r.wasi, false), OrElse(r.instinct, false), OrElse(r.retry, false))
  }

  function ExecutionFromRaw(raw: Option<RawExecution>): ExecutionPolicy {
    match raw
    case None => ExecutionPolicy([], false)
    case Some(r) => ExecutionPolicy(OrElse(r.moduleDirs, []), OrElse(r.daemonAuthRequired, false))
  }

  function NameFrom(raw: Option<string>, fileStem: string): string {
    if raw.Some? && Trim(raw.value) != "" then raw.value
    else if fileStem != "" then fileStem
    else "profile"
  }

  datatype Loaded = Loaded(manifest: Manifest) | Rejected(errors: seq<ValidationError>)

  /** All objections to a parsed profile: those of the parser, then those of validation. */
  function Objections(q: Progress): seq<ValidationError> {
    q.errors + if q.profile.capabilities == [] then [EmptyCapabilities] else ComplaintsOf(q.profile.capabilities)
  }

  /** The manifest that a parsed profile stands for, if there is no objection to it. */
  function Manifested(q: Progress, fileStem: string): Option<Manifest> {
    var raw := q.profile;
    if q.errors == [] && raw.capabilities != [] && ComplaintsOf(raw.capabilities) == [] then
      Some(Manifest(NameFrom(raw.name, fileStem), GrantedBy(raw.capabilities),
                    McpFromRaw(raw.mcp), ExecutionFromRaw(raw.execution)))
    else None
  }

  /** `contents` is `None` when the file cannot be read. */
  method LoadAndValidate(contents: Option<string>, fileStem: string) returns (r: Loaded)
    ensures contents.None? ==> r == Rejected([Io])
    ensures contents.Some? ==>
              var q := Walk(START, Statements(Lines(contents.value)));
              match Manifested(q, fileStem)
              case Some(m) => r == Loaded(m)
              case None => r == Rejected(Objections(q)) && Objections(q) != []
  {
    if contents.None? {
      return Rejected([Io]);
    }
    var raw, parseErrors := ParseProfile(contents.value);
    var capabilities, errors := ValidateCapabilities(raw.capabilities, parseErrors);
    if errors == [] {
      r := Loaded(Manifest(NameFrom(raw.name, fileStem), capabilities,
                           McpFromRaw(raw.mcp), ExecutionFromRaw(raw.execution)));
    } else {
      r := Rejected(errors);
    }
  }

  // ---------------------------------------------------------------------------------------------
  // What holds of every text

  function Tables(ns: seq<Numbered>): nat {
    if ns == [] then 0
    else (if ns[0].statement == Header("[[capabilities]]") then 1 else 0) + Tables(ns[1..])
  }

  lemma {:induction false} TablesCounted(p: Progress, ns: seq<Numbered>)
    requires Sound(p)
    ensures |Walk(p, ns).profile.capabilities| == |p.profile.capabilities| + Tables(ns)
    decreases |ns|
  {
    if ns != [] {
      TablesCounted(After(p, ns[0]), ns[1..]);
    }
  }

  /**
   * Whatever the text, a manifest has one capability for each `[[capabilities]]` line and at least one, and
   * never a sentinel or a blank or padded value.
   */
  lemma CapabilitiesAreConfined(ns: seq<Numbered>, fileStem: string)
    ensures var m := Manifested(Walk(START, ns), fileStem);
            m.Some? ==>
              && |m.value.capabilities| == Tables(ns) >= 1
              && forall c <- m.value.capabilities ::
                   Spellings(c) != {} && (Valued(c) ==> c.value != "" && Tight(c.value))
  {
    TablesCounted(START, ns);
    var m := Manifested(Walk(START, ns), fileStem);
    if m.Some? {
      var raws, cs := Walk(START, ns).profile.capabilities, m.value.capabilities;
      GrantedInOrder(raws, cs);
      forall i | 0 <= i < |cs|
        ensures Spellings(cs[i]) != {} && (Valued(cs[i]) ==> cs[i].value != "" && Tight(cs[i].value))
      {
        JudgeExact(raws[i], cs[i]);
        if Valued(cs[i]) {
          var _, _ := TrimSplits(Supplied(raws[i], cs[i]).value.value);
        }
      }
    }
  }

  lemma {:induction false} NoMcpTable(p: Progress, ns: seq<Numbered>)
    requires Sound(p) && p.profile.mcp.None? && !p.section.InMcp?
    requires forall n <- ns :: n.statement != Header("[mcp]")
    ensures Walk(p, ns).profile.mcp.None?
    decreases |ns|
  {
    if ns != [] {
      assert ns[0] in ns;
      NoMcpTable(After(p, ns[0]), ns[1..]);
    }
  }

  /** Whether a policy lets a tool be invoked by name: without an allowlist every tool may be. */
  predicate AllowsTool(policy: McpPolicy, tool: string) {
    policy.toolAllowlist.Some? ==> tool in policy.toolAllowlist.value
  }

  /**
   * Unless some line opens the `[mcp]` table all six switches are off. The names are not restricted then:
   * every tool passes the allowlist, and only those behind a switch are closed.
   */
  lemma SwitchesFailClosed(ns: seq<Numbered>, fileStem: string)
    requires forall n <- ns :: n.statement != Header("[mcp]")
    ensures var m := Manifested(Walk(START, ns), fileStem);
            m.Some? ==>
              var mcp := m.value.mcp;
              && !mcp.snapshot && !mcp.fork && !mcp.proof && !mcp.wasi && !mcp.instinct && !mcp.retry
              && forall tool :: AllowsTool(mcp, tool)
  {
    NoMcpTable(START, ns);
  }
}
