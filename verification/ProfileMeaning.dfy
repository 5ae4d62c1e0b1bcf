/** What a profile text means, told from its statements alone: in every table the last assignment to a key
    counts, and what is not assigned is off, empty or absent (src/profile/mod.rs). */
module ProfileMeaning {
  import opened Options
  import opened ProfileText
  import opened ProfileManifest

  const MCP: string := "[mcp]"
  const EXECUTION: string := "[execution]"
  const CAPABILITIES: string := "[[capabilities]]"

  // ---------------------------------------------------------------------------------------------
  // Tables and assignments

  /** The lines that open a table; any other header is an error and leaves the open table open. */
  predicate OpensTable(s: Statement) {
    s == Header(MCP) || s == Header(EXECUTION) || s == Header(CAPABILITIES)
  }

  /** The header of the table that is open after the statements. */
  function OpenTable(ns: seq<Numbered>): Option<string> {
    if ns == [] then None
    else
      var n := |ns| - 1;
      if OpensTable(ns[n].statement) then Some(ns[n].statement.text) else OpenTable(ns[..n])
  }

  /** Statement i assigns the key in a table with that header, or before the first one. */
  predicate AssignsIn(ns: seq<Numbered>, table: Option<string>, key: string, i: nat) {
    && i < |ns| && ns[i].statement.Assign? && ns[i].statement.key == key
    && OpenTable(ns[..i]) == table
  }

  /** What the last assignment to the key in such a table has on its right. */
  function LastValue(ns: seq<Numbered>, table: Option<string>, key: string): Option<string> {
    if ns == [] then None
    else
      var n := |ns| - 1;
      if AssignsIn(ns, table, key, n) then Some(ns[n].statement.rhs) else LastValue(ns[..n], table, key)
  }

  /** What the last assignment to the key in capability table j has on its right. */
  function LastInEntry(ns: seq<Numbered>, j: nat, key: string): Option<string> {
    if ns == [] then None
    else
      var n := |ns| - 1;
      if AssignsIn(ns, Some(CAPABILITIES), key, n) && Tables(ns[..n]) == j + 1 then Some(ns[n].statement.rhs)
      else LastInEntry(ns[..n], j, key)
  }

  ghost predicate LastAt(ns: seq<Numbered>, table: Option<string>, key: string, i: nat) {
    AssignsIn(ns, table, key, i) && forall j: nat | i < j < |ns| :: !AssignsIn(ns, table, key, j)
  }

  /** The last one indeed: there is an assignment, and none after it. */
  lemma {:induction false} LastValueExact(ns: seq<Numbered>, table: Option<string>, key: string, rhs: string)
    ensures LastValue(ns, table, key) == Some(rhs) <==>
            exists i: nat :: LastAt(ns, table, key, i) && ns[i].statement.rhs == rhs
  {
    if ns != [] {
      var n := |ns| - 1;
      var front := ns[..n];
      LastValueExact(front, table, key, rhs);
      forall i: nat | i < n
        ensures AssignsIn(front, table, key, i) <==> AssignsIn(ns, table, key, i)
      {
        assert front[..i] == ns[..i];
      }
      if AssignsIn(ns, table, key, n) {
        assert LastAt(ns, table, key, n);
      } else {
        assert forall i: nat :: LastAt(front, table, key, i) <==> LastAt(ns, table, key, i);
      }
    }
  }

  // ---------------------------------------------------------------------------------------------
  // Which statements are accepted

  predicate IsSwitch(key: string) {
    || key == "snapshot_enabled" || key == "fork_enabled" || key == "proof_enabled" || key == "wasi_enabled"
    || key == "instinct_enabled" || key == "retry_enabled"
  }

  predicate IsBoolean(rhs: string) {
    Trim(rhs) == "true" || Trim(rhs) == "false"
  }

  /** A statement that is no error in the table it stands in. */
  predicate Accepted(table: Option<string>, s: Statement) {
    match s
    case Nothing => true
    case Malformed(_) => false
    case Header(_) => OpensTable(s)
    case Assign(key, rhs) =>
      if table == Some(MCP) then
        (key == "tool_allowlist" && StringArray(rhs).Ok?) || (IsSwitch(key) && IsBoolean(rhs))
      else if table == Some(EXECUTION) then
        (key == "module_dirs" && StringArray(rhs).Ok?) || (key == "daemon_auth_required" && IsBoolean(rhs))
      else StringValue(rhs).Ok?
  }

  predicate AllAccepted(ns: seq<Numbered>) {
    forall i | 0 <= i < |ns| :: Accepted(OpenTable(ns[..i]), ns[i].statement)
  }

  /** What is wrong with a statement that is not accepted in its table. */
  function FaultIn(table: Option<string>, s: Statement): Fault {
    match s
    case Malformed(fault) => fault
    case Assign(key, rhs) =>
      if table == Some(MCP) && key != "tool_allowlist" then
        if IsSwitch(key) then BadValue(ExpectedBoolean) else UnsupportedKey("mcp", key)
      else if table == Some(EXECUTION) && key != "module_dirs" then
        if key == "daemon_auth_required" then BadValue(ExpectedBoolean) else UnsupportedKey("execution", key)
      else
        var error := if table == Some(MCP) || table == Some(EXECUTION)
                     then (match StringArray(rhs) case Err(e) => e case Ok(_) => ExpectedArray)
                     else (match StringValue(rhs) case Err(e) => e case Ok(_) => ExpectedQuoted);
        BadValue(error)
    case _ => UnsupportedTable
  }

  // ---------------------------------------------------------------------------------------------
  // The walk computes this

  predicate InTable(section: Section, table: Option<string>, entries: nat) {
    match section
    case Top => table == None
    case InMcp => table == Some(MCP)
    case InExecution => table == Some(EXECUTION)
    case InCapability(i) => table == Some(CAPABILITIES) && i + 1 == entries
  }

  function Bools(rhs: Option<string>): Option<bool> {
    match rhs
    case None => None
    case Some(text) => Some(Trim(text) == "true")
  }

  function Items(rhs: Option<string>): Option<seq<string>> {
    match rhs
    case None => None
    case Some(text) => match StringArray(text) case Ok(items) => Some(items) case Err(_) => None
  }

  function Texts(rhs: Option<string>): Option<string> {
    match rhs
    case None => None
    case Some(text) => match StringValue(text) case Ok(s) => Some(s) case Err(_) => None
  }

  function ValueOf(parsed: Option<ParsedValue>): Option<string> {
    if parsed.Some? then Some(parsed.value.value) else None
  }

  predicate McpMeans(mcp: Option<RawMcp>, ns: seq<Numbered>) {
    var r := OrElse(mcp, EMPTY_MCP);
    && r.toolAllowlist == Items(LastValue(ns, Some(MCP), "tool_allowlist"))
    && r.snapshot == Bools(LastValue(ns, Some(MCP), "snapshot_enabled"))
    && r.fork == Bools(LastValue(ns, Some(MCP), "fork_enabled"))
    && r.proof == Bools(LastValue(ns, Some(MCP), "proof_enabled"))
    && r.wasi == Bools(LastValue(ns, Some(MCP), "wasi_enabled"))
    && r.instinct == Bools(LastValue(ns, Some(MCP), "instinct_enabled"))
    && r.retry == Bools(LastValue(ns, Some(MCP), "retry_enabled"))
  }

  predicate ExecutionMeans(execution: Option<RawExecution>, ns: seq<Numbered>) {
    var r := OrElse(execution, EMPTY_EXECUTION);
    && r.moduleDirs == Items(LastValue(ns, Some(EXECUTION), "module_dirs"))
    && r.daemonAuthRequired == Bools(LastValue(ns, Some(EXECUTION), "daemon_auth_required"))
  }

  predicate EntryMeans(raw: RawCapability, ns: seq<Numbered>, j: nat) {
    && ValueOf(raw.capabilityType) == Texts(LastInEntry(ns, j, "type"))
    && ValueOf(raw.path) == Texts(LastInEntry(ns, j, "path"))
    && ValueOf(raw.pattern) == Texts(LastInEntry(ns, j, "pattern"))
  }

  ghost predicate Means(p: Progress, ns: seq<Numbered>) {
    && InTable(p.section, OpenTable(ns), |p.profile.capabilities|)
    && |p.profile.capabilities| == Tables(ns)
    && p.profile.name == Texts(LastValue(ns, None, "name"))
    && McpMeans(p.profile.mcp, ns)
    && ExecutionMeans(p.profile.execution, ns)
    && forall j | 0 <= j < |p.profile.capabilities| :: EntryMeans(p.profile.capabilities[j], ns, j)
  }

  lemma WalkOne(p: Progress, n: Numbered)
    requires Sound(p)
    ensures Walk(p, [n]) == After(p, n)
  {
    assert [n][1..] == [];
  }

  lemma WalkOneMore(p: Progress, front: seq<Numbered>, n: Numbered)
    requires Sound(p)
    ensures Walk(p, front + [n]) == After(Walk(p, front), n)
  {
    WalkParts(p, front, [n]);
    WalkOne(Walk(p, front), n);
  }

  lemma BooleansExact(rhs: string)
    ensures BoolValue(rhs).Ok? <==> IsBoolean(rhs)
    ensures BoolValue(rhs).Ok? ==> BoolValue(rhs).value == (Trim(rhs) == "true")
  {
  }

  lemma SwitchesExact(key: string)
    ensures key in MCP_FLAGS <==> IsSwitch(key)
    ensures !IsSwitch("tool_allowlist")
  {
    assert IsSwitch(key) ==> key[|key| - 1] == 'd';
    assert "tool_allowlist"[|"tool_allowlist"| - 1] == 't';
  }

  /** A statement adds an error, with its number and its fault, exactly if it is not accepted in its table. */
  lemma AfterComplains(p: Progress, n: Numbered, table: Option<string>)
    requires Sound(p) && InTable(p.section, table, |p.profile.capabilities|)
    ensures var q := After(p, n);
            && q.errors == p.errors + (if Accepted(table, n.statement) then []
                                       else [Parse(n.number, FaultIn(table, n.statement))])
            && InTable(q.section, if OpensTable(n.statement) then Some(n.statement.text) else table,
                       |q.profile.capabilities|)
  {
    assert p.errors + [] == p.errors;
    if n.statement.Assign? {
      BooleansExact(n.statement.rhs);
      SwitchesExact(n.statement.key);
    }
  }

  lemma {:induction false} TablesSnoc(ns: seq<Numbered>)
    requires ns != []
    ensures var n := |ns| - 1;
            Tables(ns) == Tables(ns[..n]) + if ns[n].statement == Header(CAPABILITIES) then 1 else 0
  {
    if |ns| > 1 {
      TablesSnoc(ns[1..]);
      assert ns[1..][..|ns| - 2] == ns[..|ns| - 1][1..];
    }
  }

  /** Nothing is assigned in a table that has not been opened. */
  lemma {:induction false} NoSuchEntry(ns: seq<Numbered>, j: nat, key: string)
    requires Tables(ns) <= j
    ensures LastInEntry(ns, j, key) == None
  {
    if ns != [] {
      TablesSnoc(ns);
      NoSuchEntry(ns[..|ns| - 1], j, key);
    }
  }

  /** What the last statement does not assign means what it meant before. */
  lemma ValueStays(ns: seq<Numbered>, table: Option<string>, key: string)
    requires ns != [] && !AssignsIn(ns, table, key, |ns| - 1)
    ensures LastValue(ns, table, key) == LastValue(ns[..|ns| - 1], table, key)
  {
  }

  /** The last statement assigns nothing in tables with this header. */
  predicate Spares(ns: seq<Numbered>, table: Option<string>)
    requires ns != []
  {
    ns[|ns| - 1].statement.Assign? ==> OpenTable(ns[..|ns| - 1]) != table
  }

  lemma McpStays(ns: seq<Numbered>, mcp: Option<RawMcp>)
    requires ns != [] && Spares(ns, Some(MCP)) && McpMeans(mcp, ns[..|ns| - 1])
    ensures McpMeans(mcp, ns)
  {
    ValueStays(ns, Some(MCP), "tool_allowlist");
    ValueStays(ns, Some(MCP), "snapshot_enabled");
    ValueStays(ns, Some(MCP), "fork_enabled");
    ValueStays(ns, Some(MCP), "proof_enabled");
    ValueStays(ns, Some(MCP), "wasi_enabled");
    ValueStays(ns, Some(MCP), "instinct_enabled");
    ValueStays(ns, Some(MCP), "retry_enabled");
  }

  lemma ExecutionStays(ns: seq<Numbered>, execution: Option<RawExecution>)
    requires ns != [] && Spares(ns, Some(EXECUTION)) && ExecutionMeans(execution, ns[..|ns| - 1])
    ensures ExecutionMeans(execution, ns)
  {
    ValueStays(ns, Some(EXECUTION), "module_dirs");
    ValueStays(ns, Some(EXECUTION), "daemon_auth_required");
  }

  lemma EntryStays(ns: seq<Numbered>, raw: RawCapability, j: nat)
    requires ns != [] && EntryMeans(raw, ns[..|ns| - 1], j)
    requires Spares(ns, Some(CAPABILITIES)) || Tables(ns[..|ns| - 1]) != j + 1
    ensures EntryMeans(raw, ns, j)
  {
  }

  lemma EntriesStay(ns: seq<Numbered>, raws: seq<RawCapability>)
    requires ns != [] && Spares(ns, Some(CAPABILITIES))
    requires forall j | 0 <= j < |raws| :: EntryMeans(raws[j], ns[..|ns| - 1], j)
    ensures forall j | 0 <= j < |raws| :: EntryMeans(raws[j], ns, j)
  {
    forall j | 0 <= j < |raws|
      ensures EntryMeans(raws[j], ns, j)
    {
      EntryStays(ns, raws[j], j);
    }
  }

  /** The parts of a profile that the last statement has nothing to do with. */
  lemma OthersStay(ns: seq<Numbered>, p: Progress)
    requires ns != [] && Means(p, ns[..|ns| - 1])
    ensures Spares(ns, Some(MCP)) ==> McpMeans(p.profile.mcp, ns)
    ensures Spares(ns, Some(EXECUTION)) ==> ExecutionMeans(p.profile.execution, ns)
    ensures Spares(ns, None) ==> p.profile.name == Texts(LastValue(ns, None, "name"))
    ensures Spares(ns, Some(CAPABILITIES)) ==>
              forall j | 0 <= j < |p.profile.capabilities| :: EntryMeans(p.profile.capabilities[j], ns, j)
  {
    if Spares(ns, Some(MCP)) {
      McpStays(ns, p.profile.mcp);
    }
    if Spares(ns, Some(EXECUTION)) {
      ExecutionStays(ns, p.profile.execution);
    }
    if Spares(ns, None) {
      ValueStays(ns, None, "name");
    }
    if Spares(ns, Some(CAPABILITIES)) {
      EntriesStay(ns, p.profile.capabilities);
    }
  }

  /** A table that has just been opened assigns nothing. */
  lemma FreshEntry(ns: seq<Numbered>, number: nat)
    requires ns != [] && !ns[|ns| - 1].statement.Assign?
    ensures EntryMeans(RawCapability(number, None, None, None), ns, Tables(ns[..|ns| - 1]))
  {
    var front := ns[..|ns| - 1];
    NoSuchEntry(front, Tables(front), "type");
    NoSuchEntry(front, Tables(front), "path");
    NoSuchEntry(front, Tables(front), "pattern");
  }

  lemma EntriesSnoc(ns: seq<Numbered>, raws: seq<RawCapability>, raw: RawCapability)
    requires (forall j | 0 <= j < |raws| :: EntryMeans(raws[j], ns, j)) && EntryMeans(raw, ns, |raws|)
    ensures forall j | 0 <= j < |raws + [raw]| :: EntryMeans((raws + [raw])[j], ns, j)
  {
  }

  /** Opening a table assigns nothing in it. */
  lemma OpenedMeansTheSame(ns: seq<Numbered>, mcp: Option<RawMcp>, execution: Option<RawExecution>)
    ensures McpMeans(Some(OrElse(mcp, EMPTY_MCP)), ns) <==> McpMeans(mcp, ns)
    ensures ExecutionMeans(Some(OrElse(execution, EMPTY_EXECUTION)), ns) <==> ExecutionMeans(execution, ns)
  {
  }

  lemma HeaderMeans(ns: seq<Numbered>, p: Progress)
    requires ns != [] && Sound(p) && Means(p, ns[..|ns| - 1])
    requires ns[|ns| - 1].statement.Header? && After(p, ns[|ns| - 1]).errors == p.errors
    ensures Means(After(p, ns[|ns| - 1]), ns)
  {
    var n := |ns| - 1;
    TablesSnoc(ns);
    OthersStay(ns, p);
    OpenedMeansTheSame(ns, p.profile.mcp, p.profile.execution);
    if ns[n].statement.text == CAPABILITIES {
      FreshEntry(ns, ns[n].number);
      EntriesSnoc(ns, p.profile.capabilities, RawCapability(ns[n].number, None, None, None));
    }
  }

  /** An assignment in the `[mcp]` table. */
  lemma McpMoves(ns: seq<Numbered>, mcp: Option<RawMcp>, key: string, rhs: string)
    requires ns != [] && McpMeans(mcp, ns[..|ns| - 1]) && OpenTable(ns[..|ns| - 1]) == Some(MCP)
    requires ns[|ns| - 1].statement == Assign(key, rhs)
    requires AssignMcp(OrElse(mcp, EMPTY_MCP), key, rhs).Set?
    ensures McpMeans(Some(AssignMcp(OrElse(mcp, EMPTY_MCP), key, rhs).value), ns)
  {
    BooleansExact(rhs);
    SwitchesExact(key);
  }

  lemma ExecutionMoves(ns: seq<Numbered>, execution: Option<RawExecution>, key: string, rhs: string)
    requires ns != [] && ExecutionMeans(execution, ns[..|ns| - 1]) && OpenTable(ns[..|ns| - 1]) == Some(EXECUTION)
    requires ns[|ns| - 1].statement == Assign(key, rhs)
    requires AssignExecution(OrElse(execution, EMPTY_EXECUTION), key, rhs).Set?
    ensures ExecutionMeans(Some(AssignExecution(OrElse(execution, EMPTY_EXECUTION), key, rhs).value), ns)
  {
    BooleansExact(rhs);
    assert "module_dirs"[0] != "daemon_auth_required"[0];
  }

  lemma EntryMoves(ns: seq<Numbered>, raw: RawCapability, j: nat, number: nat, key: string, rhs: string)
    requires ns != [] && EntryMeans(raw, ns[..|ns| - 1], j) && OpenTable(ns[..|ns| - 1]) == Some(CAPABILITIES)
    requires Tables(ns[..|ns| - 1]) == j + 1 && ns[|ns| - 1].statement == Assign(key, rhs) && StringValue(rhs).Ok?
    ensures EntryMeans(AssignCapability(raw, key, ParsedValue(number, StringValue(rhs).value)), ns, j)
  {
  }

  lemma AssignmentMeans(ns: seq<Numbered>, p: Progress)
    requires ns != [] && Sound(p) && Means(p, ns[..|ns| - 1])
    requires ns[|ns| - 1].statement.Assign? && After(p, ns[|ns| - 1]).errors == p.errors
    ensures Means(After(p, ns[|ns| - 1]), ns)
  {
    var n := |ns| - 1;
    var key, rhs := ns[n].statement.key, ns[n].statement.rhs;
    TablesSnoc(ns);
    OthersStay(ns, p);
    match p.section
    case InMcp => McpMoves(ns, p.profile.mcp, key, rhs);
    case InExecution => ExecutionMoves(ns, p.profile.execution, key, rhs);
    case InCapability(open) =>
      EntryMoves(ns, p.profile.capabilities[open], open, ns[n].number, key, rhs);
      var q := After(p, ns[n]);
      forall j | 0 <= j < |q.profile.capabilities| && j != open
        ensures EntryMeans(q.profile.capabilities[j], ns, j)
      {
        EntryStays(ns, p.profile.capabilities[j], j);
      }
    case Top =>
  }

  lemma StatementMeans(ns: seq<Numbered>, p: Progress)
    requires ns != [] && Sound(p) && Means(p, ns[..|ns| - 1])
    requires After(p, ns[|ns| - 1]).errors == p.errors
    ensures Means(After(p, ns[|ns| - 1]), ns)
  {
    match ns[|ns| - 1].statement
    case Header(_) => HeaderMeans(ns, p);
    case Assign(_, _) => AssignmentMeans(ns, p);
    case Nothing =>
      TablesSnoc(ns);
      OthersStay(ns, p);
    case Malformed(_) =>
  }

  lemma AcceptedSnoc(ns: seq<Numbered>)
    requires ns != []
    ensures var n := |ns| - 1;
            AllAccepted(ns) <==> AllAccepted(ns[..n]) && Accepted(OpenTable(ns[..n]), ns[n].statement)
  {
    var front := ns[..|ns| - 1];
    assert forall i | 0 <= i < |front| :: front[..i] == ns[..i] && front[i] == ns[i];
  }

  /** The walk has no errors exactly if every statement is accepted where it stands, and then it has for every
      field what the statements mean. */
  lemma {:induction false} WalkMeans(ns: seq<Numbered>)
    ensures Walk(START, ns).errors == [] <==> AllAccepted(ns)
    ensures AllAccepted(ns) ==> Means(Walk(START, ns), ns)
  {
    if ns != [] {
      var n := |ns| - 1;
      var front := ns[..n];
      var p := Walk(START, front);
      WalkMeans(front);
      assert ns == front + [ns[n]];
      WalkOneMore(START, front, ns[n]);
      AcceptedSnoc(ns);
      if AllAccepted(front) {
        AfterComplains(p, ns[n], OpenTable(front));
        if Accepted(OpenTable(front), ns[n].statement) {
          StatementMeans(ns, p);
        }
      } else {
        ErrorsStay(p, [ns[n]]);
        WalkOne(p, ns[n]);
      }
    }
  }

  // ---------------------------------------------------------------------------------------------
  // What is loaded

  /** A type is written like a spelling, in any case and with dashes for underscores. */
  predicate WrittenAs(text: string, word: string) {
    && |text| == |word|
    && forall i | 0 <= i < |text| ::
         || text[i] == word[i] || (word[i] == '_' && text[i] == '-')
         || ('a' <= word[i] <= 'z' && text[i] as int + 32 == word[i] as int)
  }

  predicate LowerCase(word: string) {
    forall i | 0 <= i < |word| :: 'a' <= word[i] <= 'z' || word[i] == '_' || word[i] == ':'
  }

  lemma NormalizedExact(text: string, word: string)
    requires LowerCase(word)
    ensures Normalized(text) == word <==> WrittenAs(text, word)
  {
    if Normalized(text) == word {
      assert forall i | 0 <= i < |text| :: Normalized(text)[i] == Lower(text[i]);
    }
  }

  lemma LongSpellingsAreLower(c: Capability, word: string)
    requires word in Spellings(c) && |word| > 11
    ensures LowerCase(word)
  {
  }

  lemma SpellingsAreLower(c: Capability, word: string)
    requires word in Spellings(c)
    ensures LowerCase(word)
  {
    if |word| > 11 {
      LongSpellingsAreLower(c, word);
    }
  }

  ghost predicate TypeSays(text: string, c: Capability) {
    exists word :: word in Spellings(c) && WrittenAs(Trim(text), word)
  }

  lemma TypeExact(text: string, c: Capability)
    ensures Normalized(Trim(text)) in Spellings(c) <==> TypeSays(text, c)
  {
    var normal := Normalized(Trim(text));
    if normal in Spellings(c) {
      SpellingsAreLower(c, normal);
      NormalizedExact(Trim(text), normal);
    }
    if TypeSays(text, c) {
      var word :| word in Spellings(c) && WrittenAs(Trim(text), word);
      SpellingsAreLower(c, word);
      NormalizedExact(Trim(text), word);
    }
  }

  /** Capability table j names the capability, and gives its value: a URL by its pattern or else by its path,
      anything else by its path, without white space around it and not empty. */
  ghost predicate EntrySays(ns: seq<Numbered>, j: nat, c: Capability) {
    var kind := Texts(LastInEntry(ns, j, "type"));
    var path := Texts(LastInEntry(ns, j, "path"));
    var pattern := Texts(LastInEntry(ns, j, "pattern"));
    && kind.Some? && TypeSays(kind.value, c)
    && (c.HttpGet? || c.HttpPost? ==>
          var value := if pattern.Some? then pattern else path;
          value.Some? && Trim(value.value) == c.value != "")
    && (Valued(c) && !c.HttpGet? && !c.HttpPost? ==> path.Some? && Trim(path.value) == c.value != "")
  }

  predicate On(ns: seq<Numbered>, table: string, key: string) {
    var said := LastValue(ns, Some(table), key);
    said.Some? && Trim(said.value) == "true"
  }

  predicate McpSays(ns: seq<Numbered>, mcp: McpPolicy) {
    && mcp.toolAllowlist == Items(LastValue(ns, Some(MCP), "tool_allowlist"))
    && (mcp.snapshot <==> On(ns, MCP, "snapshot_enabled"))
    && (mcp.fork <==> On(ns, MCP, "fork_enabled"))
    && (mcp.proof <==> On(ns, MCP, "proof_enabled"))
    && (mcp.wasi <==> On(ns, MCP, "wasi_enabled"))
    && (mcp.instinct <==> On(ns, MCP, "instinct_enabled"))
    && (mcp.retry <==> On(ns, MCP, "retry_enabled"))
  }

  predicate ExecutionSays(ns: seq<Numbered>, execution: ExecutionPolicy) {
    var dirs := Items(LastValue(ns, Some(EXECUTION), "module_dirs"));
    && execution.moduleDirs == (if dirs.Some? then dirs.value else [])
    && (execution.daemonAuthRequired <==> On(ns, EXECUTION, "daemon_auth_required"))
  }

  /** The name is the one assigned before the first table, or the stem of the file if there is none or it is
      blank. */
  predicate NameSays(ns: seq<Numbered>, fileStem: string, name: string) {
    var said := Texts(LastValue(ns, None, "name"));
    name == if said.Some? && Trim(said.value) != "" then said.value else if fileStem != "" then fileStem else "profile"
  }

  lemma EntryGrants(ns: seq<Numbered>, raw: RawCapability, j: nat, c: Capability)
    requires EntryMeans(raw, ns, j)
    ensures Judge(raw) == Granted(c) <==> EntrySays(ns, j, c)
  {
    JudgeExact(raw, c);
    if raw.capabilityType.Some? {
      TypeExact(raw.capabilityType.value.value, c);
    }
  }

  lemma EntriesGrant(ns: seq<Numbered>, raws: seq<RawCapability>, cs: seq<Capability>)
    requires forall j | 0 <= j < |raws| :: EntryMeans(raws[j], ns, j)
    ensures ComplaintsOf(raws) == [] && GrantedBy(raws) == cs <==>
            |cs| == |raws| && forall j | 0 <= j < |cs| :: EntrySays(ns, j, cs[j])
  {
    GrantedInOrder(raws, cs);
    if |cs| == |raws| {
      forall j | 0 <= j < |raws|
        ensures Judge(raws[j]) == Granted(cs[j]) <==> EntrySays(ns, j, cs[j])
      {
        EntryGrants(ns, raws[j], j, cs[j]);
      }
    }
  }

  lemma McpExact(ns: seq<Numbered>, raw: Option<RawMcp>, mcp: McpPolicy)
    requires McpMeans(raw, ns)
    ensures mcp == McpFromRaw(raw) <==> McpSays(ns, mcp)
  {
  }

  lemma ExecutionExact(ns: seq<Numbered>, raw: Option<RawExecution>, execution: ExecutionPolicy)
    requires ExecutionMeans(raw, ns)
    ensures execution == ExecutionFromRaw(raw) <==> ExecutionSays(ns, execution)
  {
  }

  lemma PoliciesExact(ns: seq<Numbered>, p: Progress, m: Manifest, fileStem: string)
    requires Means(p, ns)
    ensures m.mcp == McpFromRaw(p.profile.mcp) <==> McpSays(ns, m.mcp)
    ensures m.execution == ExecutionFromRaw(p.profile.execution) <==> ExecutionSays(ns, m.execution)
    ensures m.name == NameFrom(p.profile.name, fileStem) <==> NameSays(ns, fileStem, m.name)
  {
    McpExact(ns, p.profile.mcp, m.mcp);
    ExecutionExact(ns, p.profile.execution, m.execution);
  }

  /** A manifest is what a text is loaded as exactly if every statement is accepted where it stands, there is a
      capability table, and name, capabilities and policies are what the statements say: a switch is on exactly
      if the last assignment to it in an `[mcp]` table is `true`, and off if there is none. */
  lemma LoadedExactly(ns: seq<Numbered>, m: Manifest, fileStem: string)
    ensures Manifested(Walk(START, ns), fileStem) == Some(m) <==>
            && AllAccepted(ns)
            && |m.capabilities| == Tables(ns) >= 1
            && (forall j | 0 <= j < |m.capabilities| :: EntrySays(ns, j, m.capabilities[j]))
            && McpSays(ns, m.mcp) && ExecutionSays(ns, m.execution) && NameSays(ns, fileStem, m.name)
  {
    WalkMeans(ns);
    var p := Walk(START, ns);
    if AllAccepted(ns) {
      EntriesGrant(ns, p.profile.capabilities, m.capabilities);
      PoliciesExact(ns, p, m, fileStem);
    }
  }

  // ---------------------------------------------------------------------------------------------
  // What is complained about

  /** The lines that are not accepted where they stand, with what is wrong with them. */
  function Complaints(ns: seq<Numbered>): seq<ValidationError> {
    if ns == [] then []
    else
      var n := |ns| - 1;
      var table, s := OpenTable(ns[..n]), ns[n].statement;
      Complaints(ns[..n]) + if Accepted(table, s) then [] else [Parse(ns[n].number, FaultIn(table, s))]
  }

  /** Every line that is not accepted where it stands is reported once, with its number and its fault and in
      order, and no other line is; what stands in a table is judged by the last good header before it. */
  lemma {:induction false} FaultsReported(ns: seq<Numbered>)
    ensures Walk(START, ns).errors == Complaints(ns)
    ensures InTable(Walk(START, ns).section, OpenTable(ns), |Walk(START, ns).profile.capabilities|)
  {
    if ns != [] {
      var n := |ns| - 1;
      FaultsReported(ns[..n]);
      assert ns == ns[..n] + [ns[n]];
      WalkOneMore(START, ns[..n], ns[n]);
      AfterComplains(Walk(START, ns[..n]), ns[n], OpenTable(ns[..n]));
    }
  }

  lemma {:induction false} ComplaintHasLine(ns: seq<Numbered>, i: nat) returns (k: nat)
    requires i < |Complaints(ns)|
    ensures k < |ns| && !Accepted(OpenTable(ns[..k]), ns[k].statement)
    ensures Complaints(ns)[i] == Parse(ns[k].number, FaultIn(OpenTable(ns[..k]), ns[k].statement))
    decreases |ns|
  {
    var n := |ns| - 1;
    if i < |Complaints(ns[..n])| {
      k := ComplaintHasLine(ns[..n], i);
      assert ns[..n][..k] == ns[..k];
    } else {
      k := n;
    }
  }

  /** In a text, every error of the parser names a line by its number, counted from one, and what is wrong there. */
  lemma ErrorNamesLine(text: string, i: nat) returns (k: nat)
    requires i < |Walk(START, Statements(Lines(text))).errors|
    ensures 1 <= k <= |Lines(text)|
    ensures var said, table := Read(Core(Lines(text)[k - 1])), OpenTable(Statements(Lines(text))[..k - 1]);
            && !Accepted(table, said)
            && Walk(START, Statements(Lines(text))).errors[i] == Parse(k, FaultIn(table, said))
  {
    var ns := Statements(Lines(text));
    FaultsReported(ns);
    var at := ComplaintHasLine(ns, i);
    k := at + 1;
  }
}
