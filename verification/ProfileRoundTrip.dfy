/** Profile manifests: what a profile can say is read back from its text (src/profile/mod.rs). */
module ProfileRoundTrip {
  import opened Options
  import opened ProfileText
  import opened ProfileManifest
  import opened ProfileRendering

  /** `name` is a spelling of the type of `c`; for a capability that no profile can name, any unknown type is. */
  predicate Spells(name: string, c: Capability) {
    KindOf(Normalized(Trim(name))) == KindFor(c)
  }

  function FieldName(c: Capability): string {
    if c.HttpGet? || c.HttpPost? then "pattern" else "path"
  }

  function EntryStatements(name: string, c: Capability): seq<Statement> {
    [Header("[[capabilities]]"), Assign("type", Quoted(name))]
    + if Valued(c) then [Assign(FieldName(c), Quoted(c.value))] else []
  }

  function CapabilityStatements(names: seq<string>, cs: seq<Capability>): seq<Statement>
    requires |names| == |cs|
  {
    if cs == [] then []
    else
      var n := |cs| - 1;
      CapabilityStatements(names[..n], cs[..n]) + EntryStatements(names[n], cs[n])
  }

  function ListStatements(list: Option<seq<string>>): seq<Statement> {
    if list.Some? then [Assign("tool_allowlist", ArrayText(list.value))] else []
  }

  function FlagStatements(policy: McpPolicy): seq<Statement> {
    [Assign("snapshot_enabled", BoolText(policy.snapshot)),
     Assign("fork_enabled", BoolText(policy.fork)),
     Assign("proof_enabled", BoolText(policy.proof)),
     Assign("wasi_enabled", BoolText(policy.wasi)),
     Assign("instinct_enabled", BoolText(policy.instinct)),
     Assign("retry_enabled", BoolText(policy.retry))]
  }

  function McpStatements(p: McpPolicy): seq<Statement> {
    [Header("[mcp]")] + ListStatements(p.toolAllowlist) + FlagStatements(p)
  }

  function ExecutionStatements(e: ExecutionPolicy): seq<Statement> {
    [Header("[execution]"),
     Assign("module_dirs", ArrayText(e.moduleDirs)),
     Assign("daemon_auth_required", BoolText(e.daemonAuthRequired))]
  }

  /** The statements that say a manifest, with the given spellings of the types of its capabilities. */
  function ManifestStatements(m: Manifest, names: seq<string>): seq<Statement>
    requires |names| == |m.capabilities|
  {
    [Assign("name", Quoted(m.name))] + McpStatements(m.mcp) + ExecutionStatements(m.execution)
    + CapabilityStatements(names, m.capabilities)
  }

  predicate CleanKey(key: string) {
    key != "" && key[0] != '[' && Tight(key) && Plain(key) && OneLine(key)
  }

  predicate Word(s: string) {
    s != "" && forall i | 0 <= i < |s| :: 'a' <= s[i] <= 'z' || s[i] == '_'
  }

  lemma WordIsClean(key: string)
    requires Word(key)
    ensures CleanKey(key)
  {
    assert !IsSpace(key[0]) && !IsSpace(key[|key| - 1]);
  }

  lemma BracketedIsClean(text: string, left: string, word: string, right: string)
    requires text == left + word + right && Word(word)
    requires (left == "[" && right == "]") || (left == "[[" && right == "]]")
    ensures Clean(Header(text))
  {
    WordIsClean(word);
    PlainPasses(text, '#');
  }

  lemma CapabilitiesHeaderIsClean()
    ensures Clean(Header("[[capabilities]]"))
  {
    BracketedIsClean("[[capabilities]]", "[[", "capabilities", "]]");
  }

  lemma McpHeaderIsClean()
    ensures Clean(Header("[mcp]"))
  {
    BracketedIsClean("[mcp]", "[", "mcp", "]");
  }

  lemma ExecutionHeaderIsClean()
    ensures Clean(Header("[execution]"))
  {
    BracketedIsClean("[execution]", "[", "execution", "]");
  }

  lemma EntryKeysAreClean()
    ensures CleanKey("name") && CleanKey("type") && CleanKey("path") && CleanKey("pattern")
  {
    WordIsClean("name");
    WordIsClean("type");
    WordIsClean("path");
    WordIsClean("pattern");
  }

  lemma McpKeysAreClean()
    ensures CleanKey("tool_allowlist") && CleanKey("snapshot_enabled") && CleanKey("fork_enabled")
    ensures CleanKey("proof_enabled") && CleanKey("wasi_enabled") && CleanKey("instinct_enabled")
    ensures CleanKey("retry_enabled")
  {
    WordIsClean("tool_allowlist");
    WordIsClean("snapshot_enabled");
    WordIsClean("fork_enabled");
    WordIsClean("proof_enabled");
    WordIsClean("wasi_enabled");
    WordIsClean("instinct_enabled");
    WordIsClean("retry_enabled");
  }

  lemma ExecutionKeysAreClean()
    ensures CleanKey("module_dirs") && CleanKey("daemon_auth_required")
  {
    WordIsClean("module_dirs");
    WordIsClean("daemon_auth_required");
  }

  lemma StringIsClean(key: string, value: string)
    requires CleanKey(key)
    ensures Clean(Assign(key, Quoted(value)))
  {
    QuotedPasses(value, '#');
  }

  lemma ArrayIsClean(key: string, items: seq<string>)
    requires CleanKey(key)
    ensures Clean(Assign(key, ArrayText(items)))
  {
    ArrayShape(items);
  }

  lemma BoolIsClean(key: string, b: bool)
    requires CleanKey(key)
    ensures Clean(Assign(key, BoolText(b)))
  {
    BoolReads(b);
  }

  ghost predicate AllClean(ss: seq<Statement>) {
    forall s <- ss :: Clean(s)
  }

  lemma SmallAllClean(a: Statement, b: Statement, c: Statement)
    requires Clean(a) && Clean(b) && Clean(c)
    ensures AllClean([a]) && AllClean([a, b]) && AllClean([a, b, c])
  {
  }

  lemma PartsAllClean(a: seq<Statement>, b: seq<Statement>)
    requires AllClean(a) && AllClean(b)
    ensures AllClean(a + b)
  {
  }

  lemma EntryIsClean(name: string, c: Capability)
    ensures AllClean(EntryStatements(name, c))
  {
    var header, kind := Header("[[capabilities]]"), Assign("type", Quoted(name));
    var value := if Valued(c) then Assign(FieldName(c), Quoted(c.value)) else kind;
    assert Clean(header) by { CapabilitiesHeaderIsClean(); }
    assert Clean(kind) by { EntryKeysAreClean(); StringIsClean("type", name); }
    assert Clean(value) by { EntryKeysAreClean(); if Valued(c) { StringIsClean(FieldName(c), c.value); } }
    SmallAllClean(header, kind, kind);
    SmallAllClean(value, value, value);
    PartsAllClean([header, kind], [value]);
    PartsAllClean([header, kind], []);
  }

  lemma {:induction false} CapabilitiesAreClean(names: seq<string>, cs: seq<Capability>)
    requires |names| == |cs|
    ensures AllClean(CapabilityStatements(names, cs))
    decreases |cs|
  {
    if cs != [] {
      var n := |cs| - 1;
      CapabilitiesAreClean(names[..n], cs[..n]);
      EntryIsClean(names[n], cs[n]);
    }
  }

  lemma FlagsAreClean(p: McpPolicy)
    ensures AllClean(FlagStatements(p))
  {
    McpKeysAreClean();
    BoolIsClean("snapshot_enabled", p.snapshot);
    BoolIsClean("fork_enabled", p.fork);
    BoolIsClean("proof_enabled", p.proof);
    BoolIsClean("wasi_enabled", p.wasi);
    BoolIsClean("instinct_enabled", p.instinct);
    BoolIsClean("retry_enabled", p.retry);
  }

  lemma ListIsClean(list: Option<seq<string>>)
    ensures AllClean(ListStatements(list))
  {
    McpKeysAreClean();
    if list.Some? {
      ArrayIsClean("tool_allowlist", list.value);
    }
  }

  lemma ExecutionIsClean(e: ExecutionPolicy)
    ensures AllClean(ExecutionStatements(e))
  {
    var header := Header("[execution]");
    var dirs := Assign("module_dirs", ArrayText(e.moduleDirs));
    var auth := Assign("daemon_auth_required", BoolText(e.daemonAuthRequired));
    assert Clean(header) by { ExecutionHeaderIsClean(); }
    assert Clean(dirs) by { ExecutionKeysAreClean(); ArrayIsClean("module_dirs", e.moduleDirs); }
    assert Clean(auth) by { ExecutionKeysAreClean(); BoolIsClean("daemon_auth_required", e.daemonAuthRequired); }
    SmallAllClean(header, dirs, auth);
  }

  lemma McpIsClean(p: McpPolicy)
    ensures AllClean(McpStatements(p))
  {
    assert Clean(Header("[mcp]")) by { McpHeaderIsClean(); }
    ListIsClean(p.toolAllowlist);
    FlagsAreClean(p);
    var header := Header("[mcp]");
    SmallAllClean(header, header, header);
    PartsAllClean([header], ListStatements(p.toolAllowlist));
    PartsAllClean([header] + ListStatements(p.toolAllowlist), FlagStatements(p));
  }

  lemma ManifestIsClean(m: Manifest, names: seq<string>)
    requires |names| == |m.capabilities|
    ensures AllClean(ManifestStatements(m, names))
  {
    var name := Assign("name", Quoted(m.name));
    assert Clean(name) by { EntryKeysAreClean(); StringIsClean("name", m.name); }
    SmallAllClean(name, name, name);
    McpIsClean(m.mcp);
    ExecutionIsClean(m.execution);
    CapabilitiesAreClean(names, m.capabilities);
    PartsAllClean([name], McpStatements(m.mcp));
    PartsAllClean([name] + McpStatements(m.mcp), ExecutionStatements(m.execution));
    PartsAllClean([name] + McpStatements(m.mcp) + ExecutionStatements(m.execution),
                  CapabilityStatements(names, m.capabilities));
  }

  // Reading the statements, whatever the numbers of their lines.

  function Of(ns: seq<Numbered>): (ss: seq<Statement>)
    ensures |ss| == |ns|
  {
    seq(|ns|, i requires 0 <= i < |ns| => ns[i].statement)
  }

  function Spoken(ns: seq<Numbered>): seq<Numbered> {
    if ns == [] then []
    else if ns[0].statement == Nothing then Spoken(ns[1..])
    else [ns[0]] + Spoken(ns[1..])
  }

  lemma {:induction false} BlanksSayNothing(p: Progress, ns: seq<Numbered>)
    requires Sound(p)
    ensures Walk(p, ns) == Walk(p, Spoken(ns))
    decreases |ns|
  {
    if ns != [] {
      BlanksSayNothing(After(p, ns[0]), ns[1..]);
      if ns[0].statement != Nothing {
        assert Spoken(ns)[1..] == Spoken(ns[1..]);
      }
    }
  }

  /** The entry that an `EntryStatements` group leaves behind. */
  predicate Renders(raw: RawCapability, name: string, c: Capability) {
    && raw.capabilityType.Some? && raw.capabilityType.value.value == name
    && (Valued(c) ==> Supplied(raw, c).Some? && Supplied(raw, c).value.value == c.value)
  }

  function Opened(ns: seq<Numbered>, name: string): RawCapability
    requires |ns| >= 2
  {
    RawCapability(ns[0].number, Some(ParsedValue(ns[1].number, name)), None, None)
  }

  /** The two statements that every entry begins with. */
  lemma EntryOpens(p: Progress, ns: seq<Numbered>, name: string)
    requires Sound(p) && |ns| >= 2
    requires ns[0].statement == Header("[[capabilities]]") && ns[1].statement == Assign("type", Quoted(name))
    ensures Walk(p, ns)
         == Walk(p.(profile := p.profile.(capabilities := p.profile.capabilities + [Opened(ns, name)]),
                    section := InCapability(|p.profile.capabilities|)), ns[2..])
  {
    QuotedReads(name);
    var p1 := After(p, ns[0]);
    var p2 := After(p1, ns[1]);
    assert ns[1..][1..] == ns[2..];
    var raws := p.profile.capabilities;
    assert p2.profile.capabilities == raws + [Opened(ns, name)];
  }

  /** The statement that gives the value of an entry. */
  lemma EntryValue(p: Progress, n: Numbered, c: Capability, raws: seq<RawCapability>, raw: RawCapability)
    requires p.profile.capabilities == raws + [raw] && p.section == InCapability(|raws|) && Valued(c)
    requires n.statement == Assign(FieldName(c), Quoted(c.value))
    ensures var v := Some(ParsedValue(n.number, c.value));
            var filled := if c.HttpGet? || c.HttpPost? then raw.(pattern := v) else raw.(path := v);
            After(p, n) == p.(profile := p.profile.(capabilities := raws + [filled]))
  {
    QuotedReads(c.value);
    var filled := AssignCapability(raw, FieldName(c), ParsedValue(n.number, c.value));
    assert (raws + [raw])[|raws| := filled] == raws + [filled];
  }

  lemma EntryReads(p: Progress, ns: seq<Numbered>, name: string, c: Capability)
    requires Sound(p) && Of(ns) == EntryStatements(name, c)
    ensures var q := Walk(p, ns);
            var n := |p.profile.capabilities|;
            && |q.profile.capabilities| == n + 1 && Renders(q.profile.capabilities[n], name, c)
            && q.profile == p.profile.(capabilities := p.profile.capabilities + [q.profile.capabilities[n]])
            && q.errors == p.errors
  {
    assert ns[0].statement == Of(ns)[0] && ns[1].statement == Of(ns)[1];
    EntryOpens(p, ns, name);
    if Valued(c) {
      assert ns[2].statement == Of(ns)[2];
      var raws := p.profile.capabilities;
      var raw := Opened(ns, name);
      var p2 := p.(profile := p.profile.(capabilities := raws + [raw]), section := InCapability(|raws|));
      EntryValue(p2, ns[2], c, raws, raw);
      assert ns[2..][0] == ns[2] && ns[2..][1..] == [];
    }
  }

  lemma OfParts(ns: seq<Numbered>, a: seq<Statement>, b: seq<Statement>)
    requires Of(ns) == a + b
    ensures Of(ns[..|a|]) == a && Of(ns[|a|..]) == b && ns == ns[..|a|] + ns[|a|..]
  {
    forall i | 0 <= i < |ns|
      ensures ns[i].statement == (a + b)[i]
    {
      assert Of(ns)[i] == ns[i].statement;
    }
  }

  lemma {:induction false} EntriesRead(p: Progress, ns: seq<Numbered>, names: seq<string>, cs: seq<Capability>)
    requires Sound(p) && p.profile.capabilities == [] && |names| == |cs|
    requires Of(ns) == CapabilityStatements(names, cs)
    ensures var q := Walk(p, ns);
            && |q.profile.capabilities| == |cs|
            && (forall i | 0 <= i < |cs| :: Renders(q.profile.capabilities[i], names[i], cs[i]))
            && q.profile == p.profile.(capabilities := q.profile.capabilities)
            && q.errors == p.errors
    decreases |cs|
  {
    if cs != [] {
      var n := |cs| - 1;
      var front := CapabilityStatements(names[..n], cs[..n]);
      OfParts(ns, front, EntryStatements(names[n], cs[n]));
      EntriesRead(p, ns[..|front|], names[..n], cs[..n]);
      var middle := Walk(p, ns[..|front|]);
      WalkParts(p, ns[..|front|], ns[|front|..]);
      EntryReads(middle, ns[|front|..], names[n], cs[n]);
    }
  }

  lemma FlagAssign(mcp: RawMcp, key: string, b: bool)
    requires key in MCP_FLAGS
    ensures AssignMcp(mcp, key, BoolText(b)) == Set(WithFlag(mcp, key, b))
  {
    BoolReads(b);
  }

  /** The assignments of the open `[mcp]` table, each leading from one state of the table to the next. */
  lemma {:induction false} AssignmentsRead(p: Progress, ns: seq<Numbered>, tables: seq<RawMcp>)
    requires Sound(p) && p.section == InMcp && |tables| == |ns| + 1
    requires forall k | 0 <= k < |ns| ::
               && ns[k].statement.Assign?
               && AssignMcp(tables[k], ns[k].statement.key, ns[k].statement.rhs) == Set(tables[k + 1])
    ensures Walk(p.(profile := p.profile.(mcp := Some(tables[0]))), ns)
         == p.(profile := p.profile.(mcp := Some(tables[|ns|])))
    decreases |ns|
  {
    if ns != [] {
      assert AssignMcp(tables[0], ns[0].statement.key, ns[0].statement.rhs) == Set(tables[1]);
      AssignmentsRead(p, ns[1..], tables[1..]);
    }
  }

  function Flagged(policy: McpPolicy): RawMcp {
    RawMcp(policy.toolAllowlist, Some(policy.snapshot), Some(policy.fork), Some(policy.proof),
           Some(policy.wasi), Some(policy.instinct), Some(policy.retry))
  }

  /** The table after each of the flag statements. */
  function FlagTables(policy: McpPolicy): seq<RawMcp> {
    var m := Flagged(policy);
    [m.(snapshot := None, fork := None, proof := None, wasi := None, instinct := None, retry := None),
     m.(fork := None, proof := None, wasi := None, instinct := None, retry := None),
     m.(proof := None, wasi := None, instinct := None, retry := None),
     m.(wasi := None, instinct := None, retry := None),
     m.(instinct := None, retry := None),
     m.(retry := None),
     m]
  }

  lemma FlagStep(policy: McpPolicy, k: nat)
    requires k < 6
    ensures var s := FlagStatements(policy)[k];
            AssignMcp(FlagTables(policy)[k], s.key, s.rhs) == Set(FlagTables(policy)[k + 1])
  {
    var m := FlagTables(policy)[k];
    match k
    case 0 => FlagAssign(m, "snapshot_enabled", policy.snapshot);
    case 1 => FlagAssign(m, "fork_enabled", policy.fork);
    case 2 => FlagAssign(m, "proof_enabled", policy.proof);
    case 3 => FlagAssign(m, "wasi_enabled", policy.wasi);
    case 4 => FlagAssign(m, "instinct_enabled", policy.instinct);
    case _ => FlagAssign(m, "retry_enabled", policy.retry);
  }

  lemma FlagsRead(p: Progress, ns: seq<Numbered>, policy: McpPolicy)
    requires Sound(p) && p.section == InMcp && Of(ns) == FlagStatements(policy)
    ensures Walk(p.(profile := p.profile.(mcp := Some(EMPTY_MCP.(toolAllowlist := policy.toolAllowlist)))), ns)
         == p.(profile := p.profile.(mcp := Some(Flagged(policy))))
  {
    forall k | 0 <= k < 6
      ensures && ns[k].statement.Assign?
              && AssignMcp(FlagTables(policy)[k], ns[k].statement.key, ns[k].statement.rhs)
              == Set(FlagTables(policy)[k + 1])
    {
      assert ns[k].statement == Of(ns)[k];
      FlagStep(policy, k);
    }
    AssignmentsRead(p, ns, FlagTables(policy));
  }

  predicate Listable(policy: McpPolicy) {
    policy.toolAllowlist.Some? ==> NoCommas(policy.toolAllowlist.value)
  }

  /** The optional assignment of the allowlist. */
  lemma ListReads(p: Progress, ns: seq<Numbered>, list: Option<seq<string>>)
    requires Sound(p) && p.section == InMcp && p.profile.mcp == Some(EMPTY_MCP) && Of(ns) == ListStatements(list)
    ensures var q := Walk(p, ns);
            && (list.Some? && !NoCommas(list.value) ==> q.errors != [])
            && ((list.Some? ==> NoCommas(list.value)) ==>
                  q == p.(profile := p.profile.(mcp := Some(EMPTY_MCP.(toolAllowlist := list)))))
  {
    if list.Some? {
      assert ns[0].statement == Of(ns)[0];
      assert ns[1..] == [];
      ArrayReadsExactly(list.value);
    }
  }

  lemma McpReads(p: Progress, ns: seq<Numbered>, policy: McpPolicy)
    requires Sound(p) && p.profile.mcp.None? && Of(ns) == McpStatements(policy)
    ensures var q := Walk(p, ns);
            && (!Listable(policy) ==> q.errors != [])
            && (Listable(policy) ==>
                  && q.profile == p.profile.(mcp := Some(Flagged(policy)))
                  && q.errors == p.errors)
  {
    var head, list, flags := [Header("[mcp]")], ListStatements(policy.toolAllowlist), FlagStatements(policy);
    OfParts(ns, head + list, flags);
    var front := ns[..|head + list|];
    OfParts(front, head, list);
    WalkParts(p, front, ns[|head + list|..]);
    WalkParts(p, front[..1], front[1..]);
    assert front[0].statement == Of(front[..1])[0];
    var within := p.(profile := p.profile.(mcp := Some(EMPTY_MCP)), section := InMcp);
    assert Walk(p, front[..1]) == within;
    ListReads(within, front[1..], policy.toolAllowlist);
    if Listable(policy) {
      FlagsRead(within, ns[|head + list|..], policy);
    } else {
      ErrorsStay(Walk(p, front), ns[|head + list|..]);
    }
  }

  lemma ThreeSteps(p: Progress, ns: seq<Numbered>)
    requires Sound(p) && |ns| == 3
    ensures Walk(p, ns) == After(After(After(p, ns[0]), ns[1]), ns[2])
  {
    var p1 := After(p, ns[0]);
    var p2 := After(p1, ns[1]);
    assert ns[1..][1..] == ns[2..] && ns[2..][1..] == [];
    assert Walk(p, ns) == Walk(p1, ns[1..]) == Walk(p2, ns[2..]) == After(p2, ns[2]);
  }

  /** The assignments of the open `[execution]` table. */
  lemma DirsRead(p: Progress, number: nat, dirs: seq<string>)
    requires p.section == InExecution && p.profile.execution == Some(EMPTY_EXECUTION)
    ensures var q := AfterAssign(p, number, "module_dirs", ArrayText(dirs));
            && (NoCommas(dirs) ==>
                  q == p.(profile := p.profile.(execution := Some(EMPTY_EXECUTION.(moduleDirs := Some(dirs))))))
            && (!NoCommas(dirs) ==> q.errors != [])
  {
    ArrayReadsExactly(dirs);
  }

  lemma AuthRead(p: Progress, number: nat, execution: RawExecution, b: bool)
    requires p.section == InExecution && p.profile.execution == Some(execution)
    ensures AfterAssign(p, number, "daemon_auth_required", BoolText(b))
         == p.(profile := p.profile.(execution := Some(execution.(daemonAuthRequired := Some(b)))))
  {
    BoolReads(b);
  }

  lemma ExecutionReads(p: Progress, ns: seq<Numbered>, policy: ExecutionPolicy)
    requires Sound(p) && p.profile.execution.None? && Of(ns) == ExecutionStatements(policy)
    ensures var q := Walk(p, ns);
            && (!NoCommas(policy.moduleDirs) ==> q.errors != [])
            && (NoCommas(policy.moduleDirs) ==>
                  && q.profile == p.profile.(execution := q.profile.execution)
                  && ExecutionFromRaw(q.profile.execution) == policy
                  && q.errors == p.errors)
  {
    assert forall i | 0 <= i < 3 :: Of(ns)[i] == ns[i].statement;
    var p1 := AfterHeader(p, ns[0].number, "[execution]");
    var p2 := AfterAssign(p1, ns[1].number, "module_dirs", ArrayText(policy.moduleDirs));
    ThreeSteps(p, ns);
    DirsRead(p1, ns[1].number, policy.moduleDirs);
    if NoCommas(policy.moduleDirs) {
      AuthRead(p2, ns[2].number, p2.profile.execution.value, policy.daemonAuthRequired);
    } else {
      ErrorsStay(p2, ns[2..]);
      assert ns[2..] == [ns[2]];
    }
  }

  /** A capability that a profile can name and whose value survives trimming. */
  predicate Writable(c: Capability) {
    Nameable(c) && (Valued(c) ==> c.value != "" && Tight(c.value))
  }

  lemma RenderedIsGranted(raw: RawCapability, name: string, c: Capability)
    requires Renders(raw, name, c) && Spells(name, c)
    ensures Judge(raw) == Granted(c) <==> Writable(c)
  {
    JudgeByKind(raw, c);
    if Valued(c) {
      var left, right := TrimSplits(c.value);
      if Tight(c.value) {
        TrimPadded("", c.value, "");
        assert "" + c.value + "" == c.value;
      }
    }
  }

  /** What a profile can say without loss. */
  predicate Expressible(m: Manifest, fileStem: string) {
    && (Trim(m.name) != "" || m.name == NameFrom(None, fileStem))
    && m.capabilities != []
    && (forall c <- m.capabilities :: Writable(c))
    && Listable(m.mcp)
    && NoCommas(m.execution.moduleDirs)
  }

  lemma GrantedAreWritable(raws: seq<RawCapability>, names: seq<string>, cs: seq<Capability>)
    requires |raws| == |names| == |cs|
    requires forall i | 0 <= i < |cs| :: Renders(raws[i], names[i], cs[i]) && Spells(names[i], cs[i])
    ensures Grants(raws, cs) <==> forall c <- cs :: Writable(c)
  {
    forall i | 0 <= i < |cs|
      ensures Judge(raws[i]) == Granted(cs[i]) <==> Writable(cs[i])
    {
      RenderedIsGranted(raws[i], names[i], cs[i]);
    }
    if forall c <- cs :: Writable(c) {
      assert forall i | 0 <= i < |cs| :: Writable(cs[i]);
    }
  }

  predicate AllSpelled(names: seq<string>, cs: seq<Capability>) {
    |names| == |cs| && forall i | 0 <= i < |cs| :: Spells(names[i], cs[i])
  }

  lemma NameReads(ns: seq<Numbered>, name: string)
    requires Of(ns) == [Assign("name", Quoted(name))]
    ensures Walk(START, ns) == START.(profile := START.profile.(name := Some(name)))
  {
    assert ns[0].statement == Of(ns)[0];
    assert ns[1..] == [];
    QuotedReads(name);
  }

  /** Walking through the four parts of a manifest. */
  lemma PartsRead(m: Manifest, names: seq<string>, ns: seq<Numbered>) returns (raws: seq<RawCapability>)
    requires |names| == |m.capabilities| && Of(ns) == ManifestStatements(m, names)
    ensures var q := Walk(START, ns);
            if Listable(m.mcp) && NoCommas(m.execution.moduleDirs) then
              && q.errors == [] && q.profile.capabilities == raws
              && q.profile.name == Some(m.name)
              && McpFromRaw(q.profile.mcp) == m.mcp && ExecutionFromRaw(q.profile.execution) == m.execution
              && |raws| == |names| && forall i | 0 <= i < |raws| :: Renders(raws[i], names[i], m.capabilities[i])
            else q.errors != []
  {
    var a, b, c, d := [Assign("name", Quoted(m.name))], McpStatements(m.mcp), ExecutionStatements(m.execution),
                      CapabilityStatements(names, m.capabilities);
    OfParts(ns, a + b + c, d);
    var abc := ns[..|a + b + c|];
    OfParts(abc, a + b, c);
    var ab := abc[..|a + b|];
    OfParts(ab, a, b);
    var n1, n2, n3, n4 := ab[..|a|], ab[|a|..], abc[|a + b|..], ns[|a + b + c|..];
    NameReads(n1, m.name);
    var p1 := Walk(START, n1);
    WalkParts(START, n1, n2);
    WalkParts(START, ab, n3);
    WalkParts(START, abc, n4);
    var p2 := Walk(p1, n2);
    var p3 := Walk(p2, n3);
    raws := Walk(p3, n4).profile.capabilities;
    McpReads(p1, n2, m.mcp);
    ErrorsStay(p2, n3);
    ErrorsStay(p3, n4);
    if Listable(m.mcp) {
      ExecutionReads(p2, n3, m.execution);
      if NoCommas(m.execution.moduleDirs) {
        EntriesRead(p3, n4, names, m.capabilities);
      }
    }
  }

  /** The statements of a manifest, on lines with any numbers, are read back exactly when it is expressible. */
  lemma StatementsRoundTrip(m: Manifest, names: seq<string>, ns: seq<Numbered>, fileStem: string)
    requires AllSpelled(names, m.capabilities) && Of(ns) == ManifestStatements(m, names)
    ensures Manifested(Walk(START, ns), fileStem) == Some(m) <==> Expressible(m, fileStem)
  {
    var raws := PartsRead(m, names, ns);
    if Listable(m.mcp) && NoCommas(m.execution.moduleDirs) {
      GrantedInOrder(raws, m.capabilities);
      GrantedAreWritable(raws, names, m.capabilities);
    }
  }

  /**
   * A manifest written out line by line - with any accepted spelling of its types, any indentation, white
   * space, comments and line endings, and blank or comment lines between - loads as the same manifest exactly
   * when it is expressible.
   */
  lemma ManifestRoundTrip(m: Manifest, names: seq<string>, lines: seq<Line>, fileStem: string)
    requires AllSpelled(names, m.capabilities)
    requires forall line <- lines :: line.layout.Valid()
    requires Of(Spoken(Said(lines))) == ManifestStatements(m, names)
    ensures Manifested(Walk(START, Statements(Lines(Text(lines)))), fileStem) == Some(m)
       <==> Expressible(m, fileStem)
  {
    ManifestIsClean(m, names);
    forall i | 0 <= i < |lines|
      ensures Clean(lines[i].statement)
    {
      if lines[i].statement != Nothing {
        var k := SpokenKeeps(Said(lines), i);
        assert Of(Spoken(Said(lines)))[k] == lines[i].statement;
      }
    }
    forall i | 0 <= i < |lines|
      ensures Read(Core(LineText(lines[i]))) == lines[i].statement && OneLine(LineText(lines[i]))
    {
      LineReads(lines[i]);
    }
    LinesOfText(lines);
    assert Statements(LineTexts(lines)) == Said(lines);
    BlanksSayNothing(START, Said(lines));
    StatementsRoundTrip(m, names, Spoken(Said(lines)), fileStem);
  }

  /** The lines with their numbers. */
  function Said(lines: seq<Line>): (ns: seq<Numbered>)
    ensures |ns| == |lines|
  {
    seq(|lines|, i requires 0 <= i < |lines| => Numbered(i + 1, lines[i].statement))
  }

  lemma {:induction false} SpokenKeeps(ns: seq<Numbered>, i: nat) returns (k: nat)
    requires i < |ns| && ns[i].statement != Nothing
    ensures k < |Spoken(ns)| && Spoken(ns)[k] == ns[i]
  {
    if i == 0 {
      k := 0;
    } else {
      k := SpokenKeeps(ns[1..], i - 1);
      if ns[0].statement != Nothing {
        k := k + 1;
      }
    }
  }
}
