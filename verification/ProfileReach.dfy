/** What any profile text can say: a manifest can be loaded from some text exactly when it is expressible. */
module ProfileReach {
  import opened Options
  import opened ProfileText
  import opened ProfileManifest
  import opened ProfileRendering
  import opened ProfileRoundTrip

  // ---------------------------------------------------------------------------------------------
  // Lists read from a text have no commas in their items

  lemma {:induction false} DenotedWithoutComma(body: string)
    requires Denoted(body).Some? && ',' !in body
    ensures ',' !in Denoted(body).value
  {
    if body != "" {
      var step := if body[0] == '\\' then 2 else 1;
      assert forall c <- body[step..] :: c in body;
      DenotedWithoutComma(body[step..]);
    }
  }

  lemma ValueWithoutComma(text: string, s: string)
    requires StringValue(text) == Ok(s) && ',' !in text
    ensures ',' !in s
  {
    StringValueExact(text, s);
    if body, tail :| text == ['"'] + (body + ['"'] + tail) && Denoted(body) == Some(s) && Blank(tail) {
      assert forall c <- body :: c in text;
      DenotedWithoutComma(body);
    } else {
      var tail :| text == ['\''] + s + ['\''] + tail && Blank(tail);
      assert forall c <- s :: c in text;
    }
  }

  lemma {:induction false} PiecesWithoutCommas(s: string)
    ensures NoCommas(Pieces(s))
    decreases |s|
  {
    var k := FirstOf(s, ',');
    if k < |s| {
      PiecesWithoutCommas(s[k + 1..]);
    } else {
      assert s[..k] == s;
    }
  }

  lemma {:induction false} ElementsWithoutCommas(pieces: seq<string>)
    requires NoCommas(pieces) && Elements(pieces).Ok?
    ensures NoCommas(Elements(pieces).value)
  {
    if pieces != [] {
      var n := |pieces| - 1;
      var piece := pieces[n];
      ElementsWithoutCommas(pieces[..n]);
      var left, right := TrimSplits(piece);
      assert forall c <- Trim(piece) :: c in left + Trim(piece) + right;
      ValueWithoutComma(Trim(piece), StringValue(Trim(piece)).value);
    }
  }

  lemma ArrayWithoutCommas(text: string)
    requires StringArray(text).Ok?
    ensures NoCommas(StringArray(text).value)
  {
    var t := Trim(text);
    var inner := Trim(t[1..|t| - 1]);
    if inner != "" {
      PiecesWithoutCommas(inner);
      ElementsWithoutCommas(Pieces(inner));
    }
  }

  // ---------------------------------------------------------------------------------------------
  // What a walk over statements keeps

  predicate ListsRead(p: RawProfile) {
    && (p.mcp.Some? && p.mcp.value.toolAllowlist.Some? ==> NoCommas(p.mcp.value.toolAllowlist.value))
    && (p.execution.Some? && p.execution.value.moduleDirs.Some? ==> NoCommas(p.execution.value.moduleDirs.value))
  }

  lemma AssignmentKeepsLists(p: Progress, number: nat, key: string, rhs: string)
    requires Sound(p) && ListsRead(p.profile)
    ensures ListsRead(AfterAssign(p, number, key, rhs).profile)
  {
    if StringArray(rhs).Ok? {
      ArrayWithoutCommas(rhs);
    }
  }

  lemma {:induction false} WalkKeepsLists(p: Progress, ns: seq<Numbered>)
    requires Sound(p) && ListsRead(p.profile)
    ensures ListsRead(Walk(p, ns).profile)
    decreases |ns|
  {
    if ns != [] {
      if ns[0].statement.Assign? {
        AssignmentKeepsLists(p, ns[0].number, ns[0].statement.key, ns[0].statement.rhs);
      }
      WalkKeepsLists(After(p, ns[0]), ns[1..]);
    }
  }

  /** Whatever the text, what is loaded from it is expressible. */
  lemma LoadedIsExpressible(ns: seq<Numbered>, m: Manifest, fileStem: string)
    requires Manifested(Walk(START, ns), fileStem) == Some(m)
    ensures Expressible(m, fileStem)
  {
    WalkKeepsLists(START, ns);
    CapabilitiesAreConfined(ns, fileStem);
    forall c <- m.capabilities
      ensures Writable(c)
    {
      assert Spellings(c) != {};
    }
  }

  // ---------------------------------------------------------------------------------------------
  // A text for every expressible manifest

  /** One spelling of the type of a capability. */
  function Spelling(c: Capability): string {
    match c
    case ReadFile(_) => "read_file"
    case WriteFile(_) => "write_file"
    case ListDirectory(_) => "list_directory"
    case HttpGet(_) => "http_get"
    case HttpPost(_) => "http_post"
    case ExecuteBinary(_) => "execute_binary"
    case MountTmpfs(_) => "mount_tmpfs"
    case _ => "memory_preview"
  }

  lemma WordStays(word: string)
    requires Word(word)
    ensures Normalized(Trim(word)) == word
  {
    WordIsClean(word);
    TrimPadded("", word, "");
    assert "" + word + "" == word;
  }

  lemma SpellingSpells(c: Capability)
    requires Nameable(c)
    ensures Spells(Spelling(c), c)
  {
    var word := Spelling(c);
    assert word in Spellings(c);
    WordStays(word);
    SpellingsExact(word, c);
  }

  function SpellingsOf(cs: seq<Capability>): (names: seq<string>)
    ensures |names| == |cs|
  {
    seq(|cs|, i requires 0 <= i < |cs| => Spelling(cs[i]))
  }

  const PLAIN := Layout("", "", "", "", "", false)

  function PlainLines(ss: seq<Statement>): (lines: seq<Line>)
    ensures |lines| == |ss|
  {
    seq(|ss|, i requires 0 <= i < |ss| => Line(ss[i], PLAIN))
  }

  lemma {:induction false} EntriesSaySomething(names: seq<string>, cs: seq<Capability>)
    requires |names| == |cs|
    ensures Nothing !in CapabilityStatements(names, cs)
    decreases |cs|
  {
    if cs != [] {
      var n := |cs| - 1;
      EntriesSaySomething(names[..n], cs[..n]);
    }
  }

  lemma {:induction false} AllSpoken(ns: seq<Numbered>)
    requires forall n <- ns :: n.statement != Nothing
    ensures Spoken(ns) == ns
  {
    if ns != [] {
      assert ns[0] in ns;
      AllSpoken(ns[1..]);
      assert ns == [ns[0]] + ns[1..];
    }
  }

  lemma SpellingsSpell(cs: seq<Capability>)
    requires forall c <- cs :: Nameable(c)
    ensures AllSpelled(SpellingsOf(cs), cs)
  {
    forall i | 0 <= i < |cs|
      ensures Spells(SpellingsOf(cs)[i], cs[i])
    {
      assert cs[i] in cs;
      SpellingSpells(cs[i]);
    }
  }

  lemma ManifestSaysSomething(m: Manifest, names: seq<string>)
    requires |names| == |m.capabilities|
    ensures Nothing !in ManifestStatements(m, names)
  {
    EntriesSaySomething(names, m.capabilities);
  }

  lemma PlainLinesSay(ss: seq<Statement>)
    requires Nothing !in ss
    ensures Of(Spoken(Said(PlainLines(ss)))) == ss
  {
    var said := Said(PlainLines(ss));
    forall n <- said
      ensures n.statement != Nothing
    {
      assert n.statement in ss;
    }
    AllSpoken(said);
  }

  /** The text that says a manifest line by line, without any ornament. */
  function PlainText(m: Manifest): string {
    Text(PlainLines(ManifestStatements(m, SpellingsOf(m.capabilities))))
  }

  lemma PlainTextLoads(m: Manifest, fileStem: string)
    requires Expressible(m, fileStem)
    ensures Manifested(Walk(START, Statements(Lines(PlainText(m)))), fileStem) == Some(m)
  {
    var names := SpellingsOf(m.capabilities);
    var ss := ManifestStatements(m, names);
    SpellingsSpell(m.capabilities);
    ManifestSaysSomething(m, names);
    PlainLinesSay(ss);
    ManifestRoundTrip(m, names, PlainLines(ss), fileStem);
  }

  /** A manifest can be loaded from some text exactly if it is expressible: nothing else can come out of the
      loader, whatever it reads, and nothing that is expressible is out of reach. */
  lemma ReachableExactly(m: Manifest, fileStem: string)
    ensures (exists text :: Manifested(Walk(START, Statements(Lines(text))), fileStem) == Some(m))
       <==> Expressible(m, fileStem)
  {
    if text :| Manifested(Walk(START, Statements(Lines(text))), fileStem) == Some(m) {
      LoadedIsExpressible(Statements(Lines(text)), m, fileStem);
    }
    if Expressible(m, fileStem) {
      PlainTextLoads(m, fileStem);
    }
  }
}
