/** Writing the values and lines of a profile, and reading them back with the scanner of src/profile/mod.rs. */
module ProfileRendering {
  import opened Lists
  import opened Options
  import opened ProfileText
  import opened ProfileManifest

  // ---------------------------------------------------------------------------------------------
  // Values

  function EscapeChar(c: char): string {
    match c
    case '"' => "\\\""
    case '\\' => "\\\\"
    case '\n' => "\\n"
    case '\r' => "\\r"
    case '\t' => "\\t"
    case _ => [c]
  }

  function Escape(s: string): string {
    if s == "" then "" else EscapeChar(s[0]) + Escape(s[1..])
  }

  function Quoted(s: string): string {
    ['"'] + Escape(s) + ['"']
  }

  lemma {:induction false} EscapeDenotes(s: string)
    ensures Denoted(Escape(s)) == Some(s)
  {
    if s != "" {
      var x, rest := EscapeChar(s[0]), Escape(s[1..]);
      EscapeDenotes(s[1..]);
      assert (x + rest)[|x|..] == rest;
      assert s == [s[0]] + s[1..];
    }
  }

  lemma {:induction false} EscapeParts(a: string, b: string)
    ensures Escape(a + b) == Escape(a) + Escape(b)
  {
    if a == "" {
      assert a + b == b;
    } else {
      assert (a + b)[1..] == a[1..] + b;
      EscapeParts(a[1..], b);
    }
  }

  predicate OneLine(s: string) {
    '\n' !in s && '\r' !in s
  }

  lemma {:induction false} EscapeCharacters(s: string)
    ensures OneLine(Escape(s))
    ensures ',' in Escape(s) <==> ',' in s
  {
    if s != "" {
      EscapeCharacters(s[1..]);
      assert s == [s[0]] + s[1..];
    }
  }

  lemma QuotedReads(s: string)
    ensures StringValue(Quoted(s)) == Ok(s)
  {
    EscapeDenotes(s);
    assert Quoted(s)[1..] == Escape(s) + ['"'];
    ScanPassesBody(Escape(s), ['"'], "");
    assert "" + s == s;
  }

  lemma QuotedPasses(s: string, c: char)
    requires c != '"'
    ensures Passes(Quoted(s), c) && Tight(Quoted(s)) && OneLine(Quoted(s))
  {
    var e := Escape(s);
    EscapeDenotes(s);
    EscapeCharacters(s);
    BodyStaysQuoted(e, c);
    RunParts(Basic(false), e, ['"']);
    FirstBareParts(Basic(false), e, ['"'], c);
    assert Quoted(s)[1..] == e + ['"'];
  }

  function BoolText(b: bool): string {
    if b then "true" else "false"
  }

  lemma BoolReads(b: bool)
    ensures BoolValue(BoolText(b)) == Ok(b)
    ensures Passes(BoolText(b), '#') && Tight(BoolText(b)) && OneLine(BoolText(b))
  {
    TrimPadded("", BoolText(b), "");
    assert "" + BoolText(b) + "" == BoolText(b);
    PlainPasses(BoolText(b), '#');
  }

  function Joined(items: seq<string>): string {
    if items == [] then ""
    else if |items| == 1 then Quoted(items[0])
    else Joined(items[..|items| - 1]) + [','] + (" " + Quoted(items[|items| - 1]))
  }

  function ArrayText(items: seq<string>): string {
    "[" + Joined(items) + "]"
  }

  predicate NoCommas(items: seq<string>) {
    forall item <- items :: ',' !in item
  }

  lemma AtComma(a: string) returns (p: string, rest: string)
    requires ',' in a
    ensures a == p + ([','] + rest) && ',' !in p && |rest| < |a|
  {
    var k := FirstOf(a, ',');
    p, rest := a[..k], a[k + 1..];
  }

  lemma Regroup(p: string, rest: string, b: string)
    ensures (p + ([','] + rest)) + [','] + b == p + [','] + (rest + [','] + b)
    ensures p + ([','] + rest) == p + [','] + rest
  {
  }

  lemma OneMorePiece(a: string, p: string, rest: string, b: string)
    requires a == p + ([','] + rest) && ',' !in p
    requires Pieces(rest + [','] + b) == Pieces(rest) + Pieces(b)
    ensures Pieces(a + [','] + b) == Pieces(a) + Pieces(b)
  {
    calc {
      Pieces(a + [','] + b);
      { Regroup(p, rest, b); }
      Pieces(p + [','] + (rest + [','] + b));
      { FirstPiece(p, rest + [','] + b); }
      [p] + (Pieces(rest) + Pieces(b));
      { Associative([p], Pieces(rest), Pieces(b)); }
      ([p] + Pieces(rest)) + Pieces(b);
      { Regroup(p, rest, b); FirstPiece(p, rest); }
      Pieces(a) + Pieces(b);
    }
  }

  lemma {:induction false} PiecesParts(a: string, b: string)
    ensures Pieces(a + [','] + b) == Pieces(a) + Pieces(b)
    decreases |a|
  {
    if ',' !in a {
      LonePiece(a);
      FirstPiece(a, b);
    } else {
      var p, rest := AtComma(a);
      PiecesParts(rest, b);
      OneMorePiece(a, p, rest, b);
    }
  }

  lemma BodyIsUnterminated(body: string)
    requires Denoted(body).Some?
    ensures Scan(body, "") == Err(Unterminated)
  {
    ScanPassesBody(body, "", "");
    assert body + "" == body;
  }

  /** What is left of a well formed inside when its end is cut off does not end either. */
  lemma CutHasNoEnd(inner: string, right: string)
    requires Denoted(inner + right).Some?
    ensures Scan(inner, "").Err?
  {
    BodyIsUnterminated(inner + right);
    var body, rest := SplitBody(inner);
    ScanPassesBody(body, rest, "");
    if rest != "" && rest[0] == '"' {
      assert inner + right == body + (rest + right);
      ScanPassesBody(body, rest + right, "");
    }
  }

  lemma TrimEndOfQuote(body: string) returns (inner: string, right: string)
    ensures TrimEnd(['"'] + body) == ['"'] + inner && body == inner + right
  {
    var text := ['"'] + body;
    right := TrimEndSplits(text);
    var t := TrimEnd(text);
    assert !Blank(text) by {
      assert text[0] in text;
    }
    assert "" + right == right;
    inner := t[1..];
    assert text[1..] == body && (t + right)[1..] == inner + right;
  }

  /** A quoted value cut off before its closing quote is not a value. */
  lemma CutIsUnterminated(left: string, body: string)
    requires Blank(left) && Denoted(body).Some?
    ensures StringValue(Trim(left + (['"'] + body))).Err?
  {
    TrimStartBlank(left, ['"'] + body);
    var inner, right := TrimEndOfQuote(body);
    assert (['"'] + inner)[1..] == inner;
    CutHasNoEnd(inner, right);
  }

  /** An element that is no value, wherever it stands, makes the array no value. */
  lemma BadElement(front: seq<string>, piece: string, rest: seq<string>)
    requires StringValue(Trim(piece)).Err?
    ensures Elements(front + [piece] + rest).Err?
  {
    var head := front + [piece];
    assert head[..|head| - 1] == front;
    FaultInFront(head, rest);
  }

  lemma FaultInFront(front: seq<string>, rest: seq<string>)
    requires Elements(front).Err?
    ensures Elements(front + rest).Err?
  {
    assert (front + rest)[..|front|] == front;
    FirstFaultStays(front + rest, |front|);
  }

  lemma EscapeComma(rest: string)
    ensures Escape([','] + rest) == [','] + Escape(rest)
  {
    assert ([','] + rest)[1..] == rest;
  }

  lemma EscapeAtComma(x: string) returns (before: string, after: string)
    requires ',' in x
    ensures ',' !in before && Denoted(before).Some? && Escape(x) == before + ([','] + after)
  {
    var p, rest := AtComma(x);
    EscapeParts(p, [','] + rest);
    EscapeComma(rest);
    EscapeCharacters(p);
    EscapeDenotes(p);
    before, after := Escape(p), Escape(rest);
  }

  lemma MoveQuotes(left: string, before: string, after: string)
    ensures left + (['"'] + (before + ([','] + after)) + ['"'])
         == (left + (['"'] + before)) + [','] + (after + ['"'])
  {
  }

  lemma QuotedAtComma(left: string, x: string) returns (before: string, tail: string)
    requires ',' !in left && ',' in x
    ensures Denoted(before).Some?
    ensures Pieces(left + Quoted(x)) == [left + (['"'] + before)] + Pieces(tail)
  {
    var after;
    before, after := EscapeAtComma(x);
    tail := after + ['"'];
    MoveQuotes(left, before, after);
    FirstPiece(left + (['"'] + before), tail);
  }

  /** The comma of an item splits it, and its first piece is refused. */
  lemma CommaBreaks(front: seq<string>, left: string, x: string)
    requires Blank(left) && ',' !in left && ',' in x
    ensures Elements(front + Pieces(left + Quoted(x))).Err?
  {
    var before, tail := QuotedAtComma(left, x);
    var cut := left + (['"'] + before);
    CutIsUnterminated(left, before);
    BadElement(front, cut, Pieces(tail));
    Associative(front, [cut], Pieces(tail));
  }

  /** The last item of an array is in the last pieces. */
  lemma LastPieces(items: seq<string>) returns (front: seq<string>, left: string)
    requires items != []
    ensures Pieces(Joined(items)) == front + Pieces(left + Quoted(items[|items| - 1]))
    ensures Blank(left) && ',' !in left
    ensures front == if |items| == 1 then [] else Pieces(Joined(items[..|items| - 1]))
  {
    var n := |items| - 1;
    var x := items[n];
    if n == 0 {
      front, left := [], "";
      assert left + Quoted(x) == Quoted(x);
    } else {
      front, left := Pieces(Joined(items[..n])), " ";
      PiecesParts(Joined(items[..n]), " " + Quoted(x));
    }
  }

  lemma PlainPiece(left: string, x: string)
    requires Blank(left) && ',' !in left && ',' !in x
    ensures Pieces(left + Quoted(x)) == [left + Quoted(x)]
    ensures Trim(left + Quoted(x)) == Quoted(x)
  {
    EscapeCharacters(x);
    NoneOf(left + Quoted(x), ',');
    QuotedPasses(x, '#');
    TrimPadded(left, Quoted(x), "");
    assert left + Quoted(x) + "" == left + Quoted(x);
  }

  lemma GoodElement(front: seq<string>, items: seq<string>, piece: string, x: string)
    requires Elements(front) == Ok(items) && Trim(piece) == Quoted(x)
    ensures Elements(front + [piece]) == Ok(items + [x])
  {
    assert (front + [piece])[..|front|] == front;
    QuotedReads(x);
  }

  lemma {:induction false} JoinedReads(items: seq<string>)
    requires items != [] && NoCommas(items)
    ensures Elements(Pieces(Joined(items))) == Ok(items)
    decreases |items|
  {
    var n := |items| - 1;
    var x := items[n];
    var front, left := LastPieces(items);
    assert items == items[..n] + [x] && x in items;
    if n > 0 {
      JoinedReads(items[..n]);
    }
    PlainPiece(left, x);
    GoodElement(front, items[..n], left + Quoted(x), x);
  }

  lemma {:induction false} CommaRefused(items: seq<string>)
    requires !NoCommas(items)
    ensures Elements(Pieces(Joined(items))).Err?
    decreases |items|
  {
    var n := |items| - 1;
    var x := items[n];
    var front, left := LastPieces(items);
    var pieces := Pieces(left + Quoted(x));
    assert items == items[..n] + [x];
    if ',' in x {
      CommaBreaks(front, left, x);
    } else {
      CommaRefused(items[..n]);
      FaultInFront(front, pieces);
    }
  }

  lemma {:induction false} JoinedShape(items: seq<string>)
    ensures Passes(Joined(items), '#') && Tight(Joined(items)) && OneLine(Joined(items))
    ensures items != [] ==> Joined(items) != ""
    decreases |items|
  {
    if |items| == 1 {
      QuotedPasses(items[0], '#');
    } else if items != [] {
      var n := |items| - 1;
      JoinedShape(items[..n]);
      QuotedPasses(items[n], '#');
      PlainPasses([','], '#');
      PlainPasses(" ", '#');
      PassesParts(Joined(items[..n]), [','], '#');
      PassesParts(" ", Quoted(items[n]), '#');
      PassesParts(Joined(items[..n]) + [','], " " + Quoted(items[n]), '#');
    }
  }

  lemma ArrayShape(items: seq<string>)
    ensures Passes(ArrayText(items), '#') && Tight(ArrayText(items)) && OneLine(ArrayText(items))
  {
    JoinedShape(items);
    PlainPasses("[", '#');
    PlainPasses("]", '#');
    PassesParts("[", Joined(items), '#');
    PassesParts("[" + Joined(items), "]", '#');
  }

  /** An array of strings is read back exactly when no item has a comma in it; otherwise it is refused. */
  lemma ArrayReadsExactly(items: seq<string>)
    ensures NoCommas(items) ==> StringArray(ArrayText(items)) == Ok(items)
    ensures !NoCommas(items) ==> StringArray(ArrayText(items)).Err?
  {
    var text := ArrayText(items);
    ArrayShape(items);
    TrimPadded("", text, "");
    assert "" + text + "" == text;
    JoinedShape(items);
    var inner := Joined(items);
    assert text[1..|text| - 1] == inner;
    TrimPadded("", inner, "");
    assert "" + inner + "" == inner;
    if !NoCommas(items) {
      CommaRefused(items);
    } else if items != [] {
      JoinedReads(items);
    }
  }

  // ---------------------------------------------------------------------------------------------
  // Lines

  /** How a statement is laid out on its line: white space around its parts, a comment, a line ending. */
  datatype Layout = Layout(
    indent: string,
    beforeEquals: string,
    afterEquals: string,
    tail: string,
    comment: string,
    crlf: bool)
  {
    predicate Valid() {
      && Blank(indent) && Blank(beforeEquals) && Blank(afterEquals) && Blank(tail)
      && OneLine(indent) && OneLine(beforeEquals) && OneLine(afterEquals) && OneLine(tail) && OneLine(comment)
      && (comment == "" || comment[0] == '#')
    }
  }

  datatype Line = Line(statement: Statement, layout: Layout)

  predicate Clean(s: Statement) {
    match s
    case Nothing => true
    case Header(text) =>
      text != "" && text[0] == '[' && Tight(text) && Passes(text, '#') && OneLine(text)
    case Assign(key, rhs) =>
      && key != "" && key[0] != '[' && Tight(key) && Plain(key) && OneLine(key)
      && rhs != "" && Tight(rhs) && Passes(rhs, '#') && OneLine(rhs)
    case Malformed(_) => false
  }

  predicate WellFormed(line: Line) {
    Clean(line.statement) && line.layout.Valid()
  }

  function Body(line: Line): string {
    match line.statement
    case Header(text) => text
    case Assign(key, rhs) => key + line.layout.beforeEquals + "=" + line.layout.afterEquals + rhs
    case _ => ""
  }

  function LineText(line: Line): string {
    line.layout.indent + Body(line) + line.layout.tail + line.layout.comment
  }

  function Text(lines: seq<Line>): string {
    if lines == [] then ""
    else LineText(lines[0]) + (if lines[0].layout.crlf then "\r\n" else "\n") + Text(lines[1..])
  }

  lemma {:induction false} BlankPasses(s: string, c: char)
    requires Blank(s) && !IsSpace(c)
    ensures Passes(s, c)
  {
    PlainPasses(s, c);
  }

  /** Comment and white space come off, whatever the body holds between quotes. */
  lemma CoreOfLine(indent: string, body: string, tail: string, comment: string)
    requires Blank(indent) && Blank(tail) && (comment == "" || comment[0] == '#')
    requires Tight(body) && Passes(body, '#')
    ensures Core(indent + body + tail + comment) == body
  {
    BlankPasses(indent, '#');
    BlankPasses(tail, '#');
    PassesParts(indent, body, '#');
    PassesParts(indent + body, tail, '#');
    FirstBareParts(Bare, indent + body + tail, comment, '#');
    assert (indent + body + tail + comment)[..|indent + body + tail|] == indent + body + tail;
    TrimPadded(indent, body, tail);
  }

  lemma BodyShape(line: Line)
    requires WellFormed(line)
    ensures Tight(Body(line)) && Passes(Body(line), '#') && OneLine(Body(line))
  {
    if line.statement.Assign? {
      var key, rhs := line.statement.key, line.statement.rhs;
      var before, after := line.layout.beforeEquals, line.layout.afterEquals;
      PlainPasses(key, '#');
      BlankPasses(before, '#');
      PlainPasses("=", '#');
      BlankPasses(after, '#');
      PassesParts(key, before, '#');
      PassesParts(key + before, "=", '#');
      PassesParts(key + before + "=", after, '#');
      PassesParts(key + before + "=" + after, rhs, '#');
    }
  }

  lemma ReadEquals(left: string, right: string, key: string, rhs: string)
    requires left != "" && left[0] != '[' && Passes(left, '=')
    requires Trim(left) == key != "" && Trim(right) == rhs
    ensures Read(left + (['='] + right)) == Assign(key, rhs)
  {
    var line := left + (['='] + right);
    FirstBareParts(Bare, left, ['='] + right, '=');
    assert line[..|left|] == left && line[|left| + 1..] == right;
  }

  lemma ReadAssignment(key: string, before: string, after: string, rhs: string)
    requires key != "" && key[0] != '[' && Tight(key) && Plain(key)
    requires Blank(before) && Blank(after) && Tight(rhs)
    ensures Read(key + before + (['='] + (after + rhs))) == Assign(key, rhs)
  {
    assert Passes(key + before, '=') by {
      PlainPasses(key, '=');
      BlankPasses(before, '=');
      PassesParts(key, before, '=');
    }
    TrimPadded("", key, before);
    assert "" + key + before == key + before;
    TrimPadded(after, rhs, "");
    assert after + rhs + "" == after + rhs;
    ReadEquals(key + before, after + rhs, key, rhs);
  }

  lemma ReadBody(line: Line)
    requires WellFormed(line)
    ensures Read(Body(line)) == line.statement
  {
    if line.statement.Assign? {
      var key, rhs := line.statement.key, line.statement.rhs;
      var before, after := line.layout.beforeEquals, line.layout.afterEquals;
      ReadAssignment(key, before, after, rhs);
      assert Body(line) == key + before + (['='] + (after + rhs));
    }
  }

  /** A laid out statement is read back, whatever the white space and the comment. */
  lemma LineReads(line: Line)
    requires WellFormed(line)
    ensures Read(Core(LineText(line))) == line.statement
    ensures OneLine(LineText(line))
  {
    BodyShape(line);
    CoreOfLine(line.layout.indent, Body(line), line.layout.tail, line.layout.comment);
    ReadBody(line);
  }

  /**
   * For every plain key and every value, even one with `#`, `=`, quotes or backslashes: the line that assigns
   * the escaped value is split at the right `=`, freed of its comment, and read back.
   */
  lemma AssignmentRoundTrip(key: string, value: string, layout: Layout)
    requires key != "" && key[0] != '[' && Tight(key) && Plain(key) && OneLine(key) && layout.Valid()
    ensures var line := Core(LineText(Line(Assign(key, Quoted(value)), layout)));
            var k := FirstBare(Bare, line, '=');
            k < |line| && Trim(line[..k]) == key && StringValue(Trim(line[k + 1..])) == Ok(value)
  {
    QuotedPasses(value, '#');
    LineReads(Line(Assign(key, Quoted(value)), layout));
    QuotedReads(value);
    ReadAssign(Core(LineText(Line(Assign(key, Quoted(value)), layout))), key, Quoted(value));
  }

  lemma ReadAssign(line: string, key: string, rhs: string)
    requires Read(line) == Assign(key, rhs)
    ensures var k := FirstBare(Bare, line, '=');
            k < |line| && Trim(line[..k]) == key && Trim(line[k + 1..]) == rhs
  {
    var k := FirstBare(Bare, line, '=');
    assert line != "" && line[0] != '[' && k < |line|;
    assert Read(line) == ReadAt(line, k);
  }

  function LineTexts(lines: seq<Line>): seq<string> {
    seq(|lines|, i requires 0 <= i < |lines| => LineText(lines[i]))
  }

  lemma FirstLine(line: string, crlf: bool, rest: string)
    requires OneLine(line)
    ensures Lines(line + (if crlf then "\r\n" else "\n") + rest) == [line] + Lines(rest)
  {
    var shown := if crlf then line + "\r" else line;
    var text := shown + ['\n'] + rest;
    assert line + (if crlf then "\r\n" else "\n") + rest == text;
    FirstOfParts(shown, '\n', rest);
    assert text[..|shown|] == shown && text[|shown| + 1..] == rest;
    assert WithoutReturn(shown) == line by {
      if crlf {
        assert shown[..|shown| - 1] == line;
      }
    }
  }

  lemma LineTextsSplit(lines: seq<Line>)
    requires lines != []
    ensures LineTexts(lines) == [LineText(lines[0])] + LineTexts(lines[1..])
  {
  }

  ghost predicate OneLineEach(lines: seq<Line>) {
    forall i | 0 <= i < |lines| :: OneLine(LineText(lines[i]))
  }

  lemma {:induction false} LinesOfText(lines: seq<Line>)
    requires OneLineEach(lines)
    ensures Lines(Text(lines)) == LineTexts(lines)
  {
    if lines != [] {
      LinesOfText(lines[1..]);
      LineTextsSplit(lines);
      FirstLine(LineText(lines[0]), lines[0].layout.crlf, Text(lines[1..]));
    }
  }
}
