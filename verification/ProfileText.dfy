/** The scanner of capability profiles (src/profile/mod.rs): comments, assignments and values of one line. */
module ProfileText {
  import opened Options

  // ---------------------------------------------------------------------------------------------
  // White space

  /** The Unicode White_Space property, which is what Rust's `trim` removes. */
  predicate IsSpace(c: char) {
    var n := c as int;
    || 0x09 <= n <= 0x0D || n == 0x20 || n == 0x85 || n == 0xA0 || n == 0x1680
    || 0x2000 <= n <= 0x200A || n == 0x2028 || n == 0x2029 || n == 0x202F || n == 0x205F || n == 0x3000
  }

  predicate Blank(s: string) {
    forall c <- s :: IsSpace(c)
  }

  /** No white space at either end. */
  predicate Tight(s: string) {
    s == "" || (!IsSpace(s[0]) && !IsSpace(s[|s| - 1]))
  }

  function TrimStart(s: string): (r: string) {
    if s != "" && IsSpace(s[0]) then TrimStart(s[1..]) else s
  }

  function TrimEnd(s: string): (r: string) {
    if s != "" && IsSpace(s[|s| - 1]) then TrimEnd(s[..|s| - 1]) else s
  }

  function Trim(s: string): (r: string) {
    TrimEnd(TrimStart(s))
  }

  lemma {:induction false} TrimStartSplits(s: string) returns (left: string)
    ensures Blank(left) && s == left + TrimStart(s)
    ensures TrimStart(s) == "" || !IsSpace(TrimStart(s)[0])
  {
    if s != "" && IsSpace(s[0]) {
      var rest := TrimStartSplits(s[1..]);
      left := [s[0]] + rest;
    } else {
      left := "";
    }
  }

  lemma {:induction false} TrimEndSplits(s: string) returns (right: string)
    ensures Blank(right) && s == TrimEnd(s) + right
    ensures TrimEnd(s) == "" || !IsSpace(TrimEnd(s)[|TrimEnd(s)| - 1])
  {
    if s != "" && IsSpace(s[|s| - 1]) {
      var rest := TrimEndSplits(s[..|s| - 1]);
      right := rest + [s[|s| - 1]];
    } else {
      right := "";
    }
  }

  /** What `Trim` returns is tight and is the input without white space at its ends. */
  lemma TrimSplits(s: string) returns (left: string, right: string)
    ensures Tight(Trim(s)) && Blank(left) && Blank(right)
    ensures s == left + Trim(s) + right
  {
    left := TrimStartSplits(s);
    var middle := TrimStart(s);
    right := TrimEndSplits(middle);
  }

  lemma {:induction false} TrimStartBlank(left: string, s: string)
    requires Blank(left) && (s == "" || !IsSpace(s[0]))
    ensures TrimStart(left + s) == s
  {
    if left == "" {
      assert left + s == s;
    } else {
      assert (left + s)[1..] == left[1..] + s;
      TrimStartBlank(left[1..], s);
    }
  }

  lemma {:induction false} TrimEndBlank(s: string, right: string)
    requires Blank(right) && (s == "" || !IsSpace(s[|s| - 1]))
    ensures TrimEnd(s + right) == s
  {
    if right == "" {
      assert s + right == s;
    } else {
      var n := |right| - 1;
      assert (s + right)[..|s + right| - 1] == s + right[..n];
      TrimEndBlank(s, right[..n]);
    }
  }

  /** The other direction: a tight text comes back however it is padded. */
  lemma TrimPadded(left: string, s: string, right: string)
    requires Blank(left) && Tight(s) && Blank(right)
    ensures Trim(left + s + right) == s
  {
    if s == "" {
      TrimStartBlank(left + right, "");
      assert left + s + right == left + right + "";
    } else {
      assert left + s + right == left + (s + right);
      TrimStartBlank(left, s + right);
      TrimEndBlank(s, right);
    }
  }

  lemma BlankIsTrimmedAway(s: string)
    ensures Trim(s) == "" <==> Blank(s)
  {
    var left, right := TrimSplits(s);
    if Blank(s) {
      TrimPadded(s, "", "");
      assert s + "" + "" == s;
    }
  }

  // ---------------------------------------------------------------------------------------------
  // Quoting

  /** Where a reader of a line is: outside quotes, or inside a basic or a literal string. */
  datatype Quoting = Bare | Basic(escaped: bool) | Literal

  function Next(q: Quoting, c: char): Quoting {
    match q
    case Bare => if c == '"' then Basic(false) else if c == '\'' then Literal else Bare
    case Basic(true) => Basic(false)
    case Basic(false) => if c == '\\' then Basic(true) else if c == '"' then Bare else q
    case Literal => if c == '\'' then Bare else Literal
  }

  function Run(q: Quoting, s: string): Quoting
    decreases |s|
  {
    if s == "" then q else Run(Next(q, s[0]), s[1..])
  }

  /** The position of the first `c` outside quotes, or the length of the text. */
  function FirstBare(q: Quoting, s: string, c: char): (k: nat)
    ensures k <= |s|
    decreases |s|
  {
    if s == "" || (q.Bare? && s[0] == c) then 0 else 1 + FirstBare(Next(q, s[0]), s[1..], c)
  }

  /** Outside quotes and first: the two halves of what `FirstBare` finds. */
  lemma {:induction false} FirstBareExact(q: Quoting, s: string, c: char)
    ensures var k := FirstBare(q, s, c);
            && (k < |s| ==> Run(q, s[..k]).Bare? && s[k] == c)
            && forall i | 0 <= i < k :: !(Run(q, s[..i]).Bare? && s[i] == c)
    decreases |s|
  {
    if s != "" && !(q.Bare? && s[0] == c) {
      var k := FirstBare(q, s, c);
      var rest := s[1..];
      FirstBareExact(Next(q, s[0]), rest, c);
      forall i | 1 <= i <= k
        ensures Run(q, s[..i]) == Run(Next(q, s[0]), rest[..i - 1])
      {
        assert s[..i][1..] == rest[..i - 1];
      }
    }
  }

  lemma {:induction false} RunParts(q: Quoting, a: string, b: string)
    ensures Run(q, a + b) == Run(Run(q, a), b)
    decreases |a|
  {
    if a == "" {
      assert a + b == b;
    } else {
      assert (a + b)[1..] == a[1..] + b;
      RunParts(Next(q, a[0]), a[1..], b);
    }
  }

  lemma {:induction false} FirstBareParts(q: Quoting, a: string, b: string, c: char)
    requires FirstBare(q, a, c) == |a|
    ensures FirstBare(q, a + b, c) == |a| + FirstBare(Run(q, a), b, c)
    decreases |a|
  {
    if a == "" {
      assert a + b == b;
    } else {
      assert (a + b)[1..] == a[1..] + b;
      FirstBareParts(Next(q, a[0]), a[1..], b, c);
    }
  }

  /** `s` begins and ends outside quotes and has no bare `c`. */
  predicate Passes(s: string, c: char) {
    Run(Bare, s).Bare? && FirstBare(Bare, s, c) == |s|
  }

  lemma PassesParts(a: string, b: string, c: char)
    requires Passes(a, c) && Passes(b, c)
    ensures Passes(a + b, c)
  {
    RunParts(Bare, a, b);
    FirstBareParts(Bare, a, b, c);
  }

  /** No quotes and none of the two characters the scanners look for. */
  predicate Plain(s: string) {
    '"' !in s && '\'' !in s && '#' !in s && '=' !in s
  }

  lemma {:induction false} PlainPasses(s: string, c: char)
    requires '"' !in s && '\'' !in s && c !in s
    ensures Passes(s, c)
  {
    if s != "" {
      PlainPasses(s[1..], c);
    }
  }

  /** The two variables of the scanners' loops, as one state. */
  function Reading(quote: Option<char>, escaped: bool): Quoting {
    match quote
    case None => Bare
    case Some(c) => if c == '"' then Basic(escaped) else Literal
  }

  predicate QuoteState(quote: Option<char>, escaped: bool) {
    && (quote.Some? ==> quote.value in {'"', '\''})
    && (escaped ==> quote == Some('"'))
  }

  method StripComment(line: string) returns (result: string)
    ensures result == line[..FirstBare(Bare, line, '#')]
  {
    result := "";
    var quote: Option<char> := None;
    var escaped := false;
    var index := 0;
    while index < |line|
      invariant 0 <= index <= |line|
      invariant QuoteState(quote, escaped)
      invariant result == line[..index]
      invariant FirstBare(Bare, line, '#') == index + FirstBare(Reading(quote, escaped), line[index..], '#')
    {
      var character := line[index];
      assert line[index..][1..] == line[index + 1..];
      if quote == Some('"') && escaped {
        escaped := false;
      } else if quote == Some('"') && character == '\\' {
        escaped := true;
      } else if quote == Some(character) {
        quote := None;
      } else if quote.None? {
        if character == '#' {
          return;
        }
        if character == '"' || character == '\'' {
          quote := Some(character);
        }
      }
      result := result + [character];
      index := index + 1;
    }
  }

  method FindUnquotedEquals(line: string) returns (found: Option<nat>)
    ensures found == if FirstBare(Bare, line, '=') < |line| then Some(FirstBare(Bare, line, '=')) else None
  {
    var quote: Option<char> := None;
    var escaped := false;
    var index := 0;
    while index < |line|
      invariant 0 <= index <= |line|
      invariant QuoteState(quote, escaped)
      invariant FirstBare(Bare, line, '=') == index + FirstBare(Reading(quote, escaped), line[index..], '=')
    {
      var character := line[index];
      assert line[index..][1..] == line[index + 1..];
      if quote == Some('"') && escaped {
        escaped := false;
      } else if quote == Some('"') && character == '\\' {
        escaped := true;
      } else if quote == Some(character) {
        quote := None;
      } else if quote.None? {
        if character == '"' || character == '\'' {
          quote := Some(character);
        } else if character == '=' {
          return Some(index);
        }
      }
      index := index + 1;
    }
    found := None;
  }

  // ---------------------------------------------------------------------------------------------
  // Values

  datatype ValueError =
    | ExpectedQuoted
    | BadEscape(c: char)
    | TrailingContent
    | Unterminated
    | ExpectedArray
    | EmptyElement
    | ExpectedBoolean

  datatype Parsed<+T> = Ok(value: T) | Err(error: ValueError)

  function Unescaped(c: char): Option<char> {
    match c
    case '"' => Some('"')
    case '\\' => Some('\\')
    case 'n' => Some('\n')
    case 'r' => Some('\r')
    case 't' => Some('\t')
    case _ => None
  }

  /** What a text after an opening double quote denotes, given what was read before it. */
  function Scan(text: string, parsed: string): Parsed<string> {
    if text == "" then Err(Unterminated)
    else if text[0] == '"' then
      if Trim(text[1..]) == "" then Ok(parsed) else Err(TrailingContent)
    else if text[0] == '\\' then
      if |text| == 1 then Err(Unterminated)
      else match Unescaped(text[1])
        case Some(c) => Scan(text[2..], parsed + [c])
        case None => Err(BadEscape(text[1]))
    else Scan(text[1..], parsed + [text[0]])
  }

  /** The string that the inside of a basic string stands for, if it is one. */
  function Denoted(body: string): Option<string> {
    if body == "" then Some("")
    else if body[0] == '"' then None
    else if body[0] == '\\' then
      if |body| == 1 || Unescaped(body[1]).None? || Denoted(body[2..]).None? then None
      else Some([Unescaped(body[1]).value] + Denoted(body[2..]).value)
    else if Denoted(body[1..]).None? then None
    else Some([body[0]] + Denoted(body[1..]).value)
  }

  lemma {:induction false} ScanPassesBody(body: string, rest: string, parsed: string)
    requires Denoted(body).Some?
    ensures Scan(body + rest, parsed) == Scan(rest, parsed + Denoted(body).value)
  {
    if body == "" {
      assert body + rest == rest;
      assert parsed + "" == parsed;
    } else {
      var step := if body[0] == '\\' then 2 else 1;
      var read := if body[0] == '\\' then Unescaped(body[1]).value else body[0];
      assert (body + rest)[step..] == body[step..] + rest;
      ScanPassesBody(body[step..], rest, parsed + [read]);
      assert parsed + [read] + Denoted(body[step..]).value == parsed + Denoted(body).value;
    }
  }

  /** Every text is a well formed inside followed by the character that ends the scan. */
  lemma {:induction false} SplitBody(text: string) returns (body: string, rest: string)
    ensures text == body + rest && Denoted(body).Some?
    ensures || rest == "" || rest[0] == '"' || rest == "\\"
            || (|rest| >= 2 && rest[0] == '\\' && Unescaped(rest[1]).None?)
  {
    if text == "" || text[0] == '"' || text == "\\" || (text[0] == '\\' && Unescaped(text[1]).None?) {
      body, rest := "", text;
    } else {
      var step := if text[0] == '\\' then 2 else 1;
      var inner;
      inner, rest := SplitBody(text[step..]);
      body := text[..step] + inner;
      assert body[step..] == inner;
      assert text == text[..step] + text[step..];
    }
  }

  /** A basic string is read as `s` exactly when it is a well formed inside for `s`, a quote and blanks. */
  lemma BasicStringExact(text: string, s: string)
    ensures Scan(text, "") == Ok(s)
       <==> exists body, tail :: text == body + ['"'] + tail && Denoted(body) == Some(s) && Blank(tail)
  {
    var body, rest := SplitBody(text);
    ScanPassesBody(body, rest, "");
    assert "" + Denoted(body).value == Denoted(body).value;
    if Scan(text, "") == Ok(s) {
      BlankIsTrimmedAway(rest[1..]);
      assert text == body + ['"'] + rest[1..];
    }
    forall body, tail | text == body + ['"'] + tail && Denoted(body) == Some(s) && Blank(tail)
      ensures Scan(text, "") == Ok(s)
    {
      assert text == body + (['"'] + tail);
      ScanPassesBody(body, ['"'] + tail, "");
      BlankIsTrimmedAway(tail);
      assert "" + s == s;
    }
  }

  /** The inside of a basic string never leaves the quotes, so all three scanners end it at the same
      character. */
  lemma {:induction false} BodyStaysQuoted(body: string, c: char)
    requires Denoted(body).Some?
    ensures Run(Basic(false), body) == Basic(false) && FirstBare(Basic(false), body, c) == |body|
  {
    if body != "" {
      var step := if body[0] == '\\' then 2 else 1;
      BodyStaysQuoted(body[step..], c);
      assert step == 2 ==> body[1..][1..] == body[2..];
    }
  }

  /** An escape other than the five is refused. */
  lemma OtherEscapesRefused(c: char, rest: string, parsed: string)
    requires c != '"' && c != '\\' && c != 'n' && c != 'r' && c != 't'
    ensures Scan(['\\', c] + rest, parsed) == Err(BadEscape(c))
  {
    assert (['\\', c] + rest)[1] == c;
  }

  method ParseBasicString(value: string) returns (r: Parsed<string>)
    requires value != "" && value[0] == '"'
    ensures r == Scan(value[1..], "")
  {
    var parsed := "";
    var escaped := false;
    var index := 1;
    assert "" + value[1..] == value[1..];
    while index < |value|
      invariant 1 <= index <= |value|
      invariant Scan(value[1..], "") == Scan((if escaped then "\\" else "") + value[index..], parsed)
    {
      var character := value[index];
      ghost var rest := (if escaped then "\\" else "") + value[index..];
      if escaped {
        assert rest[1] == character && rest[2..] == value[index + 1..];
        match Unescaped(character) {
          case Some(c) => parsed := parsed + [c];
          case None => return Err(BadEscape(character));
        }
        escaped := false;
      } else {
        assert rest == value[index..] && rest[1..] == value[index + 1..];
        if character == '\\' {
          escaped := true;
          assert rest == "\\" + value[index + 1..];
        } else if character == '"' {
          if Trim(value[index + 1..]) == "" {
            return Ok(parsed);
          }
          return Err(TrailingContent);
        } else {
          parsed := parsed + [character];
        }
      }
      index := index + 1;
      assert "" + value[index..] == value[index..];
    }
    r := Err(Unterminated);
  }

  function FirstOf(s: string, c: char): (k: nat)
    ensures k <= |s| && c !in s[..k]
    ensures k < |s| ==> s[k] == c
  {
    if s == "" || s[0] == c then 0
    else
      var k := FirstOf(s[1..], c);
      assert s[..k + 1] == [s[0]] + s[1..][..k];
      k + 1
  }

  lemma {:induction false} FirstOfParts(a: string, c: char, b: string)
    requires c !in a
    ensures FirstOf(a + [c] + b, c) == |a|
  {
    if a != "" {
      assert (a + [c] + b)[1..] == a[1..] + [c] + b;
      FirstOfParts(a[1..], c, b);
    }
  }

  /** A literal string has no escapes: it ends at the next single quote. */
  function LiteralString(value: string): Parsed<string>
    requires value != ""
  {
    var rest := value[1..];
    var end := FirstOf(rest, '\'');
    if end == |rest| then Err(Unterminated)
    else if Trim(rest[end + 1..]) == "" then Ok(rest[..end])
    else Err(TrailingContent)
  }

  lemma LiteralReads(s: string, tail: string)
    requires '\'' !in s && Blank(tail)
    ensures LiteralString(['\''] + s + ['\''] + tail) == Ok(s)
  {
    var value := ['\''] + s + ['\''] + tail;
    var rest := s + ['\''] + tail;
    assert value[1..] == rest;
    FirstOfParts(s, '\'', tail);
    assert rest[..|s|] == s && rest[|s| + 1..] == tail;
    BlankIsTrimmedAway(tail);
  }

  lemma SplitAt(s: string, k: nat)
    requires k < |s|
    ensures s == s[..k] + [s[k]] + s[k + 1..]
  {
  }

  lemma LiteralSplits(value: string, s: string) returns (tail: string)
    requires value != "" && value[0] == '\'' && LiteralString(value) == Ok(s)
    ensures '\'' !in s && value == ['\''] + s + ['\''] + tail && Blank(tail)
  {
    var rest := value[1..];
    var end := FirstOf(rest, '\'');
    tail := rest[end + 1..];
    SplitAt(rest, end);
    BlankIsTrimmedAway(tail);
    assert value == ['\''] + rest;
    assert ['\''] + (s + ['\''] + tail) == ['\''] + s + ['\''] + tail;
  }

  /** A literal string is read as `s` exactly when it is `s`, without a single quote in it, a quote and blanks. */
  lemma LiteralStringExact(value: string, s: string)
    requires value != "" && value[0] == '\''
    ensures LiteralString(value) == Ok(s)
       <==> '\'' !in s && exists tail :: value == ['\''] + s + ['\''] + tail && Blank(tail)
  {
    if LiteralString(value) == Ok(s) {
      var tail := LiteralSplits(value, s);
    }
    forall tail | '\'' !in s && value == ['\''] + s + ['\''] + tail && Blank(tail)
      ensures LiteralString(value) == Ok(s)
    {
      LiteralReads(s, tail);
    }
  }

  /** Nor does the inside of a literal string leave its quotes. */
  lemma {:induction false} LiteralStaysQuoted(s: string, c: char)
    requires '\'' !in s
    ensures Run(Literal, s) == Literal && FirstBare(Literal, s, c) == |s|
  {
    if s != "" {
      assert s[0] in s;
      LiteralStaysQuoted(s[1..], c);
    }
  }

  function StringValue(value: string): Parsed<string> {
    if value == "" then Err(ExpectedQuoted)
    else if value[0] == '"' then Scan(value[1..], "")
    else if value[0] == '\'' then LiteralString(value)
    else Err(ExpectedQuoted)
  }

  /** A whole literal string begins and ends outside quotes for both scanners. */
  lemma LiteralPasses(s: string, c: char)
    requires '\'' !in s && c != '\''
    ensures Passes(['\''] + s + ['\''], c)
  {
    var inside := s + ['\''];
    LiteralStaysQuoted(s, c);
    RunParts(Literal, s, ['\'']);
    FirstBareParts(Literal, s, ['\''], c);
    assert ['\''] + s + ['\''] == ['\''] + inside && (['\''] + inside)[1..] == inside;
  }

  /** Which texts are strings, and what they denote: the value is a basic string, whose escapes are read, or a
      literal string, which stands for itself. */
  lemma StringValueExact(value: string, s: string)
    ensures StringValue(value) == Ok(s)
       <==> || (exists body, tail ::
                  value == ['"'] + (body + ['"'] + tail) && Denoted(body) == Some(s) && Blank(tail))
            || ('\'' !in s && exists tail :: value == ['\''] + s + ['\''] + tail && Blank(tail))
  {
    if value != "" && value[0] == '"' {
      var text := value[1..];
      BasicStringExact(text, s);
      assert value == ['"'] + text;
      forall body, tail | value == ['"'] + (body + ['"'] + tail)
        ensures text == body + ['"'] + tail
      {
        assert value[1..] == body + ['"'] + tail;
      }
    } else if value != "" && value[0] == '\'' {
      LiteralStringExact(value, s);
    }
  }

  method ParseStringValue(value: string) returns (r: Parsed<string>)
    ensures r == StringValue(value)
  {
    if value == "" {
      return Err(ExpectedQuoted);
    }
    if value[0] == '"' {
      r := ParseBasicString(value);
    } else if value[0] == '\'' {
      r := LiteralString(value);
    } else {
      r := Err(ExpectedQuoted);
    }
  }

  function BoolValue(value: string): Parsed<bool> {
    if Trim(value) == "true" then Ok(true)
    else if Trim(value) == "false" then Ok(false)
    else Err(ExpectedBoolean)
  }

  /** The pieces between the commas of a text; there is always one. */
  function Pieces(s: string): (pieces: seq<string>)
    ensures pieces != []
  {
    var k := FirstOf(s, ',');
    if k == |s| then [s] else [s[..k]] + Pieces(s[k + 1..])
  }

  /** The values of the elements of an array, up to the first that is not a value. */
  function Elements(pieces: seq<string>): Parsed<seq<string>> {
    if pieces == [] then Ok([])
    else
      var n := |pieces| - 1;
      match Elements(pieces[..n])
      case Err(e) => Err(e)
      case Ok(items) =>
        if Trim(pieces[n]) == "" then Err(EmptyElement)
        else match StringValue(Trim(pieces[n]))
          case Ok(item) => Ok(items + [item])
          case Err(e) => Err(e)
  }

  function StringArray(value: string): Parsed<seq<string>> {
    var t := Trim(value);
    if |t| < 2 || t[0] != '[' || t[|t| - 1] != ']' then Err(ExpectedArray)
    else
      var inner := Trim(t[1..|t| - 1]);
      if inner == "" then Ok([]) else Elements(Pieces(inner))
  }

  function JoinCommas(pieces: seq<string>): string {
    if pieces == [] then ""
    else if |pieces| == 1 then pieces[0]
    else pieces[0] + [','] + JoinCommas(pieces[1..])
  }

  ghost predicate WithoutCommas(pieces: seq<string>) {
    forall p <- pieces :: ',' !in p
  }

  lemma {:induction false} PiecesJoin(s: string)
    ensures JoinCommas(Pieces(s)) == s && WithoutCommas(Pieces(s))
    decreases |s|
  {
    var k := FirstOf(s, ',');
    if k == |s| {
      assert s[..k] == s;
    } else {
      PiecesJoin(s[k + 1..]);
      assert ([s[..k]] + Pieces(s[k + 1..]))[1..] == Pieces(s[k + 1..]);
      assert s == s[..k] + [','] + s[k + 1..];
    }
  }

  lemma NoneOf(s: string, c: char)
    requires c !in s
    ensures FirstOf(s, c) == |s|
  {
  }

  lemma LonePiece(s: string)
    requires ',' !in s
    ensures Pieces(s) == [s]
  {
    NoneOf(s, ',');
  }

  lemma FirstPiece(a: string, b: string)
    requires ',' !in a
    ensures Pieces(a + [','] + b) == [a] + Pieces(b)
  {
    FirstOfParts(a, ',', b);
    var s := a + [','] + b;
    assert s[..|a|] == a && s[|a| + 1..] == b;
  }

  lemma {:induction false} JoinedPieces(pieces: seq<string>)
    requires pieces != [] && WithoutCommas(pieces)
    ensures Pieces(JoinCommas(pieces)) == pieces
    decreases |pieces|
  {
    assert pieces[0] in pieces;
    if |pieces| == 1 {
      LonePiece(pieces[0]);
    } else {
      var rest := pieces[1..];
      assert pieces == [pieces[0]] + rest;
      JoinedPieces(rest);
      FirstPiece(pieces[0], JoinCommas(rest));
    }
  }

  lemma {:induction false} ElementsExact(pieces: seq<string>, items: seq<string>)
    ensures Elements(pieces) == Ok(items) <==>
            |items| == |pieces| && forall i | 0 <= i < |pieces| :: StringValue(Trim(pieces[i])) == Ok(items[i])
    decreases |pieces|
  {
    if pieces != [] {
      var n := |pieces| - 1;
      if |items| == |pieces| {
        ElementsExact(pieces[..n], items[..n]);
        assert items == items[..n] + [items[n]];
      }
      if Elements(pieces) == Ok(items) {
        ElementsExact(pieces[..n], Elements(pieces[..n]).value);
      }
    }
  }

  /** The comma-separated pieces are strings, and the items are what they denote. */
  ghost predicate ItemsOf(pieces: seq<string>, items: seq<string>) {
    && pieces != [] && WithoutCommas(pieces) && |items| == |pieces|
    && forall i | 0 <= i < |pieces| :: StringValue(Trim(pieces[i])) == Ok(items[i])
  }

  predicate Bracketed(t: string) {
    |t| >= 2 && t[0] == '[' && t[|t| - 1] == ']'
  }

  /** Nothing, or strings separated by commas. */
  ghost predicate Enumerates(inner: string, items: seq<string>) {
    if inner == "" then items == [] else exists pieces :: JoinCommas(pieces) == inner && ItemsOf(pieces, items)
  }

  lemma InsideExact(inner: string, items: seq<string>)
    requires inner != ""
    ensures Elements(Pieces(inner)) == Ok(items) <==> Enumerates(inner, items)
  {
    PiecesJoin(inner);
    ElementsExact(Pieces(inner), items);
    if Elements(Pieces(inner)) == Ok(items) {
      assert ItemsOf(Pieces(inner), items);
    }
    if pieces :| JoinCommas(pieces) == inner && ItemsOf(pieces, items) {
      JoinedPieces(pieces);
    }
  }

  /** Which texts are arrays: brackets around nothing, or around strings separated by commas, none of which has
      a comma in it; a comma behind the last one is refused. */
  lemma StringArrayExact(value: string, items: seq<string>)
    ensures StringArray(value) == Ok(items) <==>
            var t := Trim(value); Bracketed(t) && Enumerates(Trim(t[1..|t| - 1]), items)
  {
    var t := Trim(value);
    if Bracketed(t) {
      var inner := Trim(t[1..|t| - 1]);
      if inner != "" {
        InsideExact(inner, items);
        assert StringArray(value) == Elements(Pieces(inner));
      }
    }
  }

  /** Once an element is refused, so is the array. */
  lemma {:induction false} FirstFaultStays(pieces: seq<string>, n: nat)
    requires n <= |pieces| && Elements(pieces[..n]).Err?
    ensures Elements(pieces) == Elements(pieces[..n])
  {
    if n == |pieces| {
      assert pieces[..n] == pieces;
    } else {
      assert pieces[..|pieces| - 1][..n] == pieces[..n];
      FirstFaultStays(pieces[..|pieces| - 1], n);
    }
  }

  method ParseStringArray(value: string) returns (r: Parsed<seq<string>>)
    ensures r == StringArray(value)
  {
    var t := Trim(value);
    if |t| < 2 || t[0] != '[' || t[|t| - 1] != ']' {
      return Err(ExpectedArray);
    }
    var inner := Trim(t[1..|t| - 1]);
    if inner == "" {
      return Ok([]);
    }
    var pieces := Pieces(inner);
    var items := [];
    var index := 0;
    while index < |pieces|
      invariant 0 <= index <= |pieces|
      invariant Elements(pieces[..index]) == Ok(items)
    {
      assert pieces[..index + 1][..index] == pieces[..index];
      var element := Trim(pieces[index]);
      if element == "" {
        FirstFaultStays(pieces, index + 1);
        return Err(EmptyElement);
      }
      var item := ParseStringValue(element);
      match item {
        case Err(e) =>
          FirstFaultStays(pieces, index + 1);
          return Err(e);
        case Ok(s) => items := items + [s];
      }
      index := index + 1;
    }
    assert pieces[..index] == pieces;
    r := Ok(items);
  }
}
