/** The configuration front end: the tokenizer of src/config/lexer.rs and the recursive-descent
    parser of src/config/parser.rs, with a printer as their inverse. */
module ConfigSyntax {
  import opened Common

  datatype TokKind = Word(text: string) | OpenBrace | CloseBrace | Semicolon

  datatype Token = Token(kind: TokKind, line: nat)

  datatype Directive = Directive(name: string, args: seq<string>, block: Block, line: nat)

  datatype Block = NoBlock | Body(dirs: seq<Directive>)

  datatype Error =
    | UnterminatedString(line: nat)
    | MissingClose
    | UnexpectedClose(line: nat)
    | UnexpectedSemicolon(line: nat)
    | UnexpectedOpen(line: nat)
    | ExpectedTerminator(line: nat)
    | EofInDirective(line: nat, name: string)

  function Kinds(tokens: seq<Token>): (ks: seq<TokKind>)
    ensures |ks| == |tokens|
  {
    seq(|tokens|, i requires 0 <= i < |tokens| => tokens[i].kind)
  }

  // ===== Lexer =====

  /** Rust's `char::is_whitespace`. */
  predicate IsWhitespace(c: char) {
    || c == ' ' || '\t' <= c <= '\r'
    || c == '\U{0085}' || c == '\U{00A0}' || c == '\U{1680}'
    || '\U{2000}' <= c <= '\U{200A}'
    || c == '\U{2028}' || c == '\U{2029}' || c == '\U{202F}' || c == '\U{205F}' || c == '\U{3000}'
  }

  predicate EndsWord(c: char) {
    IsWhitespace(c) || c == '{' || c == '}' || c == ';' || c == '#'
  }

  function Unescape(c: char): char {
    if c == 'n' then '\n' else if c == 't' then '\t' else if c == 'r' then '\r' else c
  }

  ghost function SkipComment(s: string): (rest: string)
    ensures |rest| <= |s|
  {
    if s == "" || s[0] == '\n' then s else SkipComment(s[1..])
  }

  /** The rest of a quoted string: its text, what follows, and the line it ends on.  A newline
      behind a backslash is not counted. */
  ghost function Quoted(s: string, quote: char, line: nat): (r: Option<(string, string, nat)>)
    ensures r.Some? ==> |r.value.1| < |s|
  {
    if s == "" then None
    else if s[0] == quote then Some(("", s[1..], line))
    else if s[0] == '\\' then
      if |s| == 1 then None else PushChar(Unescape(s[1]), Quoted(s[2..], quote, line))
    else PushChar(s[0], Quoted(s[1..], quote, if s[0] == '\n' then line + 1 else line))
  }

  ghost function PushChar(c: char, r: Option<(string, string, nat)>): Option<(string, string, nat)> {
    if r.Some? then Some(([c] + r.value.0, r.value.1, r.value.2)) else None
  }

  ghost function PushText(text: string, r: Option<(string, string, nat)>): Option<(string, string, nat)> {
    if r.Some? then Some((text + r.value.0, r.value.1, r.value.2)) else None
  }

  lemma PushTextChar(text: string, c: char, r: Option<(string, string, nat)>)
    ensures PushText(text, PushChar(c, r)) == PushText(text + [c], r)
  {
    if r.Some? {
      assert text + ([c] + r.value.0) == text + [c] + r.value.0;
    }
  }

  ghost function Bareword(s: string): string {
    if s == "" || EndsWord(s[0]) then "" else [s[0]] + Bareword(s[1..])
  }

  ghost function AfterBareword(s: string): (rest: string)
    ensures |rest| <= |s|
  {
    if s == "" || EndsWord(s[0]) then s else AfterBareword(s[1..])
  }

  type Lexed = Result<seq<Token>, Error>

  ghost function Push(tokens: seq<Token>, r: Lexed): Lexed {
    if r.Ok? then Ok(tokens + r.value) else r
  }

  lemma PushPush(tokens: seq<Token>, t: Token, r: Lexed)
    ensures Push(tokens, Push([t], r)) == Push(tokens + [t], r)
  {
    if r.Ok? {
      assert tokens + ([t] + r.value) == tokens + [t] + r.value;
    }
  }

  lemma PushNothing(tokens: seq<Token>, r: Lexed)
    ensures Push([], r) == r && Push(tokens, Ok([])) == Ok(tokens)
  {
    if r.Ok? {
      assert [] + r.value == r.value;
    }
    assert tokens + [] == tokens;
  }

  /** The tokens of a text that begins on a given line. */
  ghost function Lexes(s: string, line: nat): Lexed
    decreases |s|
  {
    if s == "" then Ok([])
    else if s[0] == '\n' then Lexes(s[1..], line + 1)
    else if IsWhitespace(s[0]) then Lexes(s[1..], line)
    else if s[0] == '#' then Lexes(SkipComment(s[1..]), line)
    else if s[0] == '{' then Push([Token(OpenBrace, line)], Lexes(s[1..], line))
    else if s[0] == '}' then Push([Token(CloseBrace, line)], Lexes(s[1..], line))
    else if s[0] == ';' then Push([Token(Semicolon, line)], Lexes(s[1..], line))
    else if s[0] == '"' || s[0] == '\'' then
      match Quoted(s[1..], s[0], line)
      case Some((text, rest, end)) => Push([Token(Word(text), line)], Lexes(rest, end))
      case None => Err(UnterminatedString(line))
    else Push([Token(Word(Bareword(s)), line)], Lexes(AfterBareword(s[1..]), line))
  }

  method SkipLine(input: string, start: nat) returns (pos: nat)
    requires start <= |input|
    ensures start <= pos <= |input|
    ensures input[pos..] == SkipComment(input[start..])
  {
    pos := start;
    while pos < |input| && input[pos] != '\n'
      invariant start <= pos <= |input|
      invariant SkipComment(input[start..]) == SkipComment(input[pos..])
    {
      pos := pos + 1;
    }
  }

  method LexQuoted(input: string, start: nat, quote: char, startLine: nat)
    returns (r: Option<string>, pos: nat, line: nat)
    requires start <= |input|
    ensures start <= pos <= |input|
    ensures r.Some? ==> Quoted(input[start..], quote, startLine) == Some((r.value, input[pos..], line))
    ensures r.None? ==> Quoted(input[start..], quote, startLine) == None
  {
    var s := "";
    pos, line := start, startLine;
    ghost var whole := Quoted(input[start..], quote, startLine);
    assert PushText("", whole) == whole by {
      if whole.Some? { assert "" + whole.value.0 == whole.value.0; }
    }
    while true
      invariant start <= pos <= |input|
      invariant whole == PushText(s, Quoted(input[pos..], quote, line))
      decreases |input| - pos
    {
      if pos == |input| {
        return None, pos, line;
      }
      var ch := input[pos];
      assert input[pos..][1..] == input[pos + 1..];
      pos := pos + 1;
      if ch == quote {
        assert s + "" == s;
        return Some(s), pos, line;
      } else if ch == '\\' {
        if pos == |input| {
          return None, pos, line;
        }
        assert input[pos - 1..][2..] == input[pos + 1..];
        PushTextChar(s, Unescape(input[pos]), Quoted(input[pos + 1..], quote, line));
        s := s + [Unescape(input[pos])];
        pos := pos + 1;
      } else {
        if ch == '\n' {
          line := line + 1;
        }
        PushTextChar(s, ch, Quoted(input[pos..], quote, line));
        s := s + [ch];
      }
    }
  }

  method LexBareword(input: string, start: nat) returns (s: string, pos: nat)
    requires start <= |input|
    ensures start <= pos <= |input|
    ensures s == Bareword(input[start..]) && input[pos..] == AfterBareword(input[start..])
  {
    s, pos := "", start;
    while pos < |input| && !EndsWord(input[pos])
      invariant start <= pos <= |input|
      invariant Bareword(input[start..]) == s + Bareword(input[pos..])
      invariant AfterBareword(input[start..]) == AfterBareword(input[pos..])
    {
      assert input[pos..][1..] == input[pos + 1..];
      s := s + [input[pos]];
      pos := pos + 1;
    }
  }

  method Lex(input: string) returns (r: Lexed)
    ensures r == Lexes(input, 1)
  {
    var tokens: seq<Token> := [];
    var line, pos := 1, 0;
    PushNothing([], Lexes(input, 1));
    assert input[0..] == input;
    while pos < |input|
      invariant 0 <= pos <= |input|
      invariant Lexes(input, 1) == Push(tokens, Lexes(input[pos..], line))
    {
      var c := input[pos];
      assert input[pos..][1..] == input[pos + 1..];
      if c == '\n' {
        line, pos := line + 1, pos + 1;
      } else if IsWhitespace(c) {
        pos := pos + 1;
      } else if c == '#' {
        pos := SkipLine(input, pos + 1);
      } else {
        var token;
        var startLine := line;
        token, pos, line := LexToken(input, pos, line);
        if token.None? {
          return Err(UnterminatedString(startLine));
        }
        PushPush(tokens, token.value, Lexes(input[pos..], line));
        tokens := tokens + [token.value];
      }
    }
    PushNothing(tokens, Ok([]));
    r := Ok(tokens);
  }

  /** One punctuation mark, quoted string or bareword. */
  method LexToken(input: string, start: nat, startLine: nat) returns (token: Option<Token>, pos: nat, line: nat)
    requires start < |input| && input[start] != '#' && !IsWhitespace(input[start])
    ensures start < pos <= |input|
    ensures Lexes(input[start..], startLine) ==
            if token.Some? then Push([token.value], Lexes(input[pos..], line))
            else Err(UnterminatedString(startLine))
  {
    var c := input[start];
    assert input[start..][1..] == input[start + 1..];
    pos, line := start + 1, startLine;
    if c == '{' {
      token := Some(Token(OpenBrace, line));
    } else if c == '}' {
      token := Some(Token(CloseBrace, line));
    } else if c == ';' {
      token := Some(Token(Semicolon, line));
    } else if c == '"' || c == '\'' {
      var text;
      text, pos, line := LexQuoted(input, pos, c, line);
      token := if text.Some? then Some(Token(Word(text.value), startLine)) else None;
    } else {
      var text;
      text, pos := LexBareword(input, start);
      token := Some(Token(Word(text), line));
    }
  }

  // ===== Parser =====

  type Parsed = Result<(seq<Directive>, seq<Token>), Error>

  /** The words at the front of a token sequence, and what follows them. */
  ghost function Words(ts: seq<Token>): seq<string> {
    if ts == [] || !ts[0].kind.Word? then [] else [ts[0].kind.text] + Words(ts[1..])
  }

  ghost function AfterWords(ts: seq<Token>): (rest: seq<Token>)
    ensures |rest| <= |ts|
    ensures rest == [] || !rest[0].kind.Word?
  {
    if ts == [] || !ts[0].kind.Word? then ts else AfterWords(ts[1..])
  }

  ghost function PushDirs(ds: seq<Directive>, r: Parsed): Parsed {
    if r.Ok? then Ok((ds + r.value.0, r.value.1)) else r
  }

  /** Directives up to the end of the tokens, or up to a closing brace when nested; with what
      follows them. */
  ghost function Parses(ts: seq<Token>, nested: bool): (r: Parsed)
    ensures r.Ok? ==> |r.value.1| <= |ts|
    decreases |ts|
  {
    if ts == [] then if nested then Err(MissingClose) else Ok(([], []))
    else match ts[0].kind
      case CloseBrace => if nested then Ok(([], ts[1..])) else Err(UnexpectedClose(ts[0].line))
      case Semicolon => Err(UnexpectedSemicolon(ts[0].line))
      case OpenBrace => Err(UnexpectedOpen(ts[0].line))
      case Word(name) =>
        var line, args, rest := ts[0].line, Words(ts[1..]), AfterWords(ts[1..]);
        if rest == [] then Err(EofInDirective(line, name))
        else if rest[0].kind.Semicolon? then
          PushDirs([Directive(name, args, NoBlock, line)], Parses(rest[1..], nested))
        else if rest[0].kind.OpenBrace? then
          var block := Parses(rest[1..], true);
          if block.Err? then block
          else PushDirs([Directive(name, args, Body(block.value.0), line)], Parses(block.value.1, nested))
        else Err(ExpectedTerminator(rest[0].line))
  }

  lemma PushDirsPush(ds: seq<Directive>, d: Directive, r: Parsed)
    ensures PushDirs(ds, PushDirs([d], r)) == PushDirs(ds + [d], r)
  {
    if r.Ok? {
      assert ds + ([d] + r.value.0) == ds + [d] + r.value.0;
    }
  }

  lemma PushDirsNothing(ds: seq<Directive>, r: Parsed, rest: seq<Token>)
    ensures PushDirs([], r) == r && PushDirs(ds, Ok(([], rest))) == Ok((ds, rest))
  {
    if r.Ok? {
      assert [] + r.value.0 == r.value.0;
    }
    assert ds + [] == ds;
  }

  method ParseWords(tokens: seq<Token>, start: nat) returns (args: seq<string>, pos: nat)
    requires start <= |tokens|
    ensures start <= pos <= |tokens|
    ensures args == Words(tokens[start..]) && tokens[pos..] == AfterWords(tokens[start..])
  {
    args, pos := [], start;
    while pos < |tokens| && tokens[pos].kind.Word?
      invariant start <= pos <= |tokens|
      invariant Words(tokens[start..]) == args + Words(tokens[pos..])
      invariant AfterWords(tokens[start..]) == AfterWords(tokens[pos..])
    {
      assert tokens[pos..][1..] == tokens[pos + 1..];
      args := args + [tokens[pos].kind.text];
      pos := pos + 1;
    }
  }

  /** `parse_block`: the cursor moves from `start` to `pos`. */
  method ParseBlock(tokens: seq<Token>, start: nat, nested: bool)
    returns (r: Result<seq<Directive>, Error>, pos: nat)
    requires start <= |tokens|
    ensures start <= pos <= |tokens|
    ensures r.Ok? ==> Parses(tokens[start..], nested) == Ok((r.value, tokens[pos..]))
    ensures r.Err? ==> Parses(tokens[start..], nested) == Err(r.error)
    decreases |tokens| - start
  {
    var dirs: seq<Directive> := [];
    pos := start;
    PushDirsNothing([], Parses(tokens[start..], nested), []);
    while true
      invariant start <= pos <= |tokens|
      invariant Parses(tokens[start..], nested) == PushDirs(dirs, Parses(tokens[pos..], nested))
      decreases |tokens| - pos
    {
      if pos == |tokens| {
        PushDirsNothing(dirs, Ok(([], [])), []);
        assert tokens[pos..] == [];
        return if nested then Err(MissingClose) else Ok(dirs), pos;
      }
      var t := tokens[pos];
      assert tokens[pos..][1..] == tokens[pos + 1..];
      match t.kind
      case CloseBrace =>
        PushDirsNothing(dirs, Ok(([], [])), tokens[pos + 1..]);
        return if nested then Ok(dirs) else Err(UnexpectedClose(t.line)), if nested then pos + 1 else pos;
      case Semicolon =>
        return Err(UnexpectedSemicolon(t.line)), pos;
      case OpenBrace =>
        return Err(UnexpectedOpen(t.line)), pos;
      case Word(name) =>
        var d;
        d, pos := ParseDirective(tokens, pos, nested, name, t.line);
        if d.Err? {
          return Err(d.error), pos;
        }
        PushDirsPush(dirs, d.value, Parses(tokens[pos..], nested));
        dirs := dirs + [d.value];
    }
  }

  /** One directive: its words, then a semicolon or a block. */
  method ParseDirective(tokens: seq<Token>, start: nat, nested: bool, name: string, line: nat)
    returns (r: Result<Directive, Error>, pos: nat)
    requires start < |tokens| && tokens[start] == Token(Word(name), line)
    ensures start < pos <= |tokens|
    ensures r.Ok? ==> Parses(tokens[start..], nested) == PushDirs([r.value], Parses(tokens[pos..], nested))
    ensures r.Err? ==> Parses(tokens[start..], nested) == Err(r.error)
    decreases |tokens| - start, 0
  {
    var args;
    assert tokens[start..][1..] == tokens[start + 1..];
    args, pos := ParseWords(tokens, start + 1);
    if pos == |tokens| {
      return Err(EofInDirective(line, name)), pos;
    }
    assert tokens[pos..][1..] == tokens[pos + 1..];
    match tokens[pos].kind
    case Semicolon =>
      return Ok(Directive(name, args, NoBlock, line)), pos + 1;
    case OpenBrace =>
      var block;
      block, pos := ParseBlock(tokens, pos + 1, true);
      if block.Err? {
        return Err(block.error), pos;
      }
      return Ok(Directive(name, args, Body(block.value), line)), pos;
    case CloseBrace =>
      return Err(ExpectedTerminator(tokens[pos].line)), pos;
  }

  method Parse(tokens: seq<Token>) returns (r: Result<seq<Directive>, Error>)
    ensures r.Ok? ==> Parses(tokens, false) == Ok((r.value, []))
    ensures r.Err? ==> Parses(tokens, false) == Err(r.error)
  {
    var pos;
    assert tokens[0..] == tokens;
    r, pos := ParseBlock(tokens, 0, false);
    TopLevelConsumesAll(tokens);
  }

  lemma {:induction false} TopLevelConsumesAll(ts: seq<Token>)
    ensures Parses(ts, false).Ok? ==> Parses(ts, false).value.1 == []
    decreases |ts|
  {
    if ts != [] && ts[0].kind.Word? {
      var rest := AfterWords(ts[1..]);
      if rest != [] && rest[0].kind.Semicolon? {
        TopLevelConsumesAll(rest[1..]);
      } else if rest != [] && rest[0].kind.OpenBrace? {
        var block := Parses(rest[1..], true);
        if block.Ok? {
          TopLevelConsumesAll(block.value.1);
        }
      }
    }
  }

  // ===== The language that is parsed =====

  ghost function WordTokens(ws: seq<string>): seq<TokKind> {
    if ws == [] then [] else [Word(ws[0])] + WordTokens(ws[1..])
  }

  /** The token kinds that spell a directive tree. */
  ghost function Flatten(ds: seq<Directive>): seq<TokKind> {
    if ds == [] then [] else FlattenOne(ds[0]) + Flatten(ds[1..])
  }

  ghost function FlattenOne(d: Directive): seq<TokKind> {
    [Word(d.name)] + WordTokens(d.args) +
    match d.block
    case NoBlock => [Semicolon]
    case Body(dirs) => [OpenBrace] + Flatten(dirs) + [CloseBrace]
  }

  /** A tree without its line numbers. */
  ghost function Erase(ds: seq<Directive>): seq<Directive> {
    if ds == [] then [] else [EraseOne(ds[0])] + Erase(ds[1..])
  }

  ghost function EraseOne(d: Directive): Directive {
    Directive(d.name, d.args, match d.block case NoBlock => NoBlock case Body(dirs) => Body(Erase(dirs)), 0)
  }

  lemma KindsSplit(ts: seq<Token>, i: nat)
    requires i <= |ts|
    ensures Kinds(ts) == Kinds(ts[..i]) + Kinds(ts[i..])
  {
  }

  lemma {:induction false} WordsSpell(ts: seq<Token>)
    ensures Kinds(ts) == WordTokens(Words(ts)) + Kinds(AfterWords(ts))
  {
    if ts != [] && ts[0].kind.Word? {
      WordsSpell(ts[1..]);
      KindsSplit(ts, 1);
    }
  }

  ghost function Closing(nested: bool): seq<TokKind> {
    if nested then [CloseBrace] else []
  }

  lemma FlattenCons(d: Directive, ds: seq<Directive>)
    ensures Flatten([d] + ds) == FlattenOne(d) + Flatten(ds)
    ensures Erase([d] + ds) == [EraseOne(d)] + Erase(ds)
  {
    assert ([d] + ds)[1..] == ds;
  }

  lemma Regroup<T>(w: seq<T>, a: seq<T>, s: seq<T>, f: seq<T>, c: seq<T>, r: seq<T>)
    ensures w + (a + (s + (f + c + r))) == ((w + a + s) + f) + c + r
  {
  }

  lemma RegroupBlock<T>(o: seq<T>, b: seq<T>, e: seq<T>, t: seq<T>)
    ensures o + (b + e + t) == (o + b + e) + t
  {
  }

  lemma KindsCons(ts: seq<Token>)
    requires ts != []
    ensures Kinds(ts) == [ts[0].kind] + Kinds(ts[1..])
  {
  }

  /** The tokens of a first directive and of what follows, put together. */
  lemma SpellFirst(ts: seq<Token>, nested: bool, d: Directive, ds: seq<Directive>, rest: seq<Token>,
                   last: seq<TokKind>)
    requires ts != [] && ts[0].kind == Word(d.name) && d.args == Words(ts[1..])
    requires FlattenOne(d) == [Word(d.name)] + WordTokens(d.args) + last
    requires Kinds(AfterWords(ts[1..])) == last + (Flatten(ds) + Closing(nested) + Kinds(rest))
    ensures Kinds(ts) == Flatten([d] + ds) + Closing(nested) + Kinds(rest)
  {
    KindsCons(ts);
    WordsSpell(ts[1..]);
    FlattenCons(d, ds);
    Regroup([Word(d.name)], WordTokens(d.args), last, Flatten(ds), Closing(nested), Kinds(rest));
  }

  /** What is parsed is spelled by the tokens: soundness of the parser. */
  lemma {:induction false} ParseIsSound(ts: seq<Token>, nested: bool, ds: seq<Directive>, rest: seq<Token>)
    requires Parses(ts, nested) == Ok((ds, rest))
    ensures Kinds(ts) == Flatten(ds) + Closing(nested) + Kinds(rest)
    decreases |ts|
  {
    if ts != [] {
      KindsCons(ts);
      if ts[0].kind.Word? {
        var name, line, args, next := ts[0].kind.text, ts[0].line, Words(ts[1..]), AfterWords(ts[1..]);
        KindsCons(next);
        if next[0].kind.Semicolon? {
          var d := Directive(name, args, NoBlock, line);
          var ds' := Parses(next[1..], nested).value.0;
          ParseIsSound(next[1..], nested, ds', rest);
          SpellFirst(ts, nested, d, ds', rest, [Semicolon]);
        } else {
          var (body, after) := Parses(next[1..], true).value;
          var d := Directive(name, args, Body(body), line);
          var ds' := Parses(after, nested).value.0;
          ParseIsSound(next[1..], true, body, after);
          ParseIsSound(after, nested, ds', rest);
          RegroupBlock([OpenBrace], Flatten(body), [CloseBrace], Kinds(after));
          SpellFirst(ts, nested, d, ds', rest, [OpenBrace] + Flatten(body) + [CloseBrace]);
        }
      }
    }
  }

  lemma KindsSuffix(ts: seq<Token>, head: seq<TokKind>, tail: seq<TokKind>)
    requires Kinds(ts) == head + tail
    ensures |head| <= |ts| && Kinds(ts[|head|..]) == tail
    ensures forall i | 0 <= i < |head| :: ts[i].kind == head[i]
  {
    var n := |head|;
    assert forall i | 0 <= i < n :: ts[i].kind == Kinds(ts)[i];
    assert forall i | 0 <= i < |ts| - n :: Kinds(ts[n..])[i] == Kinds(ts)[n + i] == tail[i];
  }

  lemma KindsTail(ts: seq<Token>, k: TokKind, tail: seq<TokKind>)
    requires Kinds(ts) == [k] + tail
    ensures ts != [] && ts[0].kind == k && Kinds(ts[1..]) == tail
  {
    KindsSuffix(ts, [k], tail);
  }

  /** Arguments end where the words end. */
  lemma {:induction false} WordsUnique(ts: seq<Token>, args: seq<string>, tail: seq<TokKind>)
    requires Kinds(ts) == WordTokens(args) + tail && tail != [] && !tail[0].Word?
    ensures Words(ts) == args && Kinds(AfterWords(ts)) == tail
  {
    if args == [] {
      assert Kinds(ts) == tail;
      assert ts[0].kind == Kinds(ts)[0];
    } else {
      assert Kinds(ts) == [Word(args[0])] + (WordTokens(args[1..]) + tail);
      KindsTail(ts, Word(args[0]), WordTokens(args[1..]) + tail);
      WordsUnique(ts[1..], args[1..], tail);
      assert args == [args[0]] + args[1..];
    }
  }

  /** The front of a spelled tree: its first directive's name and arguments, then the rest. */
  lemma SpelledFirst(ts: seq<Token>, d: Directive, last: seq<TokKind>, tail: seq<TokKind>)
    requires Kinds(ts) == [Word(d.name)] + (WordTokens(d.args) + (last + tail))
    requires last != [] && !last[0].Word?
    ensures ts != [] && ts[0].kind == Word(d.name) && Words(ts[1..]) == d.args
    ensures var next := AfterWords(ts[1..]);
            && next != [] && next[0].kind == last[0]
            && Kinds(next[1..]) == last[1..] + tail
  {
    KindsTail(ts, Word(d.name), WordTokens(d.args) + (last + tail));
    HeadTail(last, tail);
    WordsUnique(ts[1..], d.args, last + tail);
    KindsTail(AfterWords(ts[1..]), last[0], last[1..] + tail);
  }

  lemma HeadTail<T>(s: seq<T>, t: seq<T>)
    requires s != []
    ensures s + t == [s[0]] + (s[1..] + t)
  {
  }

  lemma RegroupAll<T>(w: seq<T>, a: seq<T>, s: seq<T>, f: seq<T>, m: seq<T>)
    ensures ((w + a + s) + f) + m == w + (a + (s + (f + m)))
  {
  }

  /** The tokens of a directive after its words. */
  ghost function Ending(d: Directive): seq<TokKind> {
    if d.block.NoBlock? then [Semicolon] else [OpenBrace] + Flatten(d.block.dirs) + [CloseBrace]
  }

  lemma SpelledTree(ts: seq<Token>, d: Directive, others: seq<Directive>, tail: seq<TokKind>)
    requires Kinds(ts) == Flatten([d] + others) + tail
    ensures ts != [] && ts[0].kind == Word(d.name) && Words(ts[1..]) == d.args
    ensures var next := AfterWords(ts[1..]);
            && next != [] && next[0].kind == Ending(d)[0]
            && Kinds(next[1..]) == match d.block
                                   case NoBlock => Flatten(others) + tail
                                   case Body(dirs) => Flatten(dirs) + (Closing(true) + (Flatten(others) + tail))
  {
    FlattenCons(d, others);
    RegroupAll([Word(d.name)], WordTokens(d.args), Ending(d), Flatten(others), tail);
    var mid := Flatten(others) + tail;
    SpelledFirst(ts, d, Ending(d), mid);
    match d.block
    case NoBlock => assert Ending(d)[1..] + mid == mid;
    case Body(dirs) => assert Ending(d)[1..] + mid == Flatten(dirs) + (Closing(true) + mid);
  }

  /** The parser gets through tokens with `ds` and leaves tokens of the kinds `more`. */
  ghost predicate ParsesTo(ts: seq<Token>, nested: bool, ds: seq<Directive>, more: seq<TokKind>) {
    && Parses(ts, nested).Ok?
    && Erase(Parses(ts, nested).value.0) == Erase(ds)
    && Kinds(Parses(ts, nested).value.1) == more
  }

  lemma SimpleParses(ts: seq<Token>, nested: bool, d: Directive, others: seq<Directive>, more: seq<TokKind>)
    requires d.block.NoBlock?
    requires ts != [] && ts[0].kind == Word(d.name) && Words(ts[1..]) == d.args
    requires var next := AfterWords(ts[1..]);
             next != [] && next[0].kind.Semicolon? && ParsesTo(next[1..], nested, others, more)
    ensures ParsesTo(ts, nested, [d] + others, more)
  {
    var ds := Parses(AfterWords(ts[1..])[1..], nested).value.0;
    FlattenCons(Directive(d.name, d.args, NoBlock, ts[0].line), ds);
    FlattenCons(d, others);
  }

  lemma BlockParses(ts: seq<Token>, nested: bool, d: Directive, others: seq<Directive>, mid: seq<TokKind>, more: seq<TokKind>)
    requires d.block.Body?
    requires ts != [] && ts[0].kind == Word(d.name) && Words(ts[1..]) == d.args
    requires var next := AfterWords(ts[1..]);
             && next != [] && next[0].kind.OpenBrace? && ParsesTo(next[1..], true, d.block.dirs, mid)
             && ParsesTo(Parses(next[1..], true).value.1, nested, others, more)
    ensures ParsesTo(ts, nested, [d] + others, more)
  {
    var (inner, after) := Parses(AfterWords(ts[1..])[1..], true).value;
    FlattenCons(Directive(d.name, d.args, Body(inner), ts[0].line), Parses(after, nested).value.0);
    FlattenCons(d, others);
  }

  /** Whatever spells a tree is parsed into that tree: completeness of the parser. */
  lemma {:induction false} ParseIsComplete(ts: seq<Token>, nested: bool, ds: seq<Directive>, more: seq<TokKind>)
    requires Kinds(ts) == Flatten(ds) + (Closing(nested) + more)
    requires !nested ==> more == []
    ensures ParsesTo(ts, nested, ds, more)
    decreases |ts|
  {
    var tail := Closing(nested) + more;
    if ds == [] {
      assert Kinds(ts) == tail;
      if nested { KindsSuffix(ts, [CloseBrace], more); }
    } else {
      var d, others := ds[0], ds[1..];
      assert ds == [d] + others;
      SpelledTree(ts, d, others, tail);
      var next := AfterWords(ts[1..]);
      if d.block.NoBlock? {
        ParseIsComplete(next[1..], nested, others, more);
        SimpleParses(ts, nested, d, others, more);
      } else {
        var mid := Flatten(others) + tail;
        ParseIsComplete(next[1..], true, d.block.dirs, mid);
        ParseIsComplete(Parses(next[1..], true).value.1, nested, others, more);
        BlockParses(ts, nested, d, others, mid, more);
      }
    }
  }

  /** `parse` succeeds exactly on the token sequences that spell some directive tree, and returns
      that tree. */
  lemma ParseIffSpelled(ts: seq<Token>)
    ensures Parses(ts, false).Ok? <==> exists ds :: Kinds(ts) == Flatten(ds)
    ensures forall ds | Kinds(ts) == Flatten(ds) ::
              Parses(ts, false).Ok? && Erase(Parses(ts, false).value.0) == Erase(ds)
  {
    if Parses(ts, false).Ok? {
      var (ds, rest) := Parses(ts, false).value;
      TopLevelConsumesAll(ts);
      ParseIsSound(ts, false, ds, rest);
      assert Kinds(ts) == Flatten(ds) by { assert Kinds([]) == []; }
    }
    forall ds | Kinds(ts) == Flatten(ds)
      ensures Parses(ts, false).Ok? && Erase(Parses(ts, false).value.0) == Erase(ds)
    {
      assert Flatten(ds) + (Closing(false) + []) == Flatten(ds);
      ParseIsComplete(ts, false, ds, []);
    }
  }

  // ===== Errors =====

  /** What comes after complete directives is parsed as if it came first. */
  lemma {:induction false} ParsesOn(ts: seq<Token>, nested: bool, ds: seq<Directive>, more: seq<Token>) returns (done: seq<Directive>)
    requires Kinds(ts) == Flatten(ds) + Kinds(more) && Suffix(more, ts)
    ensures Parses(ts, nested) == PushDirs(done, Parses(more, nested))
    decreases |ts|
  {
    PushDirsNothing([], Parses(more, nested), []);
    if ds == [] {
      assert |Kinds(ts)| == |Kinds(more)|;
      assert ts == more;
      done := [];
    } else {
      var d, others := ds[0], ds[1..];
      assert ds == [d] + others;
      SpelledTree(ts, d, others, Kinds(more));
      var body := AfterWords(ts[1..])[1..];
      TerminatorSuffix(ts);
      if d.block.NoBlock? {
        EndsWith(ts, body, Flatten(others), more);
        var later := ParsesOn(body, nested, others, more);
        done := [Directive(d.name, d.args, NoBlock, ts[0].line)] + later;
        PushDirsMany([Directive(d.name, d.args, NoBlock, ts[0].line)], later, Parses(more, nested));
      } else {
        ParseIsComplete(body, true, d.block.dirs, Flatten(others) + Kinds(more));
        var (inner, after) := Parses(body, true).value;
        ParsesSuffix(body, true);
        SuffixTrans(after, body, ts);
        EndsWith(ts, after, Flatten(others), more);
        var later := ParsesOn(after, nested, others, more);
        done := [Directive(d.name, d.args, Body(inner), ts[0].line)] + later;
        PushDirsMany([Directive(d.name, d.args, Body(inner), ts[0].line)], later, Parses(more, nested));
      }
    }
  }

  lemma PushDirsMany(a: seq<Directive>, b: seq<Directive>, r: Parsed)
    ensures PushDirs(a, PushDirs(b, r)) == PushDirs(a + b, r)
  {
    if r.Ok? {
      assert a + (b + r.value.0) == a + b + r.value.0;
    }
  }

  lemma EndsWith(ts: seq<Token>, part: seq<Token>, front: seq<TokKind>, more: seq<Token>)
    requires Suffix(part, ts) && Suffix(more, ts) && Kinds(part) == front + Kinds(more)
    ensures Suffix(more, part)
  {
    assert |part| == |front| + |more|;
  }

  ghost predicate Suffix(a: seq<Token>, ts: seq<Token>) {
    |a| <= |ts| && a == ts[|ts| - |a|..]
  }

  lemma SuffixTrans(a: seq<Token>, b: seq<Token>, c: seq<Token>)
    requires Suffix(a, b) && Suffix(b, c)
    ensures Suffix(a, c)
  {
  }

  lemma SuffixTail(a: seq<Token>, ts: seq<Token>)
    requires Suffix(a, ts) && a != []
    ensures Suffix(a[1..], ts)
  {
  }

  lemma {:induction false} AfterWordsSuffix(ts: seq<Token>)
    ensures Suffix(AfterWords(ts), ts)
  {
    if ts != [] && ts[0].kind.Word? {
      AfterWordsSuffix(ts[1..]);
    }
  }

  /** What follows the words behind a directive's name, but for their terminator. */
  lemma TerminatorSuffix(ts: seq<Token>)
    requires ts != [] && AfterWords(ts[1..]) != []
    ensures Suffix(AfterWords(ts[1..])[1..], ts)
  {
    AfterWordsSuffix(ts[1..]);
    SuffixTail(AfterWords(ts[1..]), ts[1..]);
    SuffixTrans(AfterWords(ts[1..])[1..], ts[1..], ts);
  }

  lemma {:induction false} ParsesSuffix(ts: seq<Token>, nested: bool)
    requires Parses(ts, nested).Ok?
    ensures Suffix(Parses(ts, nested).value.1, ts)
    decreases |ts|
  {
    if ts != [] && ts[0].kind.Word? {
      var body := AfterWords(ts[1..])[1..];
      TerminatorSuffix(ts);
      var after := body;
      if AfterWords(ts[1..])[0].kind.OpenBrace? {
        ParsesSuffix(body, true);
        after := Parses(body, true).value.1;
        SuffixTrans(after, body, ts);
      }
      ParsesSuffix(after, nested);
      SuffixTrans(Parses(after, nested).value.1, after, ts);
    }
  }

  /** The first `n` tokens are words and the next, if any, is not. */
  ghost predicate WordsUpTo(ts: seq<Token>, n: nat) {
    && 0 < n <= |ts|
    && (forall i | 0 <= i < n :: ts[i].kind.Word?)
    && (n < |ts| ==> !ts[n].kind.Word?)
  }

  lemma {:induction false} AfterWordsAt(ts: seq<Token>, n: nat)
    requires n <= |ts| && (forall i | 0 <= i < n :: ts[i].kind.Word?) && (n < |ts| ==> !ts[n].kind.Word?)
    ensures AfterWords(ts) == ts[n..]
  {
    if n > 0 {
      AfterWordsAt(ts[1..], n - 1);
    }
  }

  /** Where parsing fails: after complete directives, at a closing brace that closes nothing, at a
      semicolon or an opening brace without a name, at the end inside a directive or a block, or at a
      closing brace inside a directive.  The error names the line of that token, or of the
      directive. */
  lemma ParseErrors(ts: seq<Token>, nested: bool, ds: seq<Directive>, bad: seq<Token>, n: nat)
    requires Suffix(bad, ts) && Kinds(ts) == Flatten(ds) + Kinds(bad)
    ensures bad == [] && nested ==> Parses(ts, nested) == Err(MissingClose)
    ensures bad != [] && bad[0].kind.CloseBrace? && !nested ==> Parses(ts, nested) == Err(UnexpectedClose(bad[0].line))
    ensures bad != [] && bad[0].kind.Semicolon? ==> Parses(ts, nested) == Err(UnexpectedSemicolon(bad[0].line))
    ensures bad != [] && bad[0].kind.OpenBrace? ==> Parses(ts, nested) == Err(UnexpectedOpen(bad[0].line))
    ensures WordsUpTo(bad, n) && n == |bad| ==>
              Parses(ts, nested) == Err(EofInDirective(bad[0].line, bad[0].kind.text))
    ensures WordsUpTo(bad, n) && n < |bad| && bad[n].kind.CloseBrace? ==>
              Parses(ts, nested) == Err(ExpectedTerminator(bad[n].line))
  {
    var done := ParsesOn(ts, nested, ds, bad);
    if WordsUpTo(bad, n) {
      AfterWordsAt(bad[1..], n - 1);
    }
  }

  // ===== Printing =====

  /** A word in double quotes, with quotes and backslashes escaped. */
  ghost function Escape(w: string): string {
    if w == "" then ""
    else (if w[0] == '"' || w[0] == '\\' then ['\\', w[0]] else [w[0]]) + Escape(w[1..])
  }

  ghost function PrintToken(k: TokKind): string {
    match k
    case Word(text) => "\"" + Escape(text) + "\" "
    case OpenBrace => "{"
    case CloseBrace => "}"
    case Semicolon => ";"
  }

  ghost function Print(ks: seq<TokKind>): string {
    if ks == [] then "" else PrintToken(ks[0]) + Print(ks[1..])
  }

  /** An escaped word is read back as it was, whatever characters it has. */
  lemma {:induction false} QuotedEscape(w: string, rest: string, line: nat) returns (end: nat)
    ensures Quoted(Escape(w) + "\"" + rest, '"', line) == Some((w, rest, end))
  {
    var s := Escape(w) + "\"" + rest;
    if w == "" {
      end := line;
      assert s == ['"'] + rest;
    } else {
      var tail := Escape(w[1..]) + "\"" + rest;
      assert w == [w[0]] + w[1..];
      if w[0] == '"' || w[0] == '\\' {
        end := QuotedEscape(w[1..], rest, line);
        assert s == ['\\', w[0]] + tail;
        assert s[2..] == tail;
      } else {
        end := QuotedEscape(w[1..], rest, if w[0] == '\n' then line + 1 else line);
        assert s == [w[0]] + tail;
        assert s[1..] == tail;
      }
    }
  }

  lemma LexWord(text: string, rest: string, line: nat) returns (end: nat)
    ensures Lexes(PrintToken(Word(text)) + rest, line) == Push([Token(Word(text), line)], Lexes(rest, end))
  {
    var s := PrintToken(Word(text)) + rest;
    var body := Escape(text) + "\"" + (" " + rest);
    assert s == ['"'] + body && s[1..] == body;
    end := QuotedEscape(text, " " + rest, line);
    assert Quoted(s[1..], '"', line) == Some((text, " " + rest, end));
    assert Lexes(" " + rest, end) == Lexes(rest, end) by { assert (" " + rest)[1..] == rest; }
  }

  lemma LexMark(k: TokKind, rest: string, line: nat)
    requires !k.Word?
    ensures Lexes(PrintToken(k) + rest, line) == Push([Token(k, line)], Lexes(rest, line))
  {
    assert (PrintToken(k) + rest)[1..] == rest;
  }

  /** Any sequence of tokens survives printing and lexing. */
  lemma {:induction false} LexPrint(ks: seq<TokKind>, line: nat)
    ensures Lexes(Print(ks), line).Ok? && Kinds(Lexes(Print(ks), line).value) == ks
    decreases ks
  {
    if ks != [] {
      var rest, end := Print(ks[1..]), line;
      if ks[0].Word? {
        end := LexWord(ks[0].text, rest, line);
      } else {
        LexMark(ks[0], rest, line);
      }
      LexPrint(ks[1..], end);
      KindsPush(Token(ks[0], line), Lexes(rest, end).value);
      assert ks == [ks[0]] + ks[1..];
    }
  }

  lemma KindsPush(t: Token, ts: seq<Token>)
    ensures Kinds([t] + ts) == [t.kind] + Kinds(ts)
  {
  }

  /** Round trip: any directive tree, with arbitrary strings in it, can be printed, lexed and
      parsed back to the same tree. */
  lemma PrintRoundTrip(ds: seq<Directive>)
    ensures var lexed := Lexes(Print(Flatten(ds)), 1);
            && lexed.Ok?
            && Parses(lexed.value, false).Ok?
            && Erase(Parses(lexed.value, false).value.0) == Erase(ds)
  {
    LexPrint(Flatten(ds), 1);
    ParseIffSpelled(Lexes(Print(Flatten(ds)), 1).value);
  }

  // ===== Other ways to write the same tokens =====

  /** The 25 white-space characters of Unicode. */
  lemma WhitespaceChars(c: char)
    ensures IsWhitespace(c) <==>
            || c == '\t' || c == '\n' || c == '\U{000B}' || c == '\U{000C}' || c == '\r' || c == ' '
            || c == '\U{0085}' || c == '\U{00A0}' || c == '\U{1680}' || c == '\U{2000}' || c == '\U{2001}'
            || c == '\U{2002}' || c == '\U{2003}' || c == '\U{2004}' || c == '\U{2005}' || c == '\U{2006}'
            || c == '\U{2007}' || c == '\U{2008}' || c == '\U{2009}' || c == '\U{200A}' || c == '\U{2028}'
            || c == '\U{2029}' || c == '\U{202F}' || c == '\U{205F}' || c == '\U{3000}'
  {
  }

  /** A word that needs no quotes: no white space, brace, semicolon or hash in it, and no quote in
      front. */
  ghost predicate Plain(w: string) {
    && w != "" && w[0] != '"' && w[0] != '\''
    && forall i | 0 <= i < |w| ::
         !IsWhitespace(w[i]) && w[i] != '{' && w[i] != '}' && w[i] != ';' && w[i] != '#'
  }

  /** What ends such a word. */
  ghost predicate Stops(rest: string) {
    rest == "" || IsWhitespace(rest[0]) || rest[0] == '{' || rest[0] == '}' || rest[0] == ';' || rest[0] == '#'
  }

  lemma {:induction false} BarewordStops(w: string, rest: string)
    requires Stops(rest)
    requires forall i | 0 <= i < |w| ::
               !IsWhitespace(w[i]) && w[i] != '{' && w[i] != '}' && w[i] != ';' && w[i] != '#'
    ensures Bareword(w + rest) == w && AfterBareword(w + rest) == rest
  {
    if w == "" {
      assert w + rest == rest;
    } else {
      BarewordStops(w[1..], rest);
      assert (w + rest)[1..] == w[1..] + rest;
      assert w == [w[0]] + w[1..];
    }
  }

  /** A plain word is one token up to whatever stops it. */
  lemma LexPlain(w: string, rest: string, line: nat)
    requires Plain(w) && Stops(rest)
    ensures Lexes(w + rest, line) == Push([Token(Word(w), line)], Lexes(rest, line))
  {
    BarewordStops(w, rest);
    BarewordStops(w[1..], rest);
    assert (w + rest)[1..] == w[1..] + rest;
  }

  ghost function Newlines(w: string): nat {
    if w == "" then 0 else (if w[0] == '\n' then 1 else 0) + Newlines(w[1..])
  }

  /** A quoted text without quotes and backslashes is taken as it is; its newlines count, and without
      a closing quote there is none. */
  lemma {:induction false} RawInQuotes(w: string, quote: char, rest: string, line: nat)
    requires quote !in w && '\\' !in w
    ensures Quoted(w + [quote] + rest, quote, line) == Some((w, rest, line + Newlines(w)))
    ensures Quoted(w, quote, line) == None
  {
    var s := w + [quote] + rest;
    if w == "" {
      assert s == [quote] + rest;
    } else {
      RawInQuotes(w[1..], quote, rest, if w[0] == '\n' then line + 1 else line);
      assert s[1..] == w[1..] + [quote] + rest;
      assert w == [w[0]] + w[1..];
    }
  }

  /** An opening quote without a closing one is an error on its line. */
  lemma Unterminated(w: string, quote: char, line: nat)
    requires (quote == '"' || quote == '\'') && quote !in w && '\\' !in w
    ensures Lexes([quote] + w, line) == Err(UnterminatedString(line))
  {
    RawInQuotes(w, quote, "", line);
    assert ([quote] + w)[1..] == w;
  }

  /** A backslash before any other character stands for that character. */
  lemma OtherEscapes(c: char, quote: char, rest: string, line: nat)
    requires c != 'n' && c != 't' && c != 'r' && quote != '\\'
    ensures Quoted(['\\', c, quote] + rest, quote, line) == Some(([c], rest, line))
  {
    var s := ['\\', c, quote] + rest;
    assert s[2..] == [quote] + rest && s[2..][1..] == rest;
    assert Quoted(s[2..], quote, line) == Some(("", rest, line));
    assert [c] + "" == [c];
  }

  /** How a token or the space between tokens may be written: a plain word as it is, any word in
      either quotes, a mark, a white-space character, or a comment. */
  datatype Piece =
    | Bare(text: string)
    | InQuotes(text: string, quote: char)
    | Mark(kind: TokKind)
    | White(c: char)
    | Comment(text: string)

  /** The quote, backslash, newline, tab and carriage return of a text, escaped. */
  ghost function EscapeIn(w: string, quote: char): string {
    if w == "" then ""
    else
      (if w[0] == '\n' then "\\n" else if w[0] == '\t' then "\\t" else if w[0] == '\r' then "\\r"
       else if w[0] == quote || w[0] == '\\' then ['\\', w[0]] else [w[0]])
      + EscapeIn(w[1..], quote)
  }

  ghost function Write(p: Piece): string {
    match p
    case Bare(text) => text
    case InQuotes(text, quote) => [quote] + EscapeIn(text, quote) + [quote]
    case Mark(kind) => PrintToken(kind)
    case White(c) => [c]
    case Comment(text) => "#" + text
  }

  ghost function WriteAll(ps: seq<Piece>): string {
    if ps == [] then "" else Write(ps[0]) + WriteAll(ps[1..])
  }

  /** A piece that may stand in front of the others: a bare word must be kept apart from the next
      word, and a comment needs the end of its line. */
  ghost predicate Fits(p: Piece, others: seq<Piece>) {
    match p
    case Bare(text) => Plain(text) && (others == [] || !(others[0].Bare? || others[0].InQuotes?))
    case InQuotes(_, quote) => quote == '"' || quote == '\''
    case Mark(kind) => !kind.Word?
    case White(c) => IsWhitespace(c)
    case Comment(text) => '\n' !in text && (others == [] || others[0] == White('\n'))
  }

  ghost predicate Layout(ps: seq<Piece>) {
    ps == [] || (Fits(ps[0], ps[1..]) && Layout(ps[1..]))
  }

  /** The tokens of one piece, and the line behind it. */
  ghost function TokenOf(p: Piece, line: nat): seq<Token> {
    match p
    case Bare(text) => [Token(Word(text), line)]
    case InQuotes(text, _) => [Token(Word(text), line)]
    case Mark(kind) => [Token(kind, line)]
    case White(_) => []
    case Comment(_) => []
  }

  ghost function LineAfter(p: Piece, line: nat): nat {
    if p == White('\n') then line + 1 else line
  }

  /** The tokens that a layout stands for, with their lines. */
  ghost function TokensOf(ps: seq<Piece>, line: nat): seq<Token> {
    if ps == [] then [] else TokenOf(ps[0], line) + TokensOf(ps[1..], LineAfter(ps[0], line))
  }

  lemma {:induction false} QuotedEscapeIn(w: string, quote: char, rest: string, line: nat)
    requires quote == '"' || quote == '\''
    ensures Quoted(EscapeIn(w, quote) + [quote] + rest, quote, line) == Some((w, rest, line))
  {
    var s := EscapeIn(w, quote) + [quote] + rest;
    if w == "" {
      assert s == [quote] + rest;
    } else {
      QuotedEscapeIn(w[1..], quote, rest, line);
      var tail := EscapeIn(w[1..], quote) + [quote] + rest;
      assert w == [w[0]] + w[1..];
      if w[0] == '\n' || w[0] == '\t' || w[0] == '\r' || w[0] == quote || w[0] == '\\' {
        var c := if w[0] == '\n' then 'n' else if w[0] == '\t' then 't' else if w[0] == '\r' then 'r' else w[0];
        assert s == ['\\', c] + tail;
        assert s[2..] == tail;
      } else {
        assert s == [w[0]] + tail;
        assert s[1..] == tail;
      }
    }
  }

  lemma {:induction false} SkipsTo(text: string, rest: string)
    requires '\n' !in text && (rest == "" || rest[0] == '\n')
    ensures SkipComment(text + rest) == rest
  {
    if text == "" {
      assert text + rest == rest;
    } else {
      SkipsTo(text[1..], rest);
      assert (text + rest)[1..] == text[1..] + rest;
    }
  }

  lemma WritesStop(ps: seq<Piece>)
    requires Layout(ps) && (ps == [] || !(ps[0].Bare? || ps[0].InQuotes?))
    ensures Stops(WriteAll(ps))
  {
    if ps != [] && ps[0].White? {
      assert WriteAll(ps)[0] == ps[0].c;
    }
  }

  lemma LexInQuotes(text: string, quote: char, rest: string, line: nat)
    requires quote == '"' || quote == '\''
    ensures Lexes([quote] + EscapeIn(text, quote) + [quote] + rest, line) ==
            Push([Token(Word(text), line)], Lexes(rest, line))
  {
    var s := [quote] + EscapeIn(text, quote) + [quote] + rest;
    QuotedEscapeIn(text, quote, rest, line);
    assert s[1..] == EscapeIn(text, quote) + [quote] + rest;
  }

  lemma LexWhite(c: char, rest: string, line: nat)
    requires IsWhitespace(c)
    ensures Lexes([c] + rest, line) == Lexes(rest, if c == '\n' then line + 1 else line)
  {
    assert ([c] + rest)[1..] == rest;
  }

  lemma LexComment(text: string, rest: string, line: nat)
    requires '\n' !in text && (rest == "" || rest[0] == '\n')
    ensures Lexes("#" + text + rest, line) == Lexes(rest, line)
  {
    assert ("#" + text + rest)[1..] == text + rest;
    SkipsTo(text, rest);
  }

  /** One piece is lexed to its token, or to none. */
  lemma LexPiece(p: Piece, others: seq<Piece>, line: nat)
    requires Fits(p, others) && Layout(others)
    ensures Lexes(Write(p) + WriteAll(others), line) ==
            Push(TokenOf(p, line), Lexes(WriteAll(others), LineAfter(p, line)))
  {
    var rest := WriteAll(others);
    PushNothing([], Lexes(rest, LineAfter(p, line)));
    match p
    case Bare(text) =>
      WritesStop(others);
      LexPlain(text, rest, line);
    case InQuotes(text, quote) =>
      LexInQuotes(text, quote, rest, line);
    case Mark(kind) =>
      LexMark(kind, rest, line);
    case White(c) =>
      LexWhite(c, rest, line);
    case Comment(text) =>
      CommentStops(others);
      LexComment(text, rest, line);
  }

  lemma CommentStops(others: seq<Piece>)
    requires others == [] || others[0] == White('\n')
    ensures WriteAll(others) == "" || WriteAll(others)[0] == '\n'
  {
  }

  /** However its tokens are written, a text is lexed to exactly them, on their lines. */
  lemma {:induction false} LexLayout(ps: seq<Piece>, line: nat)
    requires Layout(ps)
    ensures Lexes(WriteAll(ps), line) == Ok(TokensOf(ps, line))
    decreases ps
  {
    if ps != [] {
      LexPiece(ps[0], ps[1..], line);
      LexLayout(ps[1..], LineAfter(ps[0], line));
    }
  }

  /** Round trip for every layout: whatever text spells a tree, it is lexed and parsed to that tree. */
  lemma LayoutRoundTrip(ps: seq<Piece>, ds: seq<Directive>)
    requires Layout(ps) && Kinds(TokensOf(ps, 1)) == Flatten(ds)
    ensures var lexed := Lexes(WriteAll(ps), 1);
            && lexed.Ok?
            && Parses(lexed.value, false).Ok?
            && Erase(Parses(lexed.value, false).value.0) == Erase(ds)
  {
    LexLayout(ps, 1);
    ParseIffSpelled(TokensOf(ps, 1));
  }
}
