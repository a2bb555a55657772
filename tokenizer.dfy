/**
 * The directive parser: turns the text of one Word comment into a token.
 *
 * The parser is a recursive descent over the trimmed comment text driven by a
 * cursor. Each `...Spec` function states what one loop of the parser computes;
 * the methods below run the loops and are proved to compute exactly that.
 * A read past the end of the text ("no character") matches no character.
 */
module Tokenizer {
  import opened Values

  /** The six token kinds of the directive language. */
  datatype Token =
    | Empty
    | Number(negative: bool, lexeme: string)   // lexeme: the digits and at most one '.'
    | String(value: string)
    | Key(path: string)
    | Foreach(path: string)
    | Func(name: string, arguments: seq<Token>)

  datatype ErrorKind =
    | UnexpectedChar(found: string)   // the offending character, "" past the end
    | SyntaxError
    | InvalidKey(key: string)
    | UnexpectedEnd                   // a function call without its ')'
    | UnterminatedString              // a string literal without its closing quote

  /** The exception the tokenizer throws: a message kind and the trimmed text. */
  datatype TokenizerError = TokenizerError(kind: ErrorKind, raw: string)

  // ---------------------------------------------------------------------------
  // Character classes

  predicate IsWhiteSpace(c: char) {
    c == ' ' || c == '\t' || c == '\n' || c == '\r' || c == '\0' || c == '\U{000B}'
  }

  predicate IsQuote(c: char) { c == '"' || c == '\'' }

  /** The characters that end a bare key. */
  predicate IsDelimiter(c: char) { c == '[' || c == ']' || c == '(' || c == ')' || c == ',' }

  /** The characters of the key pattern [a-zA-Z0-9_.]. */
  predicate IsKeyChar(c: char) {
    ('a' <= c <= 'z') || ('A' <= c <= 'Z') || IsDigit(c) || c == '_' || c == '.'
  }

  /** The character at `i`, as a string of length one, or "" past the end. */
  function CharAt(s: string, i: nat): (r: string)
    ensures |r| <= 1
    ensures i < |s| ==> r == [s[i]]
    ensures i >= |s| ==> r == ""
  {
    if i < |s| then [s[i]] else ""
  }

  /** "s[i] == c", where a position past the end holds no character. */
  predicate CharIs(s: string, i: nat, c: char) { i < |s| && s[i] == c }

  // ---------------------------------------------------------------------------
  // PHP trim

  function TrimLeft(s: string): (r: string)
    ensures |r| <= |s| && r == s[|s| - |r|..]
    ensures |r| > 0 ==> !IsWhiteSpace(r[0])
  {
    if |s| > 0 && IsWhiteSpace(s[0]) then TrimLeft(s[1..]) else s
  }

  function TrimRight(s: string): (r: string)
    ensures |r| <= |s| && r == s[..|r|]
    ensures |r| > 0 ==> !IsWhiteSpace(r[|r| - 1])
  {
    if |s| > 0 && IsWhiteSpace(s[|s| - 1]) then TrimRight(s[..|s| - 1]) else s
  }

  /** PHP trim: strips the whitespace characters from both ends. */
  function Trim(s: string): string {
    TrimRight(TrimLeft(s))
  }

  // ---------------------------------------------------------------------------
  // Keys

  /** The key checks: non-empty, only key characters, no leading, trailing or doubled '.'. */
  predicate ValidKey(k: string) {
    && |k| > 0
    && KeyChars(k)
    && k[0] != '.'
    && k[|k| - 1] != '.'
    && NoDoubleDot(k)
  }

  /** Only characters of the key pattern. */
  predicate KeyChars(k: string) {
    |k| == 0 || (IsKeyChar(k[0]) && KeyChars(k[1..]))
  }

  /** No two consecutive '.' characters. */
  predicate NoDoubleDot(k: string) {
    |k| < 2 || (!(k[0] == '.' && k[1] == '.') && NoDoubleDot(k[1..]))
  }

  // ---------------------------------------------------------------------------
  // What each loop of the parser computes

  /** Whitespace skipping before a token: it never passes the last character. */
  function SkipWs(s: string, i: nat): (j: nat)
    requires i <= |s|
    ensures i <= j <= |s|
    ensures i < |s| ==> j < |s|
    decreases |s| - i
  {
    if i + 1 < |s| && IsWhiteSpace(s[i]) then SkipWs(s, i + 1) else i
  }

  /** End of the digits and at most one '.' that a number consumes from `i`. */
  function ScanNumber(s: string, i: nat, dotAvailable: bool): (j: nat)
    requires i <= |s|
    ensures i <= j <= |s|
    decreases |s| - i
  {
    if i < |s| && (IsDigit(s[i]) || (dotAvailable && s[i] == '.'))
    then ScanNumber(s, i + 1, dotAvailable && s[i] != '.')
    else i
  }

  /** End of a bare key: the next delimiter, or the end of the text. */
  function KeyEnd(s: string, i: nat): (j: nat)
    requires i <= |s|
    ensures i <= j <= |s|
    decreases |s| - i
  {
    if i < |s| && !IsDelimiter(s[i]) then KeyEnd(s, i + 1) else i
  }

  /**
   * The body of a string literal quoted by `q`, read from `i` with `acc` already
   * copied: the copied text and the position of the closing quote (or |s|).
   */
  function StringBody(s: string, i: nat, q: char, acc: string): (r: (string, nat))
    requires i <= |s|
    ensures i <= r.1 <= |s|
    decreases |s| - i
  {
    if i < |s| && s[i] != q then
      if i + 1 < |s| && s[i] == '\\' && s[i + 1] == q
      then StringBody(s, i + 2, q, acc + [q])
      else StringBody(s, i + 1, q, acc + [s[i]])
    else (acc, i)
  }

  /** A string literal whose opening quote is at `i`: its value and the position after it. */
  function StringSpec(s: string, i: nat): (r: Result<(string, nat), ErrorKind>)
    requires i < |s| && IsQuote(s[i])
    ensures r.Ok? ==> i < r.value.1 <= |s| && s[r.value.1 - 1] == s[i]
    ensures r.Err? ==> r.error == UnterminatedString
  {
    var (body, e) := StringBody(s, i + 1, s[i], "");
    if CharIs(s, e, s[i]) then Ok((body, e + 1)) else Err(UnterminatedString)
  }

  /**
   * One call of `parse` at cursor `i` (argument mode when `inArgs`): the token
   * and the cursor after it.
   */
  function ParseSpec(s: string, i: nat, inArgs: bool): (r: Result<(Token, nat), ErrorKind>)
    requires i < |s|
    ensures r.Ok? ==> i < r.value.1 <= |s|
    decreases |s| - i, 2
  {
    TokenAt(s, SkipWs(s, i), inArgs)
  }

  /** What `parse` reads once the whitespace before the token is skipped: the first character decides. */
  function TokenAt(s: string, i: nat, inArgs: bool): (r: Result<(Token, nat), ErrorKind>)
    requires i < |s|
    ensures r.Ok? ==> i < r.value.1 <= |s|
    decreases |s| - i, 1
  {
    if s[i] == '-' && i + 1 < |s| && IsDigit(s[i + 1]) then
      var j := ScanNumber(s, i + 1, true);
      Ok((Number(true, s[i + 1..j]), j))
    else if IsDigit(s[i]) then
      var j := ScanNumber(s, i, true);
      Ok((Number(false, s[i..j]), j))
    else if IsQuote(s[i]) then
      match StringSpec(s, i)
      case Err(e) => Err(e)
      case Ok((v, j)) => Ok((String(v), j))
    else KeySpec(s, i, inArgs)
  }

  /**
   * The rest of `parse` when no number or string starts at cursor `i`: a key,
   * then a FOREACH marker or a function call according to what follows it.
   */
  function KeySpec(s: string, i: nat, inArgs: bool): (r: Result<(Token, nat), ErrorKind>)
    requires i < |s|
    ensures r.Ok? ==> i < r.value.1 <= |s|
    decreases |s| - i, 0
  {
    var e := KeyEnd(s, i);
    if e == i then Err(SyntaxError)
    else
      var key := Trim(s[i..e]);
      if !ValidKey(key) then Err(InvalidKey(key))
      else AfterKeySpec(s, e, key, inArgs)
  }

  /** What follows a valid key that ends at cursor `e`: end of key, '[ ]' or an argument list. */
  function AfterKeySpec(s: string, e: nat, key: string, inArgs: bool): (r: Result<(Token, nat), ErrorKind>)
    requires e <= |s|
    requires ValidKey(key)
    ensures r.Ok? ==> e <= r.value.1 <= |s|
    decreases |s| - e, 0
  {
    if e == |s| || (inArgs && (s[e] == ',' || s[e] == ')')) then Ok((Key(key), e))
    else if !inArgs && s[e] == '[' then
      var k := SkipWs(s, e + 1);
      if CharIs(s, k, ']') then Ok((Foreach(key), k + 1))
      else Err(UnexpectedChar(CharAt(s, k)))
    else if s[e] != '(' then Err(UnexpectedChar([s[e]]))
    else
      match ArgsSpec(s, e + 1, [])
      case Err(err) => Err(err)
      case Ok((arguments, k)) =>
        if CharIs(s, k, ')') then Ok((Func(key, arguments), k + 1))
        else Err(UnexpectedEnd)
  }

  /**
   * The argument loop of a function call, from cursor `i` with the arguments
   * `acc` already parsed: all the arguments and the cursor where the loop stops.
   */
  function ArgsSpec(s: string, i: nat, acc: seq<Token>): (r: Result<(seq<Token>, nat), ErrorKind>)
    requires i <= |s|
    ensures r.Ok? ==> i <= r.value.1 <= |s|
    decreases |s| - i, 3
  {
    if i + 1 >= |s| then Ok((acc, i))
    else
      match ParseSpec(s, i, true)
      case Err(e) => Err(e)
      case Ok((t, j)) =>
        var k := SkipWs(s, j);
        if CharIs(s, k, ',') then ArgsSpec(s, k + 1, acc + [t])
        else if CharIs(s, k, ')') then Ok((acc + [t], k))
        else Err(UnexpectedChar(CharAt(s, k)))
  }

  /** `tokenize`: blank text is EMPTY; otherwise one token that must consume all of it. */
  function TokenizeSpec(raw: string): (r: Result<Token, TokenizerError>)
    ensures r.Err? ==> r.error.raw == Trim(raw)
  {
    var s := Trim(raw);
    if |s| == 0 then Ok(Empty)
    else
      match ParseSpec(s, 0, false)
      case Err(kind) => Err(TokenizerError(kind, s))
      case Ok((t, j)) =>
        if j != |s| then Err(TokenizerError(UnexpectedChar(CharAt(s, j)), s)) else Ok(t)
  }

  // ---------------------------------------------------------------------------
  // The parser

  /** `parseNumber`: copies digits and at most one '.' from cursor `i`. */
  method ParseNumber(s: string, i: nat) returns (lexeme: string, j: nat)
    requires i <= |s|
    ensures j == ScanNumber(s, i, true)
    ensures lexeme == s[i..j]
  {
    var dotAvailable := true;
    lexeme := "";
    j := i;
    while j < |s| && (IsDigit(s[j]) || (dotAvailable && s[j] == '.'))
      invariant i <= j <= |s|
      invariant lexeme == s[i..j]
      invariant ScanNumber(s, j, dotAvailable) == ScanNumber(s, i, true)
      decreases |s| - j
    {
      assert s[i..j + 1] == s[i..j] + [s[j]];
      if s[j] == '.' {
        lexeme := lexeme + ".";
        dotAvailable := false;
      } else {
        lexeme := lexeme + [s[j]];
      }
      j := j + 1;
    }
  }

  /** `parseString`: the literal whose opening quote is at cursor `i`. */
  method ParseString(s: string, i: nat) returns (r: Result<(string, nat), ErrorKind>)
    requires i < |s| && IsQuote(s[i])
    ensures r == StringSpec(s, i)
  {
    var q := s[i];
    var j := i + 1;
    var output := "";
    while j < |s| && s[j] != q
      invariant i < j <= |s|
      invariant StringBody(s, j, q, output) == StringBody(s, i + 1, q, "")
      decreases |s| - j
    {
      if j + 1 < |s| && s[j] == '\\' && s[j + 1] == q {
        j := j + 1;
      }
      output := output + [s[j]];
      j := j + 1;
    }
    if !CharIs(s, j, q) {
      return Err(UnterminatedString);
    }
    return Ok((output, j + 1));
  }

  /** The whitespace loop that opens `parse` and follows '[' and each argument. */
  method SkipWhiteSpace(s: string, i0: nat) returns (i: nat)
    requires i0 <= |s|
    ensures i == SkipWs(s, i0)
  {
    i := i0;
    while i + 1 < |s| && IsWhiteSpace(s[i])
      invariant i0 <= i <= |s|
      invariant SkipWs(s, i) == SkipWs(s, i0)
      decreases |s| - i
    {
      i := i + 1;
    }
  }

  /** `parse`: one token from cursor `i0`; `inArgs` is the argument mode. */
  method Parse(s: string, i0: nat, inArgs: bool) returns (r: Result<(Token, nat), ErrorKind>)
    requires i0 < |s|
    ensures r == ParseSpec(s, i0, inArgs)
    decreases |s| - i0, 2
  {
    var i := SkipWhiteSpace(s, i0);
    r := ParseToken(s, i, inArgs);
  }

  /** The body of `parse` after the whitespace: a number, a string literal, or a key. */
  method ParseToken(s: string, i: nat, inArgs: bool) returns (r: Result<(Token, nat), ErrorKind>)
    requires i < |s|
    ensures r == TokenAt(s, i, inArgs)
    decreases |s| - i, 1
  {
    if s[i] == '-' && i + 1 < |s| && IsDigit(s[i + 1]) {
      var lexeme, j := ParseNumber(s, i + 1);
      return Ok((Number(true, lexeme), j));
    } else if IsDigit(s[i]) {
      var lexeme, j := ParseNumber(s, i);
      return Ok((Number(false, lexeme), j));
    } else if IsQuote(s[i]) {
      var str := ParseString(s, i);
      match str
      case Err(e) => return Err(e);
      case Ok((v, j)) => return Ok((String(v), j));
    }
    r := ParseKey(s, i, inArgs);
  }

  /** The key half of `parse`, entered at cursor `i0` after the whitespace. */
  method ParseKey(s: string, i0: nat, inArgs: bool) returns (r: Result<(Token, nat), ErrorKind>)
    requires i0 < |s|
    ensures r == KeySpec(s, i0, inArgs)
    decreases |s| - i0, 0
  {
    var i := i0;
    while i < |s| && !IsDelimiter(s[i])
      invariant i0 <= i <= |s|
      invariant KeyEnd(s, i) == KeyEnd(s, i0)
      decreases |s| - i
    {
      i := i + 1;
    }
    assert i == KeyEnd(s, i0);
    if i == i0 {
      return Err(SyntaxError);
    }
    var key := Trim(s[i0..i]);
    assert key == Trim(s[i0..KeyEnd(s, i0)]);
    if !ValidKey(key) {
      return Err(InvalidKey(key));
    }

    r := ParseAfterKey(s, i, key, inArgs);
  }

  /** The part of `parse` after a valid key that ends at cursor `e`. */
  method ParseAfterKey(s: string, e: nat, key: string, inArgs: bool) returns (r: Result<(Token, nat), ErrorKind>)
    requires e <= |s|
    requires ValidKey(key)
    ensures r == AfterKeySpec(s, e, key, inArgs)
    decreases |s| - e, 0
  {
    var i := e;
    if i == |s| || (inArgs && (s[i] == ',' || s[i] == ')')) {
      return Ok((Key(key), i));
    } else if !inArgs && s[i] == '[' {
      i := SkipWhiteSpace(s, i + 1);
      if !CharIs(s, i, ']') {
        return Err(UnexpectedChar(CharAt(s, i)));
      }
      return Ok((Foreach(key), i + 1));
    } else if s[i] != '(' {
      return Err(UnexpectedChar([s[i]]));
    }

    var args := ParseArguments(s, i + 1);
    match args
    case Err(err) => return Err(err);
    case Ok((arguments, k)) =>
      if CharIs(s, k, ')') {
        return Ok((Func(key, arguments), k + 1));
      }
      return Err(UnexpectedEnd);
  }

  /** The argument loop of `parse`, entered with the cursor just after '('. */
  method ParseArguments(s: string, open: nat) returns (r: Result<(seq<Token>, nat), ErrorKind>)
    requires open <= |s|
    ensures r == ArgsSpec(s, open, [])
    decreases |s| - open, 3
  {
    var i := open;
    var arguments: seq<Token> := [];
    while i + 1 < |s|
      invariant open <= i <= |s|
      invariant ArgsSpec(s, i, arguments) == ArgsSpec(s, open, [])
      decreases |s| - i
    {
      var arg := Parse(s, i, true);
      if arg.Err? {
        return Err(arg.error);
      }
      var (t, j) := arg.value;
      arguments := arguments + [t];
      i := SkipWhiteSpace(s, j);
      if CharIs(s, i, ',') {
        i := i + 1;
        continue;
      }
      if CharIs(s, i, ')') {
        return Ok((arguments, i));
      }
      return Err(UnexpectedChar(CharAt(s, i)));
    }
    return Ok((arguments, i));
  }

  /** `tokenize`: the token of one comment text, or the error it raises. */
  method Tokenize(raw: string) returns (r: Result<Token, TokenizerError>)
    ensures r == TokenizeSpec(raw)
  {
    var s := Trim(raw);
    if |s| == 0 {
      return Ok(Empty);
    }
    var parsed := Parse(s, 0, false);
    match parsed
    case Err(kind) =>
      return Err(TokenizerError(kind, s));
    case Ok((t, j)) =>
      if j != |s| {
        return Err(TokenizerError(UnexpectedChar(CharAt(s, j)), s));
      }
      return Ok(t);
  }
}
