/**
 * What the directive parser promises: blank input, whole-input consumption,
 * the shape of numbers, string literals and keys, and a printer whose output
 * the parser reads back to the same token.
 */
module TokenizerProperties {
  import opened Values
  import opened Tokenizer

  // ---------------------------------------------------------------------------
  // Blank input and whole-input consumption

  predicate Blank(s: string) {
    forall c :: c in s ==> IsWhiteSpace(c)
  }

  /** A piece of a piece of text that sits at `i`. */
  lemma SubSlice(s: string, i: nat, w: string, a: nat, b: nat)
    requires i + |w| <= |s| && s[i..i + |w|] == w
    requires a <= b <= |w|
    ensures s[i + a..i + b] == w[a..b]
  {
    forall k | 0 <= k < b - a ensures s[i + a..i + b][k] == w[a..b][k] {
      assert s[i + a..i + b][k] == s[i + a + k] == s[i..i + |w|][a + k];
    }
  }

  /** Text `x + y` sitting at `i`: `x` sits at `i` and `y` right after it. */
  lemma SplitAt(s: string, i: nat, x: string, y: string)
    requires i + |x| + |y| <= |s| && s[i..i + |x| + |y|] == x + y
    ensures s[i..i + |x|] == x && s[i + |x|..i + |x| + |y|] == y
  {
    SubSlice(s, i, x + y, 0, |x|);
    SubSlice(s, i, x + y, |x|, |x| + |y|);
    assert (x + y)[..|x|] == x && (x + y)[|x|..] == y;
  }

  /** What TrimLeft strips is whitespace. */
  lemma {:induction false} TrimLeftStripsBlank(s: string, k: nat)
    requires k < |s| - |TrimLeft(s)|
    ensures IsWhiteSpace(s[k])
  {
    if k > 0 {
      TrimLeftStripsBlank(s[1..], k - 1);
    }
  }

  /** What TrimRight strips is whitespace. */
  lemma {:induction false} TrimRightStripsBlank(s: string, k: nat)
    requires |TrimRight(s)| <= k < |s|
    ensures IsWhiteSpace(s[k])
  {
    if k < |s| - 1 {
      TrimRightStripsBlank(s[..|s| - 1], k);
    }
  }

  lemma TrimEmptyIffBlank(s: string)
    ensures Trim(s) == [] <==> Blank(s)
  {
    var l := TrimLeft(s);
    if |l| > 0 {
      assert l[0] == s[|s| - |l|] && s[|s| - |l|] in s;
      if |TrimRight(l)| == 0 {
        TrimRightStripsBlank(l, 0);
      }
    } else {
      forall c | c in s ensures IsWhiteSpace(c) {
        var k :| 0 <= k < |s| && s[k] == c;
        TrimLeftStripsBlank(s, k);
      }
    }
  }

  /** Blank or whitespace-only text, and only such text, is the EMPTY token. */
  lemma TokenizeEmptyIffBlank(raw: string)
    ensures TokenizeSpec(raw) == Ok(Empty) <==> Blank(raw)
  {
    TrimEmptyIffBlank(raw);
    var s := Trim(raw);
    if |s| > 0 && ParseSpec(s, 0, false).Ok? {
      var (t, j) := ParseSpec(s, 0, false).value;
      ParseWellFormed(s, 0, false, t, j);
    }
  }

  /**
   * A non-empty token is exactly one `parse` of the trimmed text that consumes
   * all of it; a parse that stops early is an "Unexpected char" error.
   */
  lemma TokenizeConsumesAll(raw: string, t: Token)
    requires t != Empty
    ensures TokenizeSpec(raw) == Ok(t) <==>
            |Trim(raw)| > 0 && ParseSpec(Trim(raw), 0, false) == Ok((t, |Trim(raw)|))
    ensures var s := Trim(raw);
            |s| > 0 && ParseSpec(s, 0, false).Ok? && ParseSpec(s, 0, false).value.1 < |s| ==>
              TokenizeSpec(raw) == Err(TokenizerError(UnexpectedChar([s[ParseSpec(s, 0, false).value.1]]), s))
  {
  }

  /** The three ways a token can be read: a non-empty number, a string, or the key half. */
  lemma TokenSplit(s: string, i: nat, inArgs: bool)
    requires i < |s| && TokenAt(s, i, inArgs).Ok?
    ensures var t := TokenAt(s, i, inArgs).value.0;
            && (t.Number? ==> |t.lexeme| > 0)
            && (!t.Number? && !t.String? ==> TokenAt(s, i, inArgs) == KeySpec(s, i, inArgs))
  {
    if s[i] == '-' && i + 1 < |s| && IsDigit(s[i + 1]) {
      assert ScanNumber(s, i + 1, true) > i + 1;
    } else if IsDigit(s[i]) {
      assert ScanNumber(s, i, true) > i;
    } else if !IsQuote(s[i]) {
      KeySpecKinds(s, i, inArgs);
    }
  }

  /**
   * The tokens that `parse` can return: never Empty, FOREACH only outside an
   * argument list, every key and function name valid, arguments in argument mode.
   */
  predicate WellFormed(t: Token, inArgs: bool) {
    match t
    case Empty => false
    case Number(_, lexeme) => |lexeme| > 0
    case String(_) => true
    case Key(path) => ValidKey(path)
    case Foreach(path) => !inArgs && ValidKey(path)
    case Func(name, arguments) =>
      ValidKey(name) && forall a :: a in arguments ==> WellFormed(a, true)
  }

  /** Every token `parse` returns is well formed; the proof follows the parser's own recursion. */
  lemma {:induction false} ParseWellFormed(s: string, i: nat, inArgs: bool, t: Token, j: nat)
    requires i < |s| && ParseSpec(s, i, inArgs) == Ok((t, j))
    ensures WellFormed(t, inArgs)
    decreases |s| - i, 2
  {
    TokenWellFormed(s, SkipWs(s, i), inArgs, t, j);
  }

  lemma {:induction false} TokenWellFormed(s: string, i: nat, inArgs: bool, t: Token, j: nat)
    requires i < |s| && TokenAt(s, i, inArgs) == Ok((t, j))
    ensures WellFormed(t, inArgs)
    decreases |s| - i, 1
  {
    TokenSplit(s, i, inArgs);
    if !t.Number? && !t.String? {
      KeyWellFormed(s, i, inArgs, t, j);
    }
  }

  lemma {:induction false} KeyWellFormed(s: string, i: nat, inArgs: bool, t: Token, j: nat)
    requires i < |s| && KeySpec(s, i, inArgs) == Ok((t, j))
    ensures WellFormed(t, inArgs)
    decreases |s| - i, 0
  {
    var e := KeyEnd(s, i);
    AfterKeyWellFormed(s, e, Trim(s[i..e]), inArgs, t, j);
  }

  lemma {:induction false} AfterKeyWellFormed(s: string, e: nat, key: string, inArgs: bool, t: Token, j: nat)
    requires e <= |s| && ValidKey(key) && AfterKeySpec(s, e, key, inArgs) == Ok((t, j))
    ensures WellFormed(t, inArgs)
    decreases |s| - e, 0
  {
    if t.Func? {
      var (arguments, k) := ArgsSpec(s, e + 1, []).value;
      ArgsWellFormed(s, e + 1, [], arguments, k);
    }
  }

  lemma {:induction false} ArgsWellFormed(s: string, i: nat, acc: seq<Token>, arguments: seq<Token>, k: nat)
    requires i <= |s| && ArgsSpec(s, i, acc) == Ok((arguments, k))
    requires forall a :: a in acc ==> WellFormed(a, true)
    ensures forall a :: a in arguments ==> WellFormed(a, true)
    decreases |s| - i, 3
  {
    if i + 1 < |s| {
      var (t, j) := ParseSpec(s, i, true).value;
      ParseWellFormed(s, i, true, t, j);
      var m := SkipWs(s, j);
      if CharIs(s, m, ',') {
        ArgsWellFormed(s, m + 1, acc + [t], arguments, k);
      }
    }
  }

  // ---------------------------------------------------------------------------
  // Numbers

  /** At most one '.' in `lex`. */
  predicate AtMostOneDot(lex: string) {
    forall a, b :: 0 <= a < b < |lex| && lex[a] == '.' ==> lex[b] != '.'
  }

  /** The lexeme of a number: a digit, then digits and at most one '.'. */
  predicate Numeral(lex: string) {
    && |lex| > 0
    && IsDigit(lex[0])
    && (forall c :: c in lex ==> IsDigit(c) || c == '.')
    && AtMostOneDot(lex)
  }

  /** What a number scan consumes: digits and dots, at most one dot, as far as it can. */
  lemma {:induction false} ScanNumberShape(s: string, i: nat, dotAvailable: bool)
    requires i <= |s|
    ensures var j := ScanNumber(s, i, dotAvailable);
      && (forall c :: c in s[i..j] ==> IsDigit(c) || c == '.')
      && (dotAvailable ==> AtMostOneDot(s[i..j]))
      && (!dotAvailable ==> '.' !in s[i..j])
      && (j == |s| || !(IsDigit(s[j]) || (s[j] == '.' && dotAvailable && '.' !in s[i..j])))
    decreases |s| - i
  {
    var j := ScanNumber(s, i, dotAvailable);
    if i < |s| && (IsDigit(s[i]) || (dotAvailable && s[i] == '.')) {
      var d' := dotAvailable && s[i] != '.';
      ScanNumberShape(s, i + 1, d');
      assert s[i..j] == [s[i]] + s[i + 1..j];
      if dotAvailable {
        forall a, b | 0 <= a < b < |s[i..j]| && s[i..j][a] == '.' ensures s[i..j][b] != '.' {
          if a == 0 {
            assert s[i + 1..j][b - 1] == s[i..j][b];
          } else {
            assert s[i + 1..j][a - 1] == s[i..j][a];
            assert s[i + 1..j][b - 1] == s[i..j][b];
          }
        }
      }
    } else {
      assert s[i..j] == [];
    }
  }

  /** After a key only KEY, FOREACH or FUNC of that key can come; KEY leaves the cursor at the key's end. */
  lemma AfterKeyKinds(s: string, e: nat, key: string, inArgs: bool)
    requires e <= |s| && ValidKey(key)
    requires AfterKeySpec(s, e, key, inArgs).Ok?
    ensures var (t, j) := AfterKeySpec(s, e, key, inArgs).value;
      && (t.Key? || t.Foreach? || t.Func?)
      && (t.Key? ==> t.path == key && j == e && (e == |s| || (inArgs && (s[e] == ',' || s[e] == ')'))))
      && (t.Foreach? ==> t.path == key)
      && (t.Func? ==> t.name == key)
  {
  }

  /** The key half of the parser never yields a number or a string. */
  lemma KeySpecKinds(s: string, i: nat, inArgs: bool)
    requires i < |s|
    requires KeySpec(s, i, inArgs).Ok?
    ensures var (t, j) := KeySpec(s, i, inArgs).value;
      && (t.Key? || t.Foreach? || t.Func?)
      && (t.Key? ==> i < j && t.path == Trim(s[i..j]) && ValidKey(t.path)
                     && (j == |s| || (inArgs && (s[j] == ',' || s[j] == ')'))))
  {
    var e := KeyEnd(s, i);
    AfterKeyKinds(s, e, Trim(s[i..e]), inArgs);
  }

  /**
   * A NUMBER token: '-' directly before a digit makes it negative, and the
   * lexeme is exactly the digits and at most one '.' consumed after it, as many
   * as the text offers.
   */
  lemma NumberShape(s: string, i: nat, inArgs: bool)
    requires i < |s|
    requires ParseSpec(s, i, inArgs).Ok? && ParseSpec(s, i, inArgs).value.0.Number?
    ensures var (t, j) := ParseSpec(s, i, inArgs).value;
            var k := SkipWs(s, i);
            var start := if t.negative then k + 1 else k;
      && (t.negative <==> s[k] == '-')
      && start <= j && t.lexeme == s[start..j]
      && Numeral(t.lexeme)
      && (j == |s| || !(IsDigit(s[j]) || (s[j] == '.' && '.' !in t.lexeme)))
  {
    var k := SkipWs(s, i);
    var start := k;
    if s[k] == '-' && k + 1 < |s| && IsDigit(s[k + 1]) {
      start := k + 1;
    } else if !IsDigit(s[k]) {
      if !IsQuote(s[k]) {
        assert ParseSpec(s, i, inArgs) == KeySpec(s, k, inArgs);
        KeySpecKinds(s, k, inArgs);
      }
    }
    var j := ScanNumber(s, start, true);
    assert ParseSpec(s, i, inArgs).value == (Number(start == k + 1, s[start..j]), j);
    ScanNumberShape(s, start, true);
    assert s[start] in s[start..j];
  }

  // ---------------------------------------------------------------------------
  // String literals

  /** How a value is written inside a literal quoted by `q`: each `q` is preceded by a backslash. */
  function Escape(v: string, q: char): (e: string)
    ensures |e| >= |v|
  {
    if v == [] then []
    else (if v[0] == q then ['\\', q] else [v[0]]) + Escape(v[1..], q)
  }

  lemma EscapeHead(v: string, q: char)
    requires |v| > 0 && q != '\\'
    ensures Escape(v, q)[0] != q
  {
  }

  /**
   * A literal body runs to the first unescaped quote: reading `Escape(v, q)`
   * followed by the quote gives back `v`, provided `v` does not end in a backslash
   * (which would escape the closing quote).
   */
  lemma {:induction false} StringBodyOfEscape(s: string, i: nat, q: char, v: string, acc: string)
    requires IsQuote(q)
    requires |v| == 0 || v[|v| - 1] != '\\'
    requires i + |Escape(v, q)| < |s|
    requires s[i..i + |Escape(v, q)|] == Escape(v, q) && s[i + |Escape(v, q)|] == q
    ensures StringBody(s, i, q, acc) == (acc + v, i + |Escape(v, q)|)
    decreases v
  {
    var e := Escape(v, q);
    if v == [] {
      assert acc + v == acc;
    } else {
      var rest := Escape(v[1..], q);
      if v[0] == q {
        assert e == ['\\', q] + rest;
        assert s[i] == '\\' && s[i + 1] == q;
        SubSlice(s, i, e, 2, |e|);
        assert e[2..] == rest;
        StringBodyOfEscape(s, i + 2, q, v[1..], acc + [q]);
        assert acc + [q] + v[1..] == acc + v;
      } else {
        assert e == [v[0]] + rest;
        assert s[i] == v[0];
        if |v| > 1 {
          EscapeHead(v[1..], q);
          assert s[i + 1] == rest[0];
        } else {
          assert s[i + 1] == q;
        }
        SubSlice(s, i, e, 1, |e|);
        assert e[1..] == rest;
        StringBodyOfEscape(s, i + 1, q, v[1..], acc + [v[0]]);
        assert acc + [v[0]] + v[1..] == acc + v;
      }
    }
  }

  /** Without a closing quote after the opening one, a string literal is an error. */
  lemma {:induction false} StringUnterminated(s: string, i: nat)
    requires i < |s| && IsQuote(s[i])
    requires forall k :: i < k < |s| ==> s[k] != s[i]
    ensures StringSpec(s, i) == Err(UnterminatedString)
  {
    BodyRunsToEnd(s, i + 1, s[i], "");
  }

  /**
   * A quote followed by an escaped value and nothing more is an unterminated
   * literal: every quote inside the value is escaped, so none closes it.
   */
  lemma QuoteUnclosed(s: string, i: nat, q: char, v: string)
    requires IsQuote(q) && (|v| == 0 || v[|v| - 1] != '\\')
    requires i < |s| && s[i..] == [q] + Escape(v, q)
    ensures IsQuote(s[i])
    ensures StringSpec(s, i) == Err(UnterminatedString)
  {
    assert s[i] == q;
    assert s[i + 1..] == s[i..][1..] == Escape(v, q);
    EscapeRunsToEnd(s, i + 1, q, v, "");
  }

  /** The literal `'ab\'`: its last quote is escaped, so it is unterminated. */
  lemma EscapedQuoteUnclosed()
    ensures StringSpec("'ab\\'", 0) == Err(UnterminatedString)
  {
    assert Escape("ab'", '\'') == "ab\\'";
    QuoteUnclosed("'ab\\'", 0, '\'', "ab'");
  }

  /** Reading an escaped value that runs to the end of the text copies it whole and stops at the end. */
  lemma {:induction false} EscapeRunsToEnd(s: string, i: nat, q: char, v: string, acc: string)
    requires IsQuote(q) && (|v| == 0 || v[|v| - 1] != '\\')
    requires i <= |s| && s[i..] == Escape(v, q)
    ensures StringBody(s, i, q, acc) == (acc + v, |s|)
    decreases v
  {
    var e := Escape(v, q);
    if v == [] {
      assert acc + v == acc;
    } else {
      var rest := Escape(v[1..], q);
      if v[0] == q {
        assert e == ['\\', q] + rest;
        assert s[i] == '\\' && s[i + 1] == q;
        assert s[i + 2..] == e[2..] == rest;
        EscapeRunsToEnd(s, i + 2, q, v[1..], acc + [q]);
        assert acc + [q] + v[1..] == acc + v;
      } else {
        assert e == [v[0]] + rest;
        assert s[i] == v[0] && s[i] != q;
        if |v| > 1 {
          EscapeHead(v[1..], q);
          assert s[i + 1] == rest[0];
        }
        assert s[i + 1..] == e[1..] == rest;
        EscapeRunsToEnd(s, i + 1, q, v[1..], acc + [v[0]]);
        assert acc + [v[0]] + v[1..] == acc + v;
      }
    }
  }

  lemma {:induction false} BodyRunsToEnd(s: string, i: nat, q: char, acc: string)
    requires i <= |s|
    requires forall k :: i <= k < |s| ==> s[k] != q
    ensures StringBody(s, i, q, acc).1 == |s|
    decreases |s| - i
  {
    if i < |s| {
      if i + 1 < |s| && s[i] == '\\' && s[i + 1] == q {
      } else {
        BodyRunsToEnd(s, i + 1, q, acc + [s[i]]);
      }
    }
  }

  // ---------------------------------------------------------------------------
  // Keys

  /**
   * A KEY token is the trimmed text from the token start to the next delimiter;
   * at top level it must end the text, in an argument list it ends at ',' or ')'.
   */
  lemma KeyShape(s: string, i: nat, inArgs: bool)
    requires i < |s|
    requires ParseSpec(s, i, inArgs).Ok? && ParseSpec(s, i, inArgs).value.0.Key?
    ensures var (t, j) := ParseSpec(s, i, inArgs).value;
            var k := SkipWs(s, i);
      && k < j && t.path == Trim(s[k..j]) && ValidKey(t.path)
      && (!inArgs ==> j == |s|)
      && (inArgs ==> j == |s| || s[j] == ',' || s[j] == ')')
  {
    TokenSplit(s, SkipWs(s, i), inArgs);
    KeySpecKinds(s, SkipWs(s, i), inArgs);
  }

  /**
   * The characters that follow the key decide the token: '[' then ']' gives
   * FOREACH outside arguments only, '(' gives FUNC, and anything else that is
   * not accepted after a key is "Unexpected char".
   */
  lemma AfterKeyCases(s: string, e: nat, key: string, inArgs: bool)
    requires e < |s| && ValidKey(key)
    requires !(inArgs && (s[e] == ',' || s[e] == ')'))
    ensures AfterKeySpec(s, e, key, inArgs).Ok? && AfterKeySpec(s, e, key, inArgs).value.0.Foreach? ==>
              !inArgs && s[e] == '['
    ensures AfterKeySpec(s, e, key, inArgs).Ok? && AfterKeySpec(s, e, key, inArgs).value.0.Func? ==>
              s[e] == '('
    ensures s[e] != '(' && (inArgs || s[e] != '[') ==>
              AfterKeySpec(s, e, key, inArgs) == Err(UnexpectedChar([s[e]]))
  {
  }

  // ---------------------------------------------------------------------------
  // Printing a token and reading it back

  /** The tokens a directive text can denote, in the position given by `inArgs`. */
  predicate Printable(t: Token, inArgs: bool) {
    match t
    case Empty => !inArgs
    case Number(_, lexeme) => Numeral(lexeme)
    case String(v) => |v| == 0 || v[|v| - 1] != '\\'
    case Key(path) => ValidKey(path) && !IsDigit(path[0])
    case Foreach(path) => !inArgs && ValidKey(path) && !IsDigit(path[0])
    case Func(name, arguments) =>
      && ValidKey(name) && !IsDigit(name[0])
      && (inArgs ==> |arguments| > 0)
      && forall a :: a in arguments ==> Printable(a, true)
  }

  /** The canonical directive text of a token. */
  function Print(t: Token): string {
    match t
    case Empty => ""
    case Number(negative, lexeme) => (if negative then "-" else "") + lexeme
    case String(v) => "'" + Escape(v, '\'') + "'"
    case Key(path) => path
    case Foreach(path) => path + "[]"
    case Func(name, arguments) => name + "(" + PrintArgs(arguments) + ")"
  }

  function PrintArgs(arguments: seq<Token>): string {
    if |arguments| == 0 then ""
    else if |arguments| == 1 then Print(arguments[0])
    else Print(arguments[0]) + "," + PrintArgs(arguments[1..])
  }

  /** What may follow a token: the end of the text at top level, ',' or ')' in an argument list. */
  predicate FollowedProperly(s: string, e: nat, inArgs: bool) {
    if inArgs then e < |s| && (s[e] == ',' || s[e] == ')') else e == |s|
  }

  lemma {:induction false} ScanOverNumeral(s: string, i: nat, lex: string, dotAvailable: bool)
    requires i + |lex| <= |s| && s[i..i + |lex|] == lex
    requires forall c :: c in lex ==> IsDigit(c) || c == '.'
    requires dotAvailable ==> AtMostOneDot(lex)
    requires !dotAvailable ==> '.' !in lex
    requires i + |lex| == |s| || (!IsDigit(s[i + |lex|]) && s[i + |lex|] != '.')
    ensures ScanNumber(s, i, dotAvailable) == i + |lex|
    decreases lex
  {
    if |lex| > 0 {
      assert s[i] == lex[0];
      assert s[i + 1..i + 1 + |lex[1..]|] == lex[1..];
      assert forall c :: c in lex[1..] ==> c in lex;
      if lex[0] == '.' {
        assert '.' !in lex[1..] by {
          forall b | 0 <= b < |lex[1..]| ensures lex[1..][b] != '.' {
            assert lex[b + 1] == lex[1..][b];
          }
        }
      } else if dotAvailable {
        assert AtMostOneDot(lex[1..]) by {
          forall a, b | 0 <= a < b < |lex[1..]| && lex[1..][a] == '.' ensures lex[1..][b] != '.' {
            assert lex[a + 1] == lex[1..][a] && lex[b + 1] == lex[1..][b];
          }
        }
      }
      ScanOverNumeral(s, i + 1, lex[1..], dotAvailable && lex[0] != '.');
    }
  }

  lemma {:induction false} KeyCharsAt(k: string, j: nat)
    requires KeyChars(k) && j < |k|
    ensures IsKeyChar(k[j])
    decreases j
  {
    if j > 0 {
      KeyCharsAt(k[1..], j - 1);
    }
  }

  lemma {:induction false} KeyEndOver(s: string, i: nat, key: string)
    requires i + |key| <= |s| && s[i..i + |key|] == key
    requires KeyChars(key)
    requires i + |key| == |s| || IsDelimiter(s[i + |key|])
    ensures KeyEnd(s, i) == i + |key|
    decreases key
  {
    if |key| > 0 {
      assert s[i] == key[0];
      assert s[i + 1..i + 1 + |key[1..]|] == key[1..];
      KeyEndOver(s, i + 1, key[1..]);
    }
  }

  lemma TrimKey(key: string)
    requires ValidKey(key)
    ensures Trim(key) == key
  {
    KeyCharsAt(key, 0);
    KeyCharsAt(key, |key| - 1);
    TrimKeeps(key);
  }

  /** Text that neither starts nor ends with whitespace is its own trim. */
  lemma TrimKeeps(s: string)
    requires |s| > 0 && !IsWhiteSpace(s[0]) && !IsWhiteSpace(s[|s| - 1])
    ensures Trim(s) == s
  {
    assert TrimLeft(s) == s;
  }

  /** The first character of a printed non-empty token, and the last one. */
  lemma PrintEnds(t: Token, inArgs: bool)
    requires Printable(t, inArgs) && t != Empty
    ensures |Print(t)| > 0
    ensures !IsWhiteSpace(Print(t)[0]) && !IsWhiteSpace(Print(t)[|Print(t)| - 1])
  {
    var p := Print(t);
    match t
    case Number(negative, lexeme) =>
      assert lexeme[|lexeme| - 1] in lexeme;
      assert p[|p| - 1] == lexeme[|lexeme| - 1];
      assert p[0] == if negative then '-' else lexeme[0];
    case Key(path) =>
      KeyCharsAt(path, 0);
      KeyCharsAt(path, |path| - 1);
    case Foreach(path) =>
      KeyCharsAt(path, 0);
      assert p[0] == path[0] && p[|p| - 1] == ']';
    case Func(name, arguments) =>
      KeyCharsAt(name, 0);
      assert p == name + ("(" + PrintArgs(arguments) + ")");
      assert p[0] == name[0] && p[|p| - 1] == ')';
    case String(v) =>
      assert p[0] == '\'' && p[|p| - 1] == '\'';
  }


  /** Where no number or string literal starts, `parse` reads a key. */
  lemma ParseAtKey(s: string, i: nat, inArgs: bool)
    requires i < |s|
    requires !IsWhiteSpace(s[i]) && s[i] != '-' && !IsDigit(s[i]) && !IsQuote(s[i])
    ensures ParseSpec(s, i, inArgs) == KeySpec(s, i, inArgs)
  {
    assert SkipWs(s, i) == i;
  }

  /** A valid key at cursor `i` that ends at a delimiter or at the end of the text is read whole. */
  lemma KeyTextOver(s: string, i: nat, key: string)
    requires ValidKey(key)
    requires i + |key| <= |s| && s[i..i + |key|] == key
    requires i + |key| == |s| || IsDelimiter(s[i + |key|])
    ensures KeyEnd(s, i) == i + |key| && Trim(s[i..KeyEnd(s, i)]) == key
  {
    KeyEndOver(s, i, key);
    var w := s[i..KeyEnd(s, i)];
    assert w == key;
    KeyCharsAt(key, 0);
    KeyCharsAt(key, |key| - 1);
    TrimKeeps(w);
  }

  /** Such a key hands `parse` over to what follows it. */
  lemma KeySpecOver(s: string, i: nat, key: string, inArgs: bool)
    requires ValidKey(key)
    requires i + |key| <= |s| && s[i..i + |key|] == key
    requires i + |key| == |s| || IsDelimiter(s[i + |key|])
    ensures KeySpec(s, i, inArgs) == AfterKeySpec(s, i + |key|, key, inArgs)
  {
    KeyTextOver(s, i, key);
  }

  /** A printed key at cursor `i`: `parse` reads it and goes on after it. */
  lemma KeyAt(s: string, i: nat, key: string, inArgs: bool)
    requires ValidKey(key) && !IsDigit(key[0])
    requires i + |key| <= |s| && s[i..i + |key|] == key
    requires i + |key| == |s| || IsDelimiter(s[i + |key|])
    ensures ParseSpec(s, i, inArgs) == AfterKeySpec(s, i + |key|, key, inArgs)
  {
    KeyCharsAt(key, 0);
    assert s[i] == key[0];
    ParseAtKey(s, i, inArgs);
    KeySpecOver(s, i, key, inArgs);
  }

  /** `parse` at a digit, with no whitespace before it: an unsigned number. */
  lemma ParseAtDigit(s: string, i: nat, inArgs: bool)
    requires i < |s| && IsDigit(s[i])
    ensures ParseSpec(s, i, inArgs) == Ok((Number(false, s[i..ScanNumber(s, i, true)]), ScanNumber(s, i, true)))
  {
    assert SkipWs(s, i) == i;
  }

  /** `parse` at a '-' followed by a digit: a negative number. */
  lemma ParseAtMinus(s: string, i: nat, inArgs: bool)
    requires i + 1 < |s| && s[i] == '-' && IsDigit(s[i + 1])
    ensures ParseSpec(s, i, inArgs) == Ok((Number(true, s[i + 1..ScanNumber(s, i + 1, true)]), ScanNumber(s, i + 1, true)))
  {
    assert SkipWs(s, i) == i;
  }

  /** `parse` at a quote: the string literal that starts there. */
  lemma ParseAtQuote(s: string, i: nat, inArgs: bool)
    requires i < |s| && IsQuote(s[i])
    ensures StringSpec(s, i).Ok? ==>
      ParseSpec(s, i, inArgs) == Ok((String(StringSpec(s, i).value.0), StringSpec(s, i).value.1))
  {
    assert SkipWs(s, i) == i;
  }

  /** A numeral at cursor `i` followed by what may follow a token: the number scan reads exactly it. */
  lemma NumeralAt(s: string, i: nat, lexeme: string, inArgs: bool)
    requires Numeral(lexeme)
    requires i + |lexeme| <= |s| && s[i..i + |lexeme|] == lexeme
    requires FollowedProperly(s, i + |lexeme|, inArgs)
    ensures i < |s| && IsDigit(s[i]) && ScanNumber(s, i, true) == i + |lexeme|
  {
    assert s[i] == lexeme[0];
    ScanOverNumeral(s, i, lexeme, true);
  }

  /** A '-' and a numeral at cursor `i`: `parse` reads a negative number. */
  lemma NegativeAt(s: string, i: nat, lexeme: string, inArgs: bool)
    requires Numeral(lexeme)
    requires i + 1 + |lexeme| <= |s| && s[i] == '-' && s[i + 1..i + 1 + |lexeme|] == lexeme
    requires FollowedProperly(s, i + 1 + |lexeme|, inArgs)
    ensures ParseSpec(s, i, inArgs) == Ok((Number(true, lexeme), i + 1 + |lexeme|))
  {
    NumeralAt(s, i + 1, lexeme, inArgs);
    ParseAtMinus(s, i, inArgs);
  }

  /** A numeral at cursor `i`: `parse` reads a non-negative number. */
  lemma NonNegativeAt(s: string, i: nat, lexeme: string, inArgs: bool)
    requires Numeral(lexeme)
    requires i + |lexeme| <= |s| && s[i..i + |lexeme|] == lexeme
    requires FollowedProperly(s, i + |lexeme|, inArgs)
    ensures ParseSpec(s, i, inArgs) == Ok((Number(false, lexeme), i + |lexeme|))
  {
    NumeralAt(s, i, lexeme, inArgs);
    ParseAtDigit(s, i, inArgs);
  }

  /** The literal of a printed STRING token reads back to its value. */
  lemma QuotedAt(s: string, i: nat, v: string)
    requires |v| == 0 || v[|v| - 1] != '\\'
    requires var p := "'" + Escape(v, '\'') + "'";
      i + |p| <= |s| && s[i..i + |p|] == p
    ensures IsQuote(s[i])
    ensures StringSpec(s, i) == Ok((v, i + |Escape(v, '\'')| + 2))
  {
    var body := Escape(v, '\'');
    var p := "'" + body + "'";
    assert s[i] == p[0];
    SubSlice(s, i, p, 1, 1 + |body|);
    assert p[1..1 + |body|] == body;
    assert s[i + 1 + |body|] == p[1 + |body|];
    StringBodyOfEscape(s, i + 1, '\'', v, "");
    assert [] + v == v;
  }

  /** After a key at top level, '[' and ']': a FOREACH token. */
  lemma AfterKeyMarker(s: string, e: nat, key: string)
    requires ValidKey(key)
    requires e + 1 < |s| && s[e] == '[' && s[e + 1] == ']'
    ensures AfterKeySpec(s, e, key, false) == Ok((Foreach(key), e + 2))
  {
    assert SkipWs(s, e + 1) == e + 1;
  }

  /** `parse` at a printed key hands over to what follows the key, whatever that yields. */
  lemma KeyThen(s: string, i: nat, key: string, inArgs: bool, r: Result<(Token, nat), ErrorKind>)
    requires ValidKey(key) && !IsDigit(key[0])
    requires i + |key| < |s| && s[i..i + |key|] == key && IsDelimiter(s[i + |key|])
    requires AfterKeySpec(s, i + |key|, key, inArgs) == r
    ensures ParseSpec(s, i, inArgs) == r
  {
    KeyAt(s, i, key, inArgs);
  }

  /** A valid key, '[' and ']' at top level: `parse` reads a FOREACH token. */
  lemma MarkerAt(s: string, i: nat, path: string)
    requires ValidKey(path) && !IsDigit(path[0])
    requires i + |path| + 1 < |s| && s[i..i + |path|] == path
    requires s[i + |path|] == '[' && s[i + |path| + 1] == ']'
    ensures ParseSpec(s, i, false) == Ok((Foreach(path), i + |path| + 2))
  {
    AfterKeyMarker(s, i + |path|, path);
    KeyThen(s, i, path, false, Ok((Foreach(path), i + |path| + 2)));
  }

  /** After a key, '(' and an argument list that the loop reads up to a ')': a FUNC token. */
  lemma AfterKeyCall(s: string, e: nat, key: string, inArgs: bool, arguments: seq<Token>, close: nat)
    requires ValidKey(key)
    requires e < |s| && s[e] == '('
    requires ArgsSpec(s, e + 1, []) == Ok((arguments, close))
    requires close < |s| && s[close] == ')'
    ensures AfterKeySpec(s, e, key, inArgs) == Ok((Func(key, arguments), close + 1))
  {
  }

  /** A valid name, '(' and an argument list that the loop reads up to a ')': a FUNC token. */
  lemma CallAt(s: string, i: nat, name: string, inArgs: bool, arguments: seq<Token>, close: nat)
    requires ValidKey(name) && !IsDigit(name[0])
    requires i + |name| < |s| && s[i..i + |name|] == name && s[i + |name|] == '('
    requires ArgsSpec(s, i + |name| + 1, []) == Ok((arguments, close))
    requires close < |s| && s[close] == ')'
    ensures ParseSpec(s, i, inArgs) == Ok((Func(name, arguments), close + 1))
  {
    AfterKeyCall(s, i + |name|, name, inArgs, arguments, close);
    KeyThen(s, i, name, inArgs, Ok((Func(name, arguments), close + 1)));
  }

  /** One argument followed directly by ')' ends the argument loop. */
  lemma ArgsLast(s: string, i: nat, acc: seq<Token>, a: Token, j: nat)
    requires i + 1 < |s|
    requires ParseSpec(s, i, true) == Ok((a, j)) && j < |s| && s[j] == ')'
    ensures ArgsSpec(s, i, acc) == Ok((acc + [a], j))
  {
    assert SkipWs(s, j) == j;
  }

  /** One argument followed directly by ',' continues the argument loop after the comma. */
  lemma ArgsNext(s: string, i: nat, acc: seq<Token>, a: Token, j: nat)
    requires i + 1 < |s|
    requires ParseSpec(s, i, true) == Ok((a, j)) && j < |s| && s[j] == ','
    ensures ArgsSpec(s, i, acc) == ArgsSpec(s, j + 1, acc + [a])
  {
    assert SkipWs(s, j) == j;
  }

  // ---------------------------------------------------------------------------
  // Whole directive texts

  lemma NumberOfPrint(negative: bool, lexeme: string)
    requires Numeral(lexeme)
    ensures var p := Print(Number(negative, lexeme));
            ParseSpec(p, 0, false) == Ok((Number(negative, lexeme), |p|))
  {
    var p := Print(Number(negative, lexeme));
    if negative {
      assert p == "-" + lexeme;
      assert p[1..1 + |lexeme|] == lexeme;
      NegativeAt(p, 0, lexeme, false);
    } else {
      assert p == lexeme && p[0..|lexeme|] == lexeme;
      NonNegativeAt(p, 0, lexeme, false);
    }
  }

  lemma StringOfPrint(v: string)
    requires |v| == 0 || v[|v| - 1] != '\\'
    ensures var p := Print(String(v));
            ParseSpec(p, 0, false) == Ok((String(v), |p|))
  {
    var p := Print(String(v));
    assert p == "'" + Escape(v, '\'') + "'" && p[0..|p|] == p;
    QuotedAt(p, 0, v);
    ParseAtQuote(p, 0, false);
  }

  lemma KeyOfPrint(path: string)
    requires ValidKey(path) && !IsDigit(path[0])
    ensures ParseSpec(path, 0, false) == Ok((Key(path), |path|))
  {
    assert path[0..|path|] == path;
    KeyAt(path, 0, path, false);
  }

  lemma ForeachOfPrint(path: string)
    requires ValidKey(path) && !IsDigit(path[0])
    ensures var p := Print(Foreach(path));
            ParseSpec(p, 0, false) == Ok((Foreach(path), |p|))
  {
    var p := Print(Foreach(path));
    assert p == path + "[]";
    assert p[0..|path|] == path && p[|path|] == '[' && p[|path| + 1] == ']';
    MarkerAt(p, 0, path);
  }

  /** A call without arguments: the loop stops at once before the final ')'. */
  lemma CallOfPrint(name: string)
    requires ValidKey(name) && !IsDigit(name[0])
    ensures var p := Print(Func(name, []));
            ParseSpec(p, 0, false) == Ok((Func(name, []), |p|))
  {
    var p := Print(Func(name, []));
    assert PrintArgs([]) == "";
    assert p == name + "()";
    assert p[0..|name|] == name && p[|name|] == '(' && p[|name| + 1] == ')';
    assert ArgsSpec(p, |name| + 1, []) == Ok(([], |name| + 1));
    CallAt(p, 0, name, false, [], |name| + 1);
  }

  /** The canonical text of a token that is not a call with arguments is tokenized back to it. */
  lemma TokenizePrint(t: Token)
    requires Printable(t, false)
    requires t.Func? ==> t.arguments == []
    ensures TokenizeSpec(Print(t)) == Ok(t)
  {
    var p := Print(t);
    if t != Empty {
      PrintEnds(t, false);
      assert TrimLeft(p) == p;
      assert TrimRight(p) == p;
      match t
      case Number(negative, lexeme) => NumberOfPrint(negative, lexeme);
      case String(v) => StringOfPrint(v);
      case Key(path) => KeyOfPrint(path);
      case Foreach(path) => ForeachOfPrint(path);
      case Func(name, _) => CallOfPrint(name);
    }
  }
}
