/**
 * The comments resolver: every comment of the document is tokenized once,
 * up front; a comment is later resolved, against a scope, to the value that
 * replaces its anchored text or to the list of scopes a loop iterates over.
 */
module Resolver {
  import opened Values
  import opened Tokenizer
  import opened Scope

  /** A registered template function: positional arguments to a value. */
  type Handler = seq<Value> -> Value

  datatype ResolveError = UndefinedFunction(name: string)

  /** What `resolveToken` answers: a value, or the scopes of a loop. */
  datatype Resolved = Data(data: Value) | Contexts(contexts: seq<Context>)

  // ---------------------------------------------------------------------------
  // Preparing the comments

  /** A tokenizer, as the preparation of comments uses it. */
  type Tokenizing = string -> Result<Token, TokenizerError>

  /**
   * The comments as the constructor leaves them: the entries of the array
   * it is given, in order, each tokenized and stored under its id; the
   * first comment that does not tokenize aborts the whole construction. A
   * PHP array holds each id once; the list here is not required to. The
   * tokenizer is a parameter so that the properties below hold for any.
   */
  function Prepare(tokenize: Tokenizing, comments: seq<(int, string)>): (r: Result<map<int, Token>, TokenizerError>)
    decreases |comments|
  {
    if |comments| == 0 then Ok(map[])
    else
      var last := comments[|comments| - 1];
      match Prepare(tokenize, comments[..|comments| - 1])
      case Err(e) => Err(e)
      case Ok(prepared) =>
        match tokenize(last.1)
        case Err(e) => Err(e)
        case Ok(t) => Ok(prepared[last.0 := t])
  }

  /** Preparation succeeds exactly when every comment tokenizes. */
  lemma {:induction false} PrepareOkIff(tokenize: Tokenizing, comments: seq<(int, string)>)
    ensures Prepare(tokenize, comments).Ok? <==>
      forall i :: 0 <= i < |comments| ==> tokenize(comments[i].1).Ok?
    decreases |comments|
  {
    if |comments| > 0 {
      var front := comments[..|comments| - 1];
      PrepareOkIff(tokenize, front);
      assert forall i :: 0 <= i < |front| ==> front[i] == comments[i];
    }
  }

  /** A failed preparation reports the first comment that does not tokenize. */
  lemma {:induction false} PrepareFirstError(tokenize: Tokenizing, comments: seq<(int, string)>, k: nat)
    requires k < |comments| && tokenize(comments[k].1).Err?
    requires forall i :: 0 <= i < k ==> tokenize(comments[i].1).Ok?
    ensures Prepare(tokenize, comments) == Err(tokenize(comments[k].1).error)
    decreases |comments|
  {
    var front := comments[..|comments| - 1];
    if k < |comments| - 1 {
      assert front[k] == comments[k];
      assert forall i :: 0 <= i < k ==> front[i] == comments[i];
      PrepareFirstError(tokenize, front, k);
    } else {
      assert forall i :: 0 <= i < |front| ==> front[i] == comments[i];
      PrepareOkIff(tokenize, front);
    }
  }

  /** A successful preparation has exactly one entry per id of the comments. */
  lemma {:induction false} PreparedIds(tokenize: Tokenizing, comments: seq<(int, string)>, prepared: map<int, Token>)
    requires Prepare(tokenize, comments) == Ok(prepared)
    ensures forall id :: id in prepared <==> exists i :: 0 <= i < |comments| && comments[i].0 == id
    decreases |comments|
  {
    if |comments| > 0 {
      var front := comments[..|comments| - 1];
      PreparedIds(tokenize, front, Prepare(tokenize, front).value);
      assert forall i :: 0 <= i < |front| ==> front[i] == comments[i];
    }
  }

  /** The entry of an id holds the tokens of the last comment carrying that id. */
  lemma {:induction false} PreparedLast(tokenize: Tokenizing, comments: seq<(int, string)>, prepared: map<int, Token>, k: nat)
    requires Prepare(tokenize, comments) == Ok(prepared)
    requires k < |comments| && forall j :: k < j < |comments| ==> comments[j].0 != comments[k].0
    ensures comments[k].0 in prepared && Ok(prepared[comments[k].0]) == tokenize(comments[k].1)
    decreases |comments|
  {
    var front := comments[..|comments| - 1];
    if k < |comments| - 1 {
      assert front[k] == comments[k];
      assert forall j :: k < j < |front| ==> front[j] == comments[j];
      PreparedLast(tokenize, front, Prepare(tokenize, front).value, k);
    }
  }

  // ---------------------------------------------------------------------------
  // Values of tokens

  /**
   * The value of a number literal: `intval` of the digits when no '.' was
   * consumed, `floatval` otherwise; a '-' negates it.
   */
  function NumberData(negative: bool, lexeme: string): (v: Value)
    ensures v.Int? <==> AllDigits(lexeme)
  {
    if AllDigits(lexeme) then
      var n := DecimalValue(lexeme) as int;
      Int(if negative then -n else n)
    else Float(negative, lexeme)
  }

  /** Every integer survives being written as a literal and read back as a number. */
  lemma IntegerLiteral(n: int)
    ensures NumberData(n < 0, DecimalText(if n < 0 then -n else n)) == Int(n)
  {
    DecimalRoundTrip(if n < 0 then -n else n);
  }

  /**
   * The collection a loop iterates over: a list as it is, the values of a
   * map in order, and any other value (null included) as a one-element list.
   */
  function ForeachItems(v: Value): (items: seq<Value>)
    ensures !(v.List? || v.Map?) ==> items == [v]
    ensures v.List? ==> items == v.items
    ensures v.Map? ==> |items| == |v.entries| && forall i :: 0 <= i < |items| ==> items[i] == v.entries[i].1
  {
    match v
    case List(items) => items
    case Map(entries) => seq(|entries|, i requires 0 <= i < |entries| => entries[i].1)
    case _ => [v]
  }

  /** Every function the token calls, in its arguments too, is registered. */
  predicate Defined(functions: map<string, Handler>, t: Token)
    decreases t
  {
    match t
    case Func(name, arguments) =>
      name in functions && forall i :: 0 <= i < |arguments| ==> Defined(functions, arguments[i])
    case _ => true
  }

  /**
   * The `data` of what `resolveToken` answers for a token that is not a
   * loop, in a scope given by its data, innermost first; for a loop, which
   * has no `data`, PHP reads null.
   */
  function EvalData(functions: map<string, Handler>, t: Token, scope: seq<Value>): Result<Value, ResolveError>
    decreases t, 1
  {
    match t
    case Empty => Ok(Str(""))
    case Number(negative, lexeme) => Ok(NumberData(negative, lexeme))
    case String(value) => Ok(Str(value))
    case Key(path) => Ok(LookupIn(scope, path))
    case Foreach(_) => Ok(Null)
    case Func(name, arguments) =>
      if name !in functions then Err(UndefinedFunction(name))
      else
        match EvalArgs(functions, t, arguments, scope)
        case Err(e) => Err(e)
        case Ok(values) => Ok(functions[name](values))
  }

  /** `prepareArgs`: the arguments' values in order; the first failure aborts. */
  function EvalArgs(functions: map<string, Handler>, call: Token, arguments: seq<Token>, scope: seq<Value>)
    : Result<seq<Value>, ResolveError>
    requires call.Func? && forall i :: 0 <= i < |arguments| ==> arguments[i] < call
    decreases call, 0, |arguments|
  {
    if |arguments| == 0 then Ok([])
    else
      match EvalArgs(functions, call, arguments[..|arguments| - 1], scope)
      case Err(e) => Err(e)
      case Ok(values) =>
        match EvalData(functions, arguments[|arguments| - 1], scope)
        case Err(e) => Err(e)
        case Ok(v) => Ok(values + [v])
  }

  /** A failure among the first `n` arguments is the failure of the whole list. */
  lemma {:induction false} PrefixError(
    functions: map<string, Handler>, call: Token, arguments: seq<Token>, n: nat, scope: seq<Value>)
    requires call.Func? && forall i :: 0 <= i < |arguments| ==> arguments[i] < call
    requires n <= |arguments| && EvalArgs(functions, call, arguments[..n], scope).Err?
    ensures EvalArgs(functions, call, arguments, scope) == EvalArgs(functions, call, arguments[..n], scope)
    decreases |arguments| - n
  {
    if n < |arguments| {
      assert arguments[..n + 1][..n] == arguments[..n];
      PrefixError(functions, call, arguments, n + 1, scope);
    } else {
      assert arguments[..n] == arguments;
    }
  }

  /** A token resolves without error exactly when every function it calls is registered. */
  lemma {:induction false} EvalOkIff(functions: map<string, Handler>, t: Token, scope: seq<Value>)
    ensures EvalData(functions, t, scope).Ok? <==> Defined(functions, t)
    decreases t, 1
  {
    if t.Func? && t.name in functions {
      ArgsOkIff(functions, t, t.arguments, scope);
    }
  }

  lemma {:induction false} ArgsOkIff(functions: map<string, Handler>, call: Token, arguments: seq<Token>, scope: seq<Value>)
    requires call.Func? && forall i :: 0 <= i < |arguments| ==> arguments[i] < call
    ensures EvalArgs(functions, call, arguments, scope).Ok? <==>
      forall i :: 0 <= i < |arguments| ==> Defined(functions, arguments[i])
    ensures EvalArgs(functions, call, arguments, scope).Ok? ==>
      var values := EvalArgs(functions, call, arguments, scope).value;
      |values| == |arguments| &&
      forall i :: 0 <= i < |arguments| ==> Ok(values[i]) == EvalData(functions, arguments[i], scope)
    decreases call, 0, |arguments|
  {
    if |arguments| > 0 {
      var front := arguments[..|arguments| - 1];
      ArgsOkIff(functions, call, front, scope);
      EvalOkIff(functions, arguments[|arguments| - 1], scope);
      assert forall i :: 0 <= i < |front| ==> front[i] == arguments[i];
    }
  }

  /** What resolving a comment comes to: a value to fill in, or the items a loop repeats over. */
  datatype Outcome = Fills(data: Value) | Repeats(items: seq<Value>)

  /**
   * `resolve` in a scope given by its data: an id without a comment gives
   * the empty string; a loop gives the items of its collection; any other
   * comment gives its token's value.
   */
  function Resolution(functions: map<string, Handler>, comments: map<int, Token>, id: int, scope: seq<Value>)
    : Result<Outcome, ResolveError>
  {
    if id !in comments then Ok(Fills(Str("")))
    else
      match comments[id]
      case Foreach(path) => Ok(Repeats(ForeachItems(LookupIn(scope, path))))
      case t =>
        match EvalData(functions, t, scope)
        case Ok(v) => Ok(Fills(v))
        case Err(e) => Err(e)
  }

  /**
   * A comment resolves without error exactly when it is a loop, or every
   * function it calls is registered; an id with no comment fills in "".
   */
  lemma ResolutionOkIff(functions: map<string, Handler>, comments: map<int, Token>, id: int, scope: seq<Value>)
    ensures Resolution(functions, comments, id, scope).Ok? <==>
      id !in comments || comments[id].Foreach? || Defined(functions, comments[id])
    ensures id !in comments ==> Resolution(functions, comments, id, scope) == Ok(Fills(Str("")))
    ensures Resolution(functions, comments, id, scope).Ok? ==>
      (Resolution(functions, comments, id, scope).value.Repeats? <==> id in comments && comments[id].Foreach?)
  {
    if id in comments && !comments[id].Foreach? {
      EvalOkIff(functions, comments[id], scope);
    }
  }

  /** The outcome a `resolve` answer stands for: a loop's scopes stand for their data. */
  function OutcomeOf(r: Resolved): Outcome {
    match r
    case Data(v) => Fills(v)
    case Contexts(scopes) => Repeats(Currents(scopes))
  }

  // ---------------------------------------------------------------------------
  // The resolver

  class CommentsResolver {
    /** The registered functions, by alias. */
    var functions: map<string, Handler>
    /** The prepared comments, by id. */
    const comments: map<int, Token>

    constructor (comments: map<int, Token>)
      ensures this.comments == comments && functions == map[]
    {
      this.comments := comments;
      functions := map[];
    }

    /** `registerFunction`: the alias now calls `handler`, replacing any earlier one. */
    method RegisterFunction(alias: string, handler: Handler)
      modifies this
      ensures functions == old(functions)[alias := handler]
    {
      functions := functions[alias := handler];
    }

    /**
     * `resolveToken`. A key is looked up through the scope's `find`; a loop
     * gets one new scope per item, each a child of `ctx`; literals give their
     * value; a call applies the registered function to its resolved
     * arguments, and an unregistered name is an error.
     */
    method ResolveToken(t: Token, ctx: Context) returns (r: Result<Resolved, ResolveError>)
      requires ctx.Valid()
      modifies ctx.Repr()
      ensures ctx.Valid()
      ensures !t.Foreach? ==>
        r == match EvalData(functions, t, ctx.Values()) case Ok(v) => Ok(Data(v)) case Err(e) => Err(e)
      ensures t.Foreach? ==> r.Ok? && r.value.Contexts?
      ensures t.Foreach? ==>
        var items := ForeachItems(LookupIn(ctx.Values(), t.path));
        var scopes := r.value.contexts;
        && |scopes| == |items|
        && (forall i, j :: 0 <= i < j < |scopes| ==> scopes[i] != scopes[j])
        && forall i :: 0 <= i < |scopes| ==>
          && fresh(scopes[i]) && scopes[i].Valid() && scopes[i].Ancestors == ctx.Repr()
          && scopes[i].current == items[i] && scopes[i].parent == ctx && scopes[i].cache == map[]
      decreases t, 1
    {
      match t
      case Key(path) =>
        var data := ctx.Find(path);
        ctx.LookupValues(path);
        return Ok(Data(data));
      case Foreach(path) =>
        var data := ctx.Find(path);
        ctx.LookupValues(path);
        var scopes := ChildScopes(ctx, ForeachItems(data));
        return Ok(Contexts(scopes));
      case Number(negative, lexeme) =>
        return Ok(Data(NumberData(negative, lexeme)));
      case String(value) =>
        return Ok(Data(Str(value)));
      case Func(name, arguments) =>
        if name !in functions {
          return Err(UndefinedFunction(name));
        }
        var values := PrepareArgs(t, arguments, ctx);
        if values.Err? {
          return Err(values.error);
        }
        return Ok(Data(functions[name](values.value)));
      case Empty =>
        return Ok(Data(Str("")));
    }

    /** One new child scope of `ctx` per item, in order. */
    method ChildScopes(ctx: Context, items: seq<Value>) returns (scopes: seq<Context>)
      requires ctx.Valid()
      ensures |scopes| == |items|
      ensures forall i, j :: 0 <= i < j < |scopes| ==> scopes[i] != scopes[j]
      ensures forall i :: 0 <= i < |scopes| ==>
        && fresh(scopes[i]) && scopes[i].Valid() && scopes[i].Ancestors == ctx.Repr()
        && scopes[i].current == items[i] && scopes[i].parent == ctx && scopes[i].cache == map[]
    {
      scopes := [];
      while |scopes| < |items|
        invariant ctx.Valid()
        invariant |scopes| <= |items|
        invariant forall i, j :: 0 <= i < j < |scopes| ==> scopes[i] != scopes[j]
        invariant forall i :: 0 <= i < |scopes| ==>
          && fresh(scopes[i]) && scopes[i].Valid() && scopes[i].Ancestors == ctx.Repr()
          && scopes[i].current == items[i] && scopes[i].parent == ctx && scopes[i].cache == map[]
        decreases |items| - |scopes|
      {
        var scope := new Context(items[|scopes|], ctx);
        scopes := scopes + [scope];
      }
    }

    /** `prepareArgs`: resolves the arguments left to right and keeps each `data`. */
    method PrepareArgs(call: Token, arguments: seq<Token>, ctx: Context) returns (r: Result<seq<Value>, ResolveError>)
      requires ctx.Valid()
      requires call.Func? && forall i :: 0 <= i < |arguments| ==> arguments[i] < call
      modifies ctx.Repr()
      ensures ctx.Valid()
      ensures r == EvalArgs(functions, call, arguments, ctx.Values())
      decreases call, 0, |arguments|
    {
      var values: seq<Value> := [];
      var n := 0;
      while n < |arguments|
        invariant n <= |arguments|
        invariant ctx.Valid()
        invariant EvalArgs(functions, call, arguments[..n], ctx.Values()) == Ok(values)
        decreases |arguments| - n
      {
        var one := ResolveToken(arguments[n], ctx);
        assert arguments[..n + 1][..n] == arguments[..n];
        match one
        case Err(e) =>
          PrefixError(functions, call, arguments, n + 1, ctx.Values());
          return Err(e);
        case Ok(resolved) =>
          values := values + [if resolved.Data? then resolved.data else Null];
          n := n + 1;
      }
      assert arguments[..n] == arguments;
      return Ok(values);
    }

    /**
     * `resolve`: an id without a comment resolves like an empty comment, to
     * the empty string; otherwise the comment's token is resolved. The
     * answer is the resolution in the scope's data; a loop's scopes are new
     * children of `ctx` with empty caches.
     */
    method Resolve(id: int, ctx: Context) returns (r: Result<Resolved, ResolveError>)
      requires ctx.Valid()
      modifies ctx.Repr()
      ensures ctx.Valid()
      ensures Resolution(functions, comments, id, ctx.Values()) ==
        match r case Ok(x) => Ok(OutcomeOf(x)) case Err(e) => Err(e)
      ensures r.Ok? && r.value.Contexts? ==>
        var scopes := r.value.contexts;
        && (forall i, j :: 0 <= i < j < |scopes| ==> scopes[i] != scopes[j])
        && forall i :: 0 <= i < |scopes| ==>
          && fresh(scopes[i]) && scopes[i].Valid() && scopes[i].Ancestors == ctx.Repr()
          && scopes[i].parent == ctx && scopes[i].cache == map[]
    {
      if id !in comments {
        return Ok(Data(Str("")));
      }
      r := ResolveToken(comments[id], ctx);
      if comments[id].Foreach? {
        assert Currents(r.value.contexts) == ForeachItems(LookupIn(ctx.Values(), comments[id].path));
      }
    }
  }

  /**
   * The constructor's loop: tokenizes the comments in order and stops at the
   * first one that does not tokenize.
   */
  method PrepareComments(comments: seq<(int, string)>) returns (r: Result<map<int, Token>, TokenizerError>)
    ensures r == Prepare(TokenizeSpec, comments)
  {
    var prepared: map<int, Token> := map[];
    var n := 0;
    while n < |comments|
      invariant n <= |comments|
      invariant Prepare(TokenizeSpec, comments[..n]) == Ok(prepared)
      decreases |comments| - n
    {
      var t := Tokenize(comments[n].1);
      assert comments[..n + 1][..n] == comments[..n];
      match t
      case Err(e) =>
        PrepareStopsAt(comments, n + 1);
        return Err(e);
      case Ok(token) =>
        prepared := prepared[comments[n].0 := token];
        n := n + 1;
    }
    assert comments[..n] == comments;
    return Ok(prepared);
  }

  /** A failure among the first `n` comments is the failure of the whole preparation. */
  lemma {:induction false} PrepareStopsAt(comments: seq<(int, string)>, n: nat)
    requires n <= |comments| && Prepare(TokenizeSpec, comments[..n]).Err?
    ensures Prepare(TokenizeSpec, comments) == Prepare(TokenizeSpec, comments[..n])
    decreases |comments| - n
  {
    if n < |comments| {
      assert comments[..n + 1][..n] == comments[..n];
      PrepareStopsAt(comments, n + 1);
    } else {
      assert comments[..n] == comments;
    }
  }

  /** The resolver's constructor: prepares every comment, or fails with the first tokenizer error. */
  method NewResolver(comments: seq<(int, string)>) returns (r: Result<CommentsResolver, TokenizerError>)
    ensures r.Err? <==> Prepare(TokenizeSpec, comments).Err?
    ensures r.Err? ==> r.error == Prepare(TokenizeSpec, comments).error
    ensures r.Ok? ==> fresh(r.value) && r.value.comments == Prepare(TokenizeSpec, comments).value && r.value.functions == map[]
  {
    var prepared := PrepareComments(comments);
    match prepared
    case Err(e) =>
      return Err(e);
    case Ok(tokens) =>
      var resolver := new CommentsResolver(tokens);
      return Ok(resolver);
  }
}
