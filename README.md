# DocTemplater core, modelled in Dafny

DocTemplater fills a Word (DOCX) template. Every Word comment anchored in the document
holds a small directive: a number, a quoted string, a dotted key such as `user.name`, a
loop marker `items[]`, or a call `fn(arg, ...)`. This project models and proves the
four parts of the library that give those comments their meaning:

- **the directive parser** (`src/Tokenizer.php`, module `Tokenizer`, properties in
  `TokenizerProperties`). It turns one comment text into a token. Each loop of the
  recursive-descent parser is a `method` proved equal to a recursive `...Spec` function
  of the text and the cursor. Lemmas then state what those functions accept and produce.
  They cover blank text, whole-input consumption, the shape of numbers, strings and keys,
  the characters that decide between key, loop and call, and the error raised otherwise.
  A printer is also given, and the parser reads every printed directive back to its token.
- **the scope chain** (`src/Context.php`, module `Scope`). A `Context` object holds the
  data of one rendering scope, an optional parent and a per-node cache. `Find` and
  `ExtractData` are the imperative lookup: a local walk over the dotted path, then
  delegation to the parent, with every answer cached. Both are proved to return
  `Lookup(path)`, a pure definition of the answer. The invariant `Valid()` says that every
  cache along the chain holds only true answers, and both methods keep it.
- **the comments resolver** (`src/CommentsResolver.php`, module `Resolver`). It prepares
  every comment, stopping at the first tokenizer error, and keeps functions registered by
  alias. It then resolves a comment against a scope: either to a value, or, for a loop, to
  one fresh child scope per item of the looked-up collection.
- **one level of rendering** (`renderLevel` in `src/DocTemplater.php`, modules `Tree` and
  `Templater`). The document is an ordered tree of nodes in which `w:t` runs and the
  three comment markers are leaves; a node is addressed by its path of child indexes.
  - A level first drops every `w:commentReference`. It then handles the comments in the
    document order of their start markers.
  - A value comment walks from its start marker towards its end marker. It fills the first
    `w:t` it meets with the value, then removes both markers. Each step of the walk goes to
    the first child, else the next sibling, else the next sibling of the nearest ancestor
    that has one, else the root. The model proves that these steps visit the nodes in
    document order, wrapping from the last node to the root.
  - A loop comment takes the deepest node that encloses both markers as its range. It
    removes the markers and drops the pending ids whose start lies in the range. It then
    replaces the range by one copy per scope, each copy rendered as a level of its own.
  - `Level` says, as a function of the scope's data, what a level renders or which error
    it stops with; `Comment`, `Loop` and `Copies` do the same for one comment, one loop and
    its copies. Each method of the renderer is proved to compute its function.
  - Lemmas state what these functions mean: the copies are the range rendered once per item,
    in order, the first failing copy stops the loop, and a value comment removes one start
    marker and one end marker of its id. A successful level leaves no comment reference
    behind. Every pending comment keeps its start marker until it is handled, the tree
    never grows higher (this is what makes the recursion terminate), and scope caches stay
    true throughout.

Clocks, I/O and the ZIP/XML plumbing around `renderLevel` are not part of this model.
Registered template functions are parameters: total functions from argument values to a
value.

Two points of the code that are easy to misread:
- a path step succeeds when the key or property is set and not null, so `false`, `0`
  and `""` are found values, not misses (`isset`, `src/Context.php:54` and `:59`);
- `find` caches every answer, null and the empty path included (`src/Context.php:39-41`).

## Model

| member | source | states |
|---|---|---|
| Values.DecimalRoundTrip | src/Context.php:54-55 | writing a non-negative integer as PHP does gives an integer array key that reads back to the same integer |
| Values.IndexKeyRoundTrip | src/Context.php:54-55 | reading an integer array key and writing it back gives the same text, so a list position is named by exactly one key |
| Tokenizer.TrimLeft | src/Tokenizer.php:23 | the result is a suffix of the text and does not start with one of PHP's six whitespace characters |
| Tokenizer.TrimRight | src/Tokenizer.php:23 | the result is a prefix of the text and does not end with whitespace |
| Tokenizer.Trim | src/Tokenizer.php:23 | PHP `trim`: both ends stripped of whitespace (stated by TrimLeft, TrimRight and TrimEmptyIffBlank) |
| Tokenizer.SkipWs | src/Tokenizer.php:48 | whitespace skipping moves forward and never passes the last character (the loop stops at `$max`) |
| Tokenizer.StringSpec | src/Tokenizer.php:183-201 | a literal either ends just after a closing quote equal to the opening one, or fails as an unterminated literal |
| Tokenizer.ParseSpec | src/Tokenizer.php:47-141 | every successful `parse` consumes at least one character and stays within the text |
| Tokenizer.TokenAt | src/Tokenizer.php:50-68 | what `parse` reads at a non-whitespace character: a successful read consumes at least that character and stays within the text |
| Tokenizer.KeySpec | src/Tokenizer.php:68-88 | the key half of `parse`: a successful read consumes at least one character and stays within the text |
| Tokenizer.AfterKeySpec | src/Tokenizer.php:90-108 | what follows a key never moves the cursor back and stays within the text |
| Tokenizer.ArgsSpec | src/Tokenizer.php:110-126 | the argument loop never moves the cursor back and stays within the text |
| Tokenizer.ScanNumber | src/Tokenizer.php:162-170 | the number scan ends between its start and the end of the text (its shape is stated by ScanNumberShape) |
| Tokenizer.StringBody | src/Tokenizer.php:187-193 | the literal body ends between its start and the end of the text (its value is stated by StringBodyOfEscape) |
| Tokenizer.TokenizeSpec | src/Tokenizer.php:21-37 | every tokenizer error carries the trimmed comment text |
| Tokenizer.ParseNumber | src/Tokenizer.php:158-174 | the loop copies exactly the digits and at most one '.' that the number scan consumes, and stops where it stops |
| Tokenizer.ParseString | src/Tokenizer.php:183-201 | the loop computes the literal's value and end, or the unterminated-literal error, exactly as the literal specification does |
| Tokenizer.SkipWhiteSpace | src/Tokenizer.php:48 | the whitespace loop (also at lines 97 and 116) stops exactly where the specified skip does: at the first non-whitespace character, never past the last one |
| Tokenizer.Parse | src/Tokenizer.php:47-66 | one `parse` call (whitespace skip, then number, string or key) returns exactly the specified token and cursor, or the specified error |
| Tokenizer.ParseToken | src/Tokenizer.php:50-68 | the first character decides: a '-' before a digit or a digit gives a number, a quote gives a string literal, anything else the key half; the result is exactly the specified one |
| Tokenizer.ParseKey | src/Tokenizer.php:68-88 | the key scan up to the next delimiter, the trim and the key checks give exactly the specified result |
| Tokenizer.ParseAfterKey | src/Tokenizer.php:90-108 | what follows a key (end, `[ ]` or `(`) gives exactly the specified KEY, FOREACH or FUNC token, or the specified error |
| Tokenizer.ParseArguments | src/Tokenizer.php:110-126 | the argument loop parses arguments separated by ',' up to ')' exactly as specified, failing on any other character |
| Tokenizer.Tokenize | src/Tokenizer.php:21-37 | `tokenize` returns exactly the specified token or error for every comment text |
| TokenizerProperties.TrimEmptyIffBlank | src/Tokenizer.php:23-25 | trimming leaves nothing exactly when the text is all whitespace |
| TokenizerProperties.TokenizeEmptyIffBlank | src/Tokenizer.php:23-29 | a comment is the EMPTY token exactly when its text is blank |
| TokenizerProperties.TokenizeConsumesAll | src/Tokenizer.php:30-36 | a non-empty token is exactly one `parse` that consumes the whole trimmed text; a parse that stops early is an "unexpected char" error naming the character where it stopped |
| TokenizerProperties.TokenSplit | src/Tokenizer.php:50-68 | a token is a number with a non-empty lexeme, a string, or whatever the key half of the parser reads |
| TokenizerProperties.ParseWellFormed | src/Tokenizer.php:47-141 | `parse` never returns EMPTY; FOREACH appears only outside argument lists; every key and function name passes the key checks; arguments are parsed in argument mode |
| TokenizerProperties.ScanNumberShape | src/Tokenizer.php:162-170 | the number scan consumes only digits and dots, at most one dot, and stops only where the next character cannot continue the number |
| TokenizerProperties.NumberShape | src/Tokenizer.php:50-60 | a NUMBER is negative exactly when a '-' precedes it; its lexeme is the exact text scanned, a digit followed by digits and at most one '.', as long as the text allows |
| TokenizerProperties.StringBodyOfEscape | src/Tokenizer.php:187-193 | a literal body runs to the first unescaped quote; reading an escaped value gives the value back |
| TokenizerProperties.StringUnterminated | src/Tokenizer.php:195-197 | a quote with no closing quote after it is an unterminated-literal error |
| TokenizerProperties.QuoteUnclosed | src/Tokenizer.php:183-197 | a quote followed by an escaped value whose last character is not a backslash, and nothing else, is an unterminated literal |
| TokenizerProperties.EscapedQuoteUnclosed | src/Tokenizer.php:187-197 | the text `'ab\'` is an unterminated literal: the escaped quote does not close it |
| TokenizerProperties.KeyShape | src/Tokenizer.php:68-94 | a KEY is the trimmed text up to the next delimiter; it passes the key checks; at top level it ends the text, and in an argument list it ends at ',' or ')' |
| TokenizerProperties.AfterKeyKinds | src/Tokenizer.php:90-138 | after a key only KEY, FOREACH or FUNC of that same key can come, and KEY leaves the cursor where the key ended |
| TokenizerProperties.AfterKeyCases | src/Tokenizer.php:90-108 | FOREACH needs '[' outside an argument list and FUNC needs '('; any other character after a key is an "unexpected char" error naming it |
| TokenizerProperties.ParseAtKey | src/Tokenizer.php:50-68 | where no number or string literal starts, `parse` reads a key |
| TokenizerProperties.ParseAtDigit | src/Tokenizer.php:56-60 | at a digit, `parse` reads an unsigned number over exactly the scanned lexeme |
| TokenizerProperties.ParseAtMinus | src/Tokenizer.php:50-55 | at '-' followed by a digit, `parse` reads a negative number |
| TokenizerProperties.ParseAtQuote | src/Tokenizer.php:61-66 | at a quote, `parse` reads the string literal that starts there |
| TokenizerProperties.NegativeAt | src/Tokenizer.php:50-55 | a '-' and a numeral followed by what may end a token read back as that negative number |
| TokenizerProperties.NonNegativeAt | src/Tokenizer.php:56-60 | a numeral followed by what may end a token reads back as that number |
| TokenizerProperties.QuotedAt | src/Tokenizer.php:183-201 | a value written between single quotes with its quotes escaped reads back to the value |
| TokenizerProperties.KeyAt | src/Tokenizer.php:68-90 | a valid key that ends at a delimiter or at the end of the text is read whole, and `parse` goes on with what follows it |
| TokenizerProperties.MarkerAt | src/Tokenizer.php:95-105 | a valid key followed by "[]" at top level reads as a FOREACH of that key |
| TokenizerProperties.CallAt | src/Tokenizer.php:106-138 | a valid name, '(' and an argument list closed by ')' read as a FUNC of that name and those arguments |
| TokenizerProperties.ArgsLast | src/Tokenizer.php:114-124 | an argument followed directly by ')' ends the argument loop |
| TokenizerProperties.ArgsNext | src/Tokenizer.php:114-120 | an argument followed directly by ',' continues the argument loop after the comma |
| TokenizerProperties.NumberOfPrint | src/Tokenizer.php:50-60 | a printed number parses back to the same NUMBER token and consumes its whole text |
| TokenizerProperties.StringOfPrint | src/Tokenizer.php:61-66 | a printed string parses back to the same STRING token and consumes its whole text |
| TokenizerProperties.KeyOfPrint | src/Tokenizer.php:68-94 | a printed key parses back to the same KEY token and consumes its whole text |
| TokenizerProperties.ForeachOfPrint | src/Tokenizer.php:95-105 | a printed loop marker parses back to the same FOREACH token and consumes its whole text |
| TokenizerProperties.CallOfPrint | src/Tokenizer.php:110-138 | a printed call without arguments parses back to the same FUNC token and consumes its whole text |
| TokenizerProperties.TokenizePrint | src/Tokenizer.php:21-37 | `tokenize` reads the printed text of every printable token (calls without arguments) back to the token |
| Scope.SplitDotFree | src/Context.php:50 | no piece produced by `explode` contains a '.' |
| Scope.JoinSplit | src/Context.php:50 | joining the pieces of `explode` with '.' gives the path back |
| Scope.SplitJoin | src/Context.php:50 | splitting joined dot-free pieces gives the pieces back (empty pieces included) |
| Scope.Split | src/Context.php:50 | `explode` always yields at least one piece |
| Scope.Step | src/Context.php:54-62 | one path step: a set, non-null array entry first, else a set, non-null object property (stated by ArrayGet and PropertyGet) |
| Scope.Walk | src/Context.php:50-69 | the local walk takes one step per piece and fails at the first piece no step can take (stated by WalkNotNull and WalkAppend) |
| Scope.LookupIn | src/Context.php:44-78 | the answer `find` owes in a chain given by its data, innermost first: null for an empty path, the first scope whose walk succeeds, else null |
| Scope.Entry | src/Context.php:54-55 | a key's entry is found exactly when the data has an entry with that key, and the value found is that entry's value |
| Scope.ArrayGet | src/Context.php:54-56 | an array step succeeds only on an array or array-like value, and never yields null |
| Scope.PropertyGet | src/Context.php:59-61 | a property step succeeds only on an object, and never yields null |
| Scope.WalkNotNull | src/Context.php:53-69 | a local walk over at least one piece never ends on null |
| Scope.WalkAppend | src/Context.php:53-66 | walking `p + q` is walking `p`, then `q` from where `p` ended, and fails if either fails |
| Scope.Context.LookupSource | src/Context.php:44-78 | `find` gives a non-null answer exactly when the path is not PHP-empty and its walk succeeds in some scope of the chain; that answer is what the walk found there |
| Scope.Context.Lookup | src/Context.php:44-78 | the answer `find` owes on a chain of scope objects (stated by LookupSource, Find and ExtractData) |
| Scope.Context.Values | src/Context.php:23-27 | the data of a scope and of its ancestors, innermost first, starting with the scope's own |
| Scope.Context.LookupValues | src/Context.php:44-78 | a scope's answer for a path is the answer of its chain's data, so it depends on the data alone |
| Scope.Context.constructor | src/Context.php:23-27 | a new scope holds the given data and parent, has an empty cache, and keeps every cache of the chain true |
| Scope.Context.Find | src/Context.php:33-42 | `find` returns the true answer for the path; the path is cached with it; a cache hit changes no cache of the chain; no cache loses an entry |
| Scope.Context.ExtractData | src/Context.php:44-78 | the local walk, then delegation of the whole path to the parent's `find`, returns the true answer; the chain's caches stay true and only grow |
| Scope.Currents | src/Context.php:25 | the data of each scope of a list, in order |
| Resolver.PrepareOkIff | src/CommentsResolver.php:21-30 | preparing the comments succeeds exactly when every comment tokenizes |
| Resolver.PrepareFirstError | src/CommentsResolver.php:25-27 | a failed preparation reports the error of the first comment that does not tokenize |
| Resolver.PreparedIds | src/CommentsResolver.php:25-29 | the prepared comments hold one entry for each comment id, and no other |
| Resolver.PreparedLast | src/CommentsResolver.php:25-29 | an id's entry holds the tokens of the last comment with that id |
| Resolver.Prepare | src/CommentsResolver.php:21-30 | the constructor's result: every comment tokenized and stored under its id, the first tokenizer error aborting (stated by PrepareOkIff, PrepareFirstError, PreparedIds and PreparedLast) |
| Resolver.PrepareStopsAt | src/CommentsResolver.php:25-27 | a tokenizer error among the first comments is the error of the whole preparation |
| Resolver.PrepareComments | src/CommentsResolver.php:23-29 | the preparation loop computes exactly the specified prepared comments or error |
| Resolver.NewResolver | src/CommentsResolver.php:21-30 | construction fails exactly when preparation fails, with that error; otherwise the resolver holds the prepared comments and no functions |
| Resolver.NumberData | src/Tokenizer.php:173 | a number literal is an integer exactly when its lexeme has no '.', a float otherwise |
| Resolver.IntegerLiteral | src/Tokenizer.php:50-60 | every integer, written as a literal and read as a number, gives itself back |
| Resolver.ForeachItems | src/CommentsResolver.php:70-81 | a loop iterates over a list as it is and over an array-like map's values in order; it iterates over any other value, null included, as a one-item list |
| Resolver.CommentsResolver.constructor | src/CommentsResolver.php:21-30 | a new resolver holds the prepared comments and no functions |
| Resolver.CommentsResolver.RegisterFunction | src/CommentsResolver.php:36-39 | the alias now names the handler, replacing any earlier one; other aliases are unchanged |
| Resolver.EvalData | src/CommentsResolver.php:64-100 | a non-loop token's value in a scope given by its data: key by lookup, literals as themselves, EMPTY as "", a call as the handler applied to its arguments, an unregistered name an error (stated by EvalOkIff) |
| Resolver.EvalArgs | src/CommentsResolver.php:108-116 | the arguments' values in order, the first failure aborting (stated by ArgsOkIff and PrefixError) |
| Resolver.PrefixError | src/CommentsResolver.php:110-113 | a failure among the first arguments is the failure of the whole argument list |
| Resolver.EvalOkIff | src/CommentsResolver.php:89-95 | a token resolves without error exactly when every function it calls, in its arguments too, is registered |
| Resolver.ArgsOkIff | src/CommentsResolver.php:108-116 | the arguments resolve exactly when each one does, giving one value per argument, in order |
| Resolver.Resolution | src/CommentsResolver.php:47-100 | what `resolve` answers in a scope given by its data: "" for an id without a comment, a loop's items, or the token's value |
| Resolver.ResolutionOkIff | src/CommentsResolver.php:47-95 | a comment resolves exactly when it is missing, a loop, or calls only registered functions; a missing comment fills in ""; the answer is a loop exactly when the comment is one |
| Resolver.OutcomeOf | src/CommentsResolver.php:68-98 | a `value` answer stands for its data and a `foreach` answer for the data of its scopes, in order |
| Resolver.CommentsResolver.ResolveToken | src/CommentsResolver.php:64-100 | a non-loop token resolves to exactly its `EvalData` value or error. A loop yields one fresh, distinct child scope per item of the looked-up collection, in order, holding that item and an empty cache. Scope caches stay true |
| Resolver.CommentsResolver.ChildScopes | src/CommentsResolver.php:83-85 | `array_map` makes one fresh, distinct child scope of the current scope per item, in order, holding that item and an empty cache |
| Resolver.CommentsResolver.PrepareArgs | src/CommentsResolver.php:108-116 | the argument loop computes exactly `EvalArgs`: the values left to right, the first failure aborting the call |
| Resolver.CommentsResolver.Resolve | src/CommentsResolver.php:47-55 | `resolve` answers exactly `Resolution` in the data of the scope chain; a loop's scopes are fresh, distinct children of the scope with empty caches |
| Tree.SpliceMarkers | src/DocTemplater.php:274-277 | putting nodes in place of a node trades exactly the markers of the node taken out for those of the nodes put in |
| Tree.ReplaceMarkers | src/DocTemplater.php:201-205 | replacing a node trades exactly its markers for those of the new node |
| Tree.FindLast | src/DocTemplater.php:168-178 | the path found leads to the marker sought, and it is the last such node in document order (stated by FindLastMax and FindLastIsLast) |
| Tree.FindLastMax | src/DocTemplater.php:168-178 | every node equal to the marker is the one found or comes before it in document order |
| Tree.FindLastIsLast | src/DocTemplater.php:168-178 | the node found stands in `Preorder` at or after every node equal to the marker: the one a map keyed by id keeps when filled in document order |
| Tree.BeforeStrict | src/DocTemplater.php:166-178 | document order between paths is strict: irreflexive and asymmetric |
| Tree.PreorderSorted | src/DocTemplater.php:166-178 | `Preorder` lists the paths in document order: each comes before every later one |
| Tree.FindLastIff | src/DocTemplater.php:168-178 | a marker is found exactly when the tree holds it |
| Tree.StartIdsMarkers | src/DocTemplater.php:166-171 | an id is listed exactly when a start marker with that id lies below the root |
| Tree.Dedup | src/DocTemplater.php:187 | the level's ids are exactly the listed ids, each once |
| Tree.DedupOrder | src/DocTemplater.php:166-187 | the level's ids keep the order in which their first start markers appear, as the keys of `$startsMap` do |
| Tree.StartIds | src/DocTemplater.php:166-171 | the ids of the start markers below the root, in document order (stated by StartIdsPreorder; membership by StartIdsMarkers) |
| Tree.StartIdsPreorder | src/DocTemplater.php:166-171 | the level's ids are exactly the ids of the start markers met along `Preorder` below the root, in that order, as `getElementsByTagNameNS` lists them |
| Tree.StripMarkers | src/DocTemplater.php:180-185 | after the references are removed no reference is left, and every other marker is kept in the same number |
| Tree.StripNothing | src/DocTemplater.php:180-185 | removing references from a tree that has none changes nothing |
| Tree.StripReferences | src/DocTemplater.php:180-185 | the fragment with every comment reference removed (stated by StripMarkers and StripNothing) |
| Tree.PreorderValid | src/DocTemplater.php:209-223 | every position of document order leads to a node |
| Tree.PreorderComplete | src/DocTemplater.php:209-223 | document order lists every node |
| Tree.PreorderInjective | src/DocTemplater.php:199 | document order lists every node once, so the walk meets the end marker exactly at its position |
| Tree.NextSibling | src/DocTemplater.php:211-212 | a next sibling is a node of the tree at the same depth |
| Tree.Climb | src/DocTemplater.php:213-219 | the climb ends at a node of the tree |
| Tree.SiblingBelow | src/DocTemplater.php:211-212 | inside a child's subtree, the next sibling is the one the subtree alone has |
| Tree.ClimbBelow | src/DocTemplater.php:213-219 | climbing from inside a child's subtree is the subtree's own climb, unless that reaches the child; then it is the child's next sibling, or the root |
| Tree.NextBelow | src/DocTemplater.php:209-222 | a step from inside a child's subtree is the subtree's own step, unless that returns to the child or stops; then it is the child's next sibling, or the root |
| Tree.Next | src/DocTemplater.php:209-223 | one step of the node walk: first child, else next sibling, else the climb, else none at the root (stated by NextPreorder) |
| Tree.NextOfRoot | src/DocTemplater.php:209-210 | from the root the walk goes to the second node of document order, and breaks off only in a one-node tree |
| Tree.NextPreorder | src/DocTemplater.php:209-222 | one step of the walk (first child, else next sibling, else the climb) from the `k`-th node of document order reaches node `k + 1`, and from the last node the root; it breaks off only in a one-node tree |
| Tree.NextPreorderOf | src/DocTemplater.php:209-222 | the same inside the children's part of document order, from which the last node climbs to the root |
| Tree.AncestorElement | src/DocTemplater.php:234-244 | every proper ancestor of a node is an element |
| Tree.ReplaceLeaf | src/DocTemplater.php:201-205 | refilling one `w:t` leaves every other leaf, the markers included, where it was |
| Tree.RemoveShift | src/DocTemplater.php:226-227 | removing one leaf leaves every other leaf in place, reached by its index-shifted path |
| Tree.SpliceHeight | src/DocTemplater.php:270-277 | putting copies no higher than the range in its place does not raise the tree |
| Tree.Splice | src/DocTemplater.php:270-277 | a node replaced by a list of nodes among its siblings (stated by SpliceMarkers, SpliceHeight and SpliceParent) |
| Templater.FirstRun | src/DocTemplater.php:199-207 | where the walk stops, there is a `w:t` |
| Templater.FirstRunRoute | src/DocTemplater.php:199-224 | the walk stops at the first `w:t` on its route from the start marker to the end marker, and finds none exactly when the route holds none |
| Templater.FirstRunMiss | src/DocTemplater.php:199-224 | a walk that reaches the end marker without stopping passes no `w:t` |
| Templater.FirstRunHit | src/DocTemplater.php:199-207 | a walk that stops does so at a position of its route before which the route holds no `w:t` |
| Templater.WalkToRun | src/DocTemplater.php:198-224 | the node walk, stepping by first child, next sibling and climb and stopping at a `w:t` or at the end marker, finds the `w:t` that the walk over document order positions finds, and none when that finds none |
| Templater.FoundRun | src/DocTemplater.php:198-224 | the `w:t` the walk from the start marker stops at, if any, is a `w:t` of the tree (where it lies is stated by FirstRunRoute) |
| Templater.UnmarkFacts | src/DocTemplater.php:226-227 | taking out a comment's two markers removes exactly those two markers, keeps the root an element and does not raise the tree |
| Templater.UnmarkAncestor | src/DocTemplater.php:250-261 | every node that enclosed both markers is still there, an element, once they are out |
| Templater.Unmark | src/DocTemplater.php:226-227 | both markers taken out, the start first (stated by UnmarkFacts and UnmarkAncestor) |
| Templater.Fill | src/DocTemplater.php:197-227 | the value case: the found `w:t` refilled with the value, then the markers taken out (stated by FillFacts and FillHoldsValue) |
| Templater.FilledAnchored | src/DocTemplater.php:200-205 | refilling a `w:t` leaves both markers of the comment where they were |
| Templater.FillFacts | src/DocTemplater.php:198-227 | a value comment removes exactly its own two markers, keeps the root an element and does not raise the tree |
| Templater.FillHoldsValue | src/DocTemplater.php:200-206 | the `w:t` the walk found holds just the value once the markers are out |
| Templater.CommonLength | src/DocTemplater.php:252-255 | the length compared is a common prefix of both paths, and the paths differ right after it |
| Templater.CommonAncestor | src/DocTemplater.php:246-258 | the path of the deepest node enclosing both markers (stated by DeepestCommon and RangeRoot) |
| Templater.DeepestCommon | src/DocTemplater.php:246-258 | the range root is a proper ancestor of both markers, and every common proper ancestor lies on its path |
| Templater.Ancestors | src/DocTemplater.php:232-244 | the climb lists every ancestor of the marker, from its parent up to the root |
| Templater.Reverse | src/DocTemplater.php:247-248 | `array_reverse` puts each entry at the mirrored position |
| Templater.RangeRoot | src/DocTemplater.php:232-258 | comparing the two ancestor chains from the root yields the deepest common proper ancestor of both markers |
| Templater.WithoutMembers | src/DocTemplater.php:263-268 | an id survives pruning exactly when it was pending and no start in the range names it; pending ids stay distinct |
| Templater.Without | src/DocTemplater.php:263-268 | the pending ids that no start in the range names, in order, never more than were pending (members stated by WithoutMembers) |
| Templater.Prune | src/DocTemplater.php:263-268 | the pruning loop drops exactly the pending ids of the start markers in the range, keeping the others in order |
| Templater.ArraySearch | src/DocTemplater.php:267 | `array_search` over the ids not yet unset: the first key not yet unset that holds the id, and none exactly when no such key holds it |
| Templater.PruneAsWritten | src/DocTemplater.php:263-268 | the pruning as written: each `array_search` sees the ids left by the unsets before it, and a miss reads as key 0 (stated by PruneDropsFirst and PruneRepeatDropsFirst) |
| Templater.MissUnsetsFirst | src/DocTemplater.php:267 | a start id that is not among the ids unsets key 0 |
| Templater.UnsetKeysGrow | src/DocTemplater.php:264-268 | a key unset for an earlier start marker stays unset |
| Templater.SeenUnset | src/DocTemplater.php:264-268 | once a start marker of a pending id has been seen, the key holding that id is unset |
| Templater.RepeatUnsetsFirst | src/DocTemplater.php:267 | the second start marker of one pending id finds its id already unset, a miss, and unsets key 0 |
| Templater.PruneDropsFirst | src/DocTemplater.php:267 | as written, a range holding the start marker of an id that is not pending drops the first pending id, which the corrected pruning keeps |
| Templater.PruneDropsExample | src/DocTemplater.php:267 | with ids 7 and 9 pending and the start of 5 in the range, the code as written keeps only 9 |
| Templater.PruneRepeatDropsFirst | src/DocTemplater.php:267 | as written, a range holding two start markers of one pending id also drops the first pending id, which the corrected pruning keeps |
| Templater.PruneRepeatExample | src/DocTemplater.php:267 | with ids 7 and 9 pending and two starts of 9 in the range, the code as written keeps nothing, the corrected pruning keeps 7 |
| Templater.RangeFacts | src/DocTemplater.php:259-268 | once a loop's markers are out, its range root is an element strictly below the root (unless it is the root). Every id left pending still has its start marker, outside the range |
| Templater.FirstCrossing | src/DocTemplater.php:173-178 | it finds the first pending id whose last end marker, the one the level keeps for it, lies inside the range, and finds none exactly when there is none |
| Templater.StrayLastEnd | src/DocTemplater.php:173-178 | in the example, the end marker kept for comment 2 is the last one, in the paragraph after the row |
| Templater.StrayEndInRange | src/DocTemplater.php:228-277 | a loop whose range holds an end marker of a pending comment whose last end marker lies after the range goes through, and the comment stays pending |
| Templater.SpliceCopies | src/DocTemplater.php:270-277 | replacing the range by its rendered copies leaves no reference, does not raise the tree, and keeps every marker that lay outside the range |
| Templater.Stripped | src/DocTemplater.php:180-187 | once the references are out, every id of the level still has its start marker, and the tree is no higher |
| Templater.FillAdvances | src/DocTemplater.php:197-227 | the value case keeps the level's invariant: the tree no higher and reference-free, every pending id still with its start marker |
| Templater.Level | src/DocTemplater.php:156-281 | a level that succeeds leaves an element no higher than the fragment and free of references |
| Templater.Comments | src/DocTemplater.php:189-196 | handling the pending comments in turn leaves an element no higher than before and free of references |
| Templater.Comment | src/DocTemplater.php:190-278 | one comment resolved, then filled or repeated, keeps the level's invariant and only shrinks the pending ids |
| Templater.Loop | src/DocTemplater.php:228-277 | the loop case keeps the level's invariant; the ids left pending were pending before and still have their start markers (its outcome stated by LoopSplices) |
| Templater.Copies | src/DocTemplater.php:270-275 | one copy per item, in order: copy `k` is the range root rendered as a level in the scope of item `k`, no higher than the range and free of references |
| Templater.CopiesOkIff | src/DocTemplater.php:270-275 | the copies all render exactly when every item's level does |
| Templater.CopiesFirstError | src/DocTemplater.php:270-272 | a failed loop fails with the error of the first item whose level fails, every earlier item's level having succeeded |
| Templater.CopiesPrefixError | src/DocTemplater.php:270-272 | once a first stretch of the items fails, the whole loop fails with that error |
| Templater.LoopSplices | src/DocTemplater.php:228-277 | a loop succeeds exactly when its range is below the root, holds the last end marker of no pending id, and every item renders; it then puts the copies in place of the range root and leaves pending exactly the ids that no start marker in the range names; a root range or a crossing gives its error |
| Templater.CommentFills | src/DocTemplater.php:196-227 | a value comment removes one start marker and one end marker of its id, leaves the pending ids as they were, and the `w:t` the walk found holds just the value |
| Templater.DocTemplater.RenderLevel | src/DocTemplater.php:156-281 | the fragment becomes exactly what `Level` renders in the data of the scope chain, or the method fails with `Level`'s error; the scope caches stay true and the fragment is never higher |
| Templater.DocTemplater.RenderComment | src/DocTemplater.php:189-278 | the new tree and pending ids are exactly `Comment`'s, or the method fails with its error; the caches stay true |
| Templater.DocTemplater.FillComment | src/DocTemplater.php:197-227 | the new tree is exactly `Fill` at the `w:t` that `FoundRun` names, and keeps the level's invariant |
| Templater.DocTemplater.Repeat | src/DocTemplater.php:228-277 | the new tree and pending ids are exactly `Loop`'s for the data of the scopes, or the method fails with its error; the caches stay true |
| Templater.DocTemplater.RenderCopies | src/DocTemplater.php:270-275 | the copies are exactly `Copies` for the data of the scopes, or the method fails with the first failing copy's error; the caches stay true |
| Templater.DocTemplater.RenderCopy | src/DocTemplater.php:271-272 | a cloned range root rendered in one scope is exactly that scope's `Level` |

## Findings

| source | as written | input that shows it | evidently intended | confidence | as-written member | corrected member |
|---|---|---|---|---|---|---|
| src/DocTemplater.php:267 | `array_search` answers `false` for an id that is not pending, and `unset($ids[false])` removes key 0: the first pending id | ids 7 and 9 pending, the repeated range holding a start marker with id 5 that is not pending (a second start marker of an already handled id): comment 7 is never rendered | remove an id only when it is pending | low (needs two start markers with one id); not executed | Templater.PruneDropsFirst | Templater.Prune |
| src/DocTemplater.php:267 | `array_search` runs on the ids left by the unsets before it, so the second start marker of one pending id finds nothing, and `unset($ids[false])` removes key 0: the first pending id | ids 7 and 9 pending, the repeated range holding two start markers with id 9: comment 7 is never rendered, and the pending list ends empty | remove an id only when it is pending | low (needs two start markers with one id); not executed | Templater.PruneRepeatDropsFirst | Templater.Prune |

## Left out

- Templater.DocTemplater.RenderComment: a comment with a start marker and no end marker is the error `MissingEnd`. PHP would walk the tree with a null end, which never matches; it loops or fails on the null end.
- Templater.DocTemplater.Repeat: a loop whose range root is the fragment root is the error `RootRange`, raised once the markers are out and before any copy is made. PHP first clones and renders the copy for the first item (src/DocTemplater.php:271-272) and only then fails on the root's missing parent (:274), or, with no items, on removing the root (:277). When that first copy fails, PHP reports the copy's own error, where the model reports `RootRange`; a successful first copy is lost either way. Rendering the copy of the whole fragment first is left out because that copy is no lower than the fragment, which the recursion's termination measure relies on.
- Templater.DocTemplater.Repeat: a pending comment whose last end marker (the one the level keeps for it) lies inside the repeated range while its start lies outside is the error `CrossingRange`. PHP removes that end marker from the document with the range and goes on with it detached: the walk of a value comment then never meets it. Earlier end markers with that id inside the range do not count (see StrayEndInRange); they are copied with the range.
- Templater.DocTemplater.RenderLevel: when the resolver fails (an unregistered function), the model returns the error at once; PHP throws at that point and leaves the tree partly rendered. On an error the contract states the error and the invariants, not the partly rendered tree.
- Markers are held by id, not by node: each start and end marker is looked up again, as the last one with its id in document order (Tree.FindLastIsLast), which is the node the PHP maps keep for that id.
- Templater.Prune: uses the corrected pruning, which removes an id only when it is pending (see Findings).
- Text content is kept as a `Value`; PHP's conversion of the value to a string in `createTextNode` (src/DocTemplater.php:205) is not modelled. That conversion throws for an array, and for an object without `__toString`; a key can resolve to such a value (a map, a list or an object), and the model fills the `w:t` with it instead of failing.
- Text is modelled as characters, not bytes. The tokenizer in PHP indexes bytes (`$str[$i]`, src/Tokenizer.php:33, 99, 107, 125), so for non-ASCII input its "unexpected char" error names one byte of the UTF-8 sequence, where the model names the whole character.
- Resolver.Prepare: the comments are a list of id and text pairs. PHP's `array $comments` holds each id once; the model does not require that, and a list that repeats an id has no PHP counterpart (PreparedLast then keeps the last entry's tokens).
- Element names other than `w:t` and the three comment markers are opaque; namespaces and attributes are not modelled.
- A fragment is rewritten as a value inside a level and written back to the `Fragment` object once, at the end. Aliasing between DOM nodes is not modelled.
- Objects implementing `ArrayAccess` are modelled as maps (ordered entries), and integer overflow of PHP numbers is not modelled.
- Resolver.NumberData: a float keeps its sign and lexeme instead of a floating-point number.
- TokenizerProperties.TokenizePrint: the round trip covers calls without arguments only. The argument loop is covered step by step by ArgsLast, ArgsNext and CallAt.
- Registered functions are total functions of their argument values. Registering a null or non-callable handler, and handlers with side effects, are not modelled.
- The rest of `src/DocTemplater.php` is not part of this model: opening the DOCX archive, loading and saving XML, the public render entry point, `save` and `__destruct`.
