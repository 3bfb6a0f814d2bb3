# Slim compiler pass, modelled in Dafny

This project models `Slim::Compiler`, the filter in Slim that lowers parsed
Slim templates into Temple/HTML expressions. It covers all of its parts:

- text becomes `[:static, s]`, or `[:dynamic, literal]` when it contains `#{`;
- a control line becomes `[:multi, [:block, code], body]`;
- output without content becomes a `:dynamic`, escaped or raw;
- output with content becomes the five-step block capture, which uses two
  fresh temporaries from `tmp_var`;
- a tag becomes `[:html, :tag, name, [:html, :attrs, basicattr...], body]`;
- a `doctype` directive becomes `[:html, :doctype, arg]`, and any other
  directive becomes nil;
- `escape_interpolation` performs the `gsub!` over
  `/(.?)\#\{(.*?)\}/`, with the backslash opt-out, and then quoting.

Modules:

- `Wrappers`: the `Option` type.
- `SlimAst`: the input expressions. `EmptyExp` models `empty_exp?`.
- `Temple`: the output expressions. `Nil` stands for the `nil` that
  `on_directive` returns.
- `Interpolation`: the regular expression and the rewrite, as functions.
  - `CloseFrom` is the lazy `(.*?)\}`.
  - `MatchHere` is one match attempt; `(.?)` is tried with one character
    first.
  - `Step` and `Rewrite` are `gsub!`'s leftmost, non-overlapping scan.
  - `EscapedLiteral` is `'"%s"' % string`.
  - The method `EscapeInterpolation` is the scanning loop, proved against
    `EscapedLiteral`.
- `TmpNames`: `"_slimtmp#{n}"` with `n` in decimal.
- `Lowering`: `Lower(e, n)` is what `compile(e)` returns on a compiler whose
  counter is `n`, together with the counter afterwards. It also holds
  `/^doctype/` and `String#strip`.
- `LoweringProperties`: the lemmas about `Lower`:
  - how the counter advances;
  - freshness and distinctness of capture buffers;
  - the shape of each handler's result;
  - when a compiled template is static.
- `SlimCompiler`: `class Compiler`. Its `tmp` field is `@tmp_var`. Each
  handler method is proved to return `Lower`'s result and to leave `tmp`
  where `Lower` says.

Ruby regular-expression details are modelled as Ruby evaluates this pattern:

- `.` does not match a newline. A newline is never `$1`, and an expression
  never spans lines.
- `(.*?)` is lazy: the first `}` closes the expression.
- `gsub` resumes after each match, so `$1` can never be the `}` of the
  previous match.
- `^` in `/^doctype/` matches at the start of any line, and `$'` is the text
  after the match.
- `strip` removes NUL, tab, line feed, vertical tab, form feed, carriage
  return and space from both ends, as in Ruby 3.x. Older Rubies kept a
  leading NUL.
- A `#{` that no `}` closes on its line does not match. It is kept as it is
  inside the quoted literal, and no error is raised (`RewriteNoClose`,
  `UnclosedInterpolationQuoted`).

The model follows the code in two places where a prose reading of the
compiler suggests otherwise:

- Text that contains `\#{` still becomes `:dynamic`, because
  `include?("\#{")` ignores the backslash. The backslash span is then kept
  verbatim inside the quoted literal (`EscapedInterpolationStaysDynamic`).
- A directive other than `doctype` yields nil, not an empty `:multi`
  (`OtherDirective`).

## Model

| member | source | states |
|---|---|---|
| SlimCompiler.Compiler.constructor | lib/slim/compiler.rb:84 | a fresh compiler's counter is 0 (`@tmp_var ||= 0`) |
| SlimCompiler.Compiler.TmpVar | lib/slim/compiler.rb:83-86 | the counter goes up by exactly one, and the name is `_slimtmp` with the new counter in decimal |
| TmpNames.Decimal | lib/slim/compiler.rb:85 | the rendering of a counter has at least one character, only digits, one digit exactly when the number is below 10, and a leading `0` only for 0 itself |
| TmpNames.DecimalRoundTrip | lib/slim/compiler.rb:85 | reading the decimal rendering back gives the number |
| TmpNames.TmpName | lib/slim/compiler.rb:85 | defines the name of the `n`-th temporary as `_slimtmp` followed by `Decimal(n)` |
| TmpNames.TmpNameInjective | lib/slim/compiler.rb:85 | two counter values that give the same name are equal |
| TmpNames.TmpNameDistinct | lib/slim/compiler.rb:83-86 | names drawn at different counter values differ, so successive `tmp_var` calls on one compiler never repeat a name |
| SlimCompiler.Compiler.OnText | lib/slim/compiler.rb:4-9 | text with `#{` gives `:dynamic` of the escaped literal; text without it gives `:static` of the unchanged text |
| Lowering.TextExp | lib/slim/compiler.rb:4-9 | defines the result of `on_text`: `:dynamic` of the escaped literal when the text contains `#{`, else `:static` of the text |
| Interpolation.HasMarker | lib/slim/compiler.rb:5 | defines `include?("#{")`: some index holds `#` followed by `{` |
| LoweringProperties.TextLowering | lib/slim/compiler.rb:4-9 | compiling text draws no temporary; the result is `:static` and unchanged without `#{`, and the `:dynamic` escaped literal with it |
| Interpolation.CloseFrom | lib/slim/compiler.rb:77 | defines the lazy `(.*?)\}` from an index: the first `}`, or no match once a newline or the end comes first; a found close lies inside the string |
| Interpolation.CloseFromMeaning | lib/slim/compiler.rb:77 | `(.*?)\}` stops at the first `}`, with no `}` and no newline before it; it fails exactly when every later `}` has a newline before it |
| Interpolation.FindClose | lib/slim/compiler.rb:77 | the scanning loop finds the same closing brace as `CloseFrom` |
| Interpolation.MatchHereMeaning | lib/slim/compiler.rb:77 | a match covers exactly `$1 + "#{" + $2 + "}"`; `$1` has at most one character and is not a newline; `$2` has no `}` and no newline |
| Interpolation.MatchHere | lib/slim/compiler.rb:77 | defines one attempt of the pattern at the start of a string, trying a one-character `$1` before an empty one; a match is non-empty and inside the string |
| Interpolation.Matched | lib/slim/compiler.rb:78 | defines `$&`, the whole matched text: `$1`, then `#{`, then `$2`, then `}` |
| Interpolation.MatchAt | lib/slim/compiler.rb:77 | trying the pattern at index `p` gives `MatchHere` of the suffix |
| Interpolation.ScanAt | lib/slim/compiler.rb:77-78 | one scan step copies the character where no match starts, or emits the block's result for the match there |
| Interpolation.Step | lib/slim/compiler.rb:77-78 | defines one step of `gsub!`: copy the first character where no match starts, else emit the block's result for the match; a step consumes at least one character |
| Interpolation.Rewrite | lib/slim/compiler.rb:77-78 | defines the string `gsub!` leaves: steps from the left, each resuming after what the previous one consumed |
| Interpolation.EscapeCall | lib/slim/compiler.rb:78 | defines the replacement interpolation `#{Slim::Helpers.escape_html($2)}` |
| Interpolation.Replacement | lib/slim/compiler.rb:78 | defines the block given to `gsub!`: the match kept as `$&` when `$1` is a backslash, otherwise `$1` followed by `EscapeCall($2)` |
| Interpolation.RewriteAt | lib/slim/compiler.rb:77-78 | the rewrite of a suffix is one step's output followed by the rewrite of what remains |
| Interpolation.EscapeInterpolation | lib/slim/compiler.rb:76-81 | the result is the rewritten string inside one leading and one trailing `"` |
| Interpolation.EscapedLiteral | lib/slim/compiler.rb:80 | defines `'"%s"' % string`: the rewritten string between two double quotes |
| Interpolation.RewriteNoMarker | lib/slim/compiler.rb:77 | a string without `#{` is left unchanged |
| Interpolation.EscapedLiteralNoMarker | lib/slim/compiler.rb:77-80 | a string without `#{` comes back merely quoted |
| Interpolation.RewriteNoClose | lib/slim/compiler.rb:77 | a string with no `}` is left unchanged by the rewrite, so an unclosed `#{` is kept as it is and raises no error |
| Interpolation.RewriteSkip | lib/slim/compiler.rb:77 | characters at which no match starts are copied unchanged, and the rest is rewritten on its own |
| Interpolation.RewriteLeadingSpan | lib/slim/compiler.rb:77-78 | `#{e}` at the start of the string (empty `$1`) becomes `#{Slim::Helpers.escape_html(e)}` |
| Interpolation.RewriteSpan | lib/slim/compiler.rb:77-78 | after plain text `a`, a span `c#{e}` where `c` is not a backslash becomes `c#{Slim::Helpers.escape_html(e)}`; `e` runs to the first `}`, the text before is unchanged, and the rest is rewritten on its own |
| Interpolation.RewriteNewlineSpan | lib/slim/compiler.rb:77 | newline before `#{` gives the same result as any other char: the newline is copied, the match starts at `#` |
| Interpolation.RewriteEscapedSpan | lib/slim/compiler.rb:78 | after plain text, a span `\#{e}` is kept verbatim (`$&`), and the rest is rewritten on its own |
| LoweringProperties.TextWithInterpolation | lib/slim/compiler.rb:4-6 | text with one unescaped interpolation compiles to the `:dynamic` literal with that interpolation escaped |
| LoweringProperties.EscapedInterpolationStaysDynamic | lib/slim/compiler.rb:5-6 | text with `\#{e}` still compiles to `:dynamic`, with the span verbatim inside the quoted literal |
| LoweringProperties.UnclosedInterpolationQuoted | lib/slim/compiler.rb:4-6 | text with `#{` but no `}` still compiles to `:dynamic`, and the literal is the unchanged text in double quotes |
| SlimCompiler.Compiler.OnControl | lib/slim/compiler.rb:12-16 | the result is `Lower`'s `[:multi, [:block, code], compile(content)]`, and the counter ends where compiling the content leaves it |
| Lowering.ControlExp | lib/slim/compiler.rb:12-16 | defines `[:multi, [:block, code], body]` |
| LoweringProperties.ControlNotStatic | lib/slim/compiler.rb:13-14 | a control line always opens with a `:block`, so it is never static |
| SlimCompiler.Compiler.OnOutput | lib/slim/compiler.rb:19-26 | empty content gives the direct `:dynamic`; any other content gives the block capture; result and counter are `Lower`'s |
| Lowering.OutputExp | lib/slim/compiler.rb:20-22 | defines the `:dynamic` of output without content: the code wrapped in `Slim::Helpers.escape_html((...))` when escaping, the bare code otherwise |
| SlimAst.EmptyExp | lib/slim/compiler.rb:20 | defines `empty_exp?` as the test for the empty `[:multi]` |
| LoweringProperties.OutputWithoutContent | lib/slim/compiler.rb:19-22 | empty content gives `[:dynamic, "Slim::Helpers.escape_html((code))"]` when escaping and `[:dynamic, code]` otherwise; no temporary is drawn |
| SlimCompiler.Compiler.OnOutputBlock | lib/slim/compiler.rb:28-51 | the result is the block capture with `tmp1`, `tmp2` the next two counter values; the content is compiled after both are drawn |
| Lowering.BlockCapture | lib/slim/compiler.rb:31-50 | defines the five-child `:multi` of `on_output_block` from the two temporaries and the compiled content |
| LoweringProperties.OutputBlockShape | lib/slim/compiler.rb:28-50 | five children in order: `[:block, "tmp1 = code"]`, `[:capture, tmp2, compile(content)]`, `[:block, tmp2]`, `[:block, "end"]`, `on_output(escape, tmp1, [:multi])`; the counter advances by two plus the content's share |
| LoweringProperties.OutputBlockTemporaries | lib/slim/compiler.rb:29 | `tmp1 != tmp2`, and neither names any capture buffer inside the compiled content |
| LoweringProperties.LowerCounter | lib/slim/compiler.rb:29 | compiling a template advances the counter by exactly two per output block with content |
| LoweringProperties.CapturesFresh | lib/slim/compiler.rb:29-41 | every capture buffer in a compiled template is a temporary drawn during that compile, and no two capture buffers share a name |
| SlimCompiler.Compiler.OnDirective | lib/slim/compiler.rb:53-59 | a type with a line starting with `doctype` gives the doctype of the stripped rest; the result is nil exactly when no line starts with `doctype` |
| Lowering.OnDirective | lib/slim/compiler.rb:53-59 | defines `on_directive`: the doctype of the stripped text after the leftmost `/^doctype/`, or nil |
| Lowering.DoctypeFrom | lib/slim/compiler.rb:55 | defines the search for `/^doctype/` from an index, left to right; a found position leaves room for `doctype` in the string |
| Lowering.DoctypeMatch | lib/slim/compiler.rb:55 | defines `/^doctype/` tried at one index: the index is the start of the string or follows a newline, and `doctype` starts there |
| Lowering.DoctypeFromMeaning | lib/slim/compiler.rb:55 | `/^doctype/` is found at its leftmost position, and not found only when it occurs at no line start |
| LoweringProperties.DoctypeDirective | lib/slim/compiler.rb:55-56 | a type beginning with `doctype` gives `[:html, :doctype, rest.strip]` |
| LoweringProperties.OtherDirective | lib/slim/compiler.rb:54-58 | the result is nil exactly when no line of the type begins with `doctype` |
| Lowering.TrimStart | lib/slim/compiler.rb:56 | defines the removal of leading whitespace; the result is no longer than the input |
| Lowering.TrimEnd | lib/slim/compiler.rb:56 | defines the removal of trailing whitespace |
| Lowering.Strip | lib/slim/compiler.rb:56 | defines `strip` as trailing whitespace cut from the result of cutting leading whitespace |
| Lowering.TrimStartMeaning | lib/slim/compiler.rb:56 | the leading run of whitespace is cut, and only whitespace |
| Lowering.TrimEndMeaning | lib/slim/compiler.rb:56 | the trailing run of whitespace is cut, and only whitespace |
| Lowering.StripMeaning | lib/slim/compiler.rb:56 | `strip` returns a slice with no whitespace at either end; only whitespace is cut off |
| Lowering.IsSpace | lib/slim/compiler.rb:56 | defines the characters `strip` removes in Ruby 3.x: NUL, tab, line feed, vertical tab, form feed, carriage return and space |
| SlimCompiler.Compiler.OnTagAttrs | lib/slim/compiler.rb:62-69 | the `inject` loop builds `[:html, :attrs]` with one `:basicattr` per pair, in order |
| Lowering.AttrExp | lib/slim/compiler.rb:63-68 | defines one `[:html, :basicattr, [:static, key], value]`, with the value compiled as text is |
| Lowering.AttrItems | lib/slim/compiler.rb:62-69 | defines the `inject` accumulator: the attributes for all but the last pair, followed by the one for the last pair |
| Lowering.AttrsExp | lib/slim/compiler.rb:62-69 | defines `[:html, :attrs, ...]` over the accumulated attributes |
| LoweringProperties.AttrItemsAt | lib/slim/compiler.rb:62-69 | one attribute per pair, and the `i`-th attribute comes from the `i`-th pair |
| SlimCompiler.Compiler.OnTag | lib/slim/compiler.rb:61-72 | the result is `[:html, :tag, name, attrs, compile(content)]` as `Lower` gives it; the counter ends where compiling the content leaves it |
| LoweringProperties.TagLowering | lib/slim/compiler.rb:61-71 | keys are `:static`; a value is `:dynamic` (the escaped literal) exactly when it contains `#{`, else `:static` unchanged; the body is the compiled content |
| LoweringProperties.TagStatic | lib/slim/compiler.rb:62-71 | a compiled tag is static exactly when no attribute value contains `#{` and its body is static |
| SlimCompiler.Compiler.Compile | lib/slim/compiler.rb:4-72 | dispatching to the handlers gives `Lower`'s result and counter; a non-doctype directive leaves nil in the tree |
| SlimCompiler.Compiler.CompileMulti | lib/slim/compiler.rb:3 | `[:multi, *exps]` compiles its children left to right, threading the counter through them |
| Lowering.Lower | lib/slim/compiler.rb:4-72 | defines what `compile` returns on a compiler whose counter is `n`, with the counter afterwards; output with content draws `n + 1` and `n + 2` before its content is compiled |
| Lowering.LowerSeq | lib/slim/compiler.rb:3 | defines the children of a `[:multi]` compiled from left to right, each starting from the counter the previous one left |
| LoweringProperties.StaticIffPlain | lib/slim/compiler.rb:4-72 | a compiled template has no `:dynamic`, `:block` or `:capture` exactly when it has no control line, no output and no `#{` in any text or attribute value |

## Left out

- The `use_html_safe` option and `html_safe?` (lib/slim/compiler.rb:21, 79)
  are not modelled; the option is fixed to off. They depend on a runtime type
  query. With the option on, `escape_interpolation` reads an undefined `code`.
- What `Slim::Helpers.escape_html` does, and how Temple later evaluates the
  generated Ruby strings, is not modelled. These are foreign calls, and the
  model only builds the strings.
- The `Filter` base class, including its `compile` dispatch and `on_multi`,
  is not part of this model. `Compile` and `CompileMulti` are plain structural
  recursion over the closed `SlimExp` datatype. Slim expression kinds other
  than text, control, output, tag, directive and `:multi` are not modelled,
  and neither is the filter's pass-through of unknown expressions.
- Strings are sequences of Unicode characters, so a string holding an
  invalid byte sequence cannot be represented. On such a string Ruby's
  `gsub!` (lib/slim/compiler.rb:77) and `/^doctype/` (:55) raise
  `ArgumentError`; the model has no such error path.
- What later filters do with the `nil` that a non-doctype directive leaves
  in a `:multi` is not modelled.
- LoweringProperties.CapturesFresh: distinctness across a whole compile is
  proved for the capture buffers (`tmp2`) only. The `tmp1` binders are not
  collected. Each is `TmpName(n + 1)` for a counter that only grows
  (`LowerCounter`, `TmpNameDistinct`), and `OutputBlockTemporaries` proves
  it differs from its own buffer and from the buffers below it.
- `gsub!` rewrites the caller's string in place. The model returns a new
  sequence, so aliasing of the input tree is not captured.
- Double quotes and backslashes in text are not escaped before quoting. The
  model reproduces this and does not claim the literal is well-formed Ruby.
- `benchmarks/run-benchmarks.rb`, a timing harness, and `lib/slim.rb`, which
  holds only `require`s and a version, are not part of this model.
