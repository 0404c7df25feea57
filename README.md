# css-text, modelled in Dafny

A model of the text pipeline of the Rollup plugin `rollup-plugin-css-text`
(`index.ts`). The plugin turns each CSS file into a JavaScript module that
exports the file's CSS text as a string constant. The model covers:

- `indexAfterOf`: substring search that answers just past the first match
  (`text.dfy`, module `Text`, together with `indexOf`, the JavaScript
  whitespace class behind `\s`, and `trim()`);
- `parseCss`: one forward scan that splits a stylesheet into style blocks and
  comment blocks (`css_parser.dfy`, module `CssParser`). The loop is the method
  `ParseCss`. It is proved against `Parse`, a token-level reading: `Scan` cuts
  the text into steps (a quoted run, a comment, or one plain character) and
  `GroupFrom` groups the steps into blocks. `ParseFrom` follows the loop one
  iteration per call, and `ParseFromPending` proves the two readings agree;
- the escaper inside `JsFile.pushConstValue`: three `replace` passes
  (`escaping.dfy`, module `Escaping`). They are compared with a one-pass
  reading `EscapeSpec` and with `Decode`, a reader of the generated string
  literal;
- `getJsTemplate`: the wrapper code for 6 formats × 2 export modes
  (`templates.dfy`, module `Templates`);
- `class JsFile`: a buffer whose `content` field `pushContent` and
  `pushConstValue` update in place (`js_file.dfy`, module `JsFiles`);
- the `includeComments` branches of `writeBundle` (`policy.dfy`, module
  `Policies`).
  - `FillJsFile` runs the parser and drives a `JsFile` as the source does.
  - `PolicyActions` lists the calls each policy makes: `Raw` for
    `pushContent`, `Const` for `pushConstValue`.
  - The lemmas there relate the calls to the parsed blocks and to the
    exported value.

Strings are `seq<char>`, sequences of Unicode scalar values. `parseCss`'s callback becomes the returned sequence of blocks. The
callback order is the order of that sequence, and the callback never touches
the parser's state.

The escaper never escapes backslashes. A value holding a backslash therefore
does not always read back from the generated literal, although the plugin's
design intends the exported constant to be the CSS text. The model follows the
code here (see `EscapeBackslashCollision` and "Left out").

## Model

| member | source | states |
|---|---|---|
| Text.IndexOf | index.ts:11 | `indexOf(s, from)`: a match it reports starts at or after `from` and fits within the text |
| Text.IndexOfFirstMatch | index.ts:11 | `indexOf` answers with the first index at or after `from` where the searched text occurs, and `None` (JavaScript's -1) exactly when it occurs nowhere from there on |
| Text.IndexAfterOf | index.ts:6-14 | an answer lies between the clamped start position plus the searched length and the end of the text |
| Text.IndexAfterOfFirstMatch | index.ts:6-14 | `indexAfterOf` answers exactly when the searched text occurs at or after the clamped position; the answer ends that occurrence, and no earlier occurrence starts at or after the position |
| Text.IndexAfterOfShift | index.ts:6-14 | searching a suffix from `j` gives the answer of searching the whole text from `d + j`, shifted by `d` |
| Text.LeadingWs | index.ts:310 | `s.match(/^\s*/)[0]`: a whitespace prefix of `s` that cannot be extended |
| Text.TrailingWs | index.ts:312 | `s.match(/\s*$/)[0]`: a whitespace suffix of `s` that cannot be extended |
| Text.AllWs | index.ts:307 | `/^\s+$/.test(s)` holds exactly when `s` is non-empty and `trim()` empties it |
| Text.Trim | index.ts:311 | `trim()` is empty exactly for all-whitespace text; otherwise it neither starts nor ends with whitespace, and leading whitespace + result + trailing whitespace is the input |
| CssParser.QuoteEnd | index.ts:27-30 | a quoted run ends past its opening quote and within the text (end of text when `indexAfterOf` answers `undefined`) |
| CssParser.CommentEnd | index.ts:38-41 | a comment ends past its opener and within the text (end of text when unterminated) |
| CssParser.TokenAt | index.ts:24-54 | every loop iteration consumes at least one character and no more than remain, so the scan terminates |
| CssParser.ParseCss | index.ts:17-60 | the loop emits exactly the blocks of `Parse`; their texts concatenate back to the input; style blocks are non-empty and never adjacent; every comment is closed at the first `*/` or is open and last |
| CssParser.ParseFromPending | index.ts:23-55 | the loop's iteration-by-iteration reading and the token reading give the same blocks from every position and pending buffer |
| CssParser.ScanSpans | index.ts:23-55 | the scan's steps spell the input exactly |
| CssParser.GroupTexts | index.ts:43-48 | grouping loses nothing: the blocks spell the pending buffer followed by the steps' text |
| CssParser.CommentRunShape | index.ts:34-41 | a comment step starts with `/*` and ends at the first `*/` found from two characters past the opener, or is open and runs to the end of the text |
| CssParser.ClosedCommentRun | index.ts:38-41 | a run from `/*` to the first `*/` found from two characters on is a closed comment |
| CssParser.OpenCommentRun | index.ts:38-41 | a run from `/*` with no `*/` from two characters on is an open comment |
| CssParser.ScanCommentRuns | index.ts:34-50 | every comment step of a scan is closed, or open and the last step |
| CssParser.GroupShape | index.ts:43-59 | grouping well-formed steps gives non-empty, never adjacent style blocks and well-formed comments |
| CssParser.ParseShape | index.ts:17-60 | `Parse`, the blocks `parseCss` hands its callback: for any text they spell the text back, style blocks are non-empty and never adjacent, comments are well formed |
| CssParser.GroupBuffer | index.ts:32 | a pending style buffer behaves as style text placed in front of the following blocks |
| CssParser.PrependAssoc | index.ts:52 | adding style text in two pieces is adding it at once |
| CssParser.ParseQuoted | index.ts:26-33 | a closed quoted run is taken whole into the style text, whatever it holds, so `/*` inside quotes never starts a comment |
| CssParser.ParseUnterminatedQuote | index.ts:27-30 | an unclosed quote makes the rest of the text one style block |
| CssParser.ParseComment | index.ts:34-50 | a comment ends at the first `*/` and becomes a block of its own, flushing the style text before it |
| CssParser.ParseUnterminatedComment | index.ts:38-41 | an unclosed comment makes the rest of the text one comment block |
| CssParser.ParsePlain | index.ts:51-54 | any other character joins the style text |
| CssParser.ParsePlainRun | index.ts:51-54 | a run with no quote and no comment opener joins the style text whole |
| CssParser.ExampleQuotedOpener | index.ts:26-33 | `"/*"` is one style block, not a comment |
| CssParser.ExampleCommentBetweenRules | index.ts:34-59 | `a/**/b` gives a style block, a comment block and a style block |
| CssParser.ExampleOpenerIsNotCloser | index.ts:40 | the search for `*/` starts after the opener, so `/*/` is one unclosed comment |
| Escaping.Escape | index.ts:208-211 | the escaped value holds no CR and no LF, so the literal stays on one line; a value without quotes and line breaks is written unchanged |
| Escaping.EscapeQuotesKeeps | index.ts:209 | `EscapeQuotes`, `replace(/"/g, '\\"')`: never shortens the text, and changes it exactly when it holds a quote |
| Escaping.ReplaceCrlfKeeps | index.ts:210 | `ReplaceCrlf`, `replace(/\r\n/g, '\\n')`: keeps the length, and changes nothing in a text without CR |
| Escaping.ReplaceLineBreaksClears | index.ts:211 | `ReplaceLineBreaks`, `replace(/\n\|\r/g, '\\n')`: leaves no CR or LF, never shortens the text, and changes it exactly when it holds a line break |
| Escaping.EscapeSpec | index.ts:208-211 | the escaped text holds no CR or LF, every `"` in it follows a backslash, and it never starts with `"` |
| Escaping.EscapeMatchesSpec | index.ts:208-211 | the three `replace` passes, applied in order, agree with the one-pass reading |
| Escaping.EscapeStepCrlf | index.ts:210 | a CR LF pair becomes exactly one `\n` marker |
| Escaping.EscapeStepQuote | index.ts:209 | a quote becomes a backslash and the quote |
| Escaping.EscapeStepOther | index.ts:211 | a lone CR or LF becomes a `\n` marker; any other character but `"` is kept |
| Escaping.Normalize | index.ts:210-211 | the text a literal stands for has no CR and is no longer than the value |
| Escaping.DecodeEscape | index.ts:208-213 | for a value without backslashes, the generated literal body reads back as the value with CR LF, CR and LF normalised to LF |
| Escaping.EscapeBackslashCollision | index.ts:208-211 | a backslash followed by `n` and a line break get the same literal body, though they stand for different texts |
| Escaping.EscapeAppend | index.ts:208-211 | escaping two pieces is escaping their concatenation, unless a CR LF pair is split between them |
| Escaping.NormalizeAppend | index.ts:210-211 | normalising two pieces is normalising their concatenation, unless a CR LF pair is split between them |
| Templates.GetJsTemplate | index.ts:119-185 | the 12 pairs of wrapper strings, one per format and export mode; every opening code ends with `var _X="";` and every closing code starts with `var X=` |
| Templates.ExportsIgnored | index.ts:119-185 | the two export modes give the same template exactly for the `es` and `system` formats |
| Templates.ClosingDiffersCjsIife | index.ts:125-134 | under `cjs` and `iife` the closing code differs between the export modes |
| Templates.ClosingDiffersAmdUmd | index.ts:145-164 | under `amd` and `umd` the closing code differs between the export modes |
| JsFiles.TrimTrailingSpaces | index.ts:202 | `replace(/ +$/, '')` keeps a prefix of the text, drops only spaces, and leaves no trailing space |
| JsFiles.ConstStatement | index.ts:213 | the statement starts with `_X+="`, ends with the closing quote, and is one line whenever the constant name is |
| JsFiles.WithConstValue | index.ts:201-214 | the new content starts with the old content minus its trailing spaces, and ends with a line break and the statement |
| JsFiles.WithConstValueShape | index.ts:201-214 | after `pushConstValue` the content ends with `_X+="<escaped>"` on a line of its own; before that line is the old content minus its trailing spaces plus at most one line break |
| JsFiles.WithConstValueKeepsFirstLine | index.ts:201-206 | a content starting with a line break still starts with it after `pushConstValue` |
| JsFiles.Assemble | index.ts:216-219 | the module is the opening code, the content, a line break and the closing code, and the content can be read back from it |
| JsFiles.JsFile.constructor | index.ts:188-195 | a new file holds a single line break |
| JsFiles.JsFile.PushContent | index.ts:197-199 | appends the text; the content still starts with a line break |
| JsFiles.JsFile.PushConstValue | index.ts:201-214 | the new content is `WithConstValue` of the old one; the content still starts with a line break |
| JsFiles.JsFile.GetContent | index.ts:216-219 | the module text is the file's template wrapped around the content; the content is only read |
| JsFiles.GeneratedModuleFrame | index.ts:216-219 | in the generated module the content sits between the accumulator's declaration and the constant's declaration, each on a line of its own (`Framed`), given a content starting with a line break |
| Policies.PolicyActions | index.ts:302-328 | under `'in-const'` and `'in-file-only'` the calls carry the CSS text unchanged; under `false` they carry no more text than the CSS |
| Policies.FillJsFile | index.ts:302-328 | each policy branch leaves the file as the calls `PolicyActions` lists would |
| Policies.PushSegments | index.ts:305-317 | the `'in-file-only'` callback, block after block, makes the calls of `InFileOnlyActions` |
| Policies.PushSegment | index.ts:306-316 | one callback: a blank style block is copied; otherwise its leading whitespace is copied, its trimmed text pushed as a value and its trailing whitespace copied; a comment is copied |
| Policies.CollectStyles | index.ts:319-325 | under `false` the collected text is the style blocks' trimmed texts, in order |
| Policies.GenerateModule | index.ts:300-330 | a new file filled under the policy and wrapped in its template; the result is `Framed`: the filled content sits between the accumulator's declaration and the constant's declaration |
| Policies.StyleActionsFacts | index.ts:306-313 | `StyleActions`, the calls for one style block: they export its trimmed text, push one value unless the block is blank, copy only whitespace, and carry the block unchanged |
| Policies.SegmentActionsValues | index.ts:305-316 | for any block: a style block exports its trimmed text and pushes one value unless blank; a comment pushes no value |
| Policies.SegmentActionsPieces | index.ts:305-316 | for any block: the calls carry its text unchanged, and every copied piece is whitespace or a closed comment, unless the block is a comment left open |
| Policies.InFileOnlyFacts | index.ts:304-317 | over a block list: the exported value is the trimmed style texts, one value per non-blank style block, the calls carry the text unchanged; every raw piece is whitespace or a closed comment, except a comment left open, which can only be the last call; with every comment closed, every raw piece is whitespace or a closed comment |
| Policies.InFileOnlyValues | index.ts:304-317 | over a block list: the exported value is the trimmed style texts, one value per non-blank style block |
| Policies.InFileOnlyPieces | index.ts:304-317 | over a block list: the calls carry the text unchanged; every raw piece is whitespace or a closed comment, except a comment left open, which can only be the last call |
| Policies.TrimmedStylesBound | index.ts:319-325 | `TrimmedStyles`, the text collected under `false`: no longer than the blocks' text, and empty when every style block is blank |
| Policies.SameValueWithOrWithoutComments | index.ts:304-327 | the values pushed under `'in-file-only'` and under `false` add up to the same text, the concatenated trimmed style texts |
| Policies.SingleValuePolicies | index.ts:302-327 | `'in-const'` and `false` each push exactly one value; under `'in-const'` the exported text is the whole CSS, comments included |
| Policies.InFileOnlyCalls | index.ts:304-317 | `'in-file-only'` pushes one value per non-blank style block; the copied pieces and pushed values spell the CSS text; every copied piece is whitespace or a closed comment, except a comment left open at the end of the CSS, copied last; with every comment closed there is no exception |
| Policies.OpenCommentCopiedLast | index.ts:38-41 | under `'in-file-only'`, when the CSS ends in a comment left open, the filled content ends with that comment |
| Policies.OpenCommentSwallowsClosing | index.ts:216-219 | under `'in-file-only'`, when the CSS ends in a comment left open, the generated module ends with that comment, a line break and the closing code, so the closing code lies inside the open comment |
| Policies.InFileOnlyWithoutStyles | index.ts:304-317 | with only comments and whitespace, `'in-file-only'` pushes no value and copies the CSS into the file unchanged |

## Left out

- `getCssFiles`, the recursive directory walk and file reads, is not part of this model (I/O).
- `writeTsDeclaration` and the `writeFile` calls are not part of this model (file output).
- The Rollup plugin object is not part of this model, and neither is the validation in `writeBundle` of `exports`, `format` and `dir`. That is framework glue; the model's `Format` and `Exports` types admit only the valid values.
- The option defaults and `omitUndefinedProperties` are left out. They merge untyped records.
- The `constName` option as a function (possibly async) and its `'CSS_TEXT'` fallback are left out. The constant name is a parameter.
- Text.IndexAfterOf: positions are natural numbers. A negative or omitted `position` is not modelled, because the plugin always passes a non-negative one.
- Escaping.DecodeEscape: requires a value without backslashes, because the code never escapes `\`. `EscapeBackslashCollision` shows two values with the same literal body, so no round trip holds for values with backslashes.
- Escaping.Decode reads only the escapes `\n`, `\"` and `\\`, the ones the escaper can produce. It is not a full JavaScript string-literal reader.
- Policies.ExportedValue gives the constant the generated module computes by reading each pushed value through `Normalize`, so it is read from the statements rather than by running JavaScript. `DecodeEscape` justifies this for values without backslashes.
- Whether the generated text is valid JavaScript for each module system, and what the constant evaluates to at run time, are left out: the model has no JavaScript parser or module loader.
- Policies.SameValueWithOrWithoutComments: states that the pushed values add up to the same text, not that the two modules load and export the same constant. They do only when every comment in the CSS is closed. Under `'in-file-only'` a comment left open at the end of the CSS is copied into the file as the last piece (`InFileOnlyCalls`), and `getContent` appends the line break and the closing code after it (`OpenCommentSwallowsClosing`). The closing code then lies inside that comment (a constant name is an identifier and holds no `*/`), so the module never declares or exports the constant. Under `false` the same CSS gives a working module. The model follows the code here.
- Templates.ExportsIgnored: the templates for two export modes are shown to differ by comparing the lengths of their closing code.
- Whitespace: `\s` and `trim()` use one fixed set, ECMAScript's WhiteSpace and LineTerminator code points (`Text.IsWs`).
- UTF-16: a JavaScript string is a sequence of UTF-16 code units, and a model string is a sequence of Unicode scalar values. A character outside the Basic Multilingual Plane is two code units in JavaScript but one `char` here, so indexes and lengths differ from the source's for such text, and a lone surrogate cannot be represented at all. The blocks and the escaped text come out the same, because every delimiter, quote, line break and whitespace character involved lies in the Basic Multilingual Plane.
- The examples use short inputs (`"/*"`, `a/**/b`, `/*/`) of the same shapes as real stylesheets. The general lemmas `ParseQuoted`, `ParseComment` and `ParsePlainRun` cover texts of any length.
