# A verified model of the BDL dialog-file parser

BDL is a line-oriented language for branching dialogs. A `.bdl` file has
three parts:

- A header of `# Key: value` lines: `Topic`, `Description`, `Author`,
  `Version` and `Required`. The last one lists dependency files.
- Optional `$global_vars: { … }` and `$local_vars: { … }` blocks of
  `name: value,` declarations.
- A sequence of nodes. Each node opens with an `@name` line, followed by
  content lines and option lines.

The Rust parser (`src/parser/mod.rs`) does four things:

- It validates dependency names.
- It scans the metadata header.
- It parses the variable blocks.
- It splits the text into nodes.

Each result is built into the value types of `src/lib.rs`.

This project models that parser and those types in Dafny, as pure
functions over a sequence of lines. It proves what each step accepts,
rejects and produces.

| file | module | models |
|---|---|---|
| `strings.dfy` | `Strings` | The Rust string operations the parser relies on: `trim` over the Unicode `White_Space` set, `trim_matches`, `trim_start_matches`, `split`, `split_once`, `ends_with`, `starts_with` and ASCII case-insensitive comparison. |
| `model.dfy` | `Model` | The error kinds and the document, node, content, option, destination, condition and value types. Also the builders `Document::new`, `add_node`, `Node::new`, `add_content` and `add_option`. |
| `number_literal.dfy` | `NumberLiteral` | Which texts `str::parse::<f64>` accepts, following the float grammar the Rust standard library documents. |
| `dependencies.dfy` | `Dependencies` | `validate_dependency_file`, `validate_dependencies` and `validate_file_transfer`. |
| `metadata_parser.dfy` | `MetadataParser` | `parse_metadata`, plus a renderer whose output it reads back. |
| `variable_parser.dfy` | `VariableParser` | `parse_variable_line`, its value classifier and the block state machine of `parse_variables`. |
| `node_parser.dfy` | `NodeParser` | The node state machine of `parse_nodes`, with `parse_option` as an abort outcome. Also a reference definition of the nodes a file describes. |

## How the parsers are modelled

- **Lines.** Input is a sequence of lines, as `str::lines` would yield
  them.
- **Trimming.** Each line is trimmed with the exact `char::is_whitespace`
  set.
- **Loops as folds.** Each parser loop is a fold over a prefix:
  `f(s) = step(f(s[..|s|-1]), s[|s|-1])`.
- **Two layers for the line walks.** `parse_variables` and `parse_nodes`
  are modelled in two layers:
  - A classifier (`VariableParser.Kind`, `NodeParser.NodeLineOf`) maps
    each raw line to the case the loop body takes for it.
  - The walk (`VariableParser.RunKinds`, `NodeParser.RunNodes`) folds over
    those cases.
  - The walk lemmas are proved once, over the cases. The file-level
    lemmas (`VariablesGlobalIffOpener`, `ParseNodesSucceedsIffDistinct`,
    …) lift them to raw lines.
- **Reference definitions for nodes.** `NodeParser.NodesOf` is an
  independent definition of the nodes: one per header, with one text
  element per content line. The walk is proved to agree with it, and to
  agree with assembling those nodes one at a time with `Model.AddNode`.
- **Round trips.** Both the header and the declaration lines have a
  renderer (`MetadataParser.Render`, `VariableParser.EntryLine`) that the
  parser provably reads back.

## Where the code and its tests or documentation disagree

The model follows the code in each case:

- **Content lines are not merged.** The text-only node test
  (`src/parser/mod.rs:535-558`) expects two content lines to become one
  `Text` element. The loop (`src/parser/mod.rs:191-195`) pushes each line
  and flushes it immediately, so every content line is its own element.
  `NodeParser.NodeBodyContent` and `NodeParser.TextNodeExample` prove the
  per-line behaviour.
- **The parser's types differ from `src/lib.rs`.**
  - The parser builds metadata with optional fields and raises a
    `DependencyError`.
  - `src/lib.rs` declares the metadata fields as plain strings and has no
    `DependencyError` variant.
  - The model takes the parser's view: `Metadata` has five optional
    fields, and `Error` has four variants.
- **Commas.** `trim_matches(',')` removes every leading and trailing
  comma, not just one trailing comma.
- **A lone quote.** A value that is a single `"` both starts and ends with
  a quote, so it becomes the empty string.
- **Special numbers.** `inf`, `infinity` and `nan` are accepted as numbers
  in any case, with an optional sign. So is `5.`.
- **Empty node names.** A bare `@` line opens a node with an empty name.
- **The global opener.** A `$global_vars:` line is recognised before the
  block check, so inside a local block it opens the global block.
- **Local blocks.** A second `$local_vars:` opener is not an error: every
  local block writes into the same map.
- **Option lines.** An option line before the first header is ignored.
  Inside a node it reaches `parse_option`, which panics.

## Model

| member | source | states |
|---|---|---|
| Model.NewDocument | src/lib.rs:107-114 | A new document carries exactly the given metadata, has no global variables, and has no local variables or nodes. |
| Model.AddNode | src/lib.rs:117-123 | Insertion fails with a node error exactly when the name is already present, leaving the document untouched. Otherwise the key set grows by exactly the new name, which maps to the node. Every earlier entry, the metadata and both variable maps are unchanged. |
| Model.NewNode | src/lib.rs:128-134 | A new node has the given name and no content or options. |
| Model.AddContent | src/lib.rs:137-139 | The element is appended after the existing content, which is kept as it was. The name and options are unchanged. |
| Model.AddOption | src/lib.rs:142-144 | The option is appended after the existing options, which are kept as they were. The name and content are unchanged. |
| Model.AddNodesSucceedsIffDistinct | src/lib.rs:117-123 | Adding nodes one after another succeeds exactly when their names are pairwise distinct and new to the document. Otherwise the result is a node error. |
| Model.AddNodesContents | src/lib.rs:117-123 | After successful insertions, each added node is stored under its own name. The keys are exactly the old keys plus the added names. Old entries and every other part of the document are unchanged. |
| Dependencies.ValidateDependencyFile | src/parser/mod.rs:15-27 | A file name is accepted exactly when it ends with `.bdl`. Otherwise the result is a dependency error. |
| Dependencies.NameWithoutExtensionRejected | src/parser/mod.rs:15-27 | A name without any `.` is always rejected with a dependency error. |
| Dependencies.ValidateDependencies | src/parser/mod.rs:30-44 | A list validates exactly when every entry ends with `.bdl` and no entry repeats. The resulting set is the set of entries and has the list's length. Every failure is a dependency error. |
| Dependencies.ValidateFileTransfer | src/parser/mod.rs:47-57 | A transfer target is accepted exactly when it ends with `.bdl` and is in the dependency set. Otherwise the result is a dependency error. |
| Dependencies.TransferAllowedIffDeclared | src/parser/mod.rs:30-57 | Against the set validated from a list, a transfer is allowed exactly when its target occurs in the list. |
| Dependencies.ExtensionExamples | src/parser/mod.rs:434-452 | `module.bdl` passes the extension check. `module.txt` and `module` fail it. |
| Dependencies.DistinctDependenciesExample | src/parser/mod.rs:455-465 | Two distinct `.bdl` names validate to a set of both names. |
| Dependencies.RejectedDependenciesExample | src/parser/mod.rs:467-485 | A repeated name, or a name with another extension, makes the list fail with a dependency error. |
| Dependencies.TransferExamples | src/parser/mod.rs:488-510 | A declared target passes. An undeclared target and a target with the wrong extension each fail with a dependency error. |
| MetadataParser.HeaderLength | src/parser/mod.rs:64-70 | The header is the longest leading run of lines that start with `#` once trimmed. The line after it is not such a line. |
| MetadataParser.ParseMetadata | src/parser/mod.rs:60-101 | Header parsing never fails. Empty input yields metadata with every field absent. |
| MetadataParser.RequiredList | src/parser/mod.rs:88-94 | A `Required` value becomes one entry per comma-separated segment, empty segments included. Each entry is trimmed and free of commas. |
| MetadataParser.RequiredListSegments | src/parser/mod.rs:88-94 | Each listed name is the comma-separated segment at its position, trimmed. |
| MetadataParser.RequiredOfSegments | src/parser/mod.rs:88-94 | Comma-free segments joined by commas are listed one name per segment, each with the white space around it dropped. |
| MetadataParser.RequiredTwoNames | src/parser/mod.rs:88-94 | Two names written `first, second` are listed as exactly those two names. |
| MetadataParser.FieldIsLastDeclaration | src/parser/mod.rs:64-97 | A field is absent exactly when no header line declares its key. Otherwise it holds the value of the last line that declares it. Comment lines and unknown keys have no effect. |
| MetadataParser.LaterLinesIgnored | src/parser/mod.rs:64-70 | Once a line outside the header has been read, nothing appended after it changes the result. |
| MetadataParser.BlankLineEndsHeader | src/parser/mod.rs:65-70 | A line of white space is not a header line, so it ends the header. |
| MetadataParser.KeyNameDenotes | src/parser/mod.rs:80-95 | Each of the five key names, in its capitalised spelling, denotes its key under the case-insensitive match. |
| MetadataParser.DeclarationLineRoundTrip | src/parser/mod.rs:72-87 | The rendered line `#Key:value` is a header line that declares exactly that key and value. |
| MetadataParser.Declaration | src/parser/mod.rs:72-87 | A header line without a colon declares nothing. A declared value has no white space at either end. |
| MetadataParser.PaddedHeaderLineDeclares | src/parser/mod.rs:64-97 | A line of one or more `#`s, white space, a key name in any letter case, white space, a colon, white space and a trimmed value is a header line. It declares the field the name denotes with that value. A name that denotes no field declares nothing. |
| MetadataParser.TopicLineExample | src/parser/mod.rs:265-279 | `# Topic: Test Dialog` is a header line that sets the topic to `Test Dialog`. |
| MetadataParser.LowerCaseTopicExample | src/parser/mod.rs:78-84 | `## topic :  Test Dialog` sets the same topic: the number of `#`s, the letter case and the white space around the colon do not matter. |
| MetadataParser.RequiredRoundTrip | src/parser/mod.rs:88-94 | Joining trimmed, comma-free names with commas and splitting them again gives back the same list. |
| MetadataParser.ParseHeaderThenBody | src/parser/mod.rs:60-101 | A run of header lines followed by a non-header line, or by nothing, is read exactly as that run. |
| MetadataParser.RenderRoundTrip | src/parser/mod.rs:60-101 | Rendering any writable metadata and then parsing it, followed by any body, gives back the same metadata. |
| VariableParser.ClassifyValue | src/parser/mod.rs:231-244 | A value classifies as a string exactly when it is quoted, with the quotes stripped. It is a boolean exactly for `true`/`false`, a number exactly for a float literal, and empty exactly for the empty text or `{}`. Every other value is a parse error. |
| VariableParser.ParseVariableLine | src/parser/mod.rs:216-247 | A line gives no entry exactly when it is blank or `}`. Any other line whose colon count is not one is a parse error. An entry's key is trimmed and has no colon. Every failure is a parse error. |
| VariableParser.VariableLineRoundTrip | src/parser/mod.rs:216-247 | The declaration line `key: value` is read back as exactly that key and value, whether or not it ends with a comma. This holds for every writable key and value. |
| VariableParser.ParsedEntryIsWritable | src/parser/mod.rs:228-244 | Every entry the parser produces has a writable key and value, so it can be rendered again. |
| VariableParser.EntryLineIsNormalForm | src/parser/mod.rs:216-247 | Rendering a parsed entry and parsing the rendered line gives the same entry again. |
| VariableParser.PaddedDeclarationValue | src/parser/mod.rs:216-247 | In a line `key:` followed by white space, commas, the value text, commas and white space, the key is read trimmed. The value is what the bare text classifies as. The line is a parse error exactly when that text is not a recognised value. |
| VariableParser.Kind | src/parser/mod.rs:111-145 | A raw line is skipped exactly when, once trimmed, it is empty or a `#` comment without `$`. Otherwise it is a global opener, a local opener, a closing brace or a declaration exactly as the trimmed line says. A declaration is read with `parse_variable_line`. |
| VariableParser.SkippedLineInert | src/parser/mod.rs:113-116 | A blank line or a comment without `$` changes nothing wherever it comes, inside a block or outside. |
| VariableParser.Step | src/parser/mod.rs:113-146 | One line fails exactly when it is a second global opener, or a declaration that fails inside a block. After a successful step the global map exists exactly when it existed before or the line opened it. After a successful step the open block is the one an opener or closing brace leaves. Any other line keeps the block that was open. |
| VariableParser.RunKinds | src/parser/mod.rs:110-147 | The walk keeps the global block open only while a global map exists. When no declaration fails, its only error is a parse error. |
| VariableParser.ParseVariables | src/parser/mod.rs:104-150 | Variable parsing fails only with a parse error. |
| VariableParser.RunPrefix | src/parser/mod.rs:120-142 | An error ends the walk: a walk that succeeds succeeded on every prefix. |
| VariableParser.GlobalDeclaredIffOpener | src/parser/mod.rs:119-126 | After a successful walk, the global map exists exactly when some line opened a global block. |
| VariableParser.OpenBlockIsLastBoundary | src/parser/mod.rs:119-138 | Read from the lines alone, the open block is the one the last opener or closing brace leaves. |
| VariableParser.NoBoundaryOutside | src/parser/mod.rs:107-108 | Before any opener or closing brace no block is open. |
| VariableParser.WalkBlockIsOpenBlock | src/parser/mod.rs:119-138 | After a successful walk, the block the parser writes to is the one the lines leave open. |
| VariableParser.GlobalOpenerInsideLocalBlock | src/parser/mod.rs:119-126 | A global opener inside an unclosed local block switches blocks. The next declaration goes into the new global map, and the local map keeps what it had. |
| VariableParser.SecondGlobalOpenerRejected | src/parser/mod.rs:119-122 | Two global openers make the walk fail. |
| VariableParser.OutsideLinesInert | src/parser/mod.rs:133-146 | Outside a block, lines other than openers change nothing, whether they are declarations, braces, comments or malformed lines. |
| VariableParser.StepMap | src/parser/mod.rs:133-145 | One step changes a block's map only by inserting the entry it reads while that block is open. |
| VariableParser.BlockKeys | src/parser/mod.rs:127-145 | A key is in a block's map exactly when some declaration of it was read while that block was open, as the openers and closing braces before it say. All local blocks fill the same map. |
| VariableParser.BlockValueIsLastWrite | src/parser/mod.rs:141-145 | A key maps to the value of its last declaration read in that block, so a later declaration overwrites an earlier one. |
| VariableParser.VariablesGlobalIffOpener | src/parser/mod.rs:104-150 | On raw lines, the global map is present exactly when some trimmed line starts with `$global_vars:`. |
| VariableParser.DuplicateGlobalRejected | src/parser/mod.rs:119-122 | Raw text with two `$global_vars:` lines is rejected with a parse error. |
| VariableParser.NoBlocksNoVariables | src/parser/mod.rs:104-150 | Text with no block openers has no global map and no local variables, whatever else it holds. |
| VariableParser.EmptyStringLineExample | src/parser/mod.rs:339 | `user_name: "",` declares `user_name` as the empty string. |
| VariableParser.NumberLineExample | src/parser/mod.rs:340 | `score: 0,` declares `score` as the number literal `0`. |
| VariableParser.EmptyBracesLineExample | src/parser/mod.rs:343 | `inventory: {}` declares `inventory` as empty. |
| VariableParser.QuotedNameLineExample | src/parser/mod.rs:366 | `player_name: "John"` declares `player_name` as the string `John`. |
| VariableParser.InvalidValueLineExample | src/parser/mod.rs:420-432 | `invalid_value: not_valid` is a parse error. |
| VariableParser.IndentedEntryKind | src/parser/mod.rs:111-145 | A declaration line with white space before it is read as an entry of its key and value. |
| VariableParser.OpenerLineKind | src/parser/mod.rs:119-131 | `$global_vars:` or `$local_vars:`, followed by text such as ` {`, opens its block. |
| VariableParser.CloseLineKind | src/parser/mod.rs:135-138 | A line that trims to `}` closes a block. |
| VariableParser.BlankLineKind | src/parser/mod.rs:113-116 | A line of white space is skipped. |
| VariableParser.GlobalBlockOfExample | src/parser/mod.rs:381-386 | After a blank line and a global block with one declaration, the global map holds that entry and no block is open. |
| VariableParser.BothBlocksExample | src/parser/mod.rs:381-400 | A blank line, a global block declaring one key, a blank line and a local block declaring another leave one entry in each map and no block open. |
| NumberLiteral.LiteralAlphabet | src/parser/mod.rs:238-239 | Every accepted number literal is non-empty and made only of digits, signs, points and ASCII letters. |
| NumberLiteral.AcceptsIntegers | src/parser/mod.rs:238-239 | `0` and `50` are numbers. |
| NumberLiteral.AcceptsFractions | src/parser/mod.rs:238-239 | `100.5`, `.5` and `5.` are numbers. |
| NumberLiteral.AcceptsExponents | src/parser/mod.rs:238-239 | `-2.5e10` is a number. |
| NumberLiteral.AcceptsSpecialLiterals | src/parser/mod.rs:238-239 | `inf`, `-Infinity` and `NaN` are numbers. |
| NumberLiteral.RejectsMalformedNumbers | src/parser/mod.rs:238-243 | The empty text, a lone point, `e5` and `1e` are not numbers. |
| NumberLiteral.RejectsWords | src/parser/mod.rs:234-239 | `true` and `false` are not numbers, so the boolean branches come first without overlap. |
| NumberLiteral.RejectsBracesAndNames | src/parser/mod.rs:238-243 | `{}` and `not_valid` are not numbers. |
| NodeParser.NodeLineOf | src/parser/mod.rs:159-196 | A trimmed line is one of four kinds. It is blank exactly when empty or starting with `#`. It is a header exactly when starting with `@`, named by the rest trimmed. It is an option line exactly when starting with `{` or `?{`. Every other line is content, carried unchanged. |
| NodeParser.HeaderLineRoundTrip | src/parser/mod.rs:167-178 | The line `@name` is read as a header named `name`, for every non-empty trimmed name. |
| NodeParser.ContentLineRoundTrip | src/parser/mod.rs:183-196 | A trimmed line that starts like no other kind is read as content, unchanged. |
| NodeParser.NodeStep | src/parser/mod.rs:166-197 | A line rejects the walk exactly when it is a header whose name is already saved, counting the node being built, and then with a node error. It aborts exactly when it is an option line inside a node. |
| NodeParser.ParseNodes | src/parser/mod.rs:153-206 | Node parsing fails only with a node error. |
| NodeParser.OutcomeIsFinal | src/parser/mod.rs:175-187 | Once the walk is rejected or aborted, later lines do not change the outcome. |
| NodeParser.HeaderlessLinesIgnored | src/parser/mod.rs:183-197 | Without a header, every line is ignored and the walk stays at its start. |
| NodeParser.PreambleIgnored | src/parser/mod.rs:183-197 | Lines before the first header have no effect on the walk. |
| NodeParser.NodeNamesAreHeaders | src/parser/mod.rs:167-178 | The reference lists one node per header line, named as the header, in order. |
| NodeParser.WalkInvariant | src/parser/mod.rs:153-206 | While walking, the header names so far are distinct and the state is the reference assembled so far. A rejection means a name repeats. An abort means an option line follows a header. |
| NodeParser.WalkSucceedsIffDistinct | src/parser/mod.rs:166-181 | Without option lines inside nodes, the walk finishes exactly when the header names are pairwise distinct. Otherwise it fails with a node error. |
| NodeParser.WalkMatchesReference | src/parser/mod.rs:153-206 | A finished walk saves exactly the reference nodes: the keys are the header names and each maps to its reference node. This equals assembling the reference nodes into an empty document. |
| NodeParser.DuplicateHeaderRejected | src/parser/mod.rs:174-177 | A header that repeats an earlier one is a node error, unless option parsing aborted first. |
| NodeParser.OptionInNodeAborts | src/parser/mod.rs:184-188 | An option line after a header reaches the unimplemented option parser, unless a repeated header was rejected first. |
| NodeParser.NodeBodyContent | src/parser/mod.rs:189-196 | A node's content is one text element per content line of its body, in order, and it has no options. Lines are not merged. |
| NodeParser.ParseNodesSucceedsIffDistinct | src/parser/mod.rs:153-206 | On raw lines without option lines inside nodes, parsing succeeds exactly when the header names are distinct. Otherwise the result is a node error. |
| NodeParser.ParseNodesMatchesReference | src/parser/mod.rs:153-206 | Successfully parsed nodes are keyed exactly by the header names and equal the reference nodes assembled into an empty document. |
| NodeParser.EmptyNodeExample | src/parser/mod.rs:520-533 | The text `@empty_node` parses to one node named `empty_node`, with no content and no options. |
| NodeParser.TextNodeExample | src/parser/mod.rs:189-196 | A header followed by two content lines gives one node with two text elements, one per line. |
| NodeParser.DuplicateNodesExample | src/parser/mod.rs:561-577 | The classified lines of the duplicate-name test are rejected with a node error. |

## Left out

- Option parsing: `parse_option` is unimplemented and panics. The model
  does not invent an option grammar. An option line inside a node ends the
  walk with the `Unimplemented` outcome instead.
- The `dependencies` parameter of `parse_nodes`: it is only passed on to
  `parse_option`, so it is not modelled.
- Interpolation: extracting `${…}` variables and `!{…}` function calls,
  resolving destinations and evaluating conditions are not implemented in
  these files. Only their types are modelled.
- Floating-point values: a number keeps its literal text.
  `NumberLiteral.IsF64Literal` decides acceptance from the documented
  grammar. Rounding, and the value itself, are not modelled.
- Error message text, the `thiserror` formatting and the serde derives are
  not modelled. Errors are their kinds only.
- `VariableError` is declared but never raised.
- File reading and `str::lines`: the input is already a sequence of lines,
  so a trailing `\r` and the line splitting itself are not modelled.
- Hash map order: maps and sets are unordered in the model, as their
  contents are.
- Case-insensitive keys use ASCII lower-casing rather than Unicode
  `to_lowercase`. The two agree on whether a name is one of the five
  lower-case keys.
- Cross-file loading and the runtime that walks the dialog are not part of
  this model.
- `NodeParser.ParseNodesSucceedsIffDistinct` and
  `NodeParser.WalkSucceedsIffDistinct` assume no option line inside a
  node. Without that assumption the outcome depends on which comes first:
  a repeated header is rejected, an option line aborts.
  `DuplicateHeaderRejected` and `OptionInNodeAborts` state each order
  separately.
- `NodeParser.DuplicateNodesExample` is stated over classified lines, not
  raw text. `NodeParser.NodeLineOf` states how each raw line is classified.
- `VariableParser.BothBlocksExample` is stated over classified lines, for
  any keys and values, not over the raw text. `BlankLineKind`,
  `OpenerLineKind`, `IndentedEntryKind` and `CloseLineKind` classify each
  raw line of that form. `BothBlocksTestKeys` and `BothBlocksTestValues`
  show that the test's names and numbers are of that form.
