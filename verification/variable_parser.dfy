/**
 Variable declarations (src/parser/mod.rs): `parse_variable_line` reads one
 `key: value` line, and `parse_variables` walks the document collecting the
 entries of `$global_vars:` blocks into the global map and those of
 `$local_vars:` blocks into the local map.

 The walk is modelled in two layers. `Kind` classifies one raw line the way
 the loop body inspects it; `RunKinds` folds the block state machine over
 the classified lines. The properties of the walk are proved on the second
 layer, where no text is involved, and carried over to raw lines by `Kind`.
 */
module VariableParser {
  import opened Strings
  import opened Model
  import opened NumberLiteral

  const GlobalOpener := "$global_vars:"
  const LocalOpener := "$local_vars:"
  const Quote: set<char> := {'"'}
  const Comma: set<char> := {','}

  /** Starts and ends with a double quote (one quote alone counts). */
  predicate IsQuoted(value: string) {
    |value| > 0 && value[0] == '"' && value[|value| - 1] == '"'
  }

  /** A float literal never starts with a quote. */
  lemma LiteralIsUnquoted(value: string)
    ensures IsF64Literal(value) ==> !IsQuoted(value)
  {
    if IsF64Literal(value) {
      LiteralAlphabet(value);
      assert IsLiteralChar(value[0]);
    }
  }

  /**
   The value classification of `parse_variable_line`, tried in the source's
   order: quoted text, the two boolean words, a float literal, the empty
   forms, and otherwise an error. The contract shows the order never
   matters: each form excludes the others.
   */
  function ClassifyValue(value: string): (r: Result<Value>)
    ensures r.Err? ==> r.error == ParseError
    ensures (r.Ok? && r.value.String?) <==> IsQuoted(value)
    ensures r.Ok? && r.value.String? ==> r.value.text == TrimBy(value, Quote)
    ensures (r.Ok? && r.value.Boolean?) <==> value == "true" || value == "false"
    ensures r.Ok? && r.value.Boolean? ==> (r.value.flag <==> value == "true")
    ensures (r.Ok? && r.value.Number?) <==> IsF64Literal(value)
    ensures r.Ok? && r.value.Number? ==> r.value.literal == value
    ensures (r.Ok? && r.value.Empty?) <==> value == [] || value == "{}"
  {
    LiteralIsUnquoted(value);
    RejectsWords();
    RejectsBracesAndNames();
    RejectsMalformedNumbers();
    if IsQuoted(value) then Ok(String(TrimBy(value, Quote)))
    else if value == "true" then Ok(Boolean(true))
    else if value == "false" then Ok(Boolean(false))
    else if IsF64Literal(value) then Ok(Number(value))
    else if value == [] || value == "{}" then Ok(Empty)
    else Err(ParseError)
  }

  /**
   `parse_variable_line`: a blank line or a lone closing brace declares
   nothing; otherwise the line must hold exactly one colon, the trimmed text
   before it is the key, and the text after it, trimmed, stripped of commas
   at both ends and trimmed again, must classify as a value.
   */
  function ParseVariableLine(line: string): (r: Result<Option<(string, Value)>>)
    ensures r.Err? ==> r.error == ParseError
    ensures (r.Ok? && r.value.None?) <==> Trim(line) == [] || Trim(line) == "}"
    ensures Trim(line) != [] && Trim(line) != "}" && Count(line, ':') != 1 ==> r.Err?
    ensures r.Ok? && r.value.Some? ==> Count(line, ':') == 1
    ensures r.Ok? && r.value.Some? ==> IsTrimmed(r.value.value.0) && ':' !in r.value.value.0
  {
    var trimmed := Trim(line);
    if trimmed == [] || trimmed == "}" then Ok(None)
    else
      var parts := Split(line, ':');
      if |parts| != 2 then Err(ParseError)
      else
        var key := Trim(parts[0]);
        var value := Trim(TrimBy(Trim(parts[1]), Comma));
        TrimKeepsOut(parts[0], ':');
        match ClassifyValue(value)
        case Err(e) => Err(e)
        case Ok(v) => Ok(Some((key, v)))
  }

  /** Trimming never introduces a character. */
  lemma TrimByKeepsOut(s: string, drop: set<char>, c: char)
    requires c !in s
    ensures c !in TrimBy(s, drop)
  {
  }

  lemma TrimKeepsOut(s: string, c: char)
    requires c !in s
    ensures c !in Trim(s)
  {
  }

  /** The text a value is written as in a declaration line. */
  function RenderValue(v: Value): string {
    match v
    case String(text) => ['"'] + text + ['"']
    case Number(literal) => literal
    case Boolean(flag) => if flag then "true" else "false"
    case Empty => "{}"
  }

  /**
   The values a declaration line can carry: text without a colon and
   without a quote at either end, and a number written as a float literal.
   */
  predicate IsWritableValue(v: Value) {
    match v
    case String(text) => ':' !in text && IsTrimmedBy(text, Quote)
    case Number(literal) => IsF64Literal(literal)
    case Boolean(_) => true
    case Empty => true
  }

  /** A key as a declaration line carries it: trimmed and without a colon. */
  predicate IsWritableKey(key: string) {
    IsTrimmed(key) && ':' !in key
  }

  /** A value text a declaration line can end in: non-empty, trimmed, no colon, no comma at either end. */
  predicate IsValueText(text: string) {
    |text| > 0 && IsTrimmed(text) && text[0] != ',' && text[|text| - 1] != ',' && ':' !in text
  }

  /**
   A declaration line in the form the parser's tests use: `key: text,`, or
   `key: text` for the last entry of a block.
   */
  function DeclarationLine(key: string, text: string, comma: bool): string {
    key + [':'] + DeclarationTail(text, comma)
  }

  function DeclarationTail(text: string, comma: bool): string {
    [' '] + text + (if comma then [','] else [])
  }

  /** The declaration line of one entry. */
  function EntryLine(key: string, v: Value, comma: bool): string {
    DeclarationLine(key, RenderValue(v), comma)
  }

  lemma LiteralCharsTrimmed(s: string)
    requires |s| >= 1 && AllLiteralChars(s)
    ensures s[0] !in Whitespace && s[|s| - 1] !in Whitespace
    ensures s[0] != ',' && s[|s| - 1] != ',' && ':' !in s
  {
    assert IsLiteralChar(s[0]) && IsLiteralChar(s[|s| - 1]);
  }

  /** A written value is a value text. */
  lemma RenderedValueShape(v: Value)
    requires IsWritableValue(v)
    ensures IsValueText(RenderValue(v))
  {
    match v
    case String(text) => QuotedTextShape(text);
    case Number(literal) => LiteralShape(literal);
    case Boolean(flag) =>
    case Empty =>
  }

  lemma QuotedTextShape(text: string)
    requires ':' !in text
    ensures IsValueText(['"'] + text + ['"'])
  {
    var r := ['"'] + text + ['"'];
    assert r[0] == '"' && r[|r| - 1] == '"';
    assert ':' !in r;
  }

  lemma LiteralShape(literal: string)
    requires IsF64Literal(literal)
    ensures IsValueText(literal)
  {
    LiteralAlphabet(literal);
    LiteralCharsTrimmed(literal);
  }

  /** Stripping quotes from a quoted text whose own ends are not quotes gives the text back. */
  lemma QuotesStripped(text: string)
    requires IsTrimmedBy(text, Quote)
    ensures TrimBy(['"'] + text + ['"'], Quote) == text
  {
    if text == [] {
      QuotePairStripped();
    } else {
      QuotesAroundTextStripped(text);
    }
  }

  lemma QuotePairStripped()
    ensures TrimBy(['"'] + [] + ['"'], Quote) == []
  {
    var q := ['"'] + [] + ['"'];
    assert AllIn(q, Quote);
    TrimStartSkip(q, [], Quote);
  }

  lemma QuotesAroundTextStripped(text: string)
    requires text != [] && IsTrimmedBy(text, Quote)
    ensures TrimBy(['"'] + text + ['"'], Quote) == text
  {
    assert ['"'] + text + ['"'] == ['"'] + (text + ['"']);
    TrimStartSkip(['"'], text + ['"'], Quote);
    TrimStartNoop(text + ['"'], Quote);
    TrimEndSkip(text, ['"'], Quote);
    TrimEndNoop(text, Quote);
  }

  /** Every written value classifies as itself. */
  lemma ClassifyRendered(v: Value)
    requires IsWritableValue(v)
    ensures ClassifyValue(RenderValue(v)) == Ok(v)
  {
    if v.String? {
      QuotesStripped(v.text);
    }
  }

  lemma TailTrimmed(text: string, comma: bool)
    requires IsValueText(text)
    ensures Trim(DeclarationTail(text, comma)) == text + (if comma then [','] else [])
  {
    var rest := text + (if comma then [','] else []);
    assert DeclarationTail(text, comma) == [' '] + rest;
    assert rest[0] == text[0];
    assert IsTrimmed(rest);
    SpaceThenTrimmed(rest);
  }

  lemma SpaceThenTrimmed(rest: string)
    requires rest != [] && IsTrimmed(rest)
    ensures Trim([' '] + rest) == rest
  {
    TrimStartSkip([' '], rest, Whitespace);
    TrimStartNoop(rest, Whitespace);
    TrimEndNoop(rest, Whitespace);
  }

  lemma TailCommaStripped(text: string, comma: bool)
    requires IsValueText(text)
    ensures TrimBy(text + (if comma then [','] else []), Comma) == text
  {
    var rest := text + (if comma then [','] else []);
    TrimStartNoop(rest, Comma);
    if comma {
      TrimEndSkip(text, [','], Comma);
    } else {
      assert rest == text;
    }
    TrimEndNoop(text, Comma);
  }

  /** The value the parser reads from a declaration line's tail is the text written there. */
  lemma TailValue(text: string, comma: bool)
    requires IsValueText(text)
    ensures Trim(TrimBy(Trim(DeclarationTail(text, comma)), Comma)) == text
  {
    TailTrimmed(text, comma);
    TailCommaStripped(text, comma);
    TrimOfTrimmed(text);
  }

  lemma DeclarationSplit(key: string, text: string, comma: bool)
    requires IsWritableKey(key) && IsValueText(text)
    ensures Split(DeclarationLine(key, text, comma), ':') == [key, DeclarationTail(text, comma)]
  {
    var tail := DeclarationTail(text, comma);
    assert ':' !in tail;
    var parts := [key, tail];
    assert Join(parts, ':') == DeclarationLine(key, text, comma) by {
      assert parts[1..] == [tail];
    }
    SplitJoin(parts, ':');
  }

  lemma DeclarationNotBlank(key: string, text: string, comma: bool)
    ensures Trim(DeclarationLine(key, text, comma)) != [] && Trim(DeclarationLine(key, text, comma)) != "}"
  {
    var line := DeclarationLine(key, text, comma);
    assert line[|key|] == ':';
    KeptCharSurvivesTrim(line, ':', Whitespace);
  }

  /**
   A line `key: text` (with or without the trailing comma) declares `key`
   with whatever `text` classifies as, and is rejected exactly when `text`
   is not a value.
   */
  lemma DeclarationLineValue(key: string, text: string, comma: bool)
    requires IsWritableKey(key) && IsValueText(text)
    ensures ClassifyValue(text).Ok? ==> ParseVariableLine(DeclarationLine(key, text, comma)) == Ok(Some((key, ClassifyValue(text).value)))
    ensures ClassifyValue(text).Err? ==> ParseVariableLine(DeclarationLine(key, text, comma)) == Err(ParseError)
  {
    DeclarationNotBlank(key, text, comma);
    DeclarationSplit(key, text, comma);
    TrimOfTrimmed(key);
    TailValue(text, comma);
  }

  /**
   A declaration line with any padding the parser tolerates: white space
   around the key and after the colon, runs of commas on either side of the
   value text, and white space at the end.
   */
  function PaddedLine(key: string, space: string, lead: string, text: string, trail: string, end: string): string {
    key + [':'] + PaddedTail(space, lead, text, trail, end)
  }

  function PaddedTail(space: string, lead: string, text: string, trail: string, end: string): string {
    space + (lead + text + trail) + end
  }

  /** The padding of `PaddedLine`: white space and commas where the parser strips them. */
  predicate IsPadding(space: string, lead: string, trail: string, end: string) {
    AllIn(space, Whitespace) && AllIn(lead, Comma) && AllIn(trail, Comma) && AllIn(end, Whitespace)
  }

  /**
   A padded line `key: ,,text,, ` declares the trimmed key with whatever the
   bare `text` classifies as, and is rejected exactly when `text` is not a
   value: the parser removes the white space and the commas around it.
   */
  lemma PaddedDeclarationValue(key: string, space: string, lead: string, text: string, trail: string, end: string)
    requires ':' !in key && IsPadding(space, lead, trail, end)
    requires text == [] || IsValueText(text)
    ensures ParseVariableLine(PaddedLine(key, space, lead, text, trail, end)) ==
      match ClassifyValue(text)
      case Ok(v) => Ok(Some((Trim(key), v)))
      case Err(_) => Err(ParseError)
  {
    var line := PaddedLine(key, space, lead, text, trail, end);
    var tail := PaddedTail(space, lead, text, trail, end);
    PaddedTailValue(space, lead, text, trail, end);
    PaddedSplit(key, tail);
    assert line == key + [':'] + tail;
    ColonLineNotBlank(key, tail);
    ParsedFromParts(line, key, tail, text);
  }

  /** How `parse_variable_line` reads a line once its split and its value text are known. */
  lemma ParsedFromParts(line: string, key: string, tail: string, text: string)
    requires Trim(line) != [] && Trim(line) != "}"
    requires Split(line, ':') == [key, tail] && Trim(TrimBy(Trim(tail), Comma)) == text
    ensures ParseVariableLine(line) ==
      match ClassifyValue(text)
      case Ok(v) => Ok(Some((Trim(key), v)))
      case Err(_) => Err(ParseError)
  {
  }

  lemma ColonLineNotBlank(key: string, tail: string)
    ensures Trim(key + [':'] + tail) != [] && Trim(key + [':'] + tail) != "}"
  {
    var line := key + [':'] + tail;
    assert line[|key|] == ':';
    KeptCharSurvivesTrim(line, ':', Whitespace);
  }

  /** The value the parser reads from a padded tail is the bare text. */
  lemma PaddedTailValue(space: string, lead: string, text: string, trail: string, end: string)
    requires IsPadding(space, lead, trail, end)
    requires text == [] || IsValueText(text)
    ensures ':' !in PaddedTail(space, lead, text, trail, end)
    ensures Trim(TrimBy(Trim(PaddedTail(space, lead, text, trail, end)), Comma)) == text
  {
    var inner := lead + text + trail;
    PaddedTailColonFree(space, lead, text, trail, end);
    assert Trim(PaddedTail(space, lead, text, trail, end)) == inner by {
      PaddedInnerTrimmed(lead, text, trail);
      TrimAround(space, inner, end, Whitespace);
    }
    assert TrimBy(inner, Comma) == text by {
      TrimAround(lead, text, trail, Comma);
    }
    TrimOfTrimmed(text);
  }

  lemma PaddedTailColonFree(space: string, lead: string, text: string, trail: string, end: string)
    requires IsPadding(space, lead, trail, end) && ':' !in text
    ensures ':' !in PaddedTail(space, lead, text, trail, end)
  {
    var tail := PaddedTail(space, lead, text, trail, end);
    assert forall i :: 0 <= i < |tail| ==> tail[i] in Whitespace || tail[i] in Comma || tail[i] in text;
  }

  lemma PaddedSplit(key: string, tail: string)
    requires ':' !in key && ':' !in tail
    ensures Split(key + [':'] + tail, ':') == [key, tail]
  {
    var parts := [key, tail];
    assert parts[1..] == [tail];
    SplitJoin(parts, ':');
  }

  lemma PaddedInnerTrimmed(lead: string, text: string, trail: string)
    requires AllIn(lead, Comma) && AllIn(trail, Comma)
    requires text == [] || IsValueText(text)
    ensures IsTrimmed(lead + text + trail)
  {
    var inner := lead + text + trail;
    if inner != [] {
      assert inner[0] in Comma || inner[0] == text[0] by {
        if lead == [] && text == [] { assert inner[0] == trail[0]; }
      }
      assert inner[|inner| - 1] in Comma || inner[|inner| - 1] == text[|text| - 1] by {
        if trail == [] && text == [] { assert inner[|inner| - 1] == lead[|lead| - 1]; }
      }
    }
  }

  /** A written declaration line parses back to its key and value. */
  lemma VariableLineRoundTrip(key: string, v: Value, comma: bool)
    requires IsWritableKey(key) && IsWritableValue(v)
    ensures ParseVariableLine(EntryLine(key, v, comma)) == Ok(Some((key, v)))
  {
    RenderedValueShape(v);
    DeclarationLineValue(key, RenderValue(v), comma);
    ClassifyRendered(v);
  }

  /** Whatever a line declares, a written line can declare. */
  lemma ParsedEntryIsWritable(line: string)
    requires ParseVariableLine(line).Ok? && ParseVariableLine(line).value.Some?
    ensures IsWritableKey(ParseVariableLine(line).value.value.0)
    ensures IsWritableValue(ParseVariableLine(line).value.value.1)
  {
    var parts := Split(line, ':');
    var value := Trim(TrimBy(Trim(parts[1]), Comma));
    ValueTextColonFree(parts[1]);
    ClassifiedIsWritable(value);
  }

  lemma ValueTextColonFree(part: string)
    requires ':' !in part
    ensures ':' !in Trim(TrimBy(Trim(part), Comma))
  {
    TrimKeepsOut(part, ':');
    TrimByKeepsOut(Trim(part), Comma, ':');
    TrimKeepsOut(TrimBy(Trim(part), Comma), ':');
  }

  lemma ClassifiedIsWritable(value: string)
    requires ':' !in value && ClassifyValue(value).Ok?
    ensures IsWritableValue(ClassifyValue(value).value)
  {
    TrimByKeepsOut(value, Quote, ':');
  }

  /**
   Parsing a line and writing the entry back out gives a line that declares
   the same entry: `EntryLine` is a normal form for declaration lines.
   */
  lemma EntryLineIsNormalForm(line: string)
    requires ParseVariableLine(line).Ok? && ParseVariableLine(line).value.Some?
    ensures ParseVariableLine(EntryLine(ParseVariableLine(line).value.value.0, ParseVariableLine(line).value.value.1, true)) == ParseVariableLine(line)
  {
    ParsedEntryIsWritable(line);
    VariableLineRoundTrip(ParseVariableLine(line).value.value.0, ParseVariableLine(line).value.value.1, true);
  }

  /** Which map, if any, entry lines currently go to. */
  datatype Block = Outside | InGlobal | InLocal

  /** The loop state of `parse_variables`: the two maps and the open block. */
  datatype VarState = VarState(global: Option<map<string, Value>>, local: map<string, Value>, block: Block)

  /** The global block can only be open once the global map exists. */
  predicate Valid(st: VarState) {
    st.block == InGlobal ==> st.global.Some?
  }

  const Start := VarState(None, map[], Outside)

  /** How the loop body of `parse_variables` treats one line. */
  datatype LineKind =
    | Skip
    | GlobalOpen
    | LocalOpen
    | Close
    | Entry(parsed: Result<Option<(string, Value)>>)

  /** An entry's parse fails, if at all, with a parse error, as `parse_variable_line` does. */
  predicate ReportsParseError(k: LineKind) {
    k.Entry? && k.parsed.Err? ==> k.parsed.error == ParseError
  }

  /** Blank lines and comments without a `$` are passed over. */
  predicate IsSkipped(line: string) {
    line == [] || (line[0] == '#' && '$' !in line)
  }

  predicate IsGlobalOpener(raw: string) {
    StartsWith(Trim(raw), GlobalOpener)
  }

  predicate IsLocalOpener(raw: string) {
    StartsWith(Trim(raw), LocalOpener)
  }

  /**
   Classify one raw line: trimmed, a skipped line, a block opener, a closing
   brace or a declaration. The entry is parsed here, but only a line read
   inside a block has its parse used (see `Step`).
   */
  function Kind(raw: string): (k: LineKind)
    ensures k.GlobalOpen? <==> IsGlobalOpener(raw)
    ensures k.LocalOpen? <==> IsLocalOpener(raw)
    ensures k.Close? <==> Trim(raw) == "}"
    ensures k.Skip? <==> IsSkipped(Trim(raw))
    ensures k.Entry? ==> k.parsed == ParseVariableLine(Trim(raw))
    ensures ReportsParseError(k)
  {
    var line := Trim(raw);
    OpenersAreNotSkipped(line);
    if IsSkipped(line) then Skip
    else if StartsWith(line, GlobalOpener) then GlobalOpen
    else if StartsWith(line, LocalOpener) then LocalOpen
    else if line == "}" then Close
    else Entry(ParseVariableLine(line))
  }

  lemma OpenersAreNotSkipped(line: string)
    ensures StartsWith(line, GlobalOpener) ==> !IsSkipped(line) && !StartsWith(line, LocalOpener)
    ensures StartsWith(line, LocalOpener) ==> !IsSkipped(line)
    ensures line == "}" ==> !IsSkipped(line) && !StartsWith(line, GlobalOpener) && !StartsWith(line, LocalOpener)
  {
    if StartsWith(line, GlobalOpener) {
      assert line[0] == GlobalOpener[0] && line[1] == GlobalOpener[1];
    }
    if StartsWith(line, LocalOpener) {
      assert line[0] == LocalOpener[0];
    }
  }

  /** A skipped line, inside a block or outside, leaves the walk exactly as it was. */
  lemma SkippedLineInert(ks: seq<LineKind>, raw: string)
    requires IsSkipped(Trim(raw))
    ensures RunKinds(ks + [Kind(raw)]) == RunKinds(ks)
  {
    var k := Kind(raw);
    assert k == Skip;
    SkipKindInert(ks);
  }

  lemma SkipKindInert(ks: seq<LineKind>)
    ensures RunKinds(ks + [Skip]) == RunKinds(ks)
  {
    assert (ks + [Skip])[..|ks|] == ks;
  }

  /** A line that decides which block is open: an opener or a closing brace. */
  predicate IsBoundary(k: LineKind) {
    k.GlobalOpen? || k.LocalOpen? || k.Close?
  }

  /** The block a boundary line leaves open. */
  function BlockAfter(k: LineKind): Block
    requires IsBoundary(k)
  {
    if k.GlobalOpen? then InGlobal else if k.LocalOpen? then InLocal else Outside
  }

  /** Add an entry to the map of the open block; a repeated key is overwritten. */
  function Insert(st: VarState, key: string, v: Value): (r: VarState)
    requires Valid(st) && st.block != Outside
    ensures Valid(r) && r.block == st.block
  {
    if st.block == InGlobal then st.(global := Some(st.global.value[key := v]))
    else st.(local := st.local[key := v])
  }

  /**
   One pass of the loop body. A second `$global_vars:` opener is an error;
   a `$local_vars:` opener reopens the one local map; a closing brace ends
   the block; inside a block a declaration is parsed and inserted, and its
   parse error ends the walk; outside a block every other line is ignored.
   */
  function Step(st: VarState, k: LineKind): (r: Result<VarState>)
    requires Valid(st)
    ensures r.Ok? ==> Valid(r.value)
    ensures r.Err? <==> (k.GlobalOpen? && st.global.Some?) || (k.Entry? && st.block != Outside && k.parsed.Err?)
    ensures r.Err? && ReportsParseError(k) ==> r.error == ParseError
    ensures r.Ok? ==> (r.value.global.Some? <==> st.global.Some? || k.GlobalOpen?)
    ensures r.Ok? ==> r.value.block == if IsBoundary(k) then BlockAfter(k) else st.block
  {
    match k
    case Skip => Ok(st)
    case GlobalOpen =>
      if st.global.Some? then Err(ParseError)
      else Ok(VarState(Some(map[]), st.local, InGlobal))
    case LocalOpen => Ok(st.(block := InLocal))
    case Close => if st.block != Outside then Ok(st.(block := Outside)) else Ok(st)
    case Entry(parsed) =>
      if st.block == Outside then Ok(st)
      else match parsed
        case Err(e) => Err(e)
        case Ok(None) => Ok(st)
        case Ok(Some((key, v))) => Ok(Insert(st, key, v))
  }

  /** The walk over classified lines, stopping at the first error. */
  function RunKinds(ks: seq<LineKind>): (r: Result<VarState>)
    ensures r.Ok? ==> Valid(r.value)
    ensures r.Err? && (forall i :: 0 <= i < |ks| ==> ReportsParseError(ks[i])) ==> r.error == ParseError
    decreases |ks|
  {
    if ks == [] then Ok(Start)
    else match RunKinds(ks[..|ks| - 1])
      case Err(e) => Err(e)
      case Ok(st) => Step(st, ks[|ks| - 1])
  }

  function KindsOf(lines: seq<string>): (ks: seq<LineKind>)
    ensures |ks| == |lines|
    ensures forall i :: 0 <= i < |lines| ==> ks[i] == Kind(lines[i])
  {
    seq(|lines|, i requires 0 <= i < |lines| => Kind(lines[i]))
  }

  /** `parse_variables`: the global map, if declared, and the local map. */
  function ParseVariables(lines: seq<string>): (r: Result<(Option<map<string, Value>>, map<string, Value>)>)
    ensures r.Err? ==> r.error == ParseError
  {
    match RunKinds(KindsOf(lines))
    case Err(e) => Err(e)
    case Ok(st) => Ok((st.global, st.local))
  }

  /** A walk that succeeds succeeded on every prefix: an error is final. */
  lemma {:induction false} RunPrefix(ks: seq<LineKind>, n: nat)
    requires n <= |ks|
    ensures RunKinds(ks).Ok? ==> RunKinds(ks[..n]).Ok?
    decreases |ks|
  {
    if n < |ks| {
      var init := ks[..|ks| - 1];
      RunPrefix(init, n);
      assert init[..n] == ks[..n];
    } else {
      assert ks[..n] == ks;
    }
  }

  /**
   The block open after the lines `ks`, read from the lines alone: the one
   the last opener or closing brace leaves, and none before the first.
   */
  function OpenBlock(ks: seq<LineKind>): Block
    decreases |ks|
  {
    if ks == [] then Outside
    else if IsBoundary(ks[|ks| - 1]) then BlockAfter(ks[|ks| - 1])
    else OpenBlock(ks[..|ks| - 1])
  }

  /** The open block is the one the last boundary line leaves. */
  lemma {:induction false} OpenBlockIsLastBoundary(ks: seq<LineKind>, j: nat)
    requires j < |ks| && IsBoundary(ks[j])
    requires forall m :: j < m < |ks| ==> !IsBoundary(ks[m])
    ensures OpenBlock(ks) == BlockAfter(ks[j])
    decreases |ks|
  {
    if j < |ks| - 1 {
      var init := ks[..|ks| - 1];
      assert init[j] == ks[j];
      OpenBlockIsLastBoundary(init, j);
    }
  }

  /** Without a boundary line no block is open. */
  lemma {:induction false} NoBoundaryOutside(ks: seq<LineKind>)
    requires forall m :: 0 <= m < |ks| ==> !IsBoundary(ks[m])
    ensures OpenBlock(ks) == Outside
    decreases |ks|
  {
    if ks != [] {
      NoBoundaryOutside(ks[..|ks| - 1]);
    }
  }

  /** A successful walk's open block is the one its lines leave open. */
  lemma {:induction false} WalkBlockIsOpenBlock(ks: seq<LineKind>)
    requires RunKinds(ks).Ok?
    ensures RunKinds(ks).value.block == OpenBlock(ks)
    decreases |ks|
  {
    if ks != [] {
      var init := ks[..|ks| - 1];
      RunPrefix(ks, |ks| - 1);
      assert ks[..|ks| - 1] == init;
      WalkBlockIsOpenBlock(init);
    }
  }

  /**
   A `$global_vars:` opener read inside a local block closes it and opens the
   global block: the next declaration goes to the global map.
   */
  lemma GlobalOpenerInsideLocalBlock(ks: seq<LineKind>, e: LineKind)
    requires RunKinds(ks).Ok? && OpenBlock(ks) == InLocal && IsWrite(e)
    requires forall i :: 0 <= i < |ks| ==> !ks[i].GlobalOpen?
    ensures RunKinds(ks + [GlobalOpen, e]).Ok?
    ensures MapOf(RunKinds(ks + [GlobalOpen, e]).value, InGlobal) == map[EntryOf(e).0 := EntryOf(e).1]
    ensures MapOf(RunKinds(ks + [GlobalOpen, e]).value, InLocal) == RunKinds(ks).value.local
  {
    GlobalDeclaredIffOpener(ks);
    var withOpener := ks + [GlobalOpen];
    assert withOpener[..|ks|] == ks;
    assert (ks + [GlobalOpen, e])[..|withOpener|] == withOpener;
  }

  /** A successful walk has a global map exactly when some line opened a global block. */
  lemma {:induction false} GlobalDeclaredIffOpener(ks: seq<LineKind>)
    requires RunKinds(ks).Ok?
    ensures RunKinds(ks).value.global.Some? <==> exists i :: 0 <= i < |ks| && ks[i].GlobalOpen?
    decreases |ks|
  {
    if ks != [] {
      var init := ks[..|ks| - 1];
      GlobalDeclaredIffOpener(init);
      if exists i :: 0 <= i < |init| && init[i].GlobalOpen? {
        var i :| 0 <= i < |init| && init[i].GlobalOpen?;
        assert ks[i] == init[i];
      }
      if exists i :: 0 <= i < |ks| && ks[i].GlobalOpen? {
        var i :| 0 <= i < |ks| && ks[i].GlobalOpen?;
        if i < |init| {
          assert init[i] == ks[i];
        }
      }
    }
  }

  /** Two `$global_vars:` openers make the walk fail, whatever lies between them. */
  lemma SecondGlobalOpenerRejected(ks: seq<LineKind>, i: nat, j: nat)
    requires i < j < |ks| && ks[i].GlobalOpen? && ks[j].GlobalOpen?
    ensures RunKinds(ks).Err?
  {
    var pre := ks[..j];
    RunPrefix(ks, j + 1);
    assert ks[..j + 1][..j] == pre;
    if RunKinds(pre).Ok? {
      GlobalDeclaredIffOpener(pre);
      assert pre[i].GlobalOpen?;
    }
  }

  /**
   Outside a block, lines other than block openers leave the walk's state
   exactly as it was: stray declarations, closing braces and comments
   between blocks contribute nothing and raise no error.
   */
  lemma {:induction false} OutsideLinesInert(ks: seq<LineKind>, rest: seq<LineKind>)
    requires RunKinds(ks).Ok? && RunKinds(ks).value.block == Outside
    requires forall i :: 0 <= i < |rest| ==> !rest[i].GlobalOpen? && !rest[i].LocalOpen?
    ensures RunKinds(ks + rest) == RunKinds(ks)
    decreases |rest|
  {
    if rest == [] {
      assert ks + rest == ks;
    } else {
      var init := rest[..|rest| - 1];
      assert (ks + rest)[..|ks + rest| - 1] == ks + init;
      OutsideLinesInert(ks, init);
    }
  }

  /** A declaration that parsed to an entry. */
  predicate IsWrite(k: LineKind) {
    k.Entry? && k.parsed.Ok? && k.parsed.value.Some?
  }

  function EntryOf(k: LineKind): (string, Value)
    requires IsWrite(k)
  {
    k.parsed.value.value
  }

  /** Line `i` is an entry read while the lines before it leave the block `b` open. */
  predicate WritesAt(ks: seq<LineKind>, i: int, b: Block) {
    0 <= i < |ks| && IsWrite(ks[i]) && OpenBlock(ks[..i]) == b
  }

  /** The map that block `b` fills; the global one is empty until declared. */
  function MapOf(st: VarState, b: Block): map<string, Value> {
    if b == InLocal then st.local
    else if st.global.Some? then st.global.value
    else map[]
  }

  /** One step changes the map of block `b` only by the entry it reads inside `b`. */
  lemma StepMap(st: VarState, k: LineKind, b: Block)
    requires Valid(st) && b != Outside && Step(st, k).Ok?
    ensures MapOf(Step(st, k).value, b) ==
      if st.block == b && IsWrite(k) then MapOf(st, b)[EntryOf(k).0 := EntryOf(k).1] else MapOf(st, b)
  {
  }

  lemma WritesAtPrefix(ks: seq<LineKind>, b: Block)
    requires ks != []
    ensures forall i :: 0 <= i < |ks| - 1 ==> (WritesAt(ks, i, b) <==> WritesAt(ks[..|ks| - 1], i, b))
  {
    forall i | 0 <= i < |ks| - 1 ensures ks[..|ks| - 1][..i] == ks[..i] {
    }
  }

  /** A key is in a block's map exactly when some line inside that block declared it. */
  lemma {:induction false} BlockKeys(ks: seq<LineKind>, b: Block, key: string)
    requires b != Outside && RunKinds(ks).Ok?
    ensures key in MapOf(RunKinds(ks).value, b) <==> exists i :: WritesAt(ks, i, b) && EntryOf(ks[i]).0 == key
    decreases |ks|
  {
    if ks != [] {
      var init := ks[..|ks| - 1];
      var n := |ks| - 1;
      BlockKeys(init, b, key);
      WalkBlockIsOpenBlock(init);
      WritesAtPrefix(ks, b);
      StepMap(RunKinds(init).value, ks[n], b);
      assert ks[..n] == init;
      if exists i :: WritesAt(ks, i, b) && EntryOf(ks[i]).0 == key {
        var i :| WritesAt(ks, i, b) && EntryOf(ks[i]).0 == key;
        if i < n {
          assert WritesAt(init, i, b);
        }
      }
    }
  }

  /**
   The value a block's map holds for a key is the one the last declaration
   of that key inside that block gave it: later declarations overwrite
   earlier ones, and `$local_vars:` blocks all fill the one local map.
   */
  lemma {:induction false} BlockValueIsLastWrite(ks: seq<LineKind>, b: Block, i: nat)
    requires b != Outside && RunKinds(ks).Ok? && WritesAt(ks, i, b)
    requires forall j :: i < j < |ks| && WritesAt(ks, j, b) ==> EntryOf(ks[j]).0 != EntryOf(ks[i]).0
    ensures EntryOf(ks[i]).0 in MapOf(RunKinds(ks).value, b)
    ensures MapOf(RunKinds(ks).value, b)[EntryOf(ks[i]).0] == EntryOf(ks[i]).1
    decreases |ks|
  {
    var init := ks[..|ks| - 1];
    var n := |ks| - 1;
    WritesAtPrefix(ks, b);
    assert ks[..n] == init;
    RunPrefix(ks, n);
    WalkBlockIsOpenBlock(init);
    StepMap(RunKinds(init).value, ks[n], b);
    if i < n {
      assert init[i] == ks[i];
      BlockValueIsLastWrite(init, b, i);
    }
  }

  /** The global map is returned exactly when some line opens a `$global_vars:` block. */
  lemma VariablesGlobalIffOpener(lines: seq<string>)
    requires ParseVariables(lines).Ok?
    ensures ParseVariables(lines).value.0.Some? <==> exists i :: 0 <= i < |lines| && IsGlobalOpener(lines[i])
  {
    var ks := KindsOf(lines);
    GlobalDeclaredIffOpener(ks);
    if exists i :: 0 <= i < |lines| && IsGlobalOpener(lines[i]) {
      var i :| 0 <= i < |lines| && IsGlobalOpener(lines[i]);
      assert ks[i].GlobalOpen?;
    }
  }

  /** A document with two `$global_vars:` openers is rejected with a parse error. */
  lemma DuplicateGlobalRejected(lines: seq<string>, i: nat, j: nat)
    requires i < j < |lines| && IsGlobalOpener(lines[i]) && IsGlobalOpener(lines[j])
    ensures ParseVariables(lines) == Err(ParseError)
  {
    SecondGlobalOpenerRejected(KindsOf(lines), i, j);
  }

  /** Without a block opener nothing is declared, and nothing is rejected. */
  lemma NoBlocksNoVariables(lines: seq<string>)
    requires forall i :: 0 <= i < |lines| ==> !IsGlobalOpener(lines[i]) && !IsLocalOpener(lines[i])
    ensures ParseVariables(lines) == Ok((None, map[]))
  {
    var ks := KindsOf(lines);
    OutsideLinesInert([], ks);
    assert [] + ks == ks;
  }

  /** Declaration lines from the parser's tests. */
  lemma EmptyStringLineExample(line: string)
    requires line == "user_name: \"\","
    ensures ParseVariableLine(line) == Ok(Some(("user_name", String(""))))
  {
    assert line == EntryLine("user_name", String(""), true);
    VariableLineRoundTrip("user_name", String(""), true);
  }

  lemma QuotedNameLineExample(line: string)
    requires line == "player_name: \"John\""
    ensures ParseVariableLine(line) == Ok(Some(("player_name", String("John"))))
  {
    assert line == EntryLine("player_name", String("John"), false);
    VariableLineRoundTrip("player_name", String("John"), false);
  }

  lemma EmptyBracesLineExample(line: string)
    requires line == "inventory: {}"
    ensures ParseVariableLine(line) == Ok(Some(("inventory", Empty)))
  {
    assert line == EntryLine("inventory", Empty, false);
    VariableLineRoundTrip("inventory", Empty, false);
  }

  lemma NumberLineExample(line: string)
    requires line == "score: 0,"
    ensures ParseVariableLine(line) == Ok(Some(("score", Number("0"))))
  {
    ZeroIsWritable();
    assert line == EntryLine("score", Number("0"), true);
    VariableLineRoundTrip("score", Number("0"), true);
  }

  lemma ZeroIsWritable()
    ensures IsWritableValue(Number("0"))
  {
    AcceptsIntegers();
  }

  lemma InvalidValueLineExample(line: string)
    requires line == "invalid_value: not_valid"
    ensures ParseVariableLine(line) == Err(ParseError)
  {
    NotValidIsRejectedText();
    InvalidValueKeyIsWritable();
    assert line == DeclarationLine("invalid_value", "not_valid", false);
    DeclarationLineValue("invalid_value", "not_valid", false);
  }

  lemma NotValidIsRejectedText()
    ensures IsValueText("not_valid") && ClassifyValue("not_valid").Err?
  {
    RejectsBracesAndNames();
  }

  lemma InvalidValueKeyIsWritable()
    ensures IsWritableKey("invalid_value")
  {
  }

  lemma StartsWithAt(s: string, prefix: string, k: nat)
    requires k < |prefix|
    ensures StartsWith(s, prefix) ==> k < |s| && s[k] == prefix[k]
  {
    if StartsWith(s, prefix) {
      assert s[..|prefix|][k] == s[k];
    }
  }

  /** A key an indented declaration line can start with: not a comment, not a block opener. */
  predicate IsEntryKey(key: string) {
    IsWritableKey(key) && key != [] && key[0] != '#' && key[0] != '$'
  }

  /**
   An indented declaration line, as the lines inside a block are written, is
   an entry of its key and value.
   */
  lemma IndentedEntryKind(indent: string, key: string, v: Value, comma: bool)
    requires AllIn(indent, Whitespace) && IsEntryKey(key) && IsWritableValue(v)
    ensures Kind(indent + EntryLine(key, v, comma)) == Entry(Ok(Some((key, v))))
  {
    var line := EntryLine(key, v, comma);
    assert Trim(indent + line) == line by {
      EntryLineTrimmed(key, v, comma);
      assert indent + line == indent + line + [];
      TrimAround(indent, line, [], Whitespace);
    }
    assert line[0] == key[0] && line[|key|] == ':';
    StartsWithAt(line, GlobalOpener, 0);
    StartsWithAt(line, LocalOpener, 0);
    VariableLineRoundTrip(key, v, comma);
  }

  lemma EntryLineTrimmed(key: string, v: Value, comma: bool)
    requires IsWritableKey(key) && key != [] && IsWritableValue(v)
    ensures IsTrimmed(EntryLine(key, v, comma))
  {
    var text := RenderValue(v);
    RenderedValueShape(v);
    var line := EntryLine(key, v, comma);
    assert line[0] == key[0];
    assert line[|line| - 1] == if comma then ',' else text[|text| - 1];
  }

  /** A block opener followed by text without trailing white space, `$global_vars: {` say, opens its block. */
  lemma OpenerLineKind(opener: string, rest: string)
    requires opener == GlobalOpener || opener == LocalOpener
    requires rest == [] || rest[|rest| - 1] !in Whitespace
    ensures Kind(opener + rest) == if opener == GlobalOpener then GlobalOpen else LocalOpen
  {
    var line := opener + rest;
    assert line[0] == '$' && line[|line| - 1] == if rest == [] then ':' else rest[|rest| - 1];
    TrimOfTrimmed(line);
    assert line[..|opener|] == opener;
    assert StartsWith(line, opener);
    assert line[1] == opener[1];
    StartsWithAt(line, GlobalOpener, 1);
  }

  lemma CloseLineKind(raw: string)
    requires Trim(raw) == "}"
    ensures Kind(raw) == Close
  {
  }

  lemma BlankLineKind(raw: string)
    requires Trim(raw) == []
    ensures Kind(raw) == Skip
  {
  }

  /** The keys, values and lines of the parser's test are an instance. */
  lemma BothBlocksTestKeys()
    ensures IsEntryKey("score") && IsEntryKey("attempts")
  {
  }

  lemma BothBlocksTestValues()
    ensures IsWritableValue(Number("0")) && IsWritableValue(Number("3"))
  {
    AcceptsIntegers();
  }

  lemma BothBlocksTestTrims()
    ensures Trim("") == [] && Trim("}") == "}"
  {
    TrimOfTrimmed("}");
  }

  lemma BothBlocksTestOpeners()
    ensures GlobalOpener + " {" == "$global_vars: {" && LocalOpener + " {" == "$local_vars: {"
  {
  }

  lemma ScoreLineText()
    ensures "    " + EntryLine("score", Number("0"), false) == "    score: 0"
  {
  }

  lemma AttemptsLineText()
    ensures "    " + EntryLine("attempts", Number("3"), false) == "    attempts: 3"
  {
  }

  /**
   The walk over the parser's test with a global block holding `score: 0`
   and a local block holding `attempts: 3`, each under a blank line, for
   any keys and values: each map holds its block's entry. Each line's kind
   is the one `Kind` gives it: `BlankLineKind`, `OpenerLineKind` (with
   ` {` after the opener), `IndentedEntryKind` (with four spaces before the
   entry) and `CloseLineKind` prove it for these line forms.
   */
  lemma BothBlocksExample(ks: seq<LineKind>, k1: string, v1: Value, k2: string, v2: Value)
    requires ks == [Skip, GlobalOpen, Entry(Ok(Some((k1, v1)))), Close, Skip, LocalOpen, Entry(Ok(Some((k2, v2)))), Close]
    ensures RunKinds(ks) == Ok(VarState(Some(map[k1 := v1]), map[k2 := v2], Outside))
  {
    var global := map[k1 := v1];
    var local := map[k2 := v2];
    GlobalBlockOfExample(ks, k1, v1, k2, v2);
    assert RunKinds(ks[..6]) == Ok(VarState(Some(global), map[], InLocal)) by {
      assert ks[..6][..5] == ks[..5];
    }
    assert RunKinds(ks[..7]) == Ok(VarState(Some(global), local, InLocal)) by {
      assert ks[..7][..6] == ks[..6];
    }
    assert ks[..|ks| - 1] == ks[..7];
  }

  lemma GlobalBlockOfExample(ks: seq<LineKind>, k1: string, v1: Value, k2: string, v2: Value)
    requires ks == [Skip, GlobalOpen, Entry(Ok(Some((k1, v1)))), Close, Skip, LocalOpen, Entry(Ok(Some((k2, v2)))), Close]
    ensures RunKinds(ks[..5]) == Ok(VarState(Some(map[k1 := v1]), map[], Outside))
  {
    var global := map[k1 := v1];
    assert RunKinds(ks[..1]) == Ok(Start) by {
      assert ks[..1][..0] == [];
    }
    assert RunKinds(ks[..2]) == Ok(VarState(Some(map[]), map[], InGlobal)) by {
      assert ks[..2][..1] == ks[..1];
    }
    assert RunKinds(ks[..3]) == Ok(VarState(Some(global), map[], InGlobal)) by {
      assert ks[..3][..2] == ks[..2];
    }
    assert RunKinds(ks[..4]) == Ok(VarState(Some(global), map[], Outside)) by {
      assert ks[..4][..3] == ks[..3];
    }
    assert ks[..5][..4] == ks[..4];
  }
}
