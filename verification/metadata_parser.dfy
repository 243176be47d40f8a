/**
 The metadata header scan (`parse_metadata`, src/parser/mod.rs): the leading
 run of `#` lines is read as `# Key: value` declarations of five known keys.
 */
module MetadataParser {
  import opened Strings
  import opened Model

  datatype Key = Topic | Description | Author | Version | Required

  /** The key a header name denotes, compared lower-cased; other names are unknown keys. */
  function KeyOf(name: string): Option<Key> {
    if EqualsIgnoringCase(name, "topic") then Some(Topic)
    else if EqualsIgnoringCase(name, "description") then Some(Description)
    else if EqualsIgnoringCase(name, "author") then Some(Author)
    else if EqualsIgnoringCase(name, "version") then Some(Version)
    else if EqualsIgnoringCase(name, "required") then Some(Required)
    else None
  }

  /** A line belongs to the header when, trimmed, it starts with `#`. */
  predicate IsHeaderLine(raw: string) {
    var t := Trim(raw);
    |t| > 0 && t[0] == '#'
  }

  /** Length of the header: the leading run of header lines. */
  function HeaderLength(lines: seq<string>): (n: nat)
    ensures n <= |lines|
    ensures forall i :: 0 <= i < n ==> IsHeaderLine(lines[i])
    ensures n < |lines| ==> !IsHeaderLine(lines[n])
    decreases |lines|
  {
    if lines == [] || !IsHeaderLine(lines[0]) then 0
    else
      var rest := lines[1..];
      var n := 1 + HeaderLength(rest);
      assert forall i :: 0 <= i < n ==> IsHeaderLine(lines[i]) by {
        forall i | 1 <= i < n
          ensures IsHeaderLine(lines[i])
        {
          assert lines[i] == rest[i - 1];
        }
      }
      assert n < |lines| ==> lines[n] == rest[n - 1];
      n
  }

  /**
   The key and trimmed value a header line declares: the text after the
   leading `#`s is split at its first colon and the name matched without
   regard to case. Free-text comments (no colon) and unknown keys declare
   nothing.
   */
  function Declaration(raw: string): (d: Option<(Key, string)>)
    ensures ':' !in Trim(raw) ==> d.None?
    ensures d.Some? ==> IsTrimmed(d.value.1)
  {
    var line := Trim(raw);
    if ':' !in line then None
    else DeclarationOfBody(Trim(TrimStartBy(line, {'#'})))
  }

  /** The declaration in the text after the `#`s, split at its first colon. */
  function DeclarationOfBody(body: string): Option<(Key, string)> {
    match SplitOnce(body, ':')
    case None => None
    case Some((name, value)) =>
      match KeyOf(Trim(name))
      case None => None
      case Some(key) => Some((key, Trim(value)))
  }

  predicate Declares(raw: string, key: Key) {
    Declaration(raw).Some? && Declaration(raw).value.0 == key
  }

  /** The `Required` value: comma-separated segments, each trimmed, empty ones kept. */
  function RequiredList(value: string): (names: seq<string>)
    ensures |names| == Count(value, ',') + 1
    ensures forall i :: 0 <= i < |names| ==> IsTrimmed(names[i]) && ',' !in names[i]
  {
    var parts := Split(value, ',');
    seq(|parts|, i requires 0 <= i < |parts| => Trim(parts[i]))
  }

  /** Record one declaration, replacing any earlier value of the same key. */
  function Declare(m: Metadata, key: Key, value: string): Metadata {
    match key
    case Topic => m.(topic := Some(value))
    case Description => m.(description := Some(value))
    case Author => m.(author := Some(value))
    case Version => m.(version := Some(value))
    case Required => m.(required := Some(RequiredList(value)))
  }

  function Apply(m: Metadata, d: Option<(Key, string)>): Metadata {
    match d
    case None => m
    case Some((key, value)) => Declare(m, key, value)
  }

  /** The metadata a sequence of declarations gives, applied in order. */
  function ReadDeclarations(ds: seq<Option<(Key, string)>>): Metadata
    decreases |ds|
  {
    if ds == [] then NoMetadata
    else Apply(ReadDeclarations(ds[..|ds| - 1]), ds[|ds| - 1])
  }

  function DeclarationsOf(header: seq<string>): (ds: seq<Option<(Key, string)>>)
    ensures |ds| == |header|
    ensures forall i :: 0 <= i < |header| ==> ds[i] == Declaration(header[i])
  {
    seq(|header|, i requires 0 <= i < |header| => Declaration(header[i]))
  }

  /** The metadata the header lines declare, read in order. */
  function ReadHeader(header: seq<string>): Metadata {
    ReadDeclarations(DeclarationsOf(header))
  }

  /**
   `parse_metadata`: read the header and ignore everything from the first
   non-header line on. It never fails.
   */
  function ParseMetadata(lines: seq<string>): (r: Result<Metadata>)
    ensures r.Ok?
    ensures lines == [] ==> r.value == NoMetadata
  {
    Ok(ReadHeader(lines[..HeaderLength(lines)]))
  }

  // ---------------------------------------------------------------------------
  // The field a key selects

  predicate Absent(m: Metadata, key: Key) {
    match key
    case Topic => m.topic.None?
    case Description => m.description.None?
    case Author => m.author.None?
    case Version => m.version.None?
    case Required => m.required.None?
  }

  /** The field of `key` holds what a declaration of `value` produces. */
  predicate Holds(m: Metadata, key: Key, value: string) {
    match key
    case Topic => m.topic == Some(value)
    case Description => m.description == Some(value)
    case Author => m.author == Some(value)
    case Version => m.version == Some(value)
    case Required => m.required == Some(RequiredList(value))
  }

  predicate SameField(m: Metadata, m': Metadata, key: Key) {
    match key
    case Topic => m.topic == m'.topic
    case Description => m.description == m'.description
    case Author => m.author == m'.author
    case Version => m.version == m'.version
    case Required => m.required == m'.required
  }

  predicate DeclaresKey(d: Option<(Key, string)>, key: Key) {
    d.Some? && d.value.0 == key
  }

  ghost predicate IsLast(ds: seq<Option<(Key, string)>>, key: Key, i: int) {
    && 0 <= i < |ds|
    && DeclaresKey(ds[i], key)
    && forall j :: i < j < |ds| ==> !DeclaresKey(ds[j], key)
  }

  lemma {:induction false} FieldIsLastOf(ds: seq<Option<(Key, string)>>, key: Key)
    ensures Absent(ReadDeclarations(ds), key) <==> forall i :: 0 <= i < |ds| ==> !DeclaresKey(ds[i], key)
    ensures forall i :: IsLast(ds, key, i) ==> Holds(ReadDeclarations(ds), key, ds[i].value.1)
    decreases |ds|
  {
    if ds != [] {
      var init := ds[..|ds| - 1];
      var last := ds[|ds| - 1];
      FieldIsLastOf(init, key);
      assert forall i :: 0 <= i < |init| ==> init[i] == ds[i];
      if DeclaresKey(last, key) {
        forall i | IsLast(ds, key, i) ensures i == |ds| - 1 {
        }
      } else {
        assert SameField(ReadDeclarations(ds), ReadDeclarations(init), key);
        forall i | IsLast(ds, key, i) ensures IsLast(init, key, i) {
        }
      }
    }
  }

  ghost predicate IsLastDeclaration(header: seq<string>, key: Key, i: int) {
    && 0 <= i < |header|
    && Declares(header[i], key)
    && forall j :: i < j < |header| ==> !Declares(header[j], key)
  }

  /**
   Each field is absent exactly when no header line declares its key, and
   otherwise holds the value of the last line that does: free-text comments
   and unknown keys leave every field alone, and a repeated key keeps the
   last value.
   */
  lemma FieldIsLastDeclaration(header: seq<string>, key: Key)
    ensures Absent(ReadHeader(header), key) <==> forall i :: 0 <= i < |header| ==> !Declares(header[i], key)
    ensures forall i :: IsLastDeclaration(header, key, i) ==> Holds(ReadHeader(header), key, Declaration(header[i]).value.1)
  {
    var ds := DeclarationsOf(header);
    FieldIsLastOf(ds, key);
    forall i | IsLastDeclaration(header, key, i) ensures IsLast(ds, key, i) {
    }
  }

  /** Nothing after the first non-header line, blank lines included, affects the result. */
  lemma LaterLinesIgnored(lines: seq<string>, rest: seq<string>)
    requires HeaderLength(lines) < |lines|
    ensures ParseMetadata(lines + rest) == ParseMetadata(lines)
  {
    HeaderOfPrefix(lines, rest);
  }

  /** Lines after a non-header line leave the header unchanged. */
  lemma HeaderOfPrefix(lines: seq<string>, rest: seq<string>)
    requires HeaderLength(lines) < |lines|
    ensures (lines + rest)[..HeaderLength(lines + rest)] == lines[..HeaderLength(lines)]
  {
    HeaderLengthOfPrefix(lines, rest);
    var n := HeaderLength(lines);
    assert (lines + rest)[..n] == lines[..n];
  }

  lemma HeaderLengthOfPrefix(lines: seq<string>, rest: seq<string>)
    requires HeaderLength(lines) < |lines|
    ensures HeaderLength(lines + rest) == HeaderLength(lines)
  {
    assert forall i :: 0 <= i < |lines| ==> (lines + rest)[i] == lines[i];
  }

  /** A blank line is not a header line, so it ends the header. */
  lemma BlankLineEndsHeader(s: string)
    requires AllIn(s, Whitespace)
    ensures !IsHeaderLine(s)
  {
    TrimStartSkip(s, [], Whitespace);
    assert s + [] == s;
  }

  // ---------------------------------------------------------------------------
  // Rendering a header and reading it back

  function KeyName(key: Key): string {
    match key
    case Topic => "Topic"
    case Description => "Description"
    case Author => "Author"
    case Version => "Version"
    case Required => "Required"
  }

  /** The header line `#Key:value`. */
  function DeclarationLine(key: Key, value: string): string {
    "#" + KeyName(key) + ":" + value
  }

  /** The shape of a key name in a rendered line: non-empty, trimmed, no leading `#`, no colon. */
  predicate IsKeyName(name: string) {
    |name| > 0 && IsTrimmed(name) && name[0] != '#' && ':' !in name
  }

  /** Each rendered key name is a well-formed name that denotes its key. */
  lemma KeyNameDenotes(key: Key)
    ensures KeyOf(KeyName(key)) == Some(key)
    ensures IsKeyName(KeyName(key))
  {
    match key
    case Topic => TopicName();
    case Description => DescriptionName();
    case Author => AuthorName();
    case Version => VersionName();
    case Required => RequiredName();
  }

  predicate IsLetter(c: char) {
    'A' <= c <= 'Z' || 'a' <= c <= 'z'
  }

  /** A non-empty word of ASCII letters is a well-formed key name. */
  lemma LetterWordIsKeyName(w: string)
    requires |w| > 0 && forall i :: 0 <= i < |w| ==> IsLetter(w[i])
    ensures IsKeyName(w)
  {
    assert IsLetter(w[0]) && IsLetter(w[|w| - 1]);
  }

  lemma TopicName()
    ensures KeyOf("Topic") == Some(Topic) && IsKeyName("Topic")
  {
    LetterWordIsKeyName("Topic");
    var a, w := "Topic", "topic";
    assert a[1..] == w[1..];
    CapitalizedMatches(a, w);
  }

  lemma DescriptionName()
    ensures KeyOf("Description") == Some(Description) && IsKeyName("Description")
  {
    LetterWordIsKeyName("Description");
    var a, w := "Description", "description";
    assert a[1..] == w[1..];
    CapitalizedMatches(a, w);
  }

  lemma AuthorName()
    ensures KeyOf("Author") == Some(Author) && IsKeyName("Author")
  {
    LetterWordIsKeyName("Author");
    var a, w := "Author", "author";
    assert a[1..] == w[1..];
    CapitalizedMatches(a, w);
  }

  lemma VersionName()
    ensures KeyOf("Version") == Some(Version) && IsKeyName("Version")
  {
    LetterWordIsKeyName("Version");
    var a, w := "Version", "version";
    assert a[1..] == w[1..];
    CapitalizedMatches(a, w);
  }

  lemma RequiredName()
    ensures KeyOf("Required") == Some(Required) && IsKeyName("Required")
  {
    LetterWordIsKeyName("Required");
    var a, w := "Required", "required";
    assert a[1..] == w[1..];
    CapitalizedMatches(a, w);
  }

  /** The first colon of `name:value` is the one after the name, when the name has none. */
  lemma SplitAfterName(name: string, value: string)
    requires ':' !in name
    ensures SplitOnce(name + [':'] + value, ':') == Some((name, value))
  {
    var u := name + [':'] + value;
    assert u[|name|] == ':';
    assert u[..|name|] == name;
    assert u[|name| + 1..] == value;
    IndexOfFirst(u, ':', |name|);
  }

  /** `Key:value` declares the key its name denotes, with the value. */
  lemma BodyDeclares(name: string, value: string, key: Key)
    requires IsKeyName(name) && IsTrimmed(value) && KeyOf(name) == Some(key)
    ensures DeclarationOfBody(name + [':'] + value) == Some((key, value))
  {
    SplitAfterName(name, value);
    TrimOfTrimmed(name);
    TrimOfTrimmed(value);
  }

  lemma HashLineTrimmed(u: string)
    requires u != [] && IsTrimmed(u)
    ensures IsTrimmed(['#'] + u)
  {
    var line := ['#'] + u;
    assert line[|line| - 1] == u[|u| - 1];
  }

  lemma StripHash(u: string)
    requires u != [] && u[0] != '#'
    ensures TrimStartBy(['#'] + u, {'#'}) == u
  {
    assert (['#'] + u)[1..] == u;
    TrimStartNoop(u, {'#'});
  }

  lemma ColonAfterHash(u: string)
    requires ':' in u
    ensures ':' in ['#'] + u
  {
    var k :| 0 <= k < |u| && u[k] == ':';
    assert (['#'] + u)[k + 1] == ':';
  }

  /** The steps `Declaration` takes on `#` followed by a trimmed body that holds a colon and does not start with `#`. */
  lemma HashLineParts(u: string)
    requires u != [] && IsTrimmed(u) && u[0] != '#' && ':' in u
    ensures Trim(['#'] + u) == ['#'] + u
    ensures ':' in Trim(['#'] + u)
    ensures Trim(TrimStartBy(Trim(['#'] + u), {'#'})) == u
  {
    HashLineTrimmed(u);
    TrimOfTrimmed(['#'] + u);
    ColonAfterHash(u);
    StripHash(u);
    TrimOfTrimmed(u);
  }

  lemma HashLineIsHeader(u: string)
    requires u != [] && IsTrimmed(u) && u[0] != '#' && ':' in u
    ensures IsHeaderLine(['#'] + u)
  {
    HashLineParts(u);
  }

  /** Such a line declares what its body declares. */
  lemma HashLineDeclares(u: string)
    requires u != [] && IsTrimmed(u) && u[0] != '#' && ':' in u
    ensures Declaration(['#'] + u) == DeclarationOfBody(u)
  {
    HashLineParts(u);
  }

  /** A rendered `Key:value` body is trimmed, holds a colon and does not start with `#`. */
  lemma BodyShape(name: string, value: string)
    requires IsKeyName(name) && IsTrimmed(value)
    ensures var u := name + [':'] + value;
      u != [] && IsTrimmed(u) && u[0] != '#' && ':' in u
  {
    var u := name + [':'] + value;
    assert u[0] == name[0];
    assert u[|name|] == ':';
  }

  lemma DeclarationLineShape(key: Key, value: string)
    ensures DeclarationLine(key, value) == ['#'] + (KeyName(key) + [':'] + value)
  {
  }

  /** A rendered declaration line is a header line declaring exactly its key and value. */
  lemma DeclarationLineRoundTrip(key: Key, value: string)
    requires IsTrimmed(value)
    ensures IsHeaderLine(DeclarationLine(key, value))
    ensures Declaration(DeclarationLine(key, value)) == Some((key, value))
  {
    var name := KeyName(key);
    KeyNameDenotes(key);
    BodyShape(name, value);
    BodyDeclares(name, value, key);
    HashLineIsHeader(name + [':'] + value);
    HashLineDeclares(name + [':'] + value);
    DeclarationLineShape(key, value);
  }

  /**
   A header line with the padding the scan tolerates: one or more `#`s,
   white space before and after the name and after the colon. The value
   may itself hold colons; only the first colon separates.
   */
  function PaddedHeaderLine(hashes: string, space: string, name: string, gap: string, pad: string, value: string): string {
    hashes + space + name + gap + [':'] + pad + value
  }

  predicate IsHeaderPadding(hashes: string, space: string, gap: string, pad: string) {
    hashes != [] && AllIn(hashes, {'#'}) && AllIn(space, Whitespace) && AllIn(gap, Whitespace) && AllIn(pad, Whitespace)
  }

  /**
   A padded header line is a header line, and declares the key its name
   denotes in any letter case, with the trimmed value; a name that denotes
   no key declares nothing.
   */
  lemma PaddedHeaderLineDeclares(hashes: string, space: string, name: string, gap: string, pad: string, value: string)
    requires IsHeaderPadding(hashes, space, gap, pad) && IsKeyName(name) && IsTrimmed(value)
    ensures IsHeaderLine(PaddedHeaderLine(hashes, space, name, gap, pad, value))
    ensures Declaration(PaddedHeaderLine(hashes, space, name, gap, pad, value)) ==
      match KeyOf(name)
      case None => None
      case Some(key) => Some((key, value))
  {
    var line := PaddedHeaderLine(hashes, space, name, gap, pad, value);
    var rest := if value == [] then [] else pad + value;
    var body := name + gap + [':'] + rest;
    var core := hashes + (space + body);
    PaddedHeaderBody(name, gap, pad, value);
    PaddedHeaderTrim(hashes, space, name, gap, pad, value);
    PaddedHeaderHashes(hashes, space, body);
    SameHeaderAfterTrim(line, core);
  }

  /** Trimming the padded line leaves the `#`s, the name and the value, and drops white space after an empty value. */
  lemma PaddedHeaderTrim(hashes: string, space: string, name: string, gap: string, pad: string, value: string)
    requires IsHeaderPadding(hashes, space, gap, pad) && IsKeyName(name) && IsTrimmed(value)
    ensures var rest := if value == [] then [] else pad + value;
      Trim(PaddedHeaderLine(hashes, space, name, gap, pad, value)) == hashes + (space + (name + gap + [':'] + rest))
  {
    var rest := if value == [] then [] else pad + value;
    var core := hashes + (space + (name + gap + [':'] + rest));
    var after := if value == [] then pad else [];
    assert PaddedHeaderLine(hashes, space, name, gap, pad, value) == [] + core + after;
    CoreTrimmed(hashes, space + (name + gap), rest, value);
    TrimAround([], core, after, Whitespace);
  }

  lemma CoreTrimmed(hashes: string, middle: string, rest: string, value: string)
    requires hashes != [] && AllIn(hashes, {'#'})
    requires rest == [] || (value != [] && IsTrimmed(value) && rest[|rest| - 1] == value[|value| - 1])
    ensures IsTrimmed(hashes + (middle + [':'] + rest))
  {
    var core := hashes + (middle + [':'] + rest);
    assert core[0] == '#';
    assert core[|core| - 1] == if rest == [] then ':' else rest[|rest| - 1];
  }

  /** A line reads as its trimmed text does. */
  lemma SameHeaderAfterTrim(raw: string, line: string)
    requires Trim(raw) == line && IsHeaderLine(line)
    ensures IsHeaderLine(raw) && Declaration(raw) == Declaration(line)
  {
    TrimOfTrimmed(line);
  }

  /** The `#`s are stripped and the white space after them trimmed. */
  lemma PaddedHeaderHashes(hashes: string, space: string, body: string)
    requires hashes != [] && AllIn(hashes, {'#'}) && AllIn(space, Whitespace)
    requires body != [] && IsTrimmed(body) && body[0] != '#' && ':' in body
    ensures IsHeaderLine(hashes + (space + body))
    ensures Declaration(hashes + (space + body)) == DeclarationOfBody(body)
  {
    var line := hashes + (space + body);
    HashesLineTrimmed(hashes, space, body);
    HashesStripped(hashes, space, body);
  }

  lemma HashesLineTrimmed(hashes: string, space: string, body: string)
    requires hashes != [] && AllIn(hashes, {'#'})
    requires body != [] && IsTrimmed(body) && ':' in body
    ensures IsHeaderLine(hashes + (space + body))
    ensures Declaration(hashes + (space + body)) == DeclarationOfBody(Trim(TrimStartBy(hashes + (space + body), {'#'})))
  {
    var line := hashes + (space + body);
    assert line[0] == '#' && line[|line| - 1] == body[|body| - 1];
    var k :| 0 <= k < |body| && body[k] == ':';
    assert line[|hashes| + |space| + k] == ':';
    TrimmedHeaderLine(line);
  }

  /** A trimmed line that starts with `#` and holds a colon is a header line read as it stands. */
  lemma TrimmedHeaderLine(line: string)
    requires IsTrimmed(line) && line != [] && line[0] == '#' && ':' in line
    ensures IsHeaderLine(line)
    ensures Declaration(line) == DeclarationOfBody(Trim(TrimStartBy(line, {'#'})))
  {
    TrimOfTrimmed(line);
  }

  lemma HashesStripped(hashes: string, space: string, body: string)
    requires AllIn(hashes, {'#'}) && AllIn(space, Whitespace)
    requires body != [] && IsTrimmed(body) && body[0] != '#'
    ensures Trim(TrimStartBy(hashes + (space + body), {'#'})) == body
  {
    assert (space + body)[0] !in {'#'};
    TrimStartSkip(hashes, space + body, {'#'});
    TrimStartNoop(space + body, {'#'});
    assert space + body == space + body + [];
    TrimAround(space, body, [], Whitespace);
  }

  /** The body `name gap : pad value` declares what the name denotes, with the value. */
  lemma PaddedHeaderBody(name: string, gap: string, pad: string, value: string)
    requires IsKeyName(name) && AllIn(gap, Whitespace) && AllIn(pad, Whitespace) && IsTrimmed(value)
    ensures var rest := if value == [] then [] else pad + value;
      var body := name + gap + [':'] + rest;
      body != [] && IsTrimmed(body) && body[0] != '#' && ':' in body &&
      DeclarationOfBody(body) == match KeyOf(name) case None => None case Some(key) => Some((key, value))
  {
    var rest := if value == [] then [] else pad + value;
    PaddedBodyShape(name, gap, rest, value);
    assert Trim(name + gap) == name by {
      assert name + gap == [] + name + gap;
      TrimAround([], name, gap, Whitespace);
    }
    assert Trim(rest) == value by {
      if value != [] {
        assert pad + value == pad + value + [];
        TrimAround(pad, value, [], Whitespace);
      }
    }
    assert ':' !in name + gap;
    SplitAfterName(name + gap, rest);
  }

  lemma PaddedBodyShape(name: string, gap: string, rest: string, value: string)
    requires IsKeyName(name) && IsTrimmed(value)
    requires rest == [] || (value != [] && rest[|rest| - 1] == value[|value| - 1])
    ensures var body := name + gap + [':'] + rest;
      body != [] && IsTrimmed(body) && body[0] != '#' && ':' in body
  {
    var body := name + gap + [':'] + rest;
    assert body[0] == name[0];
    assert body[|name| + |gap|] == ':';
    assert body[|body| - 1] == if rest == [] then ':' else rest[|rest| - 1];
  }

  /**
   A header can be written back: every field a trimmed single line,
   dependency names trimmed, single-line and comma-free.
   */
  predicate Renderable(m: Metadata) {
    && (m.topic.Some? ==> IsFieldText(m.topic.value))
    && (m.description.Some? ==> IsFieldText(m.description.value))
    && (m.author.Some? ==> IsFieldText(m.author.value))
    && (m.version.Some? ==> IsFieldText(m.version.value))
    && (m.required.Some? ==> |m.required.value| >= 1 && forall i :: 0 <= i < |m.required.value| ==> IsFieldText(m.required.value[i]) && ',' !in m.required.value[i])
  }

  /** Text that fits on one header line as a value: trimmed, without a line break. */
  predicate IsFieldText(value: string) {
    IsTrimmed(value) && '\n' !in value
  }

  function FieldLine(key: Key, value: Option<string>): seq<string> {
    if value.Some? then [DeclarationLine(key, value.value)] else []
  }

  /** The header that declares the present fields of `m`, one line each. */
  function Render(m: Metadata): seq<string>
    requires Renderable(m)
  {
    FieldLine(Topic, m.topic) + FieldLine(Description, m.description) + FieldLine(Author, m.author)
    + FieldLine(Version, m.version) + FieldLine(Required, RequiredValue(m))
  }

  /** A comma-joined list of trimmed, comma-free names is itself trimmed. */
  lemma {:induction false} JoinTrimmed(names: seq<string>)
    requires |names| >= 1
    requires forall i :: 0 <= i < |names| ==> IsTrimmed(names[i]) && ',' !in names[i]
    ensures IsTrimmed(Join(names, ','))
    ensures Join(names, ',') != [] ==> Join(names, ',')[0] == (if names[0] != [] then names[0][0] else ',')
    decreases |names|
  {
    if |names| > 1 {
      JoinTrimmed(names[1..]);
      var rest := Join(names[1..], ',');
      assert Join(names, ',') == names[0] + [','] + rest;
      if rest != [] {
        assert Join(names, ',')[|Join(names, ',')| - 1] == rest[|rest| - 1];
      }
    }
  }

  lemma RequiredRoundTrip(names: seq<string>)
    requires |names| >= 1
    requires forall i :: 0 <= i < |names| ==> IsTrimmed(names[i]) && ',' !in names[i]
    ensures RequiredList(Join(names, ',')) == names
  {
    SplitJoin(names, ',');
    forall i | 0 <= i < |names| ensures Trim(names[i]) == names[i] {
      TrimmedIsFixpoint(names[i], Whitespace);
    }
  }

  /** Each listed name is the trimmed segment between the commas at its position. */
  lemma RequiredListSegments(value: string)
    ensures forall i :: 0 <= i < |RequiredList(value)| ==> RequiredList(value)[i] == Trim(Split(value, ',')[i])
  {
  }

  /**
   A `Required` value written as comma-separated segments lists each
   segment trimmed, white space around the names included.
   */
  lemma RequiredOfSegments(segments: seq<string>)
    requires |segments| >= 1 && forall i :: 0 <= i < |segments| ==> ',' !in segments[i]
    ensures |RequiredList(Join(segments, ','))| == |segments|
    ensures forall i :: 0 <= i < |segments| ==> RequiredList(Join(segments, ','))[i] == Trim(segments[i])
  {
    SplitJoin(segments, ',');
  }

  /** Two names separated by a comma and a space, as in the parser's complete-header test, are listed as they are. */
  lemma RequiredTwoNames(first: string, second: string)
    requires IsTrimmed(first) && IsTrimmed(second) && second != []
    requires ',' !in first && ',' !in second
    ensures RequiredList(first + [',', ' '] + second) == [first, second]
  {
    CommaSpaceSegments(first, second);
    TrimOfTrimmed(first);
    SpacedTrim(second);
  }

  lemma CommaSpaceSegments(first: string, second: string)
    requires ',' !in first && ',' !in second
    ensures RequiredList(first + [',', ' '] + second) == [Trim(first), Trim([' '] + second)]
  {
    var spaced := [' '] + second;
    var segments := [first, spaced];
    assert ',' !in spaced;
    assert segments[1..] == [spaced];
    assert first + [',', ' '] + second == Join(segments, ',');
    RequiredOfSegments(segments);
  }

  lemma SpacedTrim(name: string)
    requires IsTrimmed(name) && name != []
    ensures Trim([' '] + name) == name
  {
    assert [' '] + name == [' '] + name + [];
    TrimAround([' '], name, [], Whitespace);
  }

  /** The first line of the parser's complete-header test. */
  lemma TopicLineExample(line: string)
    requires line == "# Topic: Test Dialog"
    ensures IsHeaderLine(line) && Declaration(line) == Some((Topic, "Test Dialog"))
  {
    var value := TopicLineShape(line);
    TopicName();
    PaddedHeaderLineDeclares("#", " ", "Topic", "", " ", value);
  }

  lemma TopicLineShape(line: string) returns (value: string)
    requires line == "# Topic: Test Dialog"
    ensures value == "Test Dialog" && IsTrimmed(value)
    ensures line == PaddedHeaderLine("#", " ", "Topic", "", " ", value)
  {
    value := "Test Dialog";
  }

  /** Several `#`s, a lower-case name and white space around the colon declare the same field. */
  lemma LowerCaseTopicExample(line: string)
    requires line == "## topic :  Test Dialog"
    ensures IsHeaderLine(line) && Declaration(line) == Some((Topic, "Test Dialog"))
  {
    var value := LowerCaseTopicShape(line);
    LowerTopicName();
    PaddedHeaderLineDeclares("##", " ", "topic", " ", "  ", value);
  }

  lemma LowerCaseTopicShape(line: string) returns (value: string)
    requires line == "## topic :  Test Dialog"
    ensures value == "Test Dialog" && IsTrimmed(value)
    ensures line == PaddedHeaderLine("##", " ", "topic", " ", "  ", value)
  {
    value := "Test Dialog";
  }

  lemma LowerTopicName()
    ensures KeyOf("topic") == Some(Topic) && IsKeyName("topic")
  {
    LetterWordIsKeyName("topic");
    var w := "topic";
    assert forall i :: 0 <= i < |w| ==> LowerChar(w[i]) == w[i];
    EqualsIgnoringCaseIndex(w, w);
  }

  predicate AllHeaderLines(h: seq<string>) {
    forall i :: 0 <= i < |h| ==> IsHeaderLine(h[i])
  }

  /** Header lines followed by a non-header line (or nothing) form a header of exactly that length. */
  lemma HeaderLengthOfHeader(h: seq<string>, body: seq<string>)
    requires AllHeaderLines(h)
    requires body == [] || !IsHeaderLine(body[0])
    ensures HeaderLength(h + body) == |h|
  {
    assert forall i :: 0 <= i < |h| ==> (h + body)[i] == h[i];
    assert |h| < |h + body| ==> (h + body)[|h|] == body[0];
  }

  /** One more header line applies its declaration on top of the earlier ones. */
  lemma ReadHeaderSnoc(h: seq<string>, line: string)
    ensures ReadHeader(h + [line]) == Apply(ReadHeader(h), Declaration(line))
  {
    var ds := DeclarationsOf(h + [line]);
    assert ds[..|ds| - 1] == DeclarationsOf(h);
  }

  lemma AllHeaderLinesSnoc(h: seq<string>, line: string)
    requires AllHeaderLines(h) && IsHeaderLine(line)
    ensures AllHeaderLines(h + [line])
  {
    assert forall i :: 0 <= i < |h| ==> (h + [line])[i] == h[i];
  }

  /** Appending the line of one present field declares it on top of what was read before. */
  lemma ReadFieldLine(h: seq<string>, key: Key, value: Option<string>)
    requires AllHeaderLines(h)
    requires value.Some? ==> IsTrimmed(value.value)
    ensures AllHeaderLines(h + FieldLine(key, value))
    ensures ReadHeader(h + FieldLine(key, value)) ==
      if value.Some? then Declare(ReadHeader(h), key, value.value) else ReadHeader(h)
  {
    if value.Some? {
      var line := DeclarationLine(key, value.value);
      DeclarationLineRoundTrip(key, value.value);
      ReadHeaderSnoc(h, line);
      AllHeaderLinesSnoc(h, line);
    } else {
      assert h + FieldLine(key, value) == h;
    }
  }

  /** A header followed by a non-header line (or by nothing) is read as exactly that header. */
  lemma ParseHeaderThenBody(h: seq<string>, body: seq<string>)
    requires AllHeaderLines(h)
    requires body == [] || !IsHeaderLine(body[0])
    ensures ParseMetadata(h + body) == Ok(ReadHeader(h))
  {
    HeaderLengthOfHeader(h, body);
    assert (h + body)[..|h|] == h;
  }

  lemma ReadEmptyHeader()
    ensures ReadHeader([]) == NoMetadata
  {
  }

  /** The `Required` value a header line is rendered with. */
  function RequiredValue(m: Metadata): Option<string>
    requires Renderable(m)
  {
    if m.required.Some? then Some(Join(m.required.value, ',')) else None
  }

  lemma ReadTopicLine(m: Metadata)
    requires Renderable(m)
    ensures AllHeaderLines(FieldLine(Topic, m.topic))
    ensures ReadHeader(FieldLine(Topic, m.topic)) == NoMetadata.(topic := m.topic)
  {
    ReadEmptyHeader();
    ReadFieldLine([], Topic, m.topic);
    assert [] + FieldLine(Topic, m.topic) == FieldLine(Topic, m.topic);
  }

  lemma ReadDescriptionLine(m: Metadata, h: seq<string>)
    requires Renderable(m) && AllHeaderLines(h)
    requires ReadHeader(h) == NoMetadata.(topic := m.topic)
    ensures AllHeaderLines(h + FieldLine(Description, m.description))
    ensures ReadHeader(h + FieldLine(Description, m.description)) == NoMetadata.(topic := m.topic, description := m.description)
  {
    ReadFieldLine(h, Description, m.description);
  }

  lemma ReadAuthorLine(m: Metadata, h: seq<string>)
    requires Renderable(m) && AllHeaderLines(h)
    requires ReadHeader(h) == NoMetadata.(topic := m.topic, description := m.description)
    ensures AllHeaderLines(h + FieldLine(Author, m.author))
    ensures ReadHeader(h + FieldLine(Author, m.author)) == m.(version := None, required := None)
  {
    ReadFieldLine(h, Author, m.author);
  }

  lemma ReadVersionLine(m: Metadata, h: seq<string>)
    requires Renderable(m) && AllHeaderLines(h)
    requires ReadHeader(h) == m.(version := None, required := None)
    ensures AllHeaderLines(h + FieldLine(Version, m.version))
    ensures ReadHeader(h + FieldLine(Version, m.version)) == m.(required := None)
  {
    ReadFieldLine(h, Version, m.version);
  }

  lemma ReadRequiredLine(m: Metadata, h: seq<string>)
    requires Renderable(m) && AllHeaderLines(h)
    requires ReadHeader(h) == m.(required := None)
    ensures AllHeaderLines(h + FieldLine(Required, RequiredValue(m)))
    ensures ReadHeader(h + FieldLine(Required, RequiredValue(m))) == m
  {
    if m.required.Some? {
      JoinTrimmed(m.required.value);
      RequiredRoundTrip(m.required.value);
    }
    ReadFieldLine(h, Required, RequiredValue(m));
  }

  /** The rendered lines are header lines that read back as the metadata they were rendered from. */
  lemma ReadRendered(m: Metadata)
    requires Renderable(m)
    ensures AllHeaderLines(Render(m)) && ReadHeader(Render(m)) == m
  {
    var h1 := FieldLine(Topic, m.topic);
    ReadTopicLine(m);
    var h2 := h1 + FieldLine(Description, m.description);
    ReadDescriptionLine(m, h1);
    var h3 := h2 + FieldLine(Author, m.author);
    ReadAuthorLine(m, h2);
    var h4 := h3 + FieldLine(Version, m.version);
    ReadVersionLine(m, h3);
    var h5 := h4 + FieldLine(Required, RequiredValue(m));
    ReadRequiredLine(m, h4);
    assert h5 == Render(m);
  }

  /**
   Reading back a rendered header gives the metadata it was rendered from,
   whatever non-header text follows it.
   */
  lemma RenderRoundTrip(m: Metadata, body: seq<string>)
    requires Renderable(m)
    requires body == [] || !IsHeaderLine(body[0])
    ensures ParseMetadata(Render(m) + body) == Ok(m)
  {
    ReadRendered(m);
    ParseHeaderThenBody(Render(m), body);
  }
}
