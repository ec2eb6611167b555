/** The configuration a request is handed to `curl` in, and the status read off its output. */
module CurlConfig {
  import opened Wrappers
  import opened Decimals
  import opened Texts

  datatype Request = Request(url: string, body: string, bearer: Option<string>, headers: seq<(string, string)>)

  datatype ConfigError = ControlCharacter(c: char) | NotJson

  const TAB: char := '\t'
  const LF: char := '\n'
  const CR: char := '\r'
  const DEL: char := '\U{7f}'
  const VT: char := '\U{b}'

  // ---------- Quoting ----------

  /** The escaped form of one character, or nothing when it cannot be sent. */
  function QuoteChar(c: char): Option<string> {
    if c == '\\' then Some("\\\\")
    else if c == '"' then Some("\\\"")
    else if c == TAB then Some("\\t")
    else if c == LF then Some("\\n")
    else if c == CR then Some("\\r")
    else if c < ' ' || c == DEL then None
    else Some([c])
  }

  function Quoted(s: string): Result<string, ConfigError> {
    if s == "" then Ok("")
    else
      match QuoteChar(s[0])
      case None => Err(ControlCharacter(s[0]))
      case Some(q) =>
        match Quoted(s[1..])
        case Err(e) => Err(e)
        case Ok(rest) => Ok(q + rest)
  }

  method Quote(value: string) returns (r: Result<string, ConfigError>)
    ensures r == Quoted(value)
  {
    var out := "";
    assert value[0..] == value;
    PrependNothing(Quoted(value));
    for i := 0 to |value|
      invariant Quoted(value) == Prepend(out, Quoted(value[i..]))
    {
      assert value[i..][1..] == value[i + 1..];
      match QuoteChar(value[i]) {
        case None => return Err(ControlCharacter(value[i]));
        case Some(q) =>
          PrependTwice(out, q, Quoted(value[i + 1..]));
          out := out + q;
      }
    }
    assert value[|value|..] == "" && out + "" == out;
    r := Ok(out);
  }

  function Prepend(s: string, r: Result<string, ConfigError>): Result<string, ConfigError> {
    match r
    case Ok(t) => Ok(s + t)
    case Err(e) => Err(e)
  }

  lemma PrependNothing(r: Result<string, ConfigError>)
    ensures Prepend("", r) == r
  {
    if r.Ok? {
      assert "" + r.value == r.value;
    }
  }

  lemma PrependTwice(s: string, t: string, r: Result<string, ConfigError>)
    ensures Prepend(s, Prepend(t, r)) == Prepend(s + t, r)
  {
    if r.Ok? {
      assert s + (t + r.value) == (s + t) + r.value;
    }
  }

  // ---------- Reading a quoted value, as curl does ----------

  function Unescape(c: char): char {
    if c == 't' then TAB else if c == 'n' then LF else if c == 'r' then CR else if c == 'v' then VT else c
  }

  /** Reads up to the first quote that no backslash escapes. */
  function ReadQuoted(t: string): Option<(string, string)> {
    if t == "" then None
    else if t[0] == '"' then Some(("", t[1..]))
    else if t[0] == '\\' then
      if |t| < 2 then None
      else
        match ReadQuoted(t[2..])
        case Some((s, rest)) => Some(([Unescape(t[1])] + s, rest))
        case None => None
    else
      match ReadQuoted(t[1..])
      case Some((s, rest)) => Some(([t[0]] + s, rest))
      case None => None
  }

  /** No control character but tab, line feed and carriage return. */
  predicate Sendable(s: string) {
    forall i :: 0 <= i < |s| ==>
      s[i] == TAB || s[i] == LF || s[i] == CR || ' ' <= s[i] < DEL || DEL < s[i]
  }

  /** Exactly the texts without other control characters are accepted. */
  lemma {:induction false} AcceptedIffSendable(s: string)
    ensures Quoted(s).Ok? <==> Sendable(s)
  {
    if s != "" {
      AcceptedIffSendable(s[1..]);
      assert forall i :: 0 < i < |s| ==> s[i] == s[1..][i - 1];
      if Sendable(s) {
        forall i | 0 <= i < |s[1..]|
          ensures s[1..][i] == TAB || s[1..][i] == LF || s[1..][i] == CR || ' ' <= s[1..][i] < DEL || DEL < s[1..][i]
        {
          assert s[1..][i] == s[i + 1];
        }
      }
    }
  }

  /** What is written holds no control character, hence no line break. */
  lemma {:induction false} QuotedHasNoControls(s: string)
    requires Quoted(s).Ok?
    ensures forall i :: 0 <= i < |Quoted(s).value| ==> Quoted(s).value[i] >= ' ' && Quoted(s).value[i] != DEL
  {
    if s != "" {
      QuotedHasNoControls(s[1..]);
    }
  }

  lemma ReadOneChar(c: char, tail: string)
    requires QuoteChar(c).Some?
    ensures var q := QuoteChar(c).value;
      ReadQuoted(q + tail) == match ReadQuoted(tail)
                              case Some((s, rest)) => Some(([c] + s, rest))
                              case None => None
  {
    var q := QuoteChar(c).value;
    assert (q + tail)[|q|..] == tail;
  }

  /** Reading what was written gives back the text, wherever it stands. */
  lemma {:induction false} QuoteRoundTrip(s: string, rest: string)
    requires Quoted(s).Ok?
    ensures ReadQuoted(Quoted(s).value + ("\"" + rest)) == Some((s, rest))
  {
    if s == "" {
      assert "" + ("\"" + rest) == "\"" + rest;
      assert ("\"" + rest)[1..] == rest;
    } else {
      QuoteRoundTrip(s[1..], rest);
      var q, tail := QuoteChar(s[0]).value, Quoted(s[1..]).value;
      assert (q + tail) + ("\"" + rest) == q + (tail + ("\"" + rest));
      ReadOneChar(s[0], tail + ("\"" + rest));
      assert s == [s[0]] + s[1..];
    }
  }

  lemma {:induction false} QuotedConcat(s: string, t: string)
    requires Quoted(s).Ok? && Quoted(t).Ok?
    ensures Quoted(s + t) == Ok(Quoted(s).value + Quoted(t).value)
  {
    hide QuoteChar;
    if s == "" {
      assert s + t == t && "" + Quoted(t).value == Quoted(t).value;
    } else {
      assert (s + t)[1..] == s[1..] + t;
      QuotedConcat(s[1..], t);
      var q := QuoteChar(s[0]).value;
      assert q + (Quoted(s[1..]).value + Quoted(t).value) == (q + Quoted(s[1..]).value) + Quoted(t).value;
    }
  }

  // ---------- Options, one to a line ----------

  /** One option: alone, with a bare value, or with a quoted one. */
  datatype Setting = Flag(name: string) | Bare(name: string, value: string) | Text(name: string, value: string)

  function QuotedOrNothing(s: string): string {
    match Quoted(s)
    case Ok(q) => q
    case Err(_) => ""
  }

  function Line(o: Setting): string {
    match o
    case Flag(name) => name + "\n"
    case Bare(name, value) => name + (" = " + (value + "\n"))
    case Text(name, value) => QuotedLine(name, QuotedOrNothing(value))
  }

  function QuotedLine(name: string, quoted: string): string {
    name + (" = \"" + (quoted + ("\"" + "\n")))
  }

  function Lines(settings: seq<Setting>): string {
    if settings == [] then "" else Line(settings[0]) + Lines(settings[1..])
  }

  /** The option name: all up to a space or the end of the line. */
  function NameLength(t: string): nat
    ensures NameLength(t) <= |t|
  {
    if t == "" || t[0] == ' ' || t[0] == LF then 0 else 1 + NameLength(t[1..])
  }

  /** The rest of the line. */
  function LineLength(t: string): nat
    ensures LineLength(t) <= |t|
  {
    if t == "" || t[0] == LF then 0 else 1 + LineLength(t[1..])
  }

  /** Reads one option and the line break after it, in the forms that are printed: a name alone,
      a bare value behind ` = `, or a quoted one. (`curl` also takes other separators, leading
      blanks and comment lines; none of them is printed.) */
  function ParseLine(t: string): Option<(Setting, string)> {
    var n := NameLength(t);
    var name, after := t[..n], t[n..];
    if after != "" && after[0] == LF then Some((Flag(name), after[1..]))
    else if " = \"" <= after then
      match ReadQuoted(after[4..])
      case Some((value, rest)) =>
        if rest != "" && rest[0] == LF then Some((Text(name, value), rest[1..])) else None
      case None => None
    else if " = " <= after then
      var value, rest := after[3..][..LineLength(after[3..])], after[3..][LineLength(after[3..])..];
      if rest != "" then Some((Bare(name, value), rest[1..])) else None
    else None
  }

  lemma {:induction false} ReadQuotedShortens(t: string)
    ensures ReadQuoted(t).Some? ==> |ReadQuoted(t).value.1| < |t|
  {
    if t != "" && t[0] != '"' {
      if t[0] == '\\' {
        if |t| >= 2 { ReadQuotedShortens(t[2..]); }
      } else {
        ReadQuotedShortens(t[1..]);
      }
    }
  }

  function Parse(t: string): Option<seq<Setting>>
    decreases |t|
  {
    if t == "" then Some([])
    else
      match ParseLine(t)
      case None => None
      case Some((o, rest)) =>
        if |rest| >= |t| then None
        else
          match Parse(rest)
          case Some(os) => Some([o] + os)
          case None => None
  }

  /** A name or a bare value that ends where it should. */
  predicate IsWord(s: string) {
    forall i :: 0 <= i < |s| ==> s[i] != ' ' && s[i] != LF
  }

  predicate Printable(o: Setting) {
    && IsWord(o.name)
    && (o.Bare? ==> IsWord(o.value) && o.value != "" && o.value[0] != '"')
    && (o.Text? ==> Quoted(o.value).Ok?)
  }

  lemma {:induction false} NameEnds(name: string, after: string)
    requires IsWord(name) && after != "" && (after[0] == ' ' || after[0] == LF)
    ensures NameLength(name + after) == |name|
  {
    if name == "" {
      assert name + after == after;
    } else {
      assert (name + after)[1..] == name[1..] + after;
      NameEnds(name[1..], after);
    }
  }

  lemma {:induction false} LineEnds(value: string, after: string)
    requires IsWord(value) && after != "" && after[0] == LF
    ensures LineLength(value + after) == |value|
  {
    if value == "" {
      assert value + after == after;
    } else {
      assert (value + after)[1..] == value[1..] + after;
      LineEnds(value[1..], after);
    }
  }

  lemma ParseFlag(name: string, rest: string)
    requires IsWord(name)
    ensures ParseLine(name + ("\n" + rest)) == Some((Flag(name), rest))
  {
    NameEnds(name, "\n" + rest);
    hide NameLength, LineLength, ReadQuoted;
    var t := name + ("\n" + rest);
    assert t[..|name|] == name && t[|name|..] == "\n" + rest;
    assert ("\n" + rest)[1..] == rest;
  }

  lemma ParseBare(name: string, value: string, rest: string)
    requires IsWord(name) && IsWord(value) && value != "" && value[0] != '"'
    ensures ParseLine(name + (" = " + (value + ("\n" + rest)))) == Some((Bare(name, value), rest))
  {
    var end := value + ("\n" + rest);
    var after := " = " + end;
    NameEnds(name, after);
    LineEnds(value, "\n" + rest);
    hide NameLength, LineLength, ReadQuoted;
    var t := name + after;
    assert t[..|name|] == name && t[|name|..] == after;
    assert after[3..] == end && after[3] == value[0] && after[0] == ' ';
    assert end[..|value|] == value && end[|value|..] == "\n" + rest && ("\n" + rest)[1..] == rest;
  }

  lemma ParseText(name: string, value: string, rest: string)
    requires IsWord(name) && Quoted(value).Ok?
    ensures ParseLine(name + (" = \"" + (Quoted(value).value + ("\"" + ("\n" + rest)))))
      == Some((Text(name, value), rest))
  {
    var end := Quoted(value).value + ("\"" + ("\n" + rest));
    var after := " = \"" + end;
    NameEnds(name, after);
    QuoteRoundTrip(value, "\n" + rest);
    hide NameLength, LineLength, ReadQuoted, Quoted;
    var t := name + after;
    assert t[..|name|] == name && t[|name|..] == after;
    assert after[4..] == end && after[0] == ' ' && " = \"" <= after;
    assert ("\n" + rest)[1..] == rest;
  }

  lemma ParseOneLine(o: Setting, rest: string)
    requires Printable(o)
    ensures ParseLine(Line(o) + rest) == Some((o, rest)) && |Line(o)| > 0
  {
    hide ParseLine, Quoted;
    match o
    case Flag(name) =>
      assert Line(o) + rest == name + ("\n" + rest);
      ParseFlag(name, rest);
    case Bare(name, value) =>
      assert Line(o) + rest == name + (" = " + (value + ("\n" + rest)));
      ParseBare(name, value, rest);
    case Text(name, value) =>
      var q := Quoted(value).value;
      assert Line(o) == QuotedLine(name, q);
      assert Line(o) + rest == name + (" = \"" + (q + ("\"" + ("\n" + rest))));
      ParseText(name, value, rest);
  }

  /** Printing options one to a line and reading the text back gives the same options. */
  lemma {:induction false} ParseUndoesLines(settings: seq<Setting>)
    requires forall o :: o in settings ==> Printable(o)
    ensures Parse(Lines(settings)) == Some(settings)
  {
    if settings != [] {
      assert settings[0] in settings && settings == [settings[0]] + settings[1..];
      ParseOneLine(settings[0], Lines(settings[1..]));
      ParseUndoesLines(settings[1..]);
    }
  }

  lemma {:induction false} LinesSnoc(settings: seq<Setting>, o: Setting)
    ensures Lines(settings + [o]) == Lines(settings) + Line(o)
  {
    if settings == [] {
      assert settings + [o] == [o] && [o][1..] == [];
      assert Line(o) + "" == Line(o) && "" + Line(o) == Line(o);
    } else {
      assert (settings + [o])[1..] == settings[1..] + [o];
      LinesSnoc(settings[1..], o);
      assert Line(settings[0]) + (Lines(settings[1..]) + Line(o))
          == (Line(settings[0]) + Lines(settings[1..])) + Line(o);
    }
  }

  // ---------- The request as options ----------

  const STATUS_FORMAT: string := "\n%{http_code}"

  const SILENT: Setting := Flag("silent")
  const SHOW_ERROR: Setting := Flag("show-error")
  const METHOD: Setting := Text("request", "POST")
  const WRITE_OUT: Setting := Text("write-out", STATUS_FORMAT)
  const CONTENT_TYPE: Setting := Text("header", "Content-Type: application/json")
  const ACCEPT: Setting := Text("header", "Accept: application/json")

  function Preamble(url: string, timeout: nat): seq<Setting> {
    [SILENT, SHOW_ERROR, METHOD, Text("url", url), Bare("max-time", Decimal(timeout)), WRITE_OUT, CONTENT_TYPE, ACCEPT]
  }

  function BearerSettings(bearer: Option<string>): seq<Setting> {
    match bearer
    case None => []
    case Some(token) => [Text("header", BEARER + token)]
  }

  function HeaderSettings(headers: seq<(string, string)>): seq<Setting> {
    seq(|headers|, i requires 0 <= i < |headers| => Text("header", headers[i].0 + (": " + headers[i].1)))
  }

  function Settings(r: Request, timeout: nat): seq<Setting> {
    Preamble(r.url, timeout) + BearerSettings(r.bearer) + HeaderSettings(r.headers) + [Text("data-binary", r.body)]
  }

  predicate JsonBody(body: string) {
    body != "" && (body[0] == '{' || body[0] == '[')
  }

  predicate Acceptable(r: Request) {
    && Sendable(r.url) && (r.bearer.Some? ==> Sendable(r.bearer.value))
    && (forall i :: 0 <= i < |r.headers| ==> Sendable(r.headers[i].0) && Sendable(r.headers[i].1))
    && JsonBody(r.body) && Sendable(r.body)
  }

  /** The first thing that stops a request, in the order the configuration is written. */
  function Refusal(r: Request): Option<ConfigError> {
    match Quoted(r.url)
    case Err(e) => Some(e)
    case Ok(_) =>
      match (if r.bearer.Some? then Quoted(r.bearer.value) else Ok(""))
      case Err(e) => Some(e)
      case Ok(_) =>
        match HeaderRefusal(r.headers)
        case Some(e) => Some(e)
        case None =>
          if !JsonBody(r.body) then Some(NotJson)
          else
            match Quoted(r.body)
            case Err(e) => Some(e)
            case Ok(_) => None
  }

  function HeaderRefusal(headers: seq<(string, string)>): Option<ConfigError> {
    if headers == [] then None
    else
      match Quoted(headers[0].0)
      case Err(e) => Some(e)
      case Ok(_) =>
        match Quoted(headers[0].1)
        case Err(e) => Some(e)
        case Ok(_) => HeaderRefusal(headers[1..])
  }

  // ---------- Writing the configuration ----------

  /** A text that quoting leaves as it is. */
  predicate Plain(s: string) {
    forall i :: 0 <= i < |s| ==> PlainChar(s[i])
  }

  predicate PlainChar(c: char) {
    ' ' <= c && c != '"' && c != '\\' && c != DEL
  }

  lemma {:induction false} PlainIsUnchanged(s: string)
    requires Plain(s)
    ensures Quoted(s) == Ok(s)
  {
    if s != "" {
      assert PlainChar(s[0]);
      PlainIsUnchanged(s[1..]);
      assert s == [s[0]] + s[1..];
    }
  }

  const BEARER: string := "Authorization: Bearer "

  lemma FixedTexts()
    ensures Plain("POST") && Plain(": ") && Plain(BEARER) && Plain("%{http_code}")
  {
  }

  lemma FixedHeaders()
    ensures Plain("Content-Type: application/json")
    ensures Plain("Accept: application/json")
  {
  }

  /** Each option written so far is printable, and the text is theirs. */
  ghost predicate Written(settings: seq<Setting>, text: string) {
    text == Lines(settings) && forall o :: o in settings ==> Printable(o)
  }

  method Append(ghost settings: seq<Setting>, text: string, o: Setting) returns (text': string)
    requires Written(settings, text) && Printable(o)
    ensures Written(settings + [o], text')
  {
    LinesSnoc(settings, o);
    text' := text + Line(o);
  }

  /** Quotes a value that follows a fixed text in one pair of quotes. */
  method AppendQuoted(ghost settings: seq<Setting>, text: string, name: string, lead: string, value: string)
    returns (r: Result<string, ConfigError>)
    requires Written(settings, text) && IsWord(name) && Plain(lead)
    ensures match r
            case Ok(text') => Quoted(value).Ok? && Written(settings + [Text(name, lead + value)], text')
            case Err(e) => Quoted(value) == Err(e)
  {
    var q := Quote(value);
    match q
    case Err(e) => return Err(e);
    case Ok(quoted) =>
      PlainIsUnchanged(lead);
      QuotedConcat(lead, value);
      LinesSnoc(settings, Text(name, lead + value));
      r := Ok(text + QuotedLine(name, lead + quoted));
  }

  method AppendHeader(ghost settings: seq<Setting>, text: string, name: string, value: string)
    returns (r: Result<string, ConfigError>)
    requires Written(settings, text)
    ensures match r
            case Ok(text') =>
              && Quoted(name).Ok? && Quoted(value).Ok?
              && Written(settings + [Text("header", name + (": " + value))], text')
            case Err(e) => HeaderRefusal([(name, value)]) == Some(e)
  {
    var q := Quote(name);
    if q.Err? {
      return Err(q.error);
    }
    var p := Quote(value);
    if p.Err? {
      return Err(p.error);
    }
    HeaderQuotes(name, value);
    hide Quoted, Lines;
    var o := Text("header", name + (": " + value));
    LinesSnoc(settings, o);
    r := Ok(text + QuotedLine("header", q.value + (": " + p.value)));
  }

  lemma HeaderQuotes(name: string, value: string)
    requires Quoted(name).Ok? && Quoted(value).Ok?
    ensures Quoted(name + (": " + value)) == Ok(Quoted(name).value + (": " + Quoted(value).value))
  {
    FixedTexts();
    PlainIsUnchanged(": ");
    QuotedConcat(": ", value);
    QuotedConcat(name, ": " + value);
  }

  lemma PlainSetting(name: string, value: string)
    requires IsWord(name) && Plain(value)
    ensures Printable(Text(name, value))
  {
    PlainIsUnchanged(value);
  }

  lemma StatusFormatQuoted()
    ensures Quoted(STATUS_FORMAT).Ok?
  {
    AcceptedIffSendable(STATUS_FORMAT);
    hide Quoted;
  }

  lemma WriteOutPrintable()
    ensures Printable(WRITE_OUT)
  {
    StatusFormatQuoted();
    WordsOfPreamble();
    hide Quoted, IsWord;
  }

  lemma TimeoutPrintable(timeout: nat)
    ensures Printable(Bare("max-time", Decimal(timeout)))
  {
    DecimalReadsBack(timeout);
  }

  method AppendPreamble(url: string, timeout: nat) returns (r: Result<string, ConfigError>)
    ensures match r
            case Ok(text) => Quoted(url).Ok? && Written(Preamble(url, timeout), text)
            case Err(e) => Quoted(url) == Err(e)
  {
    hide Printable, Line, Lines, Quoted, Plain, IsWord, Written;
    FlagsPrintable();
    MethodPrintable();
    WriteOutPrintable();
    HeadersPrintable();
    TimeoutPrintable(timeout);
    WordsOfPreamble();
    EmptyWritten();
    EmptyPlain();
    ghost var s: seq<Setting> := [];
    var text := Append(s, "", SILENT);
    s := s + [SILENT];
    text := Append(s, text, SHOW_ERROR);
    s := s + [SHOW_ERROR];
    text := Append(s, text, METHOD);
    s := s + [METHOD];
    r := AppendQuoted(s, text, "url", "", url);
    if r.Err? {
      return;
    }
    assert "" + url == url;
    s := s + [Text("url", url)];
    text := Append(s, r.value, Bare("max-time", Decimal(timeout)));
    s := s + [Bare("max-time", Decimal(timeout))];
    text := Append(s, text, WRITE_OUT);
    s := s + [WRITE_OUT];
    text := Append(s, text, CONTENT_TYPE);
    s := s + [CONTENT_TYPE];
    text := Append(s, text, ACCEPT);
    assert s + [ACCEPT] == Preamble(url, timeout);
    r := Ok(text);
  }

  lemma FlagsPrintable()
    ensures Printable(SILENT) && Printable(SHOW_ERROR)
  {
  }

  lemma WordsOfPreamble()
    ensures IsWord("request") && IsWord("header") && IsWord("write-out") && IsWord("url")
  {
  }

  lemma MethodPrintable()
    ensures Printable(METHOD)
  {
    FixedTexts();
    WordsOfPreamble();
    hide Printable, Plain, IsWord, Quoted;
    PlainSetting("request", "POST");
  }

  lemma HeadersPrintable()
    ensures Printable(CONTENT_TYPE) && Printable(ACCEPT)
  {
    FixedHeaders();
    WordsOfPreamble();
    hide Printable, Plain, IsWord, Quoted;
    PlainSetting("header", "Content-Type: application/json");
    PlainSetting("header", "Accept: application/json");
  }

  lemma EmptyWritten()
    ensures Written([], "")
  {
  }

  /** The whole configuration, or the first reason to refuse it. */
  method Config(r: Request, timeout: nat) returns (out: Result<string, ConfigError>)
    ensures match out
            case Ok(text) => Refusal(r) == None && Written(Settings(r, timeout), text)
            case Err(e) => Refusal(r) == Some(e)
  {
    hide Printable, Line, Quoted, Preamble, Written, Plain, JsonBody;
    var text;
    var p := AppendPreamble(r.url, timeout);
    if p.Err? {
      return Err(p.error);
    }
    text := p.value;
    ghost var written := Preamble(r.url, timeout);
    if r.bearer.Some? {
      FixedTexts();
      var t := AppendQuoted(written, text, "header", BEARER, r.bearer.value);
      if t.Err? {
        return Err(t.error);
      }
      text := t.value;
    } else {
      assert written + [] == written;
    }
    written := written + BearerSettings(r.bearer);
    assert HeaderSettings(r.headers[..0]) == [] && written + [] == written && r.headers[0..] == r.headers;
    for i := 0 to |r.headers|
      invariant Written(written + HeaderSettings(r.headers[..i]), text)
      invariant HeaderRefusal(r.headers) == HeaderRefusal(r.headers[i..])
    {
      assert r.headers[i..][1..] == r.headers[i + 1..];
      HeaderSettingsSnoc(written, r.headers, i);
      var t := AppendHeader(written + HeaderSettings(r.headers[..i]), text, r.headers[i].0, r.headers[i].1);
      if t.Err? {
        FirstHeaderRefused(r.headers[i..]);
        return Err(t.error);
      }
      text := t.value;
    }
    assert r.headers[..|r.headers|] == r.headers && r.headers[|r.headers|..] == [];
    if !JsonBody(r.body) {
      return Err(NotJson);
    }
    assert Plain("") by { EmptyPlain(); }
    assert "" + r.body == r.body;
    out := AppendQuoted(written + HeaderSettings(r.headers), text, "data-binary", "", r.body);
  }

  lemma EmptyPlain()
    ensures Plain("")
  {
  }

  lemma HeaderSettingsSnoc(written: seq<Setting>, headers: seq<(string, string)>, i: nat)
    requires i < |headers|
    ensures written + HeaderSettings(headers[..i + 1])
         == written + HeaderSettings(headers[..i]) + [Text("header", headers[i].0 + (": " + headers[i].1))]
  {
  }

  lemma FirstHeaderRefused(headers: seq<(string, string)>)
    requires headers != [] && HeaderRefusal([headers[0]]).Some?
    ensures HeaderRefusal(headers) == HeaderRefusal([headers[0]])
  {
  }

  /** A request is accepted exactly when its body looks like JSON and nothing in it holds a
      control character other than tab, line feed and carriage return. */
  lemma {:induction false} AcceptedRequests(r: Request)
    ensures Refusal(r) == None <==> Acceptable(r)
  {
    AcceptedIffSendable(r.url);
    AcceptedIffSendable(r.body);
    if r.bearer.Some? {
      AcceptedIffSendable(r.bearer.value);
    }
    AcceptedHeaders(r.headers);
    hide Quoted, HeaderRefusal;
  }

  lemma {:induction false} AcceptedHeaders(headers: seq<(string, string)>)
    ensures HeaderRefusal(headers) == None <==>
      forall i :: 0 <= i < |headers| ==> Sendable(headers[i].0) && Sendable(headers[i].1)
  {
    if headers != [] {
      AcceptedIffSendable(headers[0].0);
      AcceptedIffSendable(headers[0].1);
      AcceptedHeaders(headers[1..]);
      hide Quoted, Sendable;
      assert forall i :: 0 < i < |headers| ==> headers[i] == headers[1..][i - 1];
      assert forall i :: 0 <= i < |headers[1..]| ==> headers[1..][i] == headers[i + 1];
    }
  }

  lemma LineBreakOnlyAtEnd(o: Setting)
    requires Printable(o)
    ensures var l := Line(o); l != "" && l[|l| - 1] == LF && forall i :: 0 <= i < |l| - 1 ==> l[i] != LF
  {
    if o.Text? {
      QuotedHasNoControls(o.value);
    }
    hide Quoted;
  }

  /** Every accepted configuration, read back with quoted values read as `curl` reads them, is
      the request and nothing more:
      one option to a line, with the url, the body and each header as they were given. */
  lemma ConfigRoundTrip(r: Request, timeout: nat, text: string)
    requires Written(Settings(r, timeout), text)
    ensures Parse(text) == Some(Settings(r, timeout)) && |Settings(r, timeout)| >= 9
    ensures forall o :: o in Settings(r, timeout) ==>
      var l := Line(o); l != "" && l[|l| - 1] == LF && forall i :: 0 <= i < |l| - 1 ==> l[i] != LF
    ensures var s := Parse(text).value;
      && s[3] == Text("url", r.url) && s[|s| - 1] == Text("data-binary", r.body)
      && s[8..|s| - 1] == BearerSettings(r.bearer) + HeaderSettings(r.headers)
  {
    hide Parse, Printable, Lines, Line, Settings, Preamble, BearerSettings, HeaderSettings;
    ParseUndoesLines(Settings(r, timeout));
    forall o | o in Settings(r, timeout)
      ensures var l := Line(o); l != "" && l[|l| - 1] == LF && forall i :: 0 <= i < |l| - 1 ==> l[i] != LF
    {
      LineBreakOnlyAtEnd(o);
    }
    SettingsShape(r, timeout);
  }

  lemma SettingsShape(r: Request, timeout: nat)
    ensures var s := Settings(r, timeout);
      && |s| >= 9 && s[3] == Text("url", r.url) && s[|s| - 1] == Text("data-binary", r.body)
      && s[8..|s| - 1] == BearerSettings(r.bearer) + HeaderSettings(r.headers)
  {
    var head, middle := Preamble(r.url, timeout), BearerSettings(r.bearer) + HeaderSettings(r.headers);
    assert |head| == 8 && head[3] == Text("url", r.url);
    hide Preamble, BearerSettings, HeaderSettings;
    assert Settings(r, timeout) == head + middle + [Text("data-binary", r.body)];
  }

  // ---------- The status at the end of the output ----------

  /** A 16-bit unsigned number: digits, perhaps behind a plus sign, in range. */
  function ParseU16(s: string): Option<nat> {
    var digits := if s != "" && s[0] == '+' then s[1..] else s;
    if digits != "" && IsDigits(digits) && 0 <= Value(digits) <= 0xFFFF then Some(Value(digits)) else None
  }

  function LastBreak(s: string): int
    ensures -1 <= LastBreak(s) < |s|
  {
    if s == "" then -1 else if s[|s| - 1] == LF then |s| - 1 else LastBreak(s[..|s| - 1])
  }

  /** The body and the status; status 0 and the whole output when there is no readable one. */
  function SplitStatus(stdout: string): (string, nat) {
    var at := LastBreak(stdout);
    if at < 0 then (stdout, 0)
    else
      match ParseU16(TrimEnd(TrimStart(stdout[at + 1..])))
      case Some(status) => (stdout[..at], status)
      case None => (stdout, 0)
  }

  lemma {:induction false} LastBreakOf(body: string, tail: string)
    requires forall i :: 0 <= i < |tail| ==> tail[i] != LF
    ensures LastBreak(body + ("\n" + tail)) == |body|
  {
    var s := body + ("\n" + tail);
    if tail == "" {
      assert s[|s| - 1] == LF;
    } else {
      var short := tail[..|tail| - 1];
      assert s[|s| - 1] == tail[|tail| - 1];
      assert s[..|s| - 1] == body + ("\n" + short);
      LastBreakOf(body, short);
    }
  }

  /** Splitting undoes appending a line break and a status, whatever lines the body has. */
  lemma SplitStatusRoundTrip(body: string, status: nat)
    requires status <= 0xFFFF
    ensures SplitStatus(body + ("\n" + Decimal(status))) == (body, status)
  {
    hide Decimal, LastBreak, IsSpace, TrimStart, TrimEnd, Value;
    var d := Decimal(status);
    DecimalReadsBack(status);
    DigitsAreTrimmed(d);
    LastBreakOf(body, d);
    var s := body + ("\n" + d);
    assert s[..|body|] == body && s[|body| + 1..] == d;
    assert '0' <= d[0];
  }

  lemma DigitsAreTrimmed(d: string)
    requires d != "" && IsDigits(d)
    ensures TrimStart(d) == d && TrimEnd(d) == d
    ensures forall i :: 0 <= i < |d| ==> d[i] != LF
  {
    assert '0' <= d[0] <= '9' && '0' <= d[|d| - 1] <= '9';
  }
}
