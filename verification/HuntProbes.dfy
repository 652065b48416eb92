/** The built-in probes (packages/hunt/src/restricted-probe-worker.ts) and the negative control
    that must defeat each of them (packages/hunt/src/attack-worker.ts). */
module HuntProbes {
  import opened Options
  import opened Strings
  import opened Paths
  import opened Utf8

  const MAX_INPUT: int := 4096

  datatype Input =
    | Utf8Contains(value: string, needle: string)
    | PathTraversal(path: string)
    | CommandInjection(input: string)
    | SsrfTarget(url: string)
    | TenantBoundary(authorizedTenant: string, requestedTenant: string)
    | SqlInjection(input: string)
    | XssSafe(html: string)
    | AgentBoundary(allowlist: string, tool: string)

  function Fields(input: Input): (r: seq<string>)
    ensures |r| > 0
  {
    match input
    case Utf8Contains(value, needle) => [value, needle]
    case PathTraversal(path) => [path]
    case CommandInjection(text) => [text]
    case SsrfTarget(url) => [url]
    case TenantBoundary(a, b) => [a, b]
    case SqlInjection(text) => [text]
    case XssSafe(html) => [html]
    case AgentBoundary(a, b) => [a, b]
  }

  // ---------------------------------------------------------------------
  // Lengths
  // ---------------------------------------------------------------------

  function Scalars(s: string): (r: seq<Scalar>)
    ensures |r| == |s|
  {
    seq(|s|, i requires 0 <= i < |s| => s[i] as int)
  }

  function ByteLength(s: string): nat {
    |Encode(Scalars(s))|
  }

  /** `s.length`: characters beyond the first plane take two code units. */
  function UnitLength(s: string): nat {
    if s == "" then 0 else (if s[0] as int >= 0x10000 then 2 else 1) + UnitLength(s[1..])
  }

  lemma {:induction false} EncodeAtMostFour(cs: seq<Scalar>)
    ensures |cs| <= |Encode(cs)| <= 4 * |cs|
  {
    if cs != [] { EncodeAtMostFour(cs[1..]); }
  }

  lemma {:induction false} UnitsAtMostTwo(s: string)
    ensures |s| <= UnitLength(s) <= 2 * |s|
  {
    if s != "" { UnitsAtMostTwo(s[1..]); }
  }

  // ---------------------------------------------------------------------
  // The two checks of the inputs
  // ---------------------------------------------------------------------

  predicate Control(c: char) {
    c as int <= 0x1f || c as int == 0x7f
  }

  /** The adapter's test of one input: it counts code units. */
  predicate AdapterAccepts(s: string) {
    s != "" && UnitLength(s) <= MAX_INPUT && forall i :: 0 <= i < |s| ==> !Control(s[i])
  }

  /** The worker's test of one input: it counts bytes. */
  predicate WorkerAccepts(s: string) {
    s != "" && ByteLength(s) <= MAX_INPUT
  }

  predicate ValidatedInput(input: Input) {
    forall i :: 0 <= i < |Fields(input)| ==> AdapterAccepts(Fields(input)[i])
  }

  predicate Bounded(input: Input) {
    forall i :: 0 <= i < |Fields(input)| ==> WorkerAccepts(Fields(input)[i])
  }

  /** Between 1 and 4096 code units of UTF-16, none of them a control character. */
  predicate AdapterTold(s: string) {
    && 0 < |ToUtf16(Scalars(s))| < 4097
    && forall i :: 0 <= i < |s| ==> 32 <= s[i] as int && s[i] as int != 127
  }

  lemma {:induction false} UnitsAreUtf16(s: string)
    ensures UnitLength(s) == |ToUtf16(Scalars(s))|
  {
    if s != "" {
      UnitsAreUtf16(s[1..]);
      assert Scalars(s)[1..] == Scalars(s[1..]);
    }
  }

  /** The adapter takes an input exactly when each of its fields is as told. */
  lemma AdapterIff(input: Input)
    ensures ValidatedInput(input) <==> forall s :: s in Fields(input) ==> AdapterTold(s)
  {
    forall i | 0 <= i < |Fields(input)| ensures AdapterAccepts(Fields(input)[i]) <==> AdapterTold(Fields(input)[i]) {
      UnitsAreUtf16(Fields(input)[i]);
      UnitsAtMostTwo(Fields(input)[i]);
    }
  }

  // ---------------------------------------------------------------------
  // The probes
  // ---------------------------------------------------------------------

  /** The parts of the platform two probes use: the URL parser, which gives scheme and host, and
      two regular expressions. */
  datatype Platform = Platform(parseUrl: string -> Option<(string, string)>, number: string -> Option<int>,
                               sql: string -> bool, xss: string -> bool, trim: string -> string)

  /** What is used of them.  A SQL match takes a quote or a comment mark; a markup match takes an
      equals sign, a colon, or a tag whose name is not that of a paragraph. */
  ghost predicate Usual(p: Platform) {
    && p.parseUrl("https://example.invalid/") == Some(("https:", "example.invalid"))
    && p.trim("read") == "read"
    && (forall s: string :: p.sql(s) ==> HasSqlMark(s))
    && (forall s: string :: p.xss(s) ==> '=' in s || ':' in s || exists i: nat :: OpensOtherTag(s, i))
  }

  predicate HasSqlMark(s: string) {
    '\'' in s || '"' in s || '`' in s || '-' in s || '*' in s
  }

  predicate OpensOtherTag(s: string, i: nat) {
    i + 1 < |s| && s[i] == '<' && s[i + 1] != 'p' && s[i + 1] != '/'
  }

  predicate ContainsText(s: string, part: string) {
    exists i: nat :: i <= |s| && OccursAt(s, part, i)
  }

  predicate OccursAt(s: string, part: string, i: nat) {
    i + |part| <= |s| && s[i..i + |part|] == part
  }

  predicate ShellCharacter(c: char) {
    c in {';', '&', '|', '`', '$', '(', ')', '<', '>', '\n', '\r'}
  }

  predicate Octet(p: Platform, s: string) {
    p.number(s).Some? && 0 <= p.number(s).value <= 255
  }

  predicate LocalName(host: string) {
    host in {"localhost", "localhost.localdomain", "::1", "0.0.0.0", "169.254.169.254"}
  }

  /** `isPrivateOrLocalTarget`, on the host in lower case and without brackets. */
  predicate PrivateHost(p: Platform, host: string) {
    var parts := SplitOn('.', host);
    || LocalName(host)
    || (&& |parts| == 4 && (forall i :: 0 <= i < 4 ==> Octet(p, parts[i]))
        && var first, second := p.number(parts[0]).value, p.number(parts[1]).value;
           first == 10 || (first == 172 && 16 <= second <= 31) || (first == 192 && second == 168) || first == 127)
  }

  predicate PrivateTarget(p: Platform, url: string) {
    var parsed := p.parseUrl(url);
    parsed.Some? && parsed.value.0 in {"http:", "https:"} && PrivateHost(p, parsed.value.1)
  }

  predicate Listed(p: Platform, allowlist: string, tool: string) {
    exists i :: 0 <= i < |SplitOn(',', allowlist)| && p.trim(SplitOn(',', allowlist)[i]) == tool && tool != ""
  }

  /** `runProbe` */
  predicate Matches(p: Platform, input: Input) {
    match input
    case Utf8Contains(value, needle) => ContainsText(value, needle)
    case PathTraversal(path) => ".." in Split(ToPosix(path))
    case CommandInjection(text) => exists i :: 0 <= i < |text| && ShellCharacter(text[i])
    case SsrfTarget(url) => PrivateTarget(p, url)
    case TenantBoundary(authorized, requested) => authorized != requested
    case SqlInjection(text) => p.sql(text)
    case XssSafe(html) => p.xss(html)
    case AgentBoundary(allowlist, tool) => !Listed(p, allowlist, tool)
  }

  /** The worker: nothing when it refuses the input. */
  function RunWorker(p: Platform, input: Input): Option<bool> {
    if Bounded(input) then Some(Matches(p, input)) else None
  }

  // ---------------------------------------------------------------------
  // When a probe matches, told from its input
  // ---------------------------------------------------------------------

  /** The needle lies somewhere in the value. */
  ghost predicate Surrounds(value: string, before: string, needle: string, after: string) {
    value == before + needle + after
  }

  predicate PathSeparator(c: char) {
    c == '/' || c == '\\'
  }

  /** Two dots between separators of either kind, or between one and an end. */
  ghost predicate ClimbsAt(path: string, i: nat) {
    && i + 2 <= |path| && path[i] == '.' && path[i + 1] == '.'
    && (i == 0 || PathSeparator(path[i - 1])) && (i + 2 == |path| || PathSeparator(path[i + 2]))
  }

  /** Four dotted numbers from 0 to 255. */
  ghost predicate Address(p: Platform, host: string, parts: seq<string>) {
    && |parts| == 4 && (forall i :: 0 <= i < 4 ==> '.' !in parts[i] && p.number(parts[i]).Some? && 0 <= p.number(parts[i]).value < 256)
    && host == parts[0] + "." + (parts[1] + "." + (parts[2] + "." + parts[3]))
  }

  /** 10.*.*.*, 127.*.*.*, 192.168.*.*, and 172.16.*.* to 172.31.*.* */
  predicate PrivateNumbers(first: int, second: int) {
    first == 10 || first == 127 || (first == 192 && second == 168) || (first == 172 && 16 <= second < 32)
  }

  ghost predicate PrivateAddress(p: Platform, host: string, parts: seq<string>) {
    Address(p, host, parts) && PrivateNumbers(p.number(parts[0]).value, p.number(parts[1]).value)
  }

  /** An entry of the list between commas that is the tool once it is trimmed. */
  ghost predicate Entry(p: Platform, allowlist: string, tool: string, entry: string, i: nat) {
    Between(',', allowlist, entry, i) && p.trim(entry) == tool
  }

  predicate HasShellMark(text: string) {
    || ';' in text || '&' in text || '|' in text || '`' in text || '$' in text || '(' in text || ')' in text
    || '<' in text || '>' in text || '\n' in text || '\r' in text
  }

  ghost predicate Tells(p: Platform, input: Input) {
    match input
    case Utf8Contains(value, needle) => exists before, after :: Surrounds(value, before, needle, after)
    case PathTraversal(path) => exists i: nat :: ClimbsAt(path, i)
    case CommandInjection(text) => HasShellMark(text)
    case SsrfTarget(url) =>
      && p.parseUrl(url).Some? && (p.parseUrl(url).value.0 == "http:" || p.parseUrl(url).value.0 == "https:")
      && var host := p.parseUrl(url).value.1;
         || host == "localhost" || host == "localhost.localdomain" || host == "::1" || host == "0.0.0.0" || host == "169.254.169.254"
         || exists parts :: PrivateAddress(p, host, parts)
    case TenantBoundary(authorized, requested) => authorized != requested
    case SqlInjection(text) => p.sql(text)
    case XssSafe(html) => p.xss(html)
    case AgentBoundary(allowlist, tool) => tool == "" || forall entry, i: nat :: !Entry(p, allowlist, tool, entry, i)
  }

  lemma ContainsAsTold(value: string, needle: string)
    ensures ContainsText(value, needle) <==> exists before, after :: Surrounds(value, before, needle, after)
  {
    if ContainsText(value, needle) {
      var i: nat :| i <= |value| && OccursAt(value, needle, i);
      assert Surrounds(value, value[..i], needle, value[i + |needle|..]);
    }
    if before, after :| Surrounds(value, before, needle, after) {
      assert value[|before|..|before| + |needle|] == needle;
      assert OccursAt(value, needle, |before|);
    }
  }

  lemma TraversalAsTold(path: string)
    ensures ".." in Split(ToPosix(path)) <==> exists i: nat :: ClimbsAt(path, i)
  {
    SplitOnIff('/', ToPosix(path), "..");
    forall i: nat ensures Between('/', ToPosix(path), "..", i) <==> ClimbsAt(path, i) {
      DotsBetween(path, i);
    }
  }

  lemma DotsBetween(path: string, i: nat)
    ensures Between('/', ToPosix(path), "..", i) <==> ClimbsAt(path, i)
  {
    var s := ToPosix(path);
    if i + 2 <= |path| {
      assert s[i..i + 2] == [s[i], s[i + 1]];
      assert s[i] == '.' <==> path[i] == '.';
      assert s[i + 1] == '.' <==> path[i + 1] == '.';
      assert i > 0 ==> (s[i - 1] == '/' <==> PathSeparator(path[i - 1]));
      assert i + 2 < |path| ==> (s[i + 2] == '/' <==> PathSeparator(path[i + 2]));
      assert ".." == ['.', '.'] && '/' !in "..";
    }
  }

  lemma InjectionAsTold(text: string)
    ensures (exists i :: 0 <= i < |text| && ShellCharacter(text[i])) <==> HasShellMark(text)
  {
  }

  lemma FourParts(host: string, parts: seq<string>)
    requires |parts| == 4 && forall i :: 0 <= i < 4 ==> '.' !in parts[i]
    ensures SplitOn('.', host) == parts <==> host == parts[0] + "." + (parts[1] + "." + (parts[2] + "." + parts[3]))
  {
    JoinFour(parts);
    if SplitOn('.', host) != parts && host == JoinWith('.', parts) { SplitOnJoin('.', parts); }
  }

  lemma JoinFour(parts: seq<string>)
    requires |parts| == 4
    ensures JoinWith('.', parts) == parts[0] + "." + (parts[1] + "." + (parts[2] + "." + parts[3]))
  {
    assert parts[1..] == [parts[1], parts[2], parts[3]] && parts[1..][1..] == [parts[2], parts[3]];
    assert parts[1..][1..][1..] == [parts[3]];
    assert JoinWith('.', parts[1..][1..]) == parts[2] + "." + parts[3];
    assert JoinWith('.', parts[1..]) == parts[1] + "." + (parts[2] + "." + parts[3]);
  }

  lemma HostAsTold(p: Platform, host: string)
    ensures PrivateHost(p, host) <==> LocalName(host) || exists parts :: PrivateAddress(p, host, parts)
  {
    var split := SplitOn('.', host);
    if PrivateHost(p, host) && !LocalName(host) {
      FourParts(host, split);
      assert forall i :: 0 <= i < 4 ==> Octet(p, split[i]);
      assert PrivateAddress(p, host, split);
    }
    if parts :| PrivateAddress(p, host, parts) {
      FourParts(host, parts);
      assert forall i :: 0 <= i < 4 ==> Octet(p, split[i]);
    }
  }

  lemma ListedAsTold(p: Platform, allowlist: string, tool: string)
    ensures Listed(p, allowlist, tool) <==> tool != "" && exists entry, i: nat :: Entry(p, allowlist, tool, entry, i)
  {
    var entries := SplitOn(',', allowlist);
    if Listed(p, allowlist, tool) {
      var k :| 0 <= k < |entries| && p.trim(entries[k]) == tool;
      SplitOnIff(',', allowlist, entries[k]);
      var i: nat :| Between(',', allowlist, entries[k], i);
      assert Entry(p, allowlist, tool, entries[k], i);
    }
    if entry, i: nat :| Entry(p, allowlist, tool, entry, i) {
      SplitOnIff(',', allowlist, entry);
      var k :| 0 <= k < |entries| && entries[k] == entry;
      assert p.trim(entries[k]) == tool;
    }
  }

  /** Each probe matches exactly what it is for. */
  lemma MatchesIff(p: Platform, input: Input)
    ensures Matches(p, input) <==> Tells(p, input)
  {
    match input {
      case Utf8Contains(value, needle) => ContainsAsTold(value, needle);
      case PathTraversal(path) => TraversalAsTold(path);
      case CommandInjection(text) => InjectionAsTold(text);
      case SsrfTarget(url) => if p.parseUrl(url).Some? { HostAsTold(p, p.parseUrl(url).value.1); }
      case AgentBoundary(allowlist, tool) => ListedAsTold(p, allowlist, tool);
      case _ =>
    }
  }

  /** The worker answers with that, and answers exactly when every field has between 1 and 4096
      bytes. */
  lemma WorkerIff(p: Platform, input: Input)
    ensures RunWorker(p, input).Some? <==>
            forall i :: 0 <= i < |Fields(input)| ==> Fields(input)[i] != "" && |Encode(Scalars(Fields(input)[i]))| < 4097
    ensures RunWorker(p, input).Some? ==> (RunWorker(p, input).value <==> Tells(p, input))
  {
    MatchesIff(p, input);
    assert forall i :: 0 <= i < |Fields(input)| ==>
      (WorkerAccepts(Fields(input)[i]) <==> Fields(input)[i] != "" && |Encode(Scalars(Fields(input)[i]))| < 4097);
  }

  // ---------------------------------------------------------------------
  // The negative control
  // ---------------------------------------------------------------------

  function DigitChar(d: nat): char
    requires d < 10
  {
    (0x30 + d) as char
  }

  /** `[..."0123456789"].find((candidate) => !candidate.includes(needle))` */
  function FindDigit(needle: string, d: nat): Option<char>
    requires d <= 10
    decreases 10 - d
  {
    if d == 10 then None
    else if !ContainsText([DigitChar(d)], needle) then Some(DigitChar(d))
    else FindDigit(needle, d + 1)
  }

  /** `deriveNegativeControlInputs` */
  function ControlInputs(input: Input): Option<Input> {
    match input
    case Utf8Contains(_, needle) =>
      var digit := FindDigit(needle, 0);
      if digit.Some? then Some(Utf8Contains([digit.value], needle)) else None
    case PathTraversal(_) => Some(PathTraversal("safe/file.txt"))
    case CommandInjection(_) => Some(CommandInjection("safe-input"))
    case SsrfTarget(_) => Some(SsrfTarget("https://example.invalid/"))
    case TenantBoundary(_, _) => Some(TenantBoundary("tenant-a", "tenant-a"))
    case SqlInjection(_) => Some(SqlInjection("SELECT id FROM records WHERE id = $1"))
    case XssSafe(_) => Some(XssSafe("<p>safe text</p>"))
    case AgentBoundary(_, _) => Some(AgentBoundary("read", "read"))
  }

  // ---------------------------------------------------------------------
  // The control defeats the probe
  // ---------------------------------------------------------------------

  lemma SingleContains(c: char, part: string)
    ensures ContainsText([c], part) <==> part == "" || part == [c]
  {
    if part == "" {
      assert OccursAt([c], part, 0);
    } else if part == [c] {
      assert [c][0..0 + |part|] == part;
      assert OccursAt([c], part, 0);
    }
    if ContainsText([c], part) {
      var i: nat :| i <= 1 && OccursAt([c], part, i);
      assert part == "" || part == [c];
    }
  }

  /** A digit is found for every needle but the empty one, at the latest the second. */
  lemma DigitIsFound(needle: string)
    ensures FindDigit(needle, 0).Some? <==> needle != ""
    ensures needle != "" ==>
              var d := FindDigit(needle, 0).value; d == (if needle == "0" then '1' else '0') && !ContainsText([d], needle)
  {
    SingleContains(DigitChar(0), needle);
    SingleContains(DigitChar(1), needle);
    if needle == "" {
      NoDigitForEmpty(0);
    }
  }

  lemma {:induction false} NoDigitForEmpty(d: nat)
    requires d <= 10
    ensures FindDigit("", d) == None
    decreases 10 - d
  {
    if d < 10 {
      SingleContains(DigitChar(d), "");
      NoDigitForEmpty(d + 1);
    }
  }

  predicate Short(s: string) {
    s != "" && |s| <= 1000 && forall i :: 0 <= i < |s| ==> !Control(s[i])
  }

  predicate AllShort(input: Input) {
    forall i :: 0 <= i < |Fields(input)| ==> Short(Fields(input)[i])
  }

  /** A short text without control characters passes both tests. */
  lemma ShortPasses(s: string)
    requires Short(s)
    ensures AdapterAccepts(s) && WorkerAccepts(s)
  {
    UnitsAtMostTwo(s);
    EncodeAtMostFour(Scalars(s));
  }

  lemma AllShortPass(input: Input)
    requires AllShort(input)
    ensures ValidatedInput(input) && Bounded(input)
  {
    forall i | 0 <= i < |Fields(input)| ensures AdapterAccepts(Fields(input)[i]) && WorkerAccepts(Fields(input)[i]) {
      ShortPasses(Fields(input)[i]);
    }
  }

  lemma TwoSegments(p: Platform, path: string, a: string, b: string)
    requires path == a + "/" + b && a != ".." && b != ".."
    requires '/' !in a && '/' !in b && '\\' !in path
    ensures !Matches(p, PathTraversal(path))
  {
    assert ToPosix(path) == path;
    SplitConcat(a, b);
    SplitAtom(a);
    SplitAtom(b);
  }

  lemma PathControl(p: Platform, path: string)
    requires path == "safe/file.txt"
    ensures !Matches(p, PathTraversal(path))
  {
    var a, b := path[..4], path[5..];
    assert path == a + "/" + b;
    assert a[0] == 's' && b[0] == 'f';
    TwoSegments(p, path, a, b);
  }

  lemma TwoLabels(p: Platform, host: string, a: string, b: string)
    requires host == a + "." + b && '.' !in a && '.' !in b && !LocalName(host)
    ensures !PrivateHost(p, host)
  {
    SplitOnConcat('.', a, b);
    SplitOnAtom('.', a);
    SplitOnAtom('.', b);
    assert host == a + ['.'] + b;
    assert |SplitOn('.', host)| == 2;
  }

  lemma NotLocal(host: string)
    requires host != "" && host[0] == 'e'
    ensures !LocalName(host)
  {
  }

  lemma SsrfControl(p: Platform, url: string, host: string)
    requires p.parseUrl(url) == Some(("https:", host)) && host == "example.invalid"
    ensures !Matches(p, SsrfTarget(url))
  {
    var a, b := host[..7], host[8..];
    assert host == a + "." + b;
    NotLocal(host);
    TwoLabels(p, host, a, b);
  }

  lemma AgentControl(p: Platform)
    requires Usual(p)
    ensures !Matches(p, AgentBoundary("read", "read"))
  {
    SplitOnAtom(',', "read");
    assert p.trim(SplitOn(',', "read")[0]) == "read";
  }

  lemma SqlControl(p: Platform, s: string)
    requires Usual(p) && s == "SELECT id FROM records WHERE id = $1"
    ensures !Matches(p, SqlInjection(s))
  {
    NoSqlMark(s);
  }

  lemma NoSqlMark(s: string)
    requires s == "SELECT id FROM records WHERE id = $1"
    ensures !HasSqlMark(s)
  {
    assert forall i :: 0 <= i < |s| ==> SqlPlain(s[i]);
    assert forall c :: c in s ==> SqlPlain(c);
  }

  predicate SqlPlain(c: char) {
    c != '\'' && c != '"' && c != '`' && c != '-' && c != '*'
  }

  lemma XssControl(p: Platform, s: string)
    requires Usual(p) && s == "<p>safe text</p>"
    ensures !Matches(p, XssSafe(s))
  {
    NoMarkupMark(s);
    NoOtherTag(s);
  }

  lemma NoMarkupMark(s: string)
    requires s == "<p>safe text</p>"
    ensures '=' !in s && ':' !in s
  {
    assert forall i :: 0 <= i < |s| ==> s[i] != '=' && s[i] != ':';
  }

  lemma NoOtherTag(s: string)
    requires s == "<p>safe text</p>"
    ensures forall i: nat :: !OpensOtherTag(s, i)
  {
  }

  /** No control input makes its probe match. */
  lemma ControlDoesNotMatch(p: Platform, input: Input)
    requires Usual(p) && ControlInputs(input).Some?
    ensures !Matches(p, ControlInputs(input).value)
  {
    match input {
      case Utf8Contains(_, needle) => DigitIsFound(needle);
      case PathTraversal(_) => PathControl(p, ControlInputs(input).value.path);
      case CommandInjection(_) =>
      case SsrfTarget(_) => SsrfControl(p, ControlInputs(input).value.url, "example.invalid");
      case TenantBoundary(_, _) =>
      case SqlInjection(_) => SqlControl(p, ControlInputs(input).value.input);
      case XssSafe(_) => XssControl(p, ControlInputs(input).value.html);
      case AgentBoundary(_, _) => AgentControl(p);
    }
  }

  /** The control runs the same probe; where the probe takes a needle, with the same one. */
  predicate SameProbe(input: Input, control: Input) {
    match input
    case Utf8Contains(_, needle) =>
      control.Utf8Contains? && control.needle == needle && control.value == if needle == "0" then "1" else "0"
    case PathTraversal(_) => control.PathTraversal?
    case CommandInjection(_) => control.CommandInjection?
    case SsrfTarget(_) => control.SsrfTarget?
    case TenantBoundary(_, _) => control.TenantBoundary?
    case SqlInjection(_) => control.SqlInjection?
    case XssSafe(_) => control.XssSafe?
    case AgentBoundary(_, _) => control.AgentBoundary?
  }

  /** For validated inputs the control exists, the adapter takes it, and the worker answers
      "no match", except for a needle that is short in characters and long in bytes: the
      worker refuses that one. */
  lemma ControlDefeatsProbe(p: Platform, input: Input)
    requires Usual(p) && ValidatedInput(input)
    ensures ControlInputs(input).Some? && ValidatedInput(ControlInputs(input).value)
    ensures SameProbe(input, ControlInputs(input).value)
    ensures RunWorker(p, ControlInputs(input).value) ==
              if input.Utf8Contains? && ByteLength(input.needle) > MAX_INPUT then None else Some(false)
  {
    if input.Utf8Contains? {
      assert AdapterAccepts(Fields(input)[1]);
      DigitIsFound(input.needle);
    }
    ControlDoesNotMatch(p, input);
    if input.Utf8Contains? {
      NeedleControl(ControlInputs(input).value);
    } else {
      FixedControlIsShort(input);
      AllShortPass(ControlInputs(input).value);
    }
  }

  lemma NeedleControl(control: Input)
    requires control.Utf8Contains? && Short(control.value) && AdapterAccepts(control.needle)
    ensures ValidatedInput(control)
    ensures Bounded(control) <==> ByteLength(control.needle) <= MAX_INPUT
  {
    ShortPasses(control.value);
    assert Fields(control)[1] == control.needle;
  }

  lemma FixedControlIsShort(input: Input)
    requires !input.Utf8Contains?
    ensures ControlInputs(input).Some? && AllShort(ControlInputs(input).value)
  {
    var control := ControlInputs(input).value;
    match input {
      case PathTraversal(_) => FieldsShort(control, [control.path]);
      case CommandInjection(_) => FieldsShort(control, [control.input]);
      case SsrfTarget(_) => FieldsShort(control, [control.url]);
      case TenantBoundary(_, _) => FieldsShort(control, [control.authorizedTenant, control.requestedTenant]);
      case SqlInjection(_) => FieldsShort(control, [control.input]);
      case XssSafe(_) => FieldsShort(control, [control.html]);
      case AgentBoundary(_, _) => FieldsShort(control, [control.allowlist, control.tool]);
    }
  }

  lemma FieldsShort(input: Input, fields: seq<string>)
    requires Fields(input) == fields
    requires forall i :: 0 <= i < |fields| ==> FixedText(fields[i])
    ensures AllShort(input)
  {
    forall i | 0 <= i < |fields| ensures Short(fields[i]) {
      FixedTextIsShort(fields[i]);
    }
  }

  /** The texts the controls are made of. */
  predicate FixedText(s: string) {
    || s == "safe/file.txt" || s == "safe-input" || s == "https://example.invalid/" || s == "tenant-a"
    || s == "SELECT id FROM records WHERE id = $1" || s == "<p>safe text</p>" || s == "read"
  }

  lemma FixedTextIsShort(s: string)
    requires FixedText(s)
    ensures Short(s)
  {
    if |s| > 30 {
      QueryIsShort(s);
    } else if |s| > 20 {
      UrlIsShort(s);
    }
  }

  lemma QueryIsShort(s: string)
    requires s == "SELECT id FROM records WHERE id = $1"
    ensures Short(s)
  {
  }

  lemma UrlIsShort(s: string)
    requires s == "https://example.invalid/"
    ensures Short(s)
  {
  }

  /** Whenever the attack run comes to a result, the control run comes to "no match". */
  lemma ControlFollowsAttack(p: Platform, input: Input)
    requires Usual(p) && ValidatedInput(input) && RunWorker(p, input).Some?
    ensures ControlInputs(input).Some? && RunWorker(p, ControlInputs(input).value) == Some(false)
  {
    ControlDefeatsProbe(p, input);
    if input.Utf8Contains? {
      assert WorkerAccepts(Fields(input)[1]);
    }
  }

  /** The exception is real: 2000 characters of three bytes each pass the adapter, and neither
      run of the proof gets past the worker. */
  lemma LongNeedleStopsBothRuns(p: Platform) returns (input: Input)
    requires Usual(p)
    ensures ValidatedInput(input)
    ensures RunWorker(p, input) == None
    ensures ControlInputs(input).Some? && RunWorker(p, ControlInputs(input).value) == None
  {
    var needle: string := seq(2000, _ => 0x20AC as char);
    UnitsAtMostTwo(needle);
    ThreeBytesEach(needle);
    input := Utf8Contains(needle, needle);
    ControlDefeatsProbe(p, input);
    assert !WorkerAccepts(Fields(input)[1]);
  }

  lemma {:induction false} ThreeBytesEach(s: string)
    requires forall i :: 0 <= i < |s| ==> 0x800 <= s[i] as int < 0x10000
    ensures ByteLength(s) == 3 * |s|
  {
    if s != "" {
      ThreeBytesEach(s[1..]);
      assert Scalars(s)[1..] == Scalars(s[1..]);
    }
  }
}
