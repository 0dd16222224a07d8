// scripts/check_dep_provenance.py: three passes over the same overrides, and the gate that
// combines them.
module DepProvenance {
  import opened Wrappers
  import opened Text
  import opened Listing
  import opened LastWins

  // A value in a source table: a string, or anything else with its truth value.
  datatype Attr = Str(s: string) | Other(truthy: bool)

  // until= on the escape token: absent, not a calendar date, or a day ordinal.
  datatype Until = NoUntil | NotADate | Date(day: nat)

  datatype Token = Token(ticket: string, until: Until)

  // One [tool.uv.sources] entry under its normalised name: its attributes, and its raw line
  // with the escape token on it, if the line was found and has one.
  datatype Override = Override(pkg: string, attrs: map<string, Attr>, line: Option<Option<Token>>)

  // The parsed pyproject.toml; requirement lists hold None for items that are not strings.
  datatype Document = InvalidToml | Document(
    sources: seq<Override>,
    dependencies: seq<Option<string>>,
    overrides: seq<Option<string>>)

  datatype Kind =
    | BadToml | ForbiddenSource
    | BadDate | Expired | NoLiveCondition | TicketUnresolved | TicketClosed
    | NotExact(ref: string, spec: string) | UnknownRepo(url: string) | Undetermined
    | Diverged(ref: string, pinned: string, released: string)

  datatype Violation = Violation(pkg: string, kind: Kind)

  const FORBIDDEN: set<string> := {"omnibase-core", "omnibase-spi", "omnibase-compat"}

  const GIT_KEYS: set<string> := {"git", "rev", "branch", "tag"}

  predicate GitSourced(o: Override) {
    o.pkg in FORBIDDEN && exists k :: k in GIT_KEYS && k in o.attrs
  }

  // The escape token on the override's line.
  function TokenOf(o: Override): Option<Token> {
    match o.line
    case Some(Some(token)) => Some(token)
    case _ => None
  }

  function AsList(pkg: string, kind: Option<Kind>): seq<Violation> {
    if kind.Some? then [Violation(pkg, kind.value)] else []
  }

  // ----- pass 1: no git source without an escape token -----

  function SourceKind(o: Override): Option<Kind> {
    if GitSourced(o) && TokenOf(o).None? then Some(ForbiddenSource) else None
  }

  ghost function SourceReport(): Override -> seq<Violation> {
    (o: Override) => AsList(o.pkg, SourceKind(o))
  }

  // find_violations
  method FindViolations(doc: Document) returns (violations: seq<Violation>)
    ensures violations == if doc.InvalidToml? then [Violation("", BadToml)] else Each(doc.sources, SourceReport())
  {
    if doc.InvalidToml? {
      return [Violation("", BadToml)];
    }
    violations := [];
    for i := 0 to |doc.sources|
      invariant violations == Each(doc.sources[..i], SourceReport())
    {
      EachPush(doc.sources, i, SourceReport());
      violations := violations + AsList(doc.sources[i].pkg, SourceKind(doc.sources[i]));
    }
    assert doc.sources[..|doc.sources|] == doc.sources;
  }

  // ----- pass 2: escape tokens expire -----

  // The ticket service for the ticket a token cites.
  datatype Resolution = Status(name: string) | NoApiKey | Unresolved

  type Tickets = string -> Resolution

  function LowerChar(c: char): char {
    if 'A' <= c <= 'Z' then (c as int + 32) as char else c
  }

  function Lower(s: string): string { seq(|s|, i requires 0 <= i < |s| => LowerChar(s[i])) }

  const DONE: set<string> := {"done", "completed", "canceled", "cancelled", "duplicate"}

  function TokenKind(o: Override, tickets: Tickets, today: nat): Option<Kind> {
    if !GitSourced(o) || TokenOf(o).None? then None
    else
      var token := TokenOf(o).value;
      if token.until.NotADate? then Some(BadDate)
      else if token.until.Date? && today > token.until.day then Some(Expired)
      else
        match tickets(token.ticket)
        case NoApiKey => if token.until.NoUntil? then Some(NoLiveCondition) else None
        case Unresolved => Some(TicketUnresolved)
        case Status(name) => if Lower(Strip(name)) in DONE then Some(TicketClosed) else None
  }

  ghost function TokenReport(tickets: Tickets, today: nat): Override -> seq<Violation> {
    (o: Override) => AsList(o.pkg, TokenKind(o, tickets, today))
  }

  // find_escape_token_violations
  method FindEscapeTokenViolations(doc: Document, tickets: Tickets, today: nat) returns (violations: seq<Violation>)
    ensures violations == if doc.InvalidToml? then [Violation("", BadToml)] else Each(doc.sources, TokenReport(tickets, today))
  {
    if doc.InvalidToml? {
      return [Violation("", BadToml)];
    }
    violations := [];
    for i := 0 to |doc.sources|
      invariant violations == Each(doc.sources[..i], TokenReport(tickets, today))
    {
      EachPush(doc.sources, i, TokenReport(tickets, today));
      violations := violations + AsList(doc.sources[i].pkg, TokenKind(doc.sources[i], tickets, today));
    }
    assert doc.sources[..|doc.sources|] == doc.sources;
  }

  // ----- requirements -----

  predicate IsNameChar(c: char) {
    'A' <= c <= 'Z' || 'a' <= c <= 'z' || '0' <= c <= '9' || c == '_' || c == '.' || c == '-'
  }

  function NameLength(s: string): (n: nat)
    ensures n <= |s|
  {
    if s != "" && IsNameChar(s[0]) then 1 + NameLength(s[1..]) else 0
  }

  function NormalizeChar(c: char): char { if c == '_' then '-' else LowerChar(c) }

  // _normalize of a name without blanks and quotes...
  function Normalize(name: string): string { seq(|name|, i requires 0 <= i < |name| => NormalizeChar(name[i])) }

  function DoubleQuote(): char -> bool { (c: char) => c == '"' }

  function SingleQuote(): char -> bool { (c: char) => c == '\'' }

  // ...and of any name.
  function NormalizeAny(name: string): string {
    Normalize(StripBy(StripBy(Strip(name), DoubleQuote()), SingleQuote()))
  }

  // _REQUIREMENT_SPEC_RE on a stripped requirement: normalised name and version spec.
  function ParseRequirement(item: Option<string>): Option<Binding<string, string>> {
    if item.None? then None
    else
      var s := Strip(item.value);
      var n := NameLength(s);
      var spec := LStrip(s[n..]);
      if n == 0 || '\n' in spec then None else Some(Binding(Normalize(s[..n]), Strip(spec)))
  }

  // _EXACT_PIN_SUFFIX_RE: the version of a "==" pin
  function ExactPin(spec: string): Option<string> {
    if "==" <= spec then
      var version := LStrip(spec[2..]);
      if version != "" && forall i :: 0 <= i < |version| ==> IsNameChar(version[i]) || version[i] == '+' then Some(version) else None
    else None
  }

  // Project dependencies first, overrides after them.
  function Requirements(doc: Document): seq<Option<string>>
    requires doc.Document?
  {
    doc.dependencies + doc.overrides
  }

  // The declared specs; later requirements win.
  function DeclaredSpecs(doc: Document): map<string, string>
    requires doc.Document?
  {
    Collect(Requirements(doc), ParseRequirement)
  }

  // _declared_version_specs
  method DeclaredVersionSpecs(doc: Document) returns (specs: map<string, string>)
    requires doc.Document?
    ensures specs == DeclaredSpecs(doc)
  {
    specs := CollectInto(map[], [], doc.dependencies, ParseRequirement);
    assert [] + doc.dependencies == doc.dependencies;
    specs := CollectInto(specs, doc.dependencies, doc.overrides, ParseRequirement);
  }

  // Requirement i is the last one that names the package.
  ghost predicate LastNaming(doc: Document, pkg: string, i: nat)
    requires doc.Document?
  {
    IsLast(Requirements(doc), ParseRequirement, pkg, i)
  }

  function SpecAt(doc: Document, i: nat): string
    requires doc.Document? && i < |Requirements(doc)| && ParseRequirement(Requirements(doc)[i]).Some?
  {
    ParseRequirement(Requirements(doc)[i]).value.value
  }

  // ----- pass 3: pinned content is the declared version's content -----

  // Repository name of a git URL, and the tree of a ref in a repository, if they resolve.
  datatype Remote = Remote(repoOf: string -> Option<string>, treeOf: (string, string) -> Option<string>)

  predicate Truthy(a: Attr) { if a.Str? then a.s != "" else a.truthy }

  // The first of rev and tag that is not empty, else the branch, when it is a non-empty string.
  function PinnedRef(attrs: map<string, Attr>): Option<string> {
    var picked: Option<Attr> :=
      if "rev" in attrs && Truthy(attrs["rev"]) then Some(attrs["rev"])
      else if "tag" in attrs && Truthy(attrs["tag"]) then Some(attrs["tag"])
      else if "branch" in attrs then Some(attrs["branch"])
      else None;
    match picked
    case Some(Str(s)) => if s != "" then Some(s) else None
    case _ => None
  }

  // A forbidden package with a string git URL and a usable ref.
  predicate Pinned(o: Override) {
    o.pkg in FORBIDDEN && "git" in o.attrs && o.attrs["git"].Str? && PinnedRef(o.attrs).Some?
  }

  // The verdict on a ref of a repository URL, given the spec and the version it pins, if any.
  function Verdict(ref: string, url: string, spec: string, version: Option<string>, remote: Remote): Option<Kind> {
    if version.None? then Some(NotExact(ref, spec))
    else
      match remote.repoOf(url)
      case None => Some(UnknownRepo(url))
      case Some(repo) =>
        var pinned := remote.treeOf(repo, ref);
        var released := remote.treeOf(repo, "v" + version.value);
        if pinned.None? || released.None? then Some(Undetermined)
        else if pinned != released then Some(Diverged(ref, pinned.value, released.value))
        else None
  }

  // The verdict on a pinned package declared with this spec.
  function PinKind(o: Override, spec: string, remote: Remote): Option<Kind>
    requires Pinned(o)
  {
    Verdict(PinnedRef(o.attrs).value, o.attrs["git"].s, spec, ExactPin(spec), remote)
  }

  function LineageKind(o: Override, specs: map<string, string>, remote: Remote): Option<Kind> {
    if !Pinned(o) || o.pkg !in specs then None else PinKind(o, specs[o.pkg], remote)
  }

  ghost function LineageReport(specs: map<string, string>, remote: Remote): Override -> seq<Violation> {
    (o: Override) => AsList(o.pkg, LineageKind(o, specs, remote))
  }

  ghost function LineageViolations(doc: Document, remote: Remote): seq<Violation> {
    if doc.InvalidToml? then [Violation("", BadToml)]
    else Each(doc.sources, LineageReport(DeclaredSpecs(doc), remote))
  }

  // find_lineage_violations
  method FindLineageViolations(doc: Document, remote: Remote) returns (violations: seq<Violation>)
    ensures violations == LineageViolations(doc, remote)
  {
    if doc.InvalidToml? {
      return [Violation("", BadToml)];
    }
    var specs := DeclaredVersionSpecs(doc);
    violations := [];
    for i := 0 to |doc.sources|
      invariant violations == Each(doc.sources[..i], LineageReport(specs, remote))
    {
      EachPush(doc.sources, i, LineageReport(specs, remote));
      violations := violations + AsList(doc.sources[i].pkg, LineageKind(doc.sources[i], specs, remote));
    }
    assert doc.sources[..|doc.sources|] == doc.sources;
  }
}
