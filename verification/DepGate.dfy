// main of scripts/check_dep_provenance.py, and what the three passes prove together.
module DepGate {
  import opened Wrappers
  import opened Sequences
  import opened Listing
  import opened LastWins
  import opened DepProvenance
  import opened Text

  // ----- one pass at a time -----

  ghost predicate SourcesClean(doc: Document) {
    doc.Document? && Each(doc.sources, SourceReport()) == []
  }

  ghost predicate TokensClean(doc: Document, tickets: Tickets, today: nat) {
    doc.Document? && Each(doc.sources, TokenReport(tickets, today)) == []
  }

  // Nothing forbidden exactly when every git-sourced first-party package carries a token.
  lemma SourcesCleanIff(doc: Document)
    requires doc.Document?
    ensures SourcesClean(doc) <==>
            forall i :: 0 <= i < |doc.sources| && GitSourced(doc.sources[i]) ==> TokenOf(doc.sources[i]).Some?
  {
    EachEmptyIff(doc.sources, SourceReport());
    forall i | 0 <= i < |doc.sources|
      ensures SourceReport()(doc.sources[i]) == [] <==> (GitSourced(doc.sources[i]) ==> TokenOf(doc.sources[i]).Some?)
    {
    }
  }

  // A token that still justifies its override on this day: a readable date that has not
  // passed, or none, and a ticket that is open, or unknowable while a date stands in for it.
  predicate Live(token: Token, tickets: Tickets, today: nat) {
    !token.until.NotADate?
    && (token.until.Date? ==> today <= token.until.day)
    && match tickets(token.ticket)
       case NoApiKey => token.until.Date?
       case Unresolved => false
       case Status(name) => Lower(Strip(name)) !in DONE
  }

  lemma TokensCleanIff(doc: Document, tickets: Tickets, today: nat)
    requires doc.Document?
    ensures TokensClean(doc, tickets, today) <==>
            forall i :: 0 <= i < |doc.sources| && GitSourced(doc.sources[i]) && TokenOf(doc.sources[i]).Some? ==>
              Live(TokenOf(doc.sources[i]).value, tickets, today)
  {
    EachEmptyIff(doc.sources, TokenReport(tickets, today));
    forall i | 0 <= i < |doc.sources|
      ensures TokenReport(tickets, today)(doc.sources[i]) == []
              <==> (GitSourced(doc.sources[i]) && TokenOf(doc.sources[i]).Some? ==> Live(TokenOf(doc.sources[i]).value, tickets, today))
    {
    }
  }

  // The spec is an exact pin whose released tree is the pinned one.
  ghost predicate LineageProven(o: Override, spec: string, remote: Remote)
    requires Pinned(o)
  {
    var version, repo := ExactPin(spec), remote.repoOf(o.attrs["git"].s);
    version.Some? && repo.Some?
    && remote.treeOf(repo.value, PinnedRef(o.attrs).value).Some?
    && remote.treeOf(repo.value, PinnedRef(o.attrs).value) == remote.treeOf(repo.value, "v" + version.value)
  }

  lemma PinKindIff(o: Override, spec: string, remote: Remote)
    requires Pinned(o)
    ensures PinKind(o, spec, remote) == None <==> LineageProven(o, spec, remote)
  {
  }

  // Whichever requirement is the last to name a pinned package proves its lineage.
  ghost predicate LastNamingProves(doc: Document, o: Override, remote: Remote)
    requires doc.Document?
  {
    Pinned(o) ==> forall i: nat :: LastNaming(doc, o.pkg, i) ==> LineageProven(o, SpecAt(doc, i), remote)
  }

  // The declared spec of a package is that of the last requirement naming it.
  lemma DeclaredSpecIsLast(doc: Document, pkg: string, i: nat)
    requires doc.Document? && LastNaming(doc, pkg, i)
    ensures pkg in DeclaredSpecs(doc) && DeclaredSpecs(doc)[pkg] == SpecAt(doc, i)
  {
    CollectIsLast(Requirements(doc), ParseRequirement, pkg);
  }

  lemma DeclaredSpecHasLast(doc: Document, pkg: string) returns (i: nat)
    requires doc.Document? && pkg in DeclaredSpecs(doc)
    ensures LastNaming(doc, pkg, i)
  {
    i := LastBinding(Requirements(doc), ParseRequirement, pkg);
  }

  lemma LineageKindIff(doc: Document, o: Override, remote: Remote)
    requires doc.Document?
    ensures LineageKind(o, DeclaredSpecs(doc), remote) == None <==> LastNamingProves(doc, o, remote)
  {
    forall i: nat | LastNaming(doc, o.pkg, i)
      ensures o.pkg in DeclaredSpecs(doc) && DeclaredSpecs(doc)[o.pkg] == SpecAt(doc, i)
    {
      DeclaredSpecIsLast(doc, o.pkg, i);
    }
    if Pinned(o) && o.pkg in DeclaredSpecs(doc) {
      PinKindIff(o, DeclaredSpecs(doc)[o.pkg], remote);
      var i := DeclaredSpecHasLast(doc, o.pkg);
    }
  }

  // An empty lineage result means exactly that every pinned first-party package some
  // requirement names has proven lineage by the last requirement naming it, whatever token
  // its line carries.
  lemma LineageCleanIff(doc: Document, remote: Remote)
    ensures LineageViolations(doc, remote) == [] <==>
            doc.Document? && forall k :: 0 <= k < |doc.sources| ==> LastNamingProves(doc, doc.sources[k], remote)
  {
    if doc.Document? {
      var report := LineageReport(DeclaredSpecs(doc), remote);
      EachEmptyIff(doc.sources, report);
      forall k | 0 <= k < |doc.sources|
        ensures report(doc.sources[k]) == [] <==> LastNamingProves(doc, doc.sources[k], remote)
      {
        LineageKindIff(doc, doc.sources[k], remote);
      }
    }
  }

  // ----- no permanent exemption -----

  // Without the ticket service credential.
  function NoTicketService(): Tickets { (ticket: string) => NoApiKey }

  // One of the two passes objects.
  ghost predicate GateFails(doc: Document, tickets: Tickets, today: nat) {
    !SourcesClean(doc) || !TokensClean(doc, tickets, today)
  }

  // What is clean on one day was clean on every earlier day.
  lemma CleanYesterday(doc: Document, tickets: Tickets, earlier: nat, today: nat)
    requires earlier <= today && !GateFails(doc, tickets, today)
    ensures !GateFails(doc, tickets, earlier)
  {
    TokensCleanIff(doc, tickets, today);
    TokensCleanIff(doc, tickets, earlier);
  }

  // Ordinal of 9999-12-31, the last day the calendar can express.
  const LAST_DAY: nat := 365 * 9999 + 9999 / 4 - 9999 / 100 + 9999 / 400

  lemma LastDay()
    ensures LAST_DAY == 3652059
  {
  }

  // Dates in a document are calendar dates.
  ghost predicate CalendarDates(doc: Document) {
    doc.Document? ==>
      forall i :: 0 <= i < |doc.sources| && TokenOf(doc.sources[i]).Some? && TokenOf(doc.sources[i]).value.until.Date? ==>
        TokenOf(doc.sources[i]).value.until.day <= LAST_DAY
  }

  // With the ticket service out of reach, any git-sourced first-party package makes the gate
  // fail on every day after some day.
  lemma ExemptionEnds(doc: Document, i: nat) returns (day: nat)
    requires doc.Document? && i < |doc.sources| && GitSourced(doc.sources[i])
    ensures forall later :: later > day ==> GateFails(doc, NoTicketService(), later)
  {
    var token := TokenOf(doc.sources[i]);
    day := if token.Some? && token.value.until.Date? then token.value.until.day else 0;
    forall later | later > day ensures GateFails(doc, NoTicketService(), later) {
      SourcesCleanIff(doc);
      TokensCleanIff(doc, NoTicketService(), later);
      if token.Some? {
        assert !Live(token.value, NoTicketService(), later);
      }
    }
  }

  // Within the calendar the gate has failed by the last day unless every git-sourced
  // first-party package carries a token dated on that very day.
  lemma FailsByTheLastDayIff(doc: Document)
    requires doc.Document? && CalendarDates(doc)
    ensures GateFails(doc, NoTicketService(), LAST_DAY) <==>
            exists i :: 0 <= i < |doc.sources| && GitSourced(doc.sources[i])
                        && (TokenOf(doc.sources[i]).None? || TokenOf(doc.sources[i]).value.until != Date(LAST_DAY))
  {
    SourcesCleanIff(doc);
    TokensCleanIff(doc, NoTicketService(), LAST_DAY);
    forall i | 0 <= i < |doc.sources| && TokenOf(doc.sources[i]).Some?
      ensures Live(TokenOf(doc.sources[i]).value, NoTicketService(), LAST_DAY)
              <==> TokenOf(doc.sources[i]).value.until == Date(LAST_DAY)
    {
    }
  }

  // ----- the command -----

  datatype Args = Args(checkLineage: bool, allowUndetermined: bool, checkTokenExpiry: bool, checkMovable: Option<string>)

  // find_unmovable_cascade_targets: the package has a git override of any kind.
  predicate Unmovable(doc: Document, pkg: string) {
    doc.InvalidToml?
    || exists i :: 0 <= i < |doc.sources| && doc.sources[i].pkg == pkg && exists k :: k in GIT_KEYS && k in doc.sources[i].attrs
  }

  const WORDS := "UNDETERMINED lineage"

  // The command tells findings apart by these words anywhere in the message, which quotes the
  // ref, the spec, the URL and the tree ids.
  predicate Labelled(v: Violation) {
    match v.kind
    case Undetermined => true
    case NotExact(ref, spec) => HasWords()(ref) || HasWords()(spec)
    case UnknownRepo(url) => HasWords()(url)
    case Diverged(ref, pinned, released) => HasWords()(ref) || HasWords()(pinned) || HasWords()(released)
    case _ => false
  }

  function HasWords(): string -> bool { (s: string) => Contains(s, WORDS) }

  // The findings without the words.
  function Conclusive(violations: seq<Violation>): (r: seq<Violation>)
    ensures forall v :: v in r <==> v in violations && !Labelled(v)
  {
    if violations == [] then []
    else
      var last := violations[|violations| - 1];
      assert violations == violations[..|violations| - 1] + [last];
      Conclusive(violations[..|violations| - 1]) + (if !Labelled(last) then [last] else [])
  }

  // A spec with the words in it is no exact pin, but is labelled like an undetermined one: the
  // flag for undetermined lineage waves it through.
  lemma WordsInSpecAreLabelled(o: Override, spec: string, remote: Remote)
    requires Pinned(o) && Contains(spec, WORDS)
    ensures PinKind(o, spec, remote) == Some(NotExact(PinnedRef(o.attrs).value, spec))
    ensures Labelled(Violation(o.pkg, PinKind(o, spec, remote).value))
  {
    var i :| 0 <= i <= |spec| && OccursAt(spec, WORDS, i);
    assert spec[i] == spec[i..i + |WORDS|][0] == 'U';
    assert spec[i + 12] == spec[i..i + |WORDS|][12] == ' ';
    if "==" <= spec {
      NotAPin(spec, i);
    }
  }

  lemma BlankStays(s: string, j: nat)
    requires j + 12 < |s| && s[j] == 'U' && s[j + 12] == ' '
    ensures ' ' in LStrip(s)
  {
    LStripKeeps(s, IsSpace, j);
    assert LStrip(s)[j + 12 - (|s| - |LStrip(s)|)] == ' ';
  }

  lemma NotAPin(spec: string, i: nat)
    requires "==" <= spec && i + 12 < |spec| && spec[i] == 'U' && spec[i + 12] == ' '
    ensures ExactPin(spec) == None
  {
    assert spec[0] == '=' && spec[1] == '=';
    BlankStays(spec[2..], i - 2);
  }

  // Not undetermined, but with the words in its ref, spec, URL or tree ids.
  predicate Misleading(v: Violation) { !v.kind.Undetermined? && Labelled(v) }

  function Honest(): Violation -> bool { (v: Violation) => !Misleading(v) }

  // What the finding on a pinned package would quote has the words in it: the ref and the spec
  // of a loose pin, the URL of an unknown repository, the ref and the trees of diverged content.
  ghost predicate QuotesTheWords(o: Override, spec: string, remote: Remote)
    requires Pinned(o)
  {
    VerdictQuotes(PinnedRef(o.attrs).value, o.attrs["git"].s, spec, ExactPin(spec), remote)
  }

  ghost predicate VerdictQuotes(ref: string, url: string, spec: string, version: Option<string>, remote: Remote) {
    if version.None? then HasWords()(ref) || HasWords()(spec)
    else if remote.repoOf(url).None? then HasWords()(url)
    else
      var repo := remote.repoOf(url).value;
      var pinned, released := remote.treeOf(repo, ref), remote.treeOf(repo, "v" + version.value);
      pinned.Some? && released.Some? && pinned != released
      && (HasWords()(ref) || HasWords()(pinned.value) || HasWords()(released.value))
  }

  predicate PinMisleads(pkg: string, kind: Option<Kind>) { kind.Some? && Misleading(Violation(pkg, kind.value)) }

  lemma VerdictMisleadsIff(pkg: string, ref: string, url: string, spec: string, version: Option<string>, remote: Remote)
    ensures PinMisleads(pkg, Verdict(ref, url, spec, version, remote)) <==> VerdictQuotes(ref, url, spec, version, remote)
  {
  }

  lemma PinIsMisleadingIff(o: Override, spec: string, remote: Remote)
    requires Pinned(o)
    ensures PinMisleads(o.pkg, PinKind(o, spec, remote)) <==> QuotesTheWords(o, spec, remote)
  {
    VerdictMisleadsIff(o.pkg, PinnedRef(o.attrs).value, o.attrs["git"].s, spec, ExactPin(spec), remote);
  }

  // Whichever requirement is the last to name a pinned package, nothing quoted has the words.
  ghost predicate PlainlyPinned(doc: Document, o: Override, remote: Remote)
    requires doc.Document?
  {
    Pinned(o) ==> forall i: nat :: LastNaming(doc, o.pkg, i) ==> !QuotesTheWords(o, SpecAt(doc, i), remote)
  }

  lemma HonestReport(o: Override, specs: map<string, string>, remote: Remote)
    ensures All(LineageReport(specs, remote)(o), Honest())
            <==> (Pinned(o) && o.pkg in specs ==> !QuotesTheWords(o, specs[o.pkg], remote))
  {
    var kind := LineageKind(o, specs, remote);
    if kind.Some? {
      AllCons(Violation(o.pkg, kind.value), [], Honest());
      assert LineageReport(specs, remote)(o) == [Violation(o.pkg, kind.value)] + [];
    }
    if Pinned(o) && o.pkg in specs {
      PinIsMisleadingIff(o, specs[o.pkg], remote);
    }
  }

  lemma PlainlyPinnedIff(doc: Document, o: Override, remote: Remote)
    requires doc.Document?
    ensures PlainlyPinned(doc, o, remote)
            <==> (Pinned(o) && o.pkg in DeclaredSpecs(doc) ==> !QuotesTheWords(o, DeclaredSpecs(doc)[o.pkg], remote))
  {
    forall i: nat | LastNaming(doc, o.pkg, i)
      ensures o.pkg in DeclaredSpecs(doc) && DeclaredSpecs(doc)[o.pkg] == SpecAt(doc, i)
    {
      DeclaredSpecIsLast(doc, o.pkg, i);
    }
    if Pinned(o) && o.pkg in DeclaredSpecs(doc) {
      var i := DeclaredSpecHasLast(doc, o.pkg);
    }
  }

  // The flag waves through undetermined lineage only, exactly when no pinned package has the
  // words in what its finding would quote, by the last requirement naming it.
  lemma OnlyUndeterminedIsWavedThroughIff(doc: Document, remote: Remote)
    requires doc.Document?
    ensures All(LineageViolations(doc, remote), Honest()) <==>
            forall k :: 0 <= k < |doc.sources| ==> PlainlyPinned(doc, doc.sources[k], remote)
  {
    var report := LineageReport(DeclaredSpecs(doc), remote);
    EachAll(doc.sources, report, Honest());
    forall k | 0 <= k < |doc.sources|
      ensures All(report(doc.sources[k]), Honest()) <==> PlainlyPinned(doc, doc.sources[k], remote)
    {
      HonestReport(doc.sources[k], DeclaredSpecs(doc), remote);
      PlainlyPinnedIff(doc, doc.sources[k], remote);
    }
  }

  const CORE := "omnibase-core"

  // A pinned package that carries a token, declared with the words instead of a version.
  function WordsDocument(token: Token): Document {
    Document([Override(CORE, map["git" := Str("u"), "rev" := Str("r")], Some(Some(token)))], [Some(CORE + (" " + WORDS))], [])
  }

  lemma {:induction false} NameLengthIs(name: string, rest: string)
    requires forall i :: 0 <= i < |name| ==> IsNameChar(name[i])
    requires rest != "" ==> !IsNameChar(rest[0])
    ensures NameLength(name + rest) == |name|
  {
    if name == "" {
      assert name + rest == rest;
    } else {
      assert (name + rest)[1..] == name[1..] + rest;
      NameLengthIs(name[1..], rest);
    }
  }

  lemma CoreIsNormal()
    ensures forall i :: 0 <= i < |CORE| ==> IsNameChar(CORE[i]) && NormalizeChar(CORE[i]) == CORE[i]
    ensures Normalize(CORE) == CORE
  {
  }

  lemma WordsAreTrimmed()
    ensures Trimmed(WORDS) && '\n' !in WORDS && LStrip(WORDS) == WORDS
  {
    assert WORDS[0] == 'U' && WORDS[|WORDS| - 1] == 'e';
  }

  lemma Halved<T>(a: seq<T>, b: seq<T>)
    ensures (a + b)[..|a|] == a && (a + b)[|a|..] == b
  {
  }

  lemma BlankInFront(spec: string)
    requires spec != "" && !IsSpace(spec[0])
    ensures LStrip(" " + spec) == spec
  {
    var s := " " + spec;
    assert s[0] == ' ' && s[1..] == spec;
    assert LStrip(spec) == spec;
  }

  lemma TrimmedPair(name: string, spec: string)
    requires name != "" && !IsSpace(name[0]) && spec != "" && !IsSpace(spec[|spec| - 1])
    ensures Strip(name + (" " + spec)) == name + (" " + spec)
  {
    var s := name + (" " + spec);
    assert s[0] == name[0] && s[|s| - 1] == spec[|spec| - 1];
    assert Trimmed(s);
  }

  lemma PlainRequirement(name: string, spec: string)
    requires name != "" && forall i :: 0 <= i < |name| ==> IsNameChar(name[i])
    requires spec != "" && Trimmed(spec) && '\n' !in spec
    ensures ParseRequirement(Some(name + (" " + spec))) == Some(Binding(Normalize(name), spec))
  {
    TrimmedPair(name, spec);
    NameLengthIs(name, " " + spec);
    Halved(name, " " + spec);
    BlankInFront(spec);
    assert Strip(spec) == spec;
  }

  lemma WordsRequirement()
    ensures ParseRequirement(Some(CORE + (" " + WORDS))) == Some(Binding(CORE, WORDS))
  {
    CoreIsNormal();
    WordsAreTrimmed();
    PlainRequirement(CORE, WORDS);
  }

  lemma WordsDocumentSpecs(token: Token)
    ensures DeclaredSpecs(WordsDocument(token)) == map[CORE := WORDS]
  {
    WordsRequirement();
    var item: Option<string> := Some(CORE + (" " + WORDS));
    assert Requirements(WordsDocument(token)) == [item];
    CollectOne(item, ParseRequirement);
  }

  lemma WordsSource(o: Override, remote: Remote)
    requires o == Override(CORE, map["git" := Str("u"), "rev" := Str("r")], o.line)
    ensures LineageKind(o, map[CORE := WORDS], remote) == Some(NotExact("r", WORDS))
    ensures Labelled(Violation(CORE, NotExact("r", WORDS)))
  {
    assert OccursAt(WORDS, WORDS, 0);
    WordsInSpecAreLabelled(o, WORDS, remote);
  }

  // Such a document has a finding that is not undetermined, and no other.
  lemma WordsDocumentFinding(token: Token, remote: Remote)
    ensures LineageViolations(WordsDocument(token), remote) == [Violation(CORE, NotExact("r", WORDS))]
  {
    var o := Override(CORE, map["git" := Str("u"), "rev" := Str("r")], Some(Some(token)));
    WordsDocumentSpecs(token);
    WordsSource(o, remote);
    EachOne(o, LineageReport(map[CORE := WORDS], remote));
  }

  lemma WordsDocumentPasses(token: Token, remote: Remote)
    ensures SourcesClean(WordsDocument(token))
    ensures forall v :: v in LineageViolations(WordsDocument(token), remote) ==> Labelled(v)
  {
    var doc := WordsDocument(token);
    SourcesCleanIff(doc);
    WordsDocumentFinding(token, remote);
    WordsSource(doc.sources[0], remote);
  }

  // --check-movable with a package name; an empty name counts as none.
  predicate AsksMovable(args: Args) { args.checkMovable.Some? && args.checkMovable.value != "" }

  ghost predicate LineagePasses(doc: Document, remote: Remote, allowUndetermined: bool) {
    if allowUndetermined then forall v :: v in LineageViolations(doc, remote) ==> Labelled(v)
    else LineageViolations(doc, remote) == []
  }

  // --check-lineage
  method LineagePass(doc: Document, remote: Remote, allowUndetermined: bool) returns (failed: bool)
    ensures failed <==> !LineagePasses(doc, remote, allowUndetermined)
  {
    var lineage := FindLineageViolations(doc, remote);
    var diverged := Conclusive(lineage);
    failed := false;
    if diverged != [] {
      assert diverged[0] in diverged;
      failed := true;
    } else if lineage != [] && !allowUndetermined {
      failed := true;
    }
  }

  // The default check.
  method SourcePass(doc: Document) returns (failed: bool)
    ensures failed <==> !SourcesClean(doc)
  {
    var violations := FindViolations(doc);
    failed := violations != [];
  }

  // --check-token-expiry
  method TokenPass(doc: Document, tickets: Tickets, today: nat) returns (failed: bool)
    ensures failed <==> !TokensClean(doc, tickets, today)
  {
    var stale := FindEscapeTokenViolations(doc, tickets, today);
    failed := stale != [];
  }

  method OrdinaryRun(args: Args, doc: Document, tickets: Tickets, remote: Remote, today: nat) returns (failed: bool)
    ensures failed <==> !(SourcesClean(doc)
                          && (args.checkTokenExpiry ==> TokensClean(doc, tickets, today))
                          && (args.checkLineage ==> LineagePasses(doc, remote, args.allowUndetermined)))
  {
    failed := SourcePass(doc);
    if failed {
      return true;
    }
    if args.checkLineage {
      failed := LineagePass(doc, remote, args.allowUndetermined);
    }
    if args.checkTokenExpiry {
      var stale := TokenPass(doc, tickets, today);
      failed := failed || stale;
    }
  }

  // The exit code; file is None when pyproject.toml is missing.
  method ExitCode(args: Args, inCi: bool, file: Option<Document>, tickets: Tickets, remote: Remote, today: nat)
    returns (code: nat)
    ensures code == 2 <==> args.allowUndetermined && inCi
    ensures code <= 2
    ensures file.None? && !(args.allowUndetermined && inCi) ==> code == 1
    ensures !(args.allowUndetermined && inCi) && file.Some? && AsksMovable(args) ==>
              (code == 0 <==> !Unmovable(file.value, NormalizeAny(args.checkMovable.value)))
    ensures !(args.allowUndetermined && inCi) && file.Some? && !AsksMovable(args) ==>
              (code == 0 <==>
                SourcesClean(file.value)
                && (args.checkTokenExpiry ==> TokensClean(file.value, tickets, today))
                && (args.checkLineage ==> LineagePasses(file.value, remote, args.allowUndetermined)))
  {
    if args.allowUndetermined && inCi {
      return 2;
    }
    if file.None? {
      return 1;
    }
    var doc := file.value;
    if AsksMovable(args) {
      return if Unmovable(doc, NormalizeAny(args.checkMovable.value)) then 1 else 0;
    }
    var failed := OrdinaryRun(args, doc, tickets, remote, today);
    return if failed then 1 else 0;
  }

  // With the flag the command passes that document, whatever its trees are.
  method WordsAreWavedThrough(token: Token, tickets: Tickets, remote: Remote, today: nat) returns (code: nat)
    ensures LineageViolations(WordsDocument(token), remote) == [Violation(CORE, NotExact("r", WORDS))]
    ensures code == 0
  {
    WordsDocumentFinding(token, remote);
    WordsDocumentPasses(token, remote);
    code := ExitCode(Args(true, true, false, None), false, Some(WordsDocument(token)), tickets, remote, today);
  }

  // The loophole is closed: with both extra checks on, nothing waved through and no ticket
  // service, the command succeeds only if every git-sourced first-party package carries a
  // token with a date that has not passed, and every one that is pinned and named has
  // proven lineage.
  lemma SuccessMeans(doc: Document, remote: Remote, today: nat, k: nat)
    requires SourcesClean(doc) && TokensClean(doc, NoTicketService(), today) && LineageViolations(doc, remote) == []
    requires k < |doc.sources| && GitSourced(doc.sources[k])
    ensures TokenOf(doc.sources[k]).Some? && TokenOf(doc.sources[k]).value.until.Date?
            && today <= TokenOf(doc.sources[k]).value.until.day
    ensures LastNamingProves(doc, doc.sources[k], remote)
  {
    SourcesCleanIff(doc);
    TokensCleanIff(doc, NoTicketService(), today);
    LineageCleanIff(doc, remote);
    assert Live(TokenOf(doc.sources[k]).value, NoTicketService(), today);
  }

  // Loosening a pin does not evade the gate: once the last requirement naming a pinned
  // package is not an exact pin, the lineage pass objects, token or not.
  lemma LoosenedPinIsCaught(doc: Document, remote: Remote, k: nat, i: nat)
    requires doc.Document? && k < |doc.sources| && Pinned(doc.sources[k])
    requires LastNaming(doc, doc.sources[k].pkg, i) && ExactPin(SpecAt(doc, i)).None?
    ensures LineageViolations(doc, remote) != []
  {
    LineageCleanIff(doc, remote);
    assert !LineageProven(doc.sources[k], SpecAt(doc, i), remote);
  }
}
