// Requirement strings, pins and package names of scripts/check_dep_provenance.py, character by
// character, and the findings of its lineage pass in those terms.
module PinTexts {
  import opened Wrappers
  import opened Text
  import opened Padding
  import opened Listing
  import opened LastWins
  import LineLexer
  import opened DepProvenance
  import opened DepGate
  import opened DepTexts

  // ----- names -----

  // "_" becomes "-", capitals become small.
  ghost predicate NormalForm(name: string, written: string) {
    |name| == |written| && forall i :: 0 <= i < |name| ==>
      name[i] == if written[i] == '_' then '-' else if 'A' <= written[i] <= 'Z' then (written[i] as int + 32) as char else written[i]
  }

  lemma NormalizeIff(name: string, written: string)
    ensures Normalize(written) == name <==> NormalForm(name, written)
  {
    if NormalForm(name, written) {
      assert forall i :: 0 <= i < |name| ==> Normalize(written)[i] == name[i];
    }
    if Normalize(written) == name {
      assert forall i :: 0 <= i < |name| ==> Normalize(written)[i] == name[i];
    }
  }

  // ----- versions -----

  predicate IsVersionChar(c: char) {
    'A' <= c <= 'Z' || 'a' <= c <= 'z' || '0' <= c <= '9' || c in {'_', '.', '+', '-'}
  }

  // "==", blanks, and a version.
  ghost predicate PinsAt(spec: string, a: string, version: string) {
    Blanks(a, IsSpace) && spec == "==" + (a + version) && version != ""
    && forall i :: 0 <= i < |version| ==> IsVersionChar(version[i])
  }

  ghost predicate Pins(spec: string, version: string) { exists a :: PinsAt(spec, a, version) }

  lemma PinIsRead(spec: string, a: string, version: string)
    requires PinsAt(spec, a, version)
    ensures ExactPin(spec) == Some(version)
  {
    assert IsVersionChar(version[0]);
    assert spec[2..] == a + version;
    LStripPadded(a, version, IsSpace);
  }

  lemma BehindEquals(spec: string)
    requires "==" <= spec
    ensures spec == "==" + spec[2..]
  {
  }

  lemma ReadIsPin(spec: string)
    requires ExactPin(spec).Some?
    ensures Pins(spec, ExactPin(spec).value)
  {
    BehindEquals(spec);
    var a := LStripSplits(spec[2..], IsSpace);
    assert PinsAt(spec, a, ExactPin(spec).value);
  }

  lemma ExactPinIff(spec: string, version: string)
    ensures ExactPin(spec) == Some(version) <==> Pins(spec, version)
  {
    if ExactPin(spec) == Some(version) {
      ReadIsPin(spec);
    }
    if a :| PinsAt(spec, a, version) {
      PinIsRead(spec, a, version);
    }
  }

  // ----- refs -----

  // Absent, or present but empty or false.
  ghost predicate Unset(attrs: map<string, Attr>, name: string) {
    name in attrs ==> attrs[name] == Str("") || attrs[name] == Other(false)
  }

  ghost predicate Sets(attrs: map<string, Attr>, name: string, ref: string) { name in attrs && attrs[name] == Str(ref) }

  // rev, else tag, else branch.
  ghost predicate UsesRef(attrs: map<string, Attr>, ref: string) {
    ref != ""
    && (Sets(attrs, "rev", ref)
        || (Unset(attrs, "rev") && Sets(attrs, "tag", ref))
        || (Unset(attrs, "rev") && Unset(attrs, "tag") && Sets(attrs, "branch", ref)))
  }

  lemma PinnedRefIff(attrs: map<string, Attr>, ref: string)
    ensures PinnedRef(attrs) == Some(ref) <==> UsesRef(attrs, ref)
  {
  }

  // ----- requirements -----

  predicate IsNamed(c: char) {
    'A' <= c <= 'Z' || 'a' <= c <= 'z' || '0' <= c <= '9' || c in {'_', '.', '-'}
  }

  // The longest run of name characters, and a rest on one line.
  ghost predicate NameAndRest(written: string, rest: string) {
    && written != "" && (forall i :: 0 <= i < |written| ==> IsNamed(written[i]))
    && (rest != "" ==> !IsNamed(rest[0])) && '\n' !in LStrip(rest)
  }

  ghost predicate Splits(text: string, written: string, rest: string, a: string, b: string) {
    Padded(text, a, written + rest, b) && Trimmed(written + rest) && NameAndRest(written, rest)
  }

  ghost predicate Requirement(item: Option<string>, name: string, spec: string) {
    exists written, rest, a, b :: item.Some? && Splits(item.value, written, rest, a, b)
      && NormalForm(name, written) && spec == Strip(rest)
  }

  lemma {:induction false} NameLengthSplits(s: string)
    ensures forall i :: 0 <= i < NameLength(s) ==> IsNamed(s[i])
    ensures NameLength(s) < |s| ==> !IsNamed(s[NameLength(s)])
  {
    if s != "" && IsNameChar(s[0]) {
      NameLengthSplits(s[1..]);
      assert forall i :: 1 <= i < NameLength(s) ==> s[i] == s[1..][i - 1];
    }
  }

  lemma NameLengthOf(written: string, rest: string)
    requires forall i :: 0 <= i < |written| ==> IsNamed(written[i])
    requires rest != "" ==> !IsNamed(rest[0])
    ensures NameLength(written + rest) == |written|
  {
    NameLengthIs(written, rest);
  }

  lemma StripOfBlanks(s: string)
    requires LStrip(s) == ""
    ensures Strip(s) == ""
  {
    LStripTakesBlanks(s, IsSpace);
  }

  lemma StripOfLStrip(s: string)
    ensures Strip(LStrip(s)) == Strip(s)
  {
    if LStrip(s) == "" {
      StripOfBlanks(s);
    } else {
      LineLexer.StripFromHead(LStrip(s), IsSpace);
      var a := LStripSplits(s, IsSpace);
      StripLead(a, LStrip(s), IsSpace);
    }
  }

  lemma PartsAreRead(text: string, written: string, rest: string)
    requires Strip(text) == written + rest && NameAndRest(written, rest)
    ensures ParseRequirement(Some(text)) == Some(Binding(Normalize(written), Strip(rest)))
  {
    NameLengthOf(written, rest);
    Halved(written, rest);
    StripOfLStrip(rest);
  }

  lemma SplitIsParsed(text: string, written: string, rest: string, a: string, b: string)
    requires Splits(text, written, rest, a, b)
    ensures ParseRequirement(Some(text)) == Some(Binding(Normalize(written), Strip(rest)))
  {
    StripPadded(a, written + rest, b, IsSpace);
    PartsAreRead(text, written, rest);
  }

  lemma Rejoin<T>(s: seq<T>, n: nat)
    requires n <= |s|
    ensures s[..n] + s[n..] == s
  {
  }

  lemma ParsedHasName(s: string, n: nat)
    requires n == NameLength(s) && n > 0 && '\n' !in LStrip(s[n..])
    ensures NameAndRest(s[..n], s[n..]) && s[..n] + s[n..] == s
  {
    NameLengthSplits(s);
    Rejoin(s, n);
  }

  lemma ParsedIsSplit(text: string, n: nat) returns (a: string, b: string)
    requires ParseRequirement(Some(text)).Some? && n == NameLength(Strip(text))
    ensures Splits(text, Strip(text)[..n], Strip(text)[n..], a, b)
  {
    ParsedHasName(Strip(text), n);
    a, b := StripSplits(text, IsSpace);
  }

  lemma ParsedSpec(text: string)
    requires ParseRequirement(Some(text)).Some?
    ensures var s := Strip(text);
            ParseRequirement(Some(text)).value == Binding(Normalize(s[..NameLength(s)]), Strip(s[NameLength(s)..]))
  {
    StripOfLStrip(Strip(text)[NameLength(Strip(text))..]);
  }

  // What a requirement string declares.
  lemma RequirementIff(item: Option<string>, name: string, spec: string)
    ensures ParseRequirement(item) == Some(Binding(name, spec)) <==> Requirement(item, name, spec)
  {
    if ParseRequirement(item) == Some(Binding(name, spec)) {
      var s := Strip(item.value);
      var a, b := ParsedIsSplit(item.value, NameLength(s));
      ParsedSpec(item.value);
      NormalizeIff(name, s[..NameLength(s)]);
    }
    if written, rest, a, b :| item.Some? && Splits(item.value, written, rest, a, b)
                              && NormalForm(name, written) && spec == Strip(rest) {
      SplitIsParsed(item.value, written, rest, a, b);
      NormalizeIff(name, written);
    }
  }

  // ----- lineage findings -----

  ghost predicate Declares(item: Option<string>, pkg: string) { exists spec :: Requirement(item, pkg, spec) }

  // Item i of the project's dependencies and the overrides behind them is the last one that
  // declares the package.
  ghost predicate LastDeclares(doc: Document, pkg: string, i: nat, spec: string)
    requires doc.Document?
  {
    var items := doc.dependencies + doc.overrides;
    i < |items| && Requirement(items[i], pkg, spec) && forall j :: i < j < |items| ==> !Declares(items[j], pkg)
  }

  ghost predicate DeclaredAs(doc: Document, pkg: string, spec: string)
    requires doc.Document?
  {
    exists i: nat :: LastDeclares(doc, pkg, i, spec)
  }

  // The ref of a repository does not have the content of the version, in this way.
  ghost predicate VersionFails(ref: string, url: string, version: string, remote: Remote, kind: Kind) {
    if remote.repoOf(url).None? then kind == UnknownRepo(url)
    else
      var repo := remote.repoOf(url).value;
      match kind
      case Undetermined => remote.treeOf(repo, ref).None? || remote.treeOf(repo, "v" + version).None?
      case Diverged(r, pinned, released) =>
        r == ref && pinned != released
        && remote.treeOf(repo, ref) == Some(pinned) && remote.treeOf(repo, "v" + version) == Some(released)
      case _ => false
  }

  ghost predicate Loose(spec: string) { forall version :: !Pins(spec, version) }

  ghost predicate PinFails(ref: string, url: string, spec: string, remote: Remote, kind: Kind) {
    (Loose(spec) && kind == NotExact(ref, spec))
    || exists version :: Pins(spec, version) && VersionFails(ref, url, version, remote, kind)
  }

  ghost predicate PinnedTo(o: Override, url: string, ref: string) {
    o.pkg in {"omnibase-core", "omnibase-spi", "omnibase-compat"} && Sets(o.attrs, "git", url) && UsesRef(o.attrs, ref)
  }

  // A pinned first-party package fails against the last requirement that declares it.
  ghost predicate LineageFailsAt(doc: Document, remote: Remote, v: Violation, k: nat)
    requires doc.Document? && k < |doc.sources|
  {
    v.pkg == doc.sources[k].pkg
    && exists url, ref, spec :: PinnedTo(doc.sources[k], url, ref) && DeclaredAs(doc, v.pkg, spec)
                                && PinFails(ref, url, spec, remote, v.kind)
  }

  lemma VersionFailsIff(ref: string, url: string, spec: string, version: string, remote: Remote, kind: Kind)
    ensures Verdict(ref, url, spec, Some(version), remote) == Some(kind) <==> VersionFails(ref, url, version, remote, kind)
  {
  }

  lemma PinsAtMostOne(spec: string)
    ensures Loose(spec) <==> ExactPin(spec).None?
    ensures forall version :: Pins(spec, version) <==> ExactPin(spec) == Some(version)
  {
    forall version ensures Pins(spec, version) <==> ExactPin(spec) == Some(version) {
      ExactPinIff(spec, version);
    }
    if ExactPin(spec).Some? {
      assert Pins(spec, ExactPin(spec).value);
    }
  }

  lemma VerdictIff(ref: string, url: string, spec: string, remote: Remote, kind: Kind)
    ensures Verdict(ref, url, spec, ExactPin(spec), remote) == Some(kind) <==> PinFails(ref, url, spec, remote, kind)
  {
    PinsAtMostOne(spec);
    if ExactPin(spec).Some? {
      VersionFailsIff(ref, url, spec, ExactPin(spec).value, remote, kind);
    }
  }

  lemma PinnedIff(o: Override)
    ensures forall url, ref :: PinnedTo(o, url, ref) <==> Pinned(o) && o.attrs["git"].s == url && PinnedRef(o.attrs).value == ref
    ensures Pinned(o) ==> PinnedTo(o, o.attrs["git"].s, PinnedRef(o.attrs).value)
  {
    forall ref ensures PinnedRef(o.attrs) == Some(ref) <==> UsesRef(o.attrs, ref) {
      PinnedRefIff(o.attrs, ref);
    }
    if PinnedRef(o.attrs).Some? {
      PinnedRefIff(o.attrs, PinnedRef(o.attrs).value);
    }
  }

  lemma ParsesAs(item: Option<string>, pkg: string)
    ensures BoundBy(item, ParseRequirement, pkg).Some? <==> Declares(item, pkg)
    ensures forall spec :: Requirement(item, pkg, spec) <==> BoundBy(item, ParseRequirement, pkg) == Some(spec)
  {
    forall spec ensures Requirement(item, pkg, spec) <==> BoundBy(item, ParseRequirement, pkg) == Some(spec) {
      RequirementIff(item, pkg, spec);
    }
    if BoundBy(item, ParseRequirement, pkg).Some? {
      assert Requirement(item, pkg, BoundBy(item, ParseRequirement, pkg).value);
    }
  }

  lemma LastDeclaresIff(doc: Document, pkg: string, i: nat, spec: string)
    requires doc.Document?
    ensures LastDeclares(doc, pkg, i, spec) <==> LastNaming(doc, pkg, i) && SpecAt(doc, i) == spec
  {
    var items := Requirements(doc);
    forall j | 0 <= j < |items|
      ensures BoundBy(items[j], ParseRequirement, pkg).Some? <==> Declares(items[j], pkg)
      ensures Requirement(items[j], pkg, spec) <==> BoundBy(items[j], ParseRequirement, pkg) == Some(spec)
    {
      ParsesAs(items[j], pkg);
    }
    LastBinds(items, ParseRequirement, pkg, i, spec);
  }

  lemma DeclaredAsIff(doc: Document, pkg: string, spec: string)
    requires doc.Document?
    ensures DeclaredAs(doc, pkg, spec) <==> pkg in DeclaredSpecs(doc) && DeclaredSpecs(doc)[pkg] == spec
  {
    if i: nat :| LastDeclares(doc, pkg, i, spec) {
      LastDeclaresIff(doc, pkg, i, spec);
      DeclaredSpecIsLast(doc, pkg, i);
    }
    if pkg in DeclaredSpecs(doc) && DeclaredSpecs(doc)[pkg] == spec {
      var i := DeclaredSpecHasLast(doc, pkg);
      DeclaredSpecIsLast(doc, pkg, i);
      LastDeclaresIff(doc, pkg, i, spec);
    }
  }

  lemma LineageKindFails(doc: Document, remote: Remote, v: Violation, k: nat)
    requires doc.Document? && k < |doc.sources|
    ensures v in LineageReport(DeclaredSpecs(doc), remote)(doc.sources[k]) <==> LineageFailsAt(doc, remote, v, k)
  {
    var o := doc.sources[k];
    PinnedIff(o);
    forall spec { DeclaredAsIff(doc, o.pkg, spec); }
    AsListHas(o.pkg, LineageKind(o, DeclaredSpecs(doc), remote), v);
    if Pinned(o) && o.pkg in DeclaredSpecs(doc) {
      VerdictIff(PinnedRef(o.attrs).value, o.attrs["git"].s, DeclaredSpecs(doc)[o.pkg], remote, v.kind);
    }
  }

  // The findings of the lineage pass are the pinned packages that fail so.
  lemma LineageFindingsIff(doc: Document, remote: Remote, v: Violation)
    requires doc.Document?
    ensures v in LineageViolations(doc, remote) <==>
            exists k: nat :: k < |doc.sources| && LineageFailsAt(doc, remote, v, k)
  {
    EachHas(doc.sources, LineageReport(DeclaredSpecs(doc), remote), v);
    forall k: nat | k < |doc.sources| { LineageKindFails(doc, remote, v, k); }
  }

  // ----- the command, asked about one package -----

  // A name may come with single quotes around it, double quotes around those, and blanks
  // around all.
  ghost predicate WrittenAs(text: string, written: string) {
    exists inner, outer, a, b :: Around(written, inner, SingleQuote()) && Around(inner, outer, DoubleQuote()) && Padded(text, a, outer, b)
  }

  // The text with some of these characters on both sides.
  ghost predicate Around(core: string, text: string, quote: char -> bool) {
    exists a, b :: Blanks(a, quote) && Blanks(b, quote) && text == a + core + b
  }

  predicate IsPlain(c: char) { !IsSpace(c) && c != '"' && c != '\'' }

  // Nothing to take off.
  ghost predicate PlainName(written: string) {
    written != "" && IsPlain(written[0]) && IsPlain(written[|written| - 1])
  }

  lemma Unquoted(core: string, text: string, quote: char -> bool)
    requires Around(core, text, quote) && core != "" && TrimmedBy(core, quote)
    ensures StripBy(text, quote) == core
  {
    var a, b :| Blanks(a, quote) && Blanks(b, quote) && text == a + core + b;
    StripPadded(a, core, b, quote);
  }

  lemma EndsOf(core: string, text: string, quote: char -> bool)
    requires Around(core, text, quote) && core != ""
    ensures text != "" && (text[0] == core[0] || quote(text[0]))
    ensures text[|text| - 1] == core[|core| - 1] || quote(text[|text| - 1])
  {
    var a, b :| Blanks(a, quote) && Blanks(b, quote) && text == a + core + b;
    assert a != "" ==> text[0] in a;
    assert b != "" ==> text[|text| - 1] in b;
  }

  lemma NameIsUnwrapped(text: string, written: string)
    requires WrittenAs(text, written) && PlainName(written)
    ensures NormalizeAny(text) == Normalize(written)
  {
    var inner, outer, a, b :| Around(written, inner, SingleQuote()) && Around(inner, outer, DoubleQuote()) && Padded(text, a, outer, b);
    EndsOf(written, inner, SingleQuote());
    EndsOf(inner, outer, DoubleQuote());
    StripPadded(a, outer, b, IsSpace);
    Unquoted(inner, outer, DoubleQuote());
    Unquoted(written, inner, SingleQuote());
  }

  lemma GitKeyIff(o: Override)
    ensures (exists k :: k in GIT_KEYS && k in o.attrs) <==> HasGitKey(o)
  {
  }

  lemma UnmovableIff(doc: Document, name: string)
    requires doc.Document?
    ensures Unmovable(doc, name) <==> exists k :: 0 <= k < |doc.sources| && doc.sources[k].pkg == name && HasGitKey(doc.sources[k])
  {
    forall k | 0 <= k < |doc.sources| { GitKeyIff(doc.sources[k]); }
  }

  // Asked about one package, the command answers 0 exactly when no source of that name has a
  // git key, first-party or not.
  method AsksAboutOne(args: Args, inCi: bool, doc: Document, tickets: Tickets, remote: Remote, today: nat,
                      text: string, ghost written: string, ghost name: string) returns (code: nat)
    requires !(args.allowUndetermined && inCi) && args.checkMovable == Some(text) && text != "" && doc.Document?
    requires WrittenAs(text, written) && PlainName(written) && NormalForm(name, written)
    ensures code == 0 <==> forall k :: 0 <= k < |doc.sources| && doc.sources[k].pkg == name ==> !HasGitKey(doc.sources[k])
    ensures code <= 1
  {
    NameIsUnwrapped(text, written);
    NormalizeIff(name, written);
    UnmovableIff(doc, name);
    code := ExitCode(args, inCi, Some(doc), tickets, remote, today);
  }

  lemma HasWordsIff(s: string)
    ensures HasWords()(s) <==> exists a, b :: HasPart(s, a, "UNDETERMINED lineage", b)
  {
    ContainsIff(s, "UNDETERMINED lineage");
  }
}
