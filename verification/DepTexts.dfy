// The gate of scripts/check_dep_provenance.py in terms of what pyproject.toml, the requirement
// strings and the ticket service literally say.
module DepTexts {
  import opened Wrappers
  import opened Text
  import opened Padding
  import opened Listing
  import opened DepProvenance
  import opened DepGate

  // ----- sources and their tokens -----

  ghost predicate HasGitKey(o: Override) { "git" in o.attrs || "rev" in o.attrs || "branch" in o.attrs || "tag" in o.attrs }

  // A first-party package with a git key of any kind.
  ghost predicate FirstPartyGit(o: Override) {
    o.pkg in {"omnibase-core", "omnibase-spi", "omnibase-compat"} && HasGitKey(o)
  }

  ghost predicate Carries(o: Override, token: Token) { o.line == Some(Some(token)) }

  // A lower-case letter or its capital.
  predicate SameLetter(c: char, small: char) { c == small || c as int + 32 == small as int }

  ghost predicate Spells(word: string, small: string) {
    |word| == |small| && forall i :: 0 <= i < |small| ==> SameLetter(word[i], small[i])
  }

  ghost predicate Padded(name: string, a: string, word: string, b: string) {
    Blanks(a, IsSpace) && Blanks(b, IsSpace) && name == a + word + b
  }

  // The name is this word in any letter case, with blanks around it.
  ghost predicate ReadsAs(name: string, small: string) {
    exists a, word, b :: Padded(name, a, word, b) && Spells(word, small)
  }

  predicate ClosedWord(small: string) { small in {"done", "completed", "canceled", "cancelled", "duplicate"} }

  ghost predicate Closed(name: string) { exists small :: ClosedWord(small) && ReadsAs(name, small) }

  // The token no longer exempts its line, in this way.
  ghost predicate Fails(token: Token, tickets: Tickets, today: nat, kind: Kind) {
    match token.until
    case NotADate => kind == BadDate
    case NoUntil =>
      (match tickets(token.ticket)
       case NoApiKey => kind == NoLiveCondition
       case Unresolved => kind == TicketUnresolved
       case Status(name) => Closed(name) && kind == TicketClosed)
    case Date(day) =>
      if day < today then kind == Expired
      else (match tickets(token.ticket)
            case NoApiKey => false
            case Unresolved => kind == TicketUnresolved
            case Status(name) => Closed(name) && kind == TicketClosed)
  }

  lemma GitSourcedIff(o: Override)
    ensures GitSourced(o) <==> FirstPartyGit(o)
  {
  }

  predicate LowerWord(w: string) { forall i :: 0 <= i < |w| ==> 'a' <= w[i] <= 'z' }

  lemma LowerIs(word: string, small: string)
    requires LowerWord(small)
    ensures Lower(word) == small <==> Spells(word, small)
  {
    if Lower(word) == small {
      forall i | 0 <= i < |small| ensures SameLetter(word[i], small[i]) {
        assert Lower(word)[i] == LowerChar(word[i]);
      }
    }
    if Spells(word, small) {
      forall i | 0 <= i < |small| ensures Lower(word)[i] == small[i] {
        assert SameLetter(word[i], small[i]);
      }
    }
  }

  lemma SpelledIsTrimmed(word: string, small: string)
    requires LowerWord(small) && small != "" && Spells(word, small)
    ensures Trimmed(word) && word != ""
  {
    assert SameLetter(word[0], small[0]) && SameLetter(word[|word| - 1], small[|small| - 1]);
  }

  lemma ReadsAsIff(name: string, small: string)
    requires LowerWord(small) && small != ""
    ensures Lower(Strip(name)) == small <==> ReadsAs(name, small)
  {
    LowerIs(Strip(name), small);
    if Lower(Strip(name)) == small {
      var a, b := StripSplits(name, IsSpace);
      assert Padded(name, a, Strip(name), b);
    }
    if a, word, b :| Padded(name, a, word, b) && Spells(word, small) {
      SpelledIsTrimmed(word, small);
      StripPadded(a, word, b, IsSpace);
    }
  }

  lemma DoneIs(small: string)
    ensures small in DONE <==> ClosedWord(small)
    ensures ClosedWord(small) ==> LowerWord(small) && small != ""
  {
  }

  lemma ClosedIff(name: string)
    ensures Lower(Strip(name)) in DONE <==> Closed(name)
  {
    var read := Lower(Strip(name));
    DoneIs(read);
    if ClosedWord(read) {
      ReadsAsIff(name, read);
    }
    if small :| ClosedWord(small) && ReadsAs(name, small) {
      DoneIs(small);
      ReadsAsIff(name, small);
    }
  }

  lemma TokenFails(o: Override, token: Token, tickets: Tickets, today: nat, kind: Kind)
    requires GitSourced(o) && Carries(o, token)
    ensures TokenKind(o, tickets, today) == Some(kind) <==> Fails(token, tickets, today, kind)
  {
    var status := tickets(token.ticket);
    if status.Status? {
      ClosedIff(status.name);
    }
  }

  lemma TokenKindIff(o: Override, tickets: Tickets, today: nat, kind: Kind)
    ensures TokenKind(o, tickets, today) == Some(kind) <==>
            FirstPartyGit(o) && exists token :: Carries(o, token) && Fails(token, tickets, today, kind)
  {
    GitSourcedIff(o);
    if GitSourced(o) && TokenOf(o).Some? {
      TokenFails(o, TokenOf(o).value, tickets, today, kind);
      assert Carries(o, TokenOf(o).value);
    }
  }

  // ----- whole documents -----

  lemma AsListHas(pkg: string, kind: Option<Kind>, v: Violation)
    ensures v in AsList(pkg, kind) <==> v.pkg == pkg && kind == Some(v.kind)
  {
  }

  ghost predicate TokenFailsAt(doc: Document, tickets: Tickets, today: nat, v: Violation, k: nat)
    requires doc.Document? && k < |doc.sources|
  {
    v.pkg == doc.sources[k].pkg && FirstPartyGit(doc.sources[k])
    && exists token :: Carries(doc.sources[k], token) && Fails(token, tickets, today, v.kind)
  }

  // The findings on tokens are the tokens of git-sourced first-party packages that fail.
  lemma TokenFindingsIff(doc: Document, tickets: Tickets, today: nat, v: Violation)
    requires doc.Document?
    ensures v in Each(doc.sources, TokenReport(tickets, today)) <==>
            exists k: nat :: k < |doc.sources| && TokenFailsAt(doc, tickets, today, v, k)
  {
    EachHas(doc.sources, TokenReport(tickets, today), v);
    forall k: nat | k < |doc.sources|
      ensures v in TokenReport(tickets, today)(doc.sources[k]) <==> TokenFailsAt(doc, tickets, today, v, k)
    {
      TokenKindIff(doc.sources[k], tickets, today, v.kind);
      AsListHas(doc.sources[k].pkg, TokenKind(doc.sources[k], tickets, today), v);
    }
  }

  ghost predicate Unexcused(o: Override) { FirstPartyGit(o) && forall token :: !Carries(o, token) }

  lemma UnexcusedIff(o: Override)
    ensures SourceKind(o) == if Unexcused(o) then Some(ForbiddenSource) else None
  {
    GitSourcedIff(o);
    if TokenOf(o).Some? {
      assert Carries(o, TokenOf(o).value);
    }
  }

  // The findings on sources are the git-sourced first-party packages without a token.
  lemma SourceFindingsIff(doc: Document, v: Violation)
    requires doc.Document?
    ensures v in Each(doc.sources, SourceReport()) <==>
            v.kind == ForbiddenSource && exists k :: 0 <= k < |doc.sources| && v.pkg == doc.sources[k].pkg && Unexcused(doc.sources[k])
  {
    EachHas(doc.sources, SourceReport(), v);
    forall k | 0 <= k < |doc.sources|
      ensures v in SourceReport()(doc.sources[k]) <==> v.kind == ForbiddenSource && v.pkg == doc.sources[k].pkg && Unexcused(doc.sources[k])
    {
      UnexcusedIff(doc.sources[k]);
      AsListHas(doc.sources[k].pkg, SourceKind(doc.sources[k]), v);
    }
  }

  // ----- the command -----

  // Neither refused in CI nor asked about one package.
  ghost predicate Ordinary(args: Args, inCi: bool) {
    !(args.allowUndetermined && inCi) && args.checkMovable in {None, Some("")}
  }

  lemma FailingTokenIsFound(doc: Document, tickets: Tickets, today: nat, k: nat, token: Token, kind: Kind)
    requires doc.Document? && k < |doc.sources| && FirstPartyGit(doc.sources[k])
    requires Carries(doc.sources[k], token) && Fails(token, tickets, today, kind)
    ensures !TokensClean(doc, tickets, today)
  {
    var v := Violation(doc.sources[k].pkg, kind);
    assert TokenFailsAt(doc, tickets, today, v, k);
    TokenFindingsIff(doc, tickets, today, v);
  }

  // With token expiry checked, a git-sourced first-party package whose token cites a closed
  // ticket fails the command, whatever its date and whatever else is in order.
  method ClosedTicketFails(args: Args, inCi: bool, doc: Document, tickets: Tickets, remote: Remote, today: nat,
                           ghost k: nat, ghost token: Token, ghost name: string) returns (code: nat)
    requires Ordinary(args, inCi) && args.checkTokenExpiry && doc.Document?
    requires k < |doc.sources| && FirstPartyGit(doc.sources[k]) && Carries(doc.sources[k], token)
    requires tickets(token.ticket) == Status(name) && Closed(name)
    ensures code == 1
  {
    ghost var kind := if token.until.NotADate? then BadDate
      else if token.until.Date? && token.until.day < today then Expired else TicketClosed;
    FailingTokenIsFound(doc, tickets, today, k, token, kind);
    code := ExitCode(args, inCi, Some(doc), tickets, remote, today);
  }

  // Not expired, and its ticket has another status.
  ghost predicate StillOpen(token: Token, tickets: Tickets, today: nat) {
    && !token.until.NotADate? && (token.until.Date? ==> today <= token.until.day)
    && tickets(token.ticket).Status? && !Closed(tickets(token.ticket).name)
  }

  // Such a token never causes a finding...
  lemma OpenTokenIsSilent(o: Override, token: Token, tickets: Tickets, today: nat)
    requires Carries(o, token) && StillOpen(token, tickets, today)
    ensures TokenReport(tickets, today)(o) == []
  {
    if TokenKind(o, tickets, today).Some? {
      TokenKindIff(o, tickets, today, TokenKind(o, tickets, today).value);
    }
  }

  ghost predicate AllStillOpen(doc: Document, tickets: Tickets, today: nat)
    requires doc.Document?
  {
    forall k :: 0 <= k < |doc.sources| && FirstPartyGit(doc.sources[k]) ==>
      exists token :: Carries(doc.sources[k], token) && StillOpen(token, tickets, today)
  }

  lemma OpenTokensAreClean(doc: Document, tickets: Tickets, today: nat)
    requires doc.Document? && AllStillOpen(doc, tickets, today)
    ensures SourcesClean(doc) && TokensClean(doc, tickets, today)
  {
    EachEmptyIff(doc.sources, SourceReport());
    EachEmptyIff(doc.sources, TokenReport(tickets, today));
    forall k | 0 <= k < |doc.sources|
      ensures SourceReport()(doc.sources[k]) == [] && TokenReport(tickets, today)(doc.sources[k]) == []
    {
      GitSourcedIff(doc.sources[k]);
      if FirstPartyGit(doc.sources[k]) {
        var token :| Carries(doc.sources[k], token) && StillOpen(token, tickets, today);
        OpenTokenIsSilent(doc.sources[k], token, tickets, today);
      }
    }
  }

  // ...and a file with no other git-sourced first-party package passes the two token passes.
  method OpenTicketsPass(args: Args, inCi: bool, doc: Document, tickets: Tickets, remote: Remote, today: nat) returns (code: nat)
    requires Ordinary(args, inCi) && !args.checkLineage && doc.Document? && AllStillOpen(doc, tickets, today)
    ensures code == 0
  {
    OpenTokensAreClean(doc, tickets, today);
    code := ExitCode(args, inCi, Some(doc), tickets, remote, today);
  }
}
