// The .env file of scripts/_infisical_util.py as text: _parse_env_file and update_env_file,
// and what one says about the other.
module EnvFile {
  import opened Wrappers
  import opened Text
  import opened TextLines
  import opened LineLexer
  import opened LastWins
  import opened EnvTable
  import opened EnvLine

  // ----- the file -----

  const HEADER := "# --- Keycloak " + "credentials " + "(provisioned automatically) ---"

  // The lines both functions work on; a missing file has none.
  function Lines(raw: Option<string>): (lines: seq<string>)
    ensures forall i, j :: 0 <= i < |lines| && 0 <= j < |lines[i]| ==> !IsLineBreak(lines[i][j])
  {
    if raw.None? then [] else SplitBy(ReadText(raw.value), IsLineBreak)
  }

  function ParsedFile(raw: Option<string>): map<string, string> { Parsed(EnvGrammar(), Lines(raw)) }

  // What goes between the old lines and the appended ones.
  function Glue(body: seq<string>): seq<string> {
    (if |body| > 0 && Strip(body[|body| - 1]) != "" then [""] else []) + [HEADER]
  }

  function UpdatedLines(lines: seq<string>, updates: seq<Binding<string, string>>): seq<string> {
    Written(EnvGrammar(), lines, updates, Glue(BodyAfter(EnvGrammar(), lines, updates, |updates|)))
  }

  function UpdatedText(raw: Option<string>, updates: seq<Binding<string, string>>): string {
    Join(UpdatedLines(Lines(raw), updates), '\n') + "\n"
  }

  // The list of lines update_env_file writes.
  method RewriteLines(lines: seq<string>, updates: seq<Binding<string, string>>) returns (written: seq<string>)
    requires DistinctUpdates(updates)
    ensures written == UpdatedLines(lines, updates)
  {
    var body, appended := ApplyUpdates(EnvGrammar(), lines, updates);
    written := body;
    if |appended| > 0 {
      written := written + (Glue(body) + appended);
    }
  }

  class EnvFile {
    // The stored text, None while the file does not exist.
    var raw: Option<string>

    constructor (content: Option<string>)
      ensures raw == content
    {
      raw := content;
    }

    // _parse_env_file
    method Parse() returns (values: map<string, string>)
      ensures values == ParsedFile(raw)
    {
      values := ParseAll(EnvGrammar(), Lines(raw));
    }

    // update_env_file
    method Update(updates: seq<Binding<string, string>>)
      requires DistinctUpdates(updates)
      modifies this
      ensures raw == Some(UpdatedText(old(raw), updates))
    {
      var lines := RewriteLines(Lines(raw), updates);
      raw := Some(Join(lines, '\n') + "\n");
    }
  }

  // ----- from text to lines and back -----

  lemma HeaderIsSilent()
    ensures ParseLine(HEADER) == None && FiledKey(EnvLexicon(), HEADER) == None
    ensures ParseLine("") == None && FiledKey(EnvLexicon(), "") == None
  {
    assert HEADER[0] == '#';
    StripFromHead(HEADER, IsSpace);
  }

  lemma GlueLine(body: seq<string>, i: nat)
    requires i < |Glue(body)|
    ensures Glue(body)[i] == "" || Glue(body)[i] == HEADER
  {
  }

  lemma GlueIsSilent(body: seq<string>)
    ensures Silent(EnvGrammar(), Glue(body))
  {
    HeaderIsSilent();
    forall i | 0 <= i < |Glue(body)|
      ensures EnvGrammar().parse(Glue(body)[i]).None? && EnvGrammar().key(Glue(body)[i]).None?
    {
      GlueLine(body, i);
    }
  }

  lemma HeaderUnbroken()
    ensures NoLineBreak(HEADER)
  {
    AppendUnbroken("# --- Keycloak ", "credentials ", IsLineBreak);
    AppendUnbroken("# --- Keycloak " + "credentials ", "(provisioned automatically) ---", IsLineBreak);
  }

  lemma GlueUnbroken(body: seq<string>, i: nat)
    requires i < |Glue(body)|
    ensures NoLineBreak(Glue(body)[i])
  {
    HeaderUnbroken();
    GlueLine(body, i);
  }

  // The written text splits into the updated lines again (an update that leaves no lines
  // writes one empty line).
  lemma WrittenTextLines(lines: seq<string>)
    requires forall i :: 0 <= i < |lines| ==> NoLineBreak(lines[i])
    ensures Lines(Some(Join(lines, '\n') + "\n")) == if lines == [] then [""] else lines
  {
    var text := Join(lines, '\n') + "\n";
    assert forall i :: 0 <= i < |lines| ==> '\r' !in lines[i];
    JoinHasOnly(lines, '\n', '\r');
    assert '\r' !in text;
    ReadTextIdentity(text);
    if lines == [] {
      SplitLine("", '\n', "", IsLineBreak);
      assert text == "" + ['\n'] + "";
    } else {
      assert forall i :: 0 <= i < |lines| ==> Unbroken(lines[i], IsLineBreak);
      SplitJoin(lines, '\n', IsLineBreak);
    }
  }

  // A line that is not the last one of an updated key keeps its index and content.
  lemma UpdateKeepsOtherLines(lines: seq<string>, updates: seq<Binding<string, string>>, i: nat)
    requires i < |lines|
    requires forall m :: 0 <= m < |updates| ==> LastIndex(EnvGrammar(), lines, updates[m].key) != i
    ensures i < |UpdatedLines(lines, updates)| && UpdatedLines(lines, updates)[i] == lines[i]
  {
    UnnamedLineKept(EnvGrammar(), lines, updates, |updates|, i);
  }
}
