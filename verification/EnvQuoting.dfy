// The values _parse_env_file of scripts/_infisical_util.py reads, character by character:
// quoted values verbatim, unquoted ones up to their comment.
module EnvQuoting {
  import opened Wrappers
  import opened Text
  import opened Padding
  import opened TextLines
  import opened LineLexer
  import opened LastWins
  import opened EnvTable
  import opened EnvLine
  import opened EnvFile
  import opened EnvReadBack

  predicate IsQuote(q: char) { q == '\'' || q == '"' }

  // The value between two equal quotes.
  function Quoted(q: char, w: string): string { [q] + w + [q] }

  // k=v behind blanks and maybe "export ".
  ghost predicate EntryLine(line: string, k: string, v: string) {
    exists lead :: Blanks(lead, IsSpace) && line in {lead + (k + "=" + v), lead + ("export " + (k + "=" + v))}
  }

  // A quoted value with blanks around it.
  ghost predicate QuotedText(v: string, w: string) {
    exists a, q, b :: Blanks(a, IsSpace) && IsQuote(q) && Blanks(b, IsSpace) && v == a + Quoted(q, w) + b
  }

  // A bare value with blanks around it: no outer blanks of its own, no quote in front, no '#'
  // behind its first character.
  ghost predicate BareValue(w: string) {
    w != "" && Trimmed(w) && !IsQuote(w[0]) && forall i :: 1 <= i < |w| ==> w[i] != '#'
  }

  ghost predicate BareText(v: string, w: string) {
    exists a, b :: Blanks(a, IsSpace) && Blanks(b, IsSpace) && v == a + w + b
  }

  // The same with a comment behind it.
  ghost predicate CommentedText(v: string, w: string) {
    exists a, b, comment :: Blanks(a, IsSpace) && Blanks(b, IsSpace) && v == a + (w + b + ("#" + comment))
  }

  // ----- values -----

  lemma QuotedIsTrimmed(q: char, w: string)
    requires IsQuote(q)
    ensures Trimmed(Quoted(q, w)) && Quoted(q, w)[1..|Quoted(q, w)| - 1] == w
  {
  }

  lemma QuotedCooks(v: string, w: string)
    requires QuotedText(v, w)
    ensures CookValue(v) == w
  {
    var a, q, b :| Blanks(a, IsSpace) && IsQuote(q) && Blanks(b, IsSpace) && v == a + Quoted(q, w) + b;
    QuotedIsTrimmed(q, w);
    StripPadded(a, Quoted(q, w), b, IsSpace);
  }

  lemma BareCooks(v: string, w: string)
    requires BareValue(w) && BareText(v, w)
    ensures CookValue(v) == w
  {
    var a, b :| Blanks(a, IsSpace) && Blanks(b, IsSpace) && v == a + w + b;
    StripPadded(a, w, b, IsSpace);
    CommentRule(w);
  }

  lemma StripsToComment(a: string, w: string, b: string, comment: string)
    requires BareValue(w) && Blanks(a, IsSpace)
    ensures Strip(a + (w + b + ("#" + comment))) == w + b + ("#" + RStrip(comment))
  {
    var core, tail := w + b + ("#" + RStrip(comment)), comment[|RStrip(comment)|..];
    assert a + (w + b + ("#" + comment)) == a + core + tail;
    assert Trimmed(core) by {
      assert core[0] == w[0];
      assert RStrip(comment) != "" ==> core[|core| - 1] == RStrip(comment)[|RStrip(comment)| - 1];
      assert RStrip(comment) == "" ==> core[|core| - 1] == '#';
    }
    StripPadded(a, core, tail, IsSpace);
  }

  lemma BlanksHaveNoHash(b: string)
    requires Blanks(b, IsSpace)
    ensures forall i :: 0 <= i < |b| ==> b[i] != '#'
  {
    forall i | 0 <= i < |b| ensures b[i] != '#' { assert b[i] in b; }
  }

  lemma HashBehind(w: string, b: string, rest: string)
    requires BareValue(w) && Blanks(b, IsSpace)
    ensures var s := w + b + ("#" + rest);
            BareHash(s) == |w| + |b| && s[..|w| + |b|] == w + b && s[0] == w[0]
  {
    BlanksHaveNoHash(b);
    var s := w + b + ("#" + rest);
    assert s[|w| + |b|] == '#';
    assert forall i :: 1 <= i < |w| + |b| ==> s[i] == if i < |w| then w[i] else b[i - |w|];
  }

  lemma CutAtComment(w: string, b: string, rest: string)
    requires BareValue(w) && Blanks(b, IsSpace)
    ensures CookStripped(w + b + ("#" + rest)) == w
  {
    var s := w + b + ("#" + rest);
    HashBehind(w, b, rest);
    CommentRule(s);
    NoLead(w + b);
    StripPadded("", w, b, IsSpace);
  }

  lemma NoLead(s: string)
    ensures "" + s == s && Blanks("", IsSpace)
  {
  }

  lemma CommentedCooks(v: string, w: string)
    requires BareValue(w) && CommentedText(v, w)
    ensures CookValue(v) == w
  {
    var a, b, comment :| Blanks(a, IsSpace) && Blanks(b, IsSpace) && v == a + (w + b + ("#" + comment));
    StripsToComment(a, w, b, comment);
    CutAtComment(w, b, RStrip(comment));
  }

  // ----- lines -----

  lemma LeadIsIgnored(lead: string, s: string)
    requires Blanks(lead, IsSpace) && s != "" && !IsSpace(s[0])
    ensures ParseLine(lead + s) == ParseLine(s)
  {
    StripFromHead(s, IsSpace);
    StripLead(lead, s, IsSpace);
  }

  lemma FreshText(k: string, v: string)
    requires GoodKey()(k)
    ensures var s := k + "=" + v;
            s == FreshLine(EnvLexicon(), k, v) && s != "" && !IsSpace(s[0])
  {
  }

  lemma PlainEntryParses(lead: string, k: string, v: string)
    requires GoodKey()(k) && Blanks(lead, IsSpace)
    ensures ParseLine(lead + (k + "=" + v)) == Some(Binding(k, CookValue(v)))
  {
    FreshText(k, v);
    FreshLineParses(k, v);
    LeadIsIgnored(lead, k + "=" + v);
  }

  lemma ExportText(s: string)
    ensures "export " + s == EXPORT + s
    ensures "export " + s != "" && !IsSpace(("export " + s)[0])
  {
  }

  lemma ExportedEntryParses(lead: string, k: string, v: string)
    requires GoodKey()(k) && Blanks(lead, IsSpace)
    ensures ParseLine(lead + ("export " + (k + "=" + v))) == Some(Binding(k, CookValue(v)))
  {
    FreshText(k, v);
    ExportLineParses(k, v);
    ExportText(k + "=" + v);
    LeadIsIgnored(lead, "export " + (k + "=" + v));
  }

  lemma EntryLineParses(line: string, k: string, v: string)
    requires GoodKey()(k) && EntryLine(line, k, v)
    ensures ParseLine(line) == Some(Binding(k, CookValue(v)))
  {
    var lead :| Blanks(lead, IsSpace) && line in {lead + (k + "=" + v), lead + ("export " + (k + "=" + v))};
    if line == lead + (k + "=" + v) {
      PlainEntryParses(lead, k, v);
    } else {
      ExportedEntryParses(lead, k, v);
    }
  }

  // ----- files -----

  // The value the text behind the equals sign stands for.
  ghost predicate Means(v: string, w: string) {
    QuotedText(v, w) || (BareValue(w) && (BareText(v, w) || CommentedText(v, w)))
  }

  // Line i is an entry for the key, and no later line parses to one.
  ghost predicate LastEntry(lines: seq<string>, i: nat, k: string, v: string) {
    && i < |lines| && EntryLine(lines[i], k, v)
    && forall j :: i < j < |lines| ==> BoundBy(lines[j], ParseLine, k).None?
  }

  lemma MeansCooked(v: string, w: string)
    requires Means(v, w)
    ensures CookValue(v) == w
  {
    if QuotedText(v, w) {
      QuotedCooks(v, w);
    } else if BareText(v, w) {
      BareCooks(v, w);
    } else {
      CommentedCooks(v, w);
    }
  }

  lemma LastEntryDecides(lines: seq<string>, i: nat, k: string, v: string)
    requires GoodKey()(k) && LastEntry(lines, i, k, v)
    ensures k in Collect(lines, ParseLine) && Collect(lines, ParseLine)[k] == CookValue(v)
  {
    EntryLineParses(lines[i], k, v);
    LastDecides(lines, ParseLine, i, Binding(k, CookValue(v)));
  }

  // The last entry for a key decides: a quoted value is read verbatim, whatever stands between
  // the quotes; a bare one ends at its comment.
  lemma EntryIsRead(lines: seq<string>, i: nat, k: string, v: string, w: string)
    requires lines != [] && forall j :: 0 <= j < |lines| ==> NoLineBreak(lines[j])
    requires GoodKey()(k) && LastEntry(lines, i, k, v) && Means(v, w)
    ensures var parsed := ParsedFile(Some(Join(lines, '\n') + "\n"));
            k in parsed && parsed[k] == w
  {
    WrittenTextLines(lines);
    LastEntryDecides(lines, i, k, v);
    MeansCooked(v, w);
  }

  lemma OneLineFile(line: string)
    requires NoLineBreak(line)
    ensures Lines(Some(line + "\n")) == [line]
  {
    WrittenTextLines([line]);
  }

  lemma OneLineIsRead(line: string)
    requires NoLineBreak(line) && ParseLine(line).Some?
    ensures ParsedFile(Some(line + "\n")) == map[ParseLine(line).value.key := ParseLine(line).value.value]
  {
    OneLineFile(line);
    CollectOne(line, ParseLine);
  }

  lemma QuotedIsText(a: string, q: char, w: string, b: string)
    requires IsQuote(q) && Blanks(a, IsSpace) && Blanks(b, IsSpace)
    ensures CookValue(a + [q] + w + [q] + b) == w
  {
    var v := a + [q] + w + [q] + b;
    assert v == a + Quoted(q, w) + b;
    assert QuotedText(v, w);
    QuotedCooks(v, w);
  }

  // A file of one line, with any blanks around the quotes.
  lemma QuotedLineIsRead(k: string, a: string, q: char, w: string, b: string)
    requires GoodKey()(k) && IsQuote(q) && Blanks(a, IsSpace) && Blanks(b, IsSpace)
    requires NoLineBreak(k + "=" + (a + [q] + w + [q] + b))
    ensures ParsedFile(Some(k + "=" + (a + [q] + w + [q] + b) + "\n")) == map[k := w]
  {
    var v := a + [q] + w + [q] + b;
    QuotedIsText(a, q, w, b);
    NoLead(k + "=" + v);
    PlainEntryParses("", k, v);
    OneLineIsRead(k + "=" + v);
  }

  lemma BetweenQuotes(q: char, w: string)
    requires IsQuote(q)
    ensures CookValue([q] + w + [q]) == w
  {
    QuotedIsTrimmed(q, w);
  }

  // Writing a quoted value into any file and reading it gives what is between the quotes.
  lemma UpdateUnquotes(raw: Option<string>, k: string, q: char, w: string)
    requires GoodKey()(k) && NoLineBreak(k) && NoLineBreak([q] + w + [q]) && IsQuote(q)
    ensures var parsed := ParsedFile(Some(UpdatedText(raw, [Binding(k, [q] + w + [q])])));
            k in parsed && parsed[k] == w
  {
    BetweenQuotes(q, w);
    OneUpdateReads(raw, k, [q] + w + [q]);
  }

  // Nothing is read from a comment, or from a line without an equals sign.
  lemma CommentIsSkipped(lead: string, comment: string)
    requires Blanks(lead, IsSpace)
    ensures ParseLine(lead + ("#" + comment)) == None
  {
    LeadIsIgnored(lead, "#" + comment);
    StripFromHead("#" + comment, IsSpace);
  }

  // The text of a file that did not exist.
  lemma NewFileReads(k: string, v: string)
    ensures UpdatedText(None, [Binding(k, v)])
            == "# --- Keycloak " + "credentials " + "(provisioned automatically) ---" + "\n" + (k + "=" + v) + "\n"
  {
    NewFileText(k, v);
    JoinTwo(HEADER, k + "=" + v, '\n');
  }

  // ----- what an update writes -----

  // "export " in front, blanks aside.
  ghost predicate Exported(line: string) { exists lead, rest :: ExportedAs(line, lead, rest) }

  ghost predicate ExportedAs(line: string, lead: string, rest: string) {
    Blanks(lead, IsSpace) && line == lead + ("export " + rest)
  }

  lemma ExportedIff(line: string)
    ensures EXPORT <= LStrip(line) <==> Exported(line)
  {
    if EXPORT <= LStrip(line) {
      var lead := LStripSplits(line, IsSpace);
      PrefixSplit(EXPORT, LStrip(line));
      assert ExportedAs(line, lead, LStrip(line)[|EXPORT|..]);
    }
    if lead, rest :| ExportedAs(line, lead, rest) {
      ExportText(rest);
      LStripPadded(lead, "export " + rest, IsSpace);
    }
  }

  lemma RewrittenLine(line: string, k: string, v: string)
    ensures RewriteLine(EnvLexicon(), line, k, v) == (if Exported(line) then "export " else "") + (k + "=" + v)
  {
    ExportedIff(line);
    ExportText(k + "=" + v);
    NoLead(k + "=" + v);
  }

  lemma BodyOfOne<L, K, V>(g: Grammar<L, K, V>, lines: seq<L>, k: K, v: V, i: nat)
    requires i < |lines|
    ensures BodyAfter(g, lines, [Binding(k, v)], 1)[i] == if LastIndex(g, lines, k) == i then g.rewrite(lines[i], k, v) else lines[i]
  {
    assert LineAfter(g, lines, [Binding(k, v)], 0, i) == lines[i];
  }

  lemma OneFound<L, K, V>(g: Grammar<L, K, V>, lines: seq<L>, k: K, v: V, glue: seq<L>)
    requires LastIndex(g, lines, k) >= 0
    ensures Written(g, lines, [Binding(k, v)], glue) == lines[LastIndex(g, lines, k) := g.rewrite(lines[LastIndex(g, lines, k)], k, v)]
  {
    var updates := [Binding(k, v)];
    forall i: nat | i < |lines| { BodyOfOne(g, lines, k, v, i); }
    assert Appended(g, lines, updates, 0) == [];
    assert Appended(g, lines, updates, 1) == [];
  }

  lemma OneMissing<L, K, V>(g: Grammar<L, K, V>, lines: seq<L>, k: K, v: V, glue: seq<L>)
    requires LastIndex(g, lines, k) == -1
    ensures Written(g, lines, [Binding(k, v)], glue) == lines + (glue + [g.make(k, v)])
    ensures BodyAfter(g, lines, [Binding(k, v)], 1) == lines
  {
    var updates := [Binding(k, v)];
    forall i: nat | i < |lines| { BodyOfOne(g, lines, k, v, i); }
    assert Appended(g, lines, updates, 0) == [];
    assert Appended(g, lines, updates, 1) == [g.make(k, v)];
  }

  // A found line is overwritten in place, and stays exported when it was.
  lemma OverwritesInPlace(lines: seq<string>, k: string, v: string, i: nat)
    requires LastIndex(EnvGrammar(), lines, k) == i
    ensures UpdatedLines(lines, [Binding(k, v)]) == lines[i := (if Exported(lines[i]) then "export " else "") + (k + "=" + v)]
  {
    RewrittenLine(lines[i], k, v);
    OneFound(EnvGrammar(), lines, k, v, Glue(BodyAfter(EnvGrammar(), lines, [Binding(k, v)], 1)));
  }

  lemma BlankIff(s: string)
    ensures Strip(s) == "" <==> Blanks(s, IsSpace)
  {
    var a, b := StripSplits(s, IsSpace);
    if Strip(s) != "" {
      assert Strip(s)[0] in s;
    }
  }

  // Otherwise the entry goes to the end, under a heading that an empty line sets off.
  lemma AppendsAtTheEnd(lines: seq<string>, k: string, v: string)
    requires LastIndex(EnvGrammar(), lines, k) == -1
    ensures UpdatedLines(lines, [Binding(k, v)])
            == lines
               + ((if lines == [] || Blanks(lines[|lines| - 1], IsSpace) then [] else [""])
                  + ["# --- Keycloak " + "credentials " + "(provisioned automatically) ---"] + [k + "=" + v])
  {
    OneMissing(EnvGrammar(), lines, k, v, Glue(lines));
    if lines != [] {
      BlankIff(lines[|lines| - 1]);
    }
  }
}
