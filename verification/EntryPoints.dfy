// scripts/generate_entry_points.py: the onex.nodes section of pyproject.toml.
module EntryPoints {
  import opened Wrappers
  import opened Sequences
  import opened Text
  import opened TextLines
  import opened SectionSplice
  import opened SectionSync

  const HEADER := "[project.entry-points.\"onex.nodes\"]"

  function NodesSyntax(): Syntax<char> { SectionSplice.Syntax(HEADER, '\n', '[') }

  lemma SyntaxValid()
    ensures Valid(NodesSyntax()) && '\r' !in HEADER && HEADER[|HEADER| - 1] == ']'
  {
  }

  // The line of one node.
  function Entry(name: string, package: string): string {
    name + " = \"" + package + ".nodes." + name + "\""
  }

  function Entries(names: seq<string>, package: string): seq<string> {
    seq(|names|, i requires 0 <= i < |names| => Entry(names[i], package))
  }

  // The lines below the header, each with its newline.
  function Body(names: seq<string>, package: string): string {
    if names == [] then "" else Join(Entries(names, package), '\n') + "\n"
  }

  function Generated(names: seq<string>, package: string): string { Section(NodesSyntax(), Body(names, package)) }

  lemma JoinHeader(header: string, lines: seq<string>)
    ensures Join([header] + lines, '\n') + "\n"
            == header + ['\n'] + (if lines == [] then "" else Join(lines, '\n') + "\n")
  {
    assert ([header] + lines)[1..] == lines;
  }

  // build_entry_point_section
  method BuildSection(names: seq<string>, package: string) returns (section: string)
    ensures section == Generated(names, package)
  {
    var lines := [HEADER];
    for i := 0 to |names|
      invariant lines == [HEADER] + Entries(names, package)[..i]
    {
      lines := lines + [Entry(names[i], package)];
    }
    assert Entries(names, package)[..|names|] == Entries(names, package);
    JoinHeader(HEADER, Entries(names, package));
    section := Join(lines, '\n') + "\n";
  }

  // What generate_mode writes for a file, and what check_mode makes of it.
  function Updated(raw: string, names: seq<string>, package: string): string {
    Splice(NodesSyntax(), ReadText(raw), Body(names, package), IsSpace)
  }

  predicate Current(raw: string, names: seq<string>, package: string) {
    InSync(NodesSyntax(), ReadText(raw), Body(names, package))
  }

  class Pyproject {
    // The file's text, if there is a file.
    var raw: Option<string>

    constructor (raw: Option<string>)
      ensures this.raw == raw
    {
      this.raw := raw;
    }

    // check_mode
    method Check(names: seq<string>, package: string) returns (code: nat)
      ensures code == if raw.Some? && Current(raw.value, names, package) then 0 else 1
    {
      var generated := BuildSection(names, package);
      if raw.None? {
        return 1;
      }
      var existing := Existing(NodesSyntax(), ReadText(raw.value));
      code := if Trim(NodesSyntax(), existing) == Trim(NodesSyntax(), generated) then 0 else 1;
    }

    // generate_mode; false stands for FileNotFoundError
    method Generate(names: seq<string>, package: string) returns (found: bool)
      modifies this
      ensures found == old(raw).Some?
      ensures raw == if found then Some(Updated(old(raw).value, names, package)) else None
    {
      var section := BuildSection(names, package);
      if raw.None? {
        return false;
      }
      var current := ReadText(raw.value);
      if FirstMatch(NodesSyntax(), current).Some? {
        raw := Some(ReplaceAll(NodesSyntax(), current, section + ['\n']));
      } else {
        raw := Some(RStrip(current) + ['\n', '\n'] + section + ['\n']);
      }
      found := true;
    }
  }

  // ----- the generated lines -----

  // Neither the package nor a node name contains c.
  ghost predicate Free(names: seq<string>, package: string, c: char) {
    names == [] || (c !in package && forall i: nat :: i < |names| ==> c !in names[i])
  }

  lemma EntryHas(name: string, package: string, c: char)
    requires c == '[' || c == '\r' || c == '\n'
    ensures c in Entry(name, package) <==> c in name || c in package
  {
  }

  lemma {:induction false} JoinHas<T>(lines: seq<seq<T>>, sep: T, c: T)
    requires c != sep
    ensures c in Join(lines, sep) <==> exists i: nat :: i < |lines| && c in lines[i]
  {
    if |lines| > 1 {
      JoinHas(lines[1..], sep, c);
      assert forall i: nat :: i < |lines| - 1 ==> lines[1..][i] == lines[i + 1];
      if i: nat :| i < |lines| && c in lines[i] {
        assert i > 0 ==> c in lines[1..][i - 1];
      }
    }
  }

  lemma BodyHas(names: seq<string>, package: string, c: char)
    requires c == '[' || c == '\r'
    ensures c in Body(names, package) <==> !Free(names, package, c)
  {
    if names != [] {
      var lines := Entries(names, package);
      JoinHas(lines, '\n', c);
      forall i: nat | i < |lines| ensures c in lines[i] <==> c in names[i] || c in package {
        EntryHas(names[i], package, c);
      }
      assert c in package ==> c in lines[0];
    }
  }

  lemma BodyIsEntries(names: seq<string>, package: string)
    ensures IsEntries(NodesSyntax(), Body(names, package)) && (Body(names, package) == "" <==> names == [])
  {
    if names != [] {
      var lines := Entries(names, package);
      JoinHas(lines, '\n', '=');
      assert lines[0] == names[0] + " = \"" + package + ".nodes." + names[0] + "\"";
      assert lines[0][|names[0]| + 1] == '=';
      assert '=' in Body(names, package);
    }
  }

  // ----- text-mode reading -----

  lemma UpdatedReadsBack(raw: string, names: seq<string>, package: string)
    requires Free(names, package, '\r')
    ensures ReadText(Updated(raw, names, package)) == Updated(raw, names, package)
  {
    SyntaxValid();
    ReadTextHasNoReturn(raw);
    BodyHas(names, package, '\r');
    SpliceHasOnly(NodesSyntax(), ReadText(raw), Body(names, package), IsSpace, '\r');
    ReadTextIdentity(Updated(raw, names, package));
  }

  // ----- generate, then check -----

  // There is nothing to generate, or no name contains a bracket and the file, unless it has a
  // section already, does not end in a bare header line.
  ghost predicate Settled(raw: string, names: seq<string>, package: string) {
    names == []
    || (Free(names, package, '[')
        && (FirstMatch(NodesSyntax(), ReadText(raw)).None? ==> !EndsWith(RStrip(ReadText(raw)), HEADER)))
  }

  lemma SettledIff(raw: string, names: seq<string>, package: string)
    ensures Settled(raw, names, package) <==> Settles(NodesSyntax(), ReadText(raw), Body(names, package), IsSpace)
  {
    BodyHas(names, package, '[');
    BodyIsEntries(names, package);
  }

  lemma ReturnIsNotFound(raw: string, names: seq<string>, package: string)
    requires !Free(names, package, '\r')
    ensures !Current(raw, names, package)
  {
    BodyHas(names, package, '\r');
    ReadTextHasNoReturn(raw);
    ForeignIsNotFound(NodesSyntax(), ReadText(raw), Body(names, package), '\r');
  }

  // After generating, the check returns 0 exactly for settled files and names without
  // carriage returns.
  lemma GenerateThenCheck(raw: string, names: seq<string>, package: string)
    ensures Current(Updated(raw, names, package), names, package)
            <==> Settled(raw, names, package) && Free(names, package, '\r')
  {
    if Free(names, package, '\r') {
      SyntaxValid();
      UpdatedReadsBack(raw, names, package);
      BodyIsEntries(names, package);
      SettledIff(raw, names, package);
      SyncIffSettles(NodesSyntax(), ReadText(raw), Body(names, package), IsSpace);
    } else {
      ReturnIsNotFound(Updated(raw, names, package), names, package);
    }
  }

  // A section whose lines end in a newline is read back as the section of its lines read back.
  lemma SectionReads(x: Syntax<char>, lines: string, rest: string)
    requires '\r' !in x.header && x.newline == '\n' && lines != "" && lines[|lines| - 1] == '\n'
    ensures ReadText(Section(x, lines) + rest) == Section(x, ReadText(lines)) + ReadText(rest)
  {
    var head := x.header + ['\n'];
    assert Section(x, lines) + rest == head + (lines + rest);
    ReadTextAppend(head, lines + rest);
    ReadTextSplit(lines, rest);
    Reassociate(head, ReadText(lines), ReadText(rest));
  }

  lemma {:induction false} ReplaceReads(x: Syntax<char>, s: string, lines: string)
    requires '\r' !in x.header && x.newline == '\n' && lines != "" && lines[|lines| - 1] == '\n' && '\r' !in s
    ensures ReadText(ReplaceAll(x, s, Section(x, lines))) == ReplaceAll(x, s, Section(x, ReadText(lines)))
    decreases |s|
  {
    var found := FirstMatch(x, s);
    if found.Some? {
      var m := found.value;
      PartsLackReturn(x, m);
      ReplaceReads(x, m.rest, lines);
      ReadTextAppend(m.front, Section(x, lines) + ReplaceAll(x, m.rest, Section(x, lines)));
      SectionReads(x, lines, ReplaceAll(x, m.rest, Section(x, lines)));
    } else {
      LacksReturn(s);
      ReadTextIdentity(s);
    }
  }

  lemma LacksReturn(s: string)
    requires '\r' !in s
    ensures forall i :: 0 <= i < |s| ==> s[i] != '\r'
  {
  }

  lemma PartsLackReturn(x: Syntax<char>, m: Match<char>)
    requires '\r' !in Whole(x, m)
    ensures '\r' !in m.front && '\r' !in m.rest
  {
    var s := Whole(x, m);
    assert forall i :: 0 <= i < |m.front| ==> s[i] == m.front[i];
    assert forall i :: 0 <= i < |m.rest| ==> s[|s| - |m.rest| + i] == m.rest[i];
  }

  lemma TrimmedLacksReturn(s: string)
    requires '\r' !in s
    ensures '\r' !in RStrip(s) + ['\n', '\n']
  {
    var r := RStrip(s);
    assert forall i :: 0 <= i < |r| ==> r[i] == s[i];
  }

  // What was written is read back with the lines of the section read back.
  lemma SpliceReads(s: string, lines: string)
    requires lines != "" && lines[|lines| - 1] == '\n' && '\r' !in s
    ensures ReadText(SpliceLines(NodesSyntax(), s, lines, IsSpace)) == SpliceLines(NodesSyntax(), s, ReadText(lines), IsSpace)
  {
    var x := NodesSyntax();
    SyntaxValid();
    if FirstMatch(x, s).Some? {
      ReplaceReads(x, s, lines);
    } else {
      TrimmedLacksReturn(s);
      ReadTextAppend(RStrip(s) + ['\n', '\n'], Section(x, lines));
      SectionReads(x, lines, "");
      assert Section(x, lines) + "" == Section(x, lines);
      assert Section(x, ReadText(lines)) + ReadText("") == Section(x, ReadText(lines));
    }
  }

  lemma LinesReadAs(body: string)
    ensures ReadsAs(NodesSyntax(), body, ReadText(body + "\n"))
  {
    ReadEndsInNewline(body);
    ReadTextCounts(body + "\n", '[');
  }

  // Generating twice equals generating once exactly for settled files.
  lemma GenerateTwice(raw: string, names: seq<string>, package: string)
    ensures Updated(Updated(raw, names, package), names, package) == Updated(raw, names, package)
            <==> Settled(raw, names, package)
  {
    var x, s, body := NodesSyntax(), ReadText(raw), Body(names, package);
    SyntaxValid();
    ReadTextHasNoReturn(raw);
    SpliceIsLines(x, s, body, IsSpace);
    SpliceReads(s, body + ['\n']);
    BodyIsEntries(names, package);
    SettledIff(raw, names, package);
    LinesReadAs(body);
    TwiceIffSettles(x, s, body, ReadText(body + ['\n']), IsSpace);
  }

  // A file without a section that ends in a bare header never settles while there are nodes.
  lemma BareHeaderNeverSettles(text: string, names: seq<string>, package: string)
    requires '\r' !in text && Headless(NodesSyntax(), text + HEADER) && names != []
    ensures !Current(Updated(text + HEADER, names, package), names, package)
  {
    SyntaxValid();
    ReadTextIdentity(text + HEADER);
    TailStays(text, HEADER, IsSpace);
    GenerateThenCheck(text + HEADER, names, package);
  }

  // ----- what generating leaves of the file -----

  // No carriage return survives: line endings become newlines everywhere.
  lemma ReturnsAreLost(raw: string, names: seq<string>, package: string)
    requires Free(names, package, '\r')
    ensures '\r' !in Updated(raw, names, package)
  {
    UpdatedReadsBack(raw, names, package);
    ReadTextHasNoReturn(Updated(raw, names, package));
  }

  lemma UpdatedSection(s: string, names: seq<string>, package: string)
    requires FirstMatch(NodesSyntax(), s).Some?
    ensures Splice(NodesSyntax(), s, Body(names, package), IsSpace) == ReplaceAll(NodesSyntax(), s, Generated(names, package) + ['\n'])
  {
  }

  // A file with newlines only keeps all its text outside the sections, and every section
  // becomes the generated one.
  lemma TextIsKept(raw: string, names: seq<string>, package: string) returns (gaps: seq<string>, bodies: seq<string>)
    requires '\r' !in raw && FirstMatch(NodesSyntax(), raw).Some?
    ensures Parsed(NodesSyntax(), gaps, bodies) && raw == Weave(gaps, Sections(NodesSyntax(), bodies))
    ensures Updated(raw, names, package) == Weave(gaps, Copies(|bodies|, Generated(names, package) + ['\n']))
  {
    SyntaxValid();
    LacksReturn(raw);
    ReadTextIdentity(raw);
    UpdatedSection(raw, names, package);
    gaps, bodies := ReplaceKeepsGaps(NodesSyntax(), raw, Generated(names, package) + ['\n']);
  }

  // The text in front of the first section.
  function FrontLength(raw: string): nat
    requires FirstMatch(NodesSyntax(), ReadText(raw)).Some?
  {
    |FirstMatch(NodesSyntax(), ReadText(raw)).value.front|
  }

  lemma {:induction false} ReadIsShorter(raw: string)
    ensures |ReadText(raw)| <= |raw|
    decreases |raw|
  {
    if raw != "" {
      ReadIsShorter(raw[Step(raw)..]);
    }
  }

  lemma UpdatedFront(raw: string, names: seq<string>, package: string)
    requires FirstMatch(NodesSyntax(), ReadText(raw)).Some?
    ensures FrontLength(raw) <= |raw| && FrontLength(raw) <= |Updated(raw, names, package)|
    ensures Updated(raw, names, package)[..FrontLength(raw)] == ReadText(raw)[..FrontLength(raw)]
  {
    ReadIsShorter(raw);
    UpdatedSection(ReadText(raw), names, package);
  }

  // In any file with a section the text in front of it is kept as it is exactly when it has no
  // carriage return.
  lemma FrontIsKeptIff(raw: string, names: seq<string>, package: string)
    requires FirstMatch(NodesSyntax(), ReadText(raw)).Some?
    ensures FrontLength(raw) <= |raw| && FrontLength(raw) <= |Updated(raw, names, package)|
    ensures Updated(raw, names, package)[..FrontLength(raw)] == raw[..FrontLength(raw)] <==> '\r' !in raw[..FrontLength(raw)]
  {
    UpdatedFront(raw, names, package);
    FrontReads(raw, FrontLength(raw));
  }

  // A missing section is added at the end of the right-trimmed text.
  lemma SectionIsAppended(raw: string, names: seq<string>, package: string)
    requires FirstMatch(NodesSyntax(), ReadText(raw)).None?
    ensures Updated(raw, names, package) == RStrip(ReadText(raw)) + ['\n', '\n'] + Generated(names, package) + ['\n']
  {
  }

  lemma TrimmedReads(raw: string)
    requires '\r' !in RStrip(raw)
    ensures RStrip(ReadText(raw)) == RStrip(raw)
  {
    var r := RStrip(raw);
    var tail := raw[|r|..];
    assert raw == r + tail;
    ReadTextAppend(r, tail);
    ReadBlanks(tail);
    RStripBlanks(r, ReadText(tail));
  }

  lemma {:induction false} RStripBlanks(r: string, tail: string)
    requires r == "" || !IsSpace(r[|r| - 1])
    requires forall i :: 0 <= i < |tail| ==> IsSpace(tail[i])
    ensures RStrip(r + tail) == r
  {
    if tail == "" {
      assert r + tail == r;
    } else {
      assert (r + tail)[..|r + tail| - 1] == r + tail[..|tail| - 1];
      RStripBlanks(r, tail[..|tail| - 1]);
    }
  }

  // In a file without a section the right-trimmed text is kept as it is exactly when it has no
  // carriage return; only names without one are considered.
  lemma AppendKeepsTextIff(raw: string, names: seq<string>, package: string)
    requires FirstMatch(NodesSyntax(), ReadText(raw)).None? && Free(names, package, '\r')
    ensures RStrip(raw) <= Updated(raw, names, package) <==> '\r' !in RStrip(raw)
  {
    ReturnsAreLost(raw, names, package);
    if '\r' !in RStrip(raw) {
      TrimmedReads(raw);
    } else if RStrip(raw) <= Updated(raw, names, package) {
      PrefixMembers(RStrip(raw), Updated(raw, names, package), '\r');
    }
  }

  lemma PrefixMembers<T>(p: seq<T>, s: seq<T>, c: T)
    requires p <= s && c in p
    ensures c in s
  {
  }

  // ----- what a passing check means -----

  lemma TrimNothing(s: string)
    requires s != "" && s[|s| - 1] != '\n'
    ensures Trim(NodesSyntax(), s + "\n") == s
  {
    TrimNewline(NodesSyntax(), s);
  }

  // The section's text without its final newline.
  lemma GeneratedLines(names: seq<string>, package: string)
    ensures Trim(NodesSyntax(), Generated(names, package)) == Join([HEADER] + Entries(names, package), '\n')
  {
    var s := Join([HEADER] + Entries(names, package), '\n');
    JoinHeader(HEADER, Entries(names, package));
    LastOfJoin([HEADER] + Entries(names, package));
    TrimNothing(s);
  }

  lemma {:induction false} LastOfJoin(lines: seq<string>)
    requires lines != [] && forall i: nat :: i < |lines| ==> lines[i] != "" && lines[i][|lines[i]| - 1] != '\n'
    ensures Join(lines, '\n') != "" && Join(lines, '\n')[|Join(lines, '\n')| - 1] != '\n'
  {
    if |lines| > 1 {
      LastOfJoin(lines[1..]);
    }
  }

  lemma EntryInjective(a: string, b: string, package: string)
    requires Entry(a, package) == Entry(b, package)
    ensures a == b
  {
    assert |Entry(a, package)| == 2 * |a| + |package| + 12;
    assert |Entry(b, package)| == 2 * |b| + |package| + 12;
    assert a == Entry(a, package)[..|a|];
    assert b == Entry(b, package)[..|b|];
  }

  lemma EntriesInjective(a: seq<string>, b: seq<string>, package: string)
    requires Entries(a, package) == Entries(b, package)
    ensures a == b
  {
    assert |a| == |Entries(a, package)| == |b|;
    forall i: nat | i < |a| ensures a[i] == b[i] {
      assert Entries(a, package)[i] == Entries(b, package)[i];
      EntryInjective(a[i], b[i], package);
    }
  }

  lemma EntriesOnOneLine(names: seq<string>, package: string)
    requires Free(names, package, '\n')
    ensures forall i: nat :: i < |names| ==> '\n' !in Entries(names, package)[i]
  {
    forall i: nat | i < |names| ensures '\n' !in Entries(names, package)[i] {
      EntryHas(names[i], package, '\n');
    }
  }

  lemma LinesInjective<T>(header: seq<T>, a: seq<seq<T>>, b: seq<seq<T>>, sep: T)
    requires sep !in header
    requires forall i: nat :: i < |a| ==> sep !in a[i]
    requires forall i: nat :: i < |b| ==> sep !in b[i]
    requires Join([header] + a, sep) == Join([header] + b, sep)
    ensures a == b
  {
    JoinInjective([header] + a, [header] + b, sep);
    assert a == ([header] + a)[1..] && b == ([header] + b)[1..];
  }

  // A file that passes the check for some nodes passes it for no others: after a node is
  // added, removed, renamed or reordered the check returns 1.
  lemma CurrentIdentifiesNodes(raw: string, a: seq<string>, b: seq<string>, package: string)
    requires Free(a, package, '\n') && Free(b, package, '\n')
    requires Current(raw, a, package) && Current(raw, b, package)
    ensures a == b
  {
    GeneratedLines(a, package);
    GeneratedLines(b, package);
    SyntaxValid();
    EntriesOnOneLine(a, package);
    EntriesOnOneLine(b, package);
    LinesInjective(HEADER, Entries(a, package), Entries(b, package), '\n');
    EntriesInjective(a, b, package);
  }
}
