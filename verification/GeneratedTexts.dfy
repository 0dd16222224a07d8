// The texts scripts/generate_entry_points.py and scripts/check_schema_fingerprint.py produce,
// line by line.
module GeneratedTexts {
  import opened Wrappers
  import opened Text
  import opened TextLines
  import opened Ordering
  import opened LineLexer
  import opened Padding
  import opened SchemaFingerprint
  import EntryPoints

  // ----- entry points -----

  // name = "package.nodes.name"
  ghost predicate EntryFor(line: string, name: string, package: string) {
    line == name + (" = \"" + (package + ".nodes." + name) + "\"")
  }

  lemma EntryText(name: string, package: string)
    ensures EntryFor(EntryPoints.Entry(name, package), name, package)
  {
  }

  lemma EntryUnbroken(name: string, package: string)
    requires NoLineBreak(name) && NoLineBreak(package)
    ensures NoLineBreak(EntryPoints.Entry(name, package))
  {
    AppendUnbroken(name, " = \"", IsLineBreak);
    AppendUnbroken(name + " = \"", package, IsLineBreak);
    AppendUnbroken(name + " = \"" + package, ".nodes.", IsLineBreak);
    AppendUnbroken(name + " = \"" + package + ".nodes.", name, IsLineBreak);
  }

  lemma JoinedLines(lines: seq<string>)
    requires lines != [] && forall i :: 0 <= i < |lines| ==> NoLineBreak(lines[i])
    ensures SplitBy(Join(lines, '\n') + "\n", IsLineBreak) == lines
  {
    assert forall i :: 0 <= i < |lines| ==> Unbroken(lines[i], IsLineBreak);
    SplitJoin(lines, '\n', IsLineBreak);
  }

  lemma EntriesAre(names: seq<string>, package: string, i: nat)
    requires i < |names| && NoLineBreak(package) && NoLineBreak(names[i])
    ensures var line := EntryPoints.Entries(names, package)[i];
            NoLineBreak(line) && EntryFor(line, names[i], package)
  {
    EntryUnbroken(names[i], package);
    EntryText(names[i], package);
  }

  lemma HeaderUnbroken()
    ensures NoLineBreak(EntryPoints.HEADER)
  {
  }

  lemma SectionSplits(names: seq<string>, package: string)
    requires NoLineBreak(package) && forall i :: 0 <= i < |names| ==> NoLineBreak(names[i])
    ensures SplitBy(EntryPoints.Generated(names, package), IsLineBreak) == [EntryPoints.HEADER] + EntryPoints.Entries(names, package)
  {
    var entries := EntryPoints.Entries(names, package);
    EntryPoints.JoinHeader(EntryPoints.HEADER, entries);
    HeaderUnbroken();
    forall i | 0 <= i < |names| { EntriesAre(names, package, i); }
    JoinedLines([EntryPoints.HEADER] + entries);
  }

  // The generated section is the header line and one entry per node, in order.
  lemma SectionLines(names: seq<string>, package: string)
    requires NoLineBreak(package) && forall i :: 0 <= i < |names| ==> NoLineBreak(names[i])
    ensures var lines := SplitBy(EntryPoints.Generated(names, package), IsLineBreak);
            && |lines| == |names| + 1
            && lines[0] == "[project.entry-points.\"onex.nodes\"]"
            && forall i :: 0 <= i < |names| ==> EntryFor(lines[i + 1], names[i], package)
  {
    SectionSplits(names, package);
    var entries := EntryPoints.Entries(names, package);
    var lines := [EntryPoints.HEADER] + entries;
    forall i | 0 <= i < |names| ensures EntryFor(lines[i + 1], names[i], package) {
      EntriesAre(names, package, i);
      assert lines[i + 1] == entries[i];
    }
  }

  lemma BlankBehind(s: string)
    requires s != "" && Trimmed(s)
    ensures Strip(s + " ") == s
  {
    RStripPadded(s, " ", IsSpace);
  }

  lemma BlankBefore(s: string)
    requires s != "" && Trimmed(s)
    ensures Strip(" " + s) == s
  {
    StripLead(" ", s, IsSpace);
  }

  lemma EntryCut(line: string, name: string, quoted: string)
    requires line == name + (" = " + quoted) && '=' !in name
    ensures Cut(line, '=') == Some(Halves(name + " ", " " + quoted))
  {
    assert line == (name + " ") + ['='] + (" " + quoted);
    CutUnique(name + " ", " " + quoted, '=');
  }

  function InQuotes(s: string): string { "\"" + s + "\"" }

  lemma QuotedTrimmed(s: string)
    ensures InQuotes(s) != "" && Trimmed(InQuotes(s))
  {
  }

  // An entry line reads back: in front of its first equals sign stands the node, behind it the
  // quoted path of its package.
  lemma EntryReadsBack(line: string, name: string, package: string)
    requires EntryFor(line, name, package) && name != "" && Trimmed(name) && '=' !in name
    ensures Cut(line, '=').Some?
    ensures Strip(Cut(line, '=').value.before) == name
    ensures Strip(Cut(line, '=').value.after) == "\"" + (package + ".nodes." + name) + "\""
  {
    var quoted := InQuotes(package + ".nodes." + name);
    assert " = " + quoted == " = \"" + (package + ".nodes." + name) + "\"";
    EntryCut(line, name, quoted);
    BlankBehind(name);
    QuotedTrimmed(package + ".nodes." + name);
    BlankBefore(quoted);
  }

  // ----- the schema artifact -----

  function ArtifactLines(fingerprint: string, now: string, count: string): seq<string> {
    ["# Schema migration " + "fingerprint for " + "omnibase_infra (auto-generated)",
     "# Regenerate: python " + "scripts/check_" + "schema_fingerprint.py stamp",
     "# Verify:     python " + "scripts/check_" + "schema_fingerprint.py verify",
     "sha256:" + fingerprint,
     "generated_at: " + now,
     "migration_file_count: " + count]
  }

  lemma SplitOff(line: string, rest: string)
    requires NoLineBreak(line)
    ensures SplitBy(line + "\n" + rest, IsLineBreak) == [line] + SplitBy(rest, IsLineBreak)
  {
    SplitLine(line, '\n', rest, IsLineBreak);
  }

  lemma MarkedUnbroken(front: string, s: string)
    requires NoLineBreak(front) && NoLineBreak(s)
    ensures NoLineBreak(front + s)
  {
  }

  lemma TwoLinesOff(a: string, b: string, rest: string)
    requires NoLineBreak(a) && NoLineBreak(b)
    ensures SplitBy(a + "\n" + (b + "\n" + rest), IsLineBreak) == [a, b] + SplitBy(rest, IsLineBreak)
  {
    SplitOff(b, rest);
    SplitOff(a, b + "\n" + rest);
  }

  lemma TrailerText(now: string, count: nat)
    ensures Trailer(now, count) == ("generated_at: " + now) + "\n" + (("migration_file_count: " + Decimal(count)) + "\n" + "")
  {
  }

  lemma TrailerLines(now: string, count: nat)
    requires NoLineBreak(now)
    ensures SplitBy(Trailer(now, count), IsLineBreak) == ["generated_at: " + now, "migration_file_count: " + Decimal(count)]
  {
    NumeralHead(count);
    MarkedUnbroken("generated_at: ", now);
    MarkedUnbroken("migration_file_count: ", Decimal(count));
    TrailerText(now, count);
    TwoLinesOff("generated_at: " + now, "migration_file_count: " + Decimal(count), "");
  }

  lemma Comments()
    ensures NoLineBreak(COMMENT1) && NoLineBreak(COMMENT2) && NoLineBreak(COMMENT3)
  {
    Comment1IsComment();
    Comment2IsComment();
    Comment3IsComment();
  }

  lemma FourLinesOff(a: string, b: string, c: string, d: string, rest: string)
    requires NoLineBreak(a) && NoLineBreak(b) && NoLineBreak(c) && NoLineBreak(d)
    ensures SplitBy(a + "\n" + (b + "\n" + (c + "\n" + (d + "\n" + rest))), IsLineBreak) == [a, b, c, d] + SplitBy(rest, IsLineBreak)
  {
    TwoLinesOff(c, d, rest);
    TwoLinesOff(a, b, c + "\n" + (d + "\n" + rest));
  }

  // It reads back as that number, without a leading zero.
  lemma CountReads(count: nat)
    ensures var digits := Decimal(count);
            AllDigits(digits) && DecimalValue(digits) == count && digits != "" && (count > 0 ==> digits[0] != '0')
  {
    NumeralHead(count);
    NumeralValue("", count);
    assert "" + Decimal(count) == Decimal(count);
  }

  lemma SixLines<T>(a: T, b: T, c: T, d: T, e: T, f: T)
    ensures [a, b, c, d] + [e, f] == [a, b, c, d, e, f]
  {
  }

  // The artifact is these six lines, the last one with the number of migration files.
  lemma ArtifactTextLines(fingerprint: string, now: string, count: nat)
    requires NoLineBreak(fingerprint) && NoLineBreak(now)
    ensures SplitBy(ArtifactText(fingerprint, now, count), IsLineBreak) == ArtifactLines(fingerprint, now, Decimal(count))
  {
    Comments();
    TrailerLines(now, count);
    MarkedUnbroken(MARK, fingerprint);
    FourLinesOff(COMMENT1, COMMENT2, COMMENT3, MARK + fingerprint, Trailer(now, count));
    SixLines(COMMENT1, COMMENT2, COMMENT3, MARK + fingerprint, "generated_at: " + now, "migration_file_count: " + Decimal(count));
  }

  // ----- reading it -----

  // The line is "sha256:" and a value, blanks aside.
  ghost predicate MarkedAs(line: string, value: string) { exists a, b :: MarkedBetween(line, value, a, b) }

  ghost predicate MarkedBetween(line: string, value: string, a: string, b: string) {
    Blanks(a, IsSpace) && Blanks(b, IsSpace) && line == a + ("sha256:" + value) + b
    && (value != "" ==> !IsSpace(value[|value| - 1]))
  }

  ghost predicate Marked(line: string) { exists value :: MarkedAs(line, value) }

  // Line i is the first marked one, and has this value.
  ghost predicate FirstMark(lines: seq<string>, i: nat, value: string) {
    i < |lines| && MarkedAs(lines[i], value) && forall j :: 0 <= j < i ==> !Marked(lines[j])
  }

  ghost predicate FirstMarkIs(lines: seq<string>, value: string) { exists i: nat :: FirstMark(lines, i, value) }

  lemma MarkedIsTrimmed(value: string)
    requires value != "" ==> !IsSpace(value[|value| - 1])
    ensures Trimmed("sha256:" + value) && ("sha256:" + value)[7..] == value
  {
  }

  lemma BehindMark(v: string)
    requires MARK <= v
    ensures v == "sha256:" + v[7..]
  {
  }

  lemma MarkIsSeen(line: string, value: string, a: string, b: string)
    requires MarkedBetween(line, value, a, b)
    ensures MARK <= Strip(line) && Strip(line)[7..] == value
  {
    MarkedIsTrimmed(value);
    StripPadded(a, "sha256:" + value, b, IsSpace);
  }

  lemma SeenIsMark(line: string)
    requires MARK <= Strip(line)
    ensures MarkedAs(line, Strip(line)[7..])
  {
    BehindMark(Strip(line));
    var a, b := StripSplits(line, IsSpace);
    assert MarkedBetween(line, Strip(line)[7..], a, b);
  }

  lemma MarkedIff(line: string, value: string)
    ensures MarkedAs(line, value) <==> MARK <= Strip(line) && Strip(line)[7..] == value
  {
    if MARK <= Strip(line) {
      SeenIsMark(line);
    }
    if a, b :| MarkedBetween(line, value, a, b) {
      MarkIsSeen(line, value, a, b);
    }
  }

  lemma AnyMark(line: string)
    ensures Marked(line) <==> MARK <= Strip(line)
  {
    if MARK <= Strip(line) {
      MarkedIff(line, Strip(line)[7..]);
    }
    if value :| MarkedAs(line, value) {
      MarkedIff(line, value);
    }
  }

  // Reading takes the value of the first marked line; "PENDING" counts as none.
  lemma {:induction false} FirstMarkedIff(lines: seq<string>, value: string)
    ensures FirstMarked(lines) == Some(value) <==> value != "PENDING" && FirstMarkIs(lines, value)
  {
    if lines != [] {
      var rest := lines[1..];
      AnyMark(lines[0]);
      MarkedIff(lines[0], value);
      if Marked(lines[0]) {
        assert FirstMark(lines, 0, value) <==> MarkedAs(lines[0], value);
      } else {
        FirstMarkedIff(rest, value);
        MarkBehind(lines, value);
      }
    }
  }

  lemma MarkBehind(lines: seq<string>, value: string)
    requires lines != [] && !Marked(lines[0])
    ensures FirstMarkIs(lines, value) <==> FirstMarkIs(lines[1..], value)
  {
    assert forall i :: 0 <= i < |lines| - 1 ==> lines[1..][i] == lines[i + 1];
    if i: nat :| FirstMark(lines, i, value) {
      assert i > 0;
      assert FirstMark(lines[1..], i - 1, value);
    }
    if i: nat :| FirstMark(lines[1..], i, value) {
      assert FirstMark(lines, i + 1, value);
    }
  }

  // Verifying fails with code 2 unless the first marked line has the fingerprint.
  lemma VerifyReadsFirstMark(sha: Hash, dir: Migrations, text: string)
    ensures VerifyCode(sha, Some(dir), Some(text))
            == (if Fingerprint(sha, dir) != "PENDING" && FirstMarkIs(SplitBy(ReadText(text), IsLineBreak), Fingerprint(sha, dir)) then 0 else 2)
  {
    FirstMarkedIff(SplitBy(ReadText(text), IsLineBreak), Fingerprint(sha, dir));
  }

  // ----- the canonical text -----

  lemma {:induction false} JoinPush<T>(lines: seq<seq<T>>, x: seq<T>, sep: T)
    requires lines != []
    ensures Join(lines + [x], sep) == Join(lines, sep) + ([sep] + x)
  {
    if |lines| == 1 {
      assert lines + [x] == [lines[0], x];
      JoinTwo(lines[0], x, sep);
    } else {
      assert (lines + [x])[1..] == lines[1..] + [x];
      JoinPush(lines[1..], x, sep);
    }
  }

  lemma NamesPush(dir: Migrations, name: string, content: string)
    requires forall n :: n in dir ==> StrLess(n, name)
    ensures Names(dir[name := content]) == Names(dir) + [name]
  {
    StrLessTotal();
    var r := Names(dir) + [name];
    forall i, j | 0 <= i < j < |r| ensures StrLess(r[i], r[j]) {
      assert Names(dir)[i] in Names(dir);
    }
    AscendingUnique(Names(dir[name := content]), r, StrLess);
  }

  lemma EntriesPush(sha: Hash, dir: Migrations, name: string, content: string)
    requires forall n :: n in dir ==> StrLess(n, name)
    ensures Entries(sha, dir[name := content]) == Entries(sha, dir) + [name + ":" + sha(content)]
  {
    NamesPush(dir, name, content);
    StrLessTotal();
    assert name !in dir;
  }

  lemma EmptyHasNoEntries(sha: Hash)
    ensures Entries(sha, map[]) == []
  {
  }

  lemma CanonicalOf(sha: Hash, dir: Migrations)
    requires dir != map[]
    ensures Canonical(sha, dir) == Join(Entries(sha, dir), '\n') && Entries(sha, dir) != []
  {
    var k :| k in dir;
    assert k in Names(dir);
  }

  lemma GrownText(sha: Hash, dir: Migrations, grown: Migrations, line: string)
    requires grown != map[] && Entries(sha, grown) == Entries(sha, dir) + [line]
    ensures Canonical(sha, grown) == (if dir == map[] then "" else Canonical(sha, dir) + "\n") + line
  {
    CanonicalOf(sha, grown);
    if dir == map[] {
      EmptyHasNoEntries(sha);
    } else {
      CanonicalOf(sha, dir);
      JoinPush(Entries(sha, dir), line, '\n');
    }
  }

  // The canonical text, file by file in name order: "name:hash" lines joined by newlines...
  lemma CanonicalText(sha: Hash, dir: Migrations, name: string, content: string)
    requires forall n :: n in dir ==> StrLess(n, name)
    ensures Canonical(sha, dir[name := content])
            == (if dir == map[] then "" else Canonical(sha, dir) + "\n") + (name + ":" + sha(content))
  {
    EntriesPush(sha, dir, name, content);
    assert name in dir[name := content];
    GrownText(sha, dir, dir[name := content], name + ":" + sha(content));
  }

  // ...and "[]" when there is none.
  lemma EmptyCanonicalText(sha: Hash)
    ensures Canonical(sha, map[]) == "[]"
  {
  }
}
