// Parsing what update_env_file of scripts/_infisical_util.py has written.
module EnvReadBack {
  import opened Wrappers
  import opened Text
  import opened TextLines
  import opened LineLexer
  import opened LastWins
  import opened EnvTable
  import opened EnvLine
  import opened EnvFile
  import opened EnvRepeat

  // Keys that read back as themselves, keys and values on one line.
  ghost predicate ReadableUpdates(updates: seq<Binding<string, string>>) {
    DistinctUpdates(updates) && AllAdmissible(GoodKey(), updates) && OneLineUpdates(updates)
  }

  // A final carriage return is trimmed off the value anyway.
  lemma CookDropped(v: string)
    ensures CookValue(DropReturn(v)) == CookValue(v)
  {
    if v != "" && v[|v| - 1] == '\r' {
      StripDropsLastSpace(v);
    }
  }

  lemma RereadParses(raw: Option<string>, updates: seq<Binding<string, string>>)
    requires ReadableUpdates(updates)
    ensures ParsedFile(Some(UpdatedText(raw, updates)))
            == Parsed(EnvGrammar(), Written(EnvGrammar(), Lines(raw), Dropped(updates), GlueOf(Lines(raw), updates)))
  {
    var lines := Lines(raw);
    if UpdatedLines(lines, updates) == [] {
      NothingWritten(lines, updates);
      WrittenTextLines([]);
      assert ParseLine("") == None;
      CollectNone("", ParseLine);
      assert Dropped(updates) == [];
      assert Written(EnvGrammar(), [], [], GlueOf([], [])) == [];
    } else {
      ReadAgain(lines, updates);
    }
  }

  lemma DroppedIsAdmissible(updates: seq<Binding<string, string>>)
    requires ReadableUpdates(updates)
    ensures DistinctUpdates(Dropped(updates)) && AllAdmissible(GoodKey(), Dropped(updates))
  {
    forall u | u in Dropped(updates) ensures GoodKey()(u.key) {
      var m :| 0 <= m < |updates| && Dropped(updates)[m] == u;
      assert updates[m] in updates;
    }
  }

  // Every updated key reads back as its cooked value...
  lemma UpdateThenParse(raw: Option<string>, updates: seq<Binding<string, string>>, m: nat)
    requires ReadableUpdates(updates) && m < |updates|
    ensures var parsed := ParsedFile(Some(UpdatedText(raw, updates)));
            updates[m].key in parsed && parsed[updates[m].key] == CookValue(updates[m].value)
  {
    var g, lines := EnvGrammar(), Lines(raw);
    EnvGrammarIsCoherent();
    RereadParses(raw, updates);
    DroppedIsAdmissible(updates);
    GlueIsSilent(BodyAfter(g, lines, updates, |updates|));
    UpdatedKeysReadBack(g, GoodKey(), lines, Dropped(updates), GlueOf(lines, updates), m);
    CookDropped(updates[m].value);
  }

  // ...and every other key as before: duplicates, export prefixes and comments included.
  lemma UpdateKeepsOtherKeys(raw: Option<string>, updates: seq<Binding<string, string>>, k: string)
    requires ReadableUpdates(updates) && forall m :: 0 <= m < |updates| ==> updates[m].key != k
    ensures var before, after := ParsedFile(raw), ParsedFile(Some(UpdatedText(raw, updates)));
            (k in after <==> k in before) && (k in before ==> after[k] == before[k])
  {
    var g, lines := EnvGrammar(), Lines(raw);
    EnvGrammarIsCoherent();
    RereadParses(raw, updates);
    DroppedIsAdmissible(updates);
    GlueIsSilent(BodyAfter(g, lines, updates, |updates|));
    OtherKeysUntouched(g, GoodKey(), lines, Dropped(updates), GlueOf(lines, updates), k);
  }

  // ----- a value that binds another key -----

  // A value of two lines: the second line is an entry of its own.
  function TwoLines(v: string, other: string, w: string): string { v + "\n" + FreshLine(EnvLexicon(), other, w) }

  lemma NewFileText(k: string, v: string)
    ensures UpdatedText(None, [Binding(k, v)]) == FileText([HEADER, FreshLine(EnvLexicon(), k, v)])
  {
    var g, updates := EnvGrammar(), [Binding(k, v)];
    assert LastIndex(g, [], k) == -1;
    assert Appended(g, [], updates, 0) == [];
    assert Appended(g, [], updates, 1) == [FreshLine(EnvLexicon(), k, v)];
    assert BodyAfter(g, [], updates, 1) == [];
    assert Glue([]) == [HEADER];
    assert UpdatedLines([], updates) == [HEADER, FreshLine(EnvLexicon(), k, v)];
  }

  lemma TwoLinesWritten(k: string, v: string, other: string, w: string)
    ensures UpdatedText(None, [Binding(k, TwoLines(v, other, w))])
            == FileText([HEADER, FreshLine(EnvLexicon(), k, v), FreshLine(EnvLexicon(), other, w)])
  {
    var first, second := FreshLine(EnvLexicon(), k, v), FreshLine(EnvLexicon(), other, w);
    NewFileText(k, TwoLines(v, other, w));
    assert FreshLine(EnvLexicon(), k, TwoLines(v, other, w)) == first + ['\n'] + second;
    JoinTwo(HEADER, first + ['\n'] + second, '\n');
    JoinThree(HEADER, first, second, '\n');
  }

  lemma JoinThree<T>(a: seq<T>, b: seq<T>, c: seq<T>, sep: T)
    ensures Join([a, b, c], sep) == a + [sep] + (b + [sep] + c)
  {
    assert [a, b, c][1..] == [b, c];
    JoinTwo(b, c, sep);
  }

  lemma ThreeLinesRead(a: string, b: string, c: string)
    requires NoLineBreak(a) && NoLineBreak(b) && NoLineBreak(c)
    ensures Lines(Some(FileText([a, b, c]))) == [a, b, c]
  {
    WrittenTextLines([a, b, c]);
  }

  lemma LastLineBinds(a: string, b: string, line: string)
    requires NoLineBreak(a) && NoLineBreak(b) && NoLineBreak(line) && ParseLine(line).Some?
    ensures var parsed, entry := ParsedFile(Some(FileText([a, b, line]))), ParseLine(line).value;
            entry.key in parsed && parsed[entry.key] == entry.value
  {
    ThreeLinesRead(a, b, line);
    CollectLast([a, b, line], ParseLine);
  }

  lemma EmptyFileHasNoKeys()
    ensures ParsedFile(None) == map[]
  {
  }

  // Writing it to a new file for one key binds the other key too.
  lemma SeveralLinesBindAnotherKey(k: string, v: string, other: string, w: string)
    requires NoLineBreak(k) && NoLineBreak(v) && GoodKey()(other) && NoLineBreak(other) && NoLineBreak(w)
    ensures other !in ParsedFile(None)
    ensures var parsed := ParsedFile(Some(UpdatedText(None, [Binding(k, TwoLines(v, other, w))])));
            other in parsed && parsed[other] == CookValue(w)
  {
    EmptyFileHasNoKeys();
    TwoLinesWritten(k, v, other, w);
    HeaderUnbroken();
    FreshBreaks(k, v);
    FreshBreaks(other, w);
    WrittenLineParses("", other, w);
    LastLineBinds(HEADER, FreshLine(EnvLexicon(), k, v), FreshLine(EnvLexicon(), other, w));
  }

  // ----- when a value binds no other key -----

  // The lines a value is read back as, behind the first.
  function LaterLines(v: string): seq<string> {
    var lines := Reread(v);
    if |lines| > 0 then lines[1..] else []
  }

  lemma FreshReread(k: string, v: string)
    requires NoLineBreak(k)
    ensures Reread(v) != [] && Reread(FreshLine(EnvLexicon(), k, v)) == [FreshLine(EnvLexicon(), k, Reread(v)[0])] + LaterLines(v)
  {
    var head := k + ['='];
    ReadEndsInNewline(v);
    FreshBreaks(k, "");
    assert head == FreshLine(EnvLexicon(), k, "");
    assert '\r' !in head;
    assert FreshLine(EnvLexicon(), k, v) + "\n" == head + (v + "\n");
    ReadTextAppend(head, v + "\n");
    SplitFront(head, ReadText(v + "\n"), IsLineBreak);
  }

  // A new file has the header, the entry with the first line of the value, and its later lines.
  lemma NewFileLines(k: string, v: string)
    requires NoLineBreak(k)
    ensures Reread(v) != []
    ensures Lines(Some(UpdatedText(None, [Binding(k, v)]))) == [HEADER] + ([FreshLine(EnvLexicon(), k, Reread(v)[0])] + LaterLines(v))
  {
    var line := FreshLine(EnvLexicon(), k, v);
    NewFileText(k, v);
    HeaderUnbroken();
    UnbrokenIsOneLine(HEADER);
    OneLineIsReread(HEADER);
    FileLinesStep(HEADER, [line]);
    FileLinesStep(line, []);
    assert [HEADER] + [line] == [HEADER, line] && [line] + [] == [line];
    assert Reread(line) + [] == Reread(line);
    FreshReread(k, v);
  }

  lemma HeaderBindsNothing(other: string)
    ensures BoundBy(HEADER, ParseLine, other).None?
  {
    HeaderIsSilent();
  }

  lemma EntryBindsNoOther(k: string, v: string, other: string)
    requires GoodKey()(k) && other != k
    ensures BoundBy(FreshLine(EnvLexicon(), k, v), ParseLine, other).None?
  {
    FreshLineParses(k, v);
  }

  // In a new file another key is bound exactly when a later line of the value binds it.
  lemma NewFileBinds(k: string, v: string, other: string)
    requires GoodKey()(k) && NoLineBreak(k) && other != k
    ensures other in ParsedFile(Some(UpdatedText(None, [Binding(k, v)]))) <==> SomeBinds(LaterLines(v), ParseLine, other)
  {
    NewFileLines(k, v);
    var first := FreshLine(EnvLexicon(), k, Reread(v)[0]);
    HeaderBindsNothing(other);
    EntryBindsNoOther(k, Reread(v)[0], other);
    CollectHas([HEADER] + ([first] + LaterLines(v)), ParseLine, other);
    BindsBehind(HEADER, first, LaterLines(v), ParseLine, other);
  }

  // Writing one value to a new file leaves the other keys alone exactly when no later line of
  // the value parses to another key.
  lemma OtherKeysSurviveIff(k: string, v: string)
    requires GoodKey()(k) && NoLineBreak(k)
    ensures (forall other :: other != k ==> other !in ParsedFile(Some(UpdatedText(None, [Binding(k, v)])))) <==>
            forall i :: 0 <= i < |LaterLines(v)| ==> ParseLine(LaterLines(v)[i]).Some? ==> ParseLine(LaterLines(v)[i]).value.key == k
  {
    forall other | other != k
      ensures other in ParsedFile(Some(UpdatedText(None, [Binding(k, v)]))) <==> SomeBinds(LaterLines(v), ParseLine, other)
    {
      NewFileBinds(k, v, other);
    }
    forall i | 0 <= i < |LaterLines(v)| && ParseLine(LaterLines(v)[i]).Some?
      ensures SomeBinds(LaterLines(v), ParseLine, ParseLine(LaterLines(v)[i]).value.key)
    {
      assert BoundBy(LaterLines(v)[i], ParseLine, ParseLine(LaterLines(v)[i]).value.key).Some?;
    }
  }

  // ----- parsed values -----

  lemma CutCommentOnOneLine(v: string)
    requires Unbroken(v, IsLineBreak)
    ensures Unbroken(CutComment(v), IsLineBreak)
  {
    CommentRule(v);
    if BareHash(v) != -1 {
      SuffixUnbroken(v, BareHash(v), IsLineBreak);
      StripUnbroken(v[..BareHash(v)], IsSpace, IsLineBreak);
    }
  }

  lemma InnerUnbroken<T>(v: seq<T>, breaks: T -> bool)
    requires Unbroken(v, breaks) && |v| >= 2
    ensures Unbroken(v[1..|v| - 1], breaks)
  {
  }

  lemma CookedOnOneLine(raw: string)
    requires Unbroken(raw, IsLineBreak)
    ensures Unbroken(CookValue(raw), IsLineBreak)
  {
    StripUnbroken(raw, IsSpace, IsLineBreak);
    if IsQuoted(Strip(raw)) {
      InnerUnbroken(Strip(raw), IsLineBreak);
    } else {
      CutCommentOnOneLine(Strip(raw));
    }
  }

  lemma RemovePrefixUnbroken<T>(s: seq<T>, p: seq<T>, breaks: T -> bool)
    requires Unbroken(s, breaks)
    ensures Unbroken(RemovePrefix(s, p), breaks)
  {
  }

  lemma PartitionUnbroken<T>(x: Lexicon<T>, body: seq<T>, breaks: T -> bool)
    requires Unbroken(body, breaks) && Partition(x, body).Some?
    ensures Unbroken(Partition(x, body).value.raw, breaks)
  {
    CutUnbroken(body, x.equals, breaks);
  }

  lemma PartsUnbroken<T>(x: Lexicon<T>, line: seq<T>, breaks: T -> bool)
    requires Unbroken(line, breaks) && PartsOf(x, line).Some?
    ensures Unbroken(PartsOf(x, line).value.raw, breaks)
  {
    StripUnbroken(line, x.blank, breaks);
    RemovePrefixUnbroken(StripBy(line, x.blank), x.word, breaks);
    PartitionUnbroken(x, RemovePrefix(StripBy(line, x.blank), x.word), breaks);
  }

  lemma CutUnbroken<T>(s: seq<T>, c: T, breaks: T -> bool)
    requires Unbroken(s, breaks) && Cut(s, c).Some?
    ensures Unbroken(Cut(s, c).value.after, breaks)
  {
    var h := Cut(s, c).value;
    assert forall j :: 0 <= j < |h.after| ==> h.after[j] == s[|h.before| + 1 + j];
  }

  lemma ParsedOnOneLine(line: string)
    requires NoLineBreak(line) && ParseLine(line).Some?
    ensures NoLineBreak(ParseLine(line).value.value)
  {
    PartsUnbroken(EnvLexicon(), line, IsLineBreak);
    CookedOnOneLine(PartsOf(EnvLexicon(), line).value.raw);
  }

  // No value the parser ever returns contains a line break.
  lemma ParsedValuesOnOneLine(lines: seq<string>, k: string)
    requires forall i :: 0 <= i < |lines| ==> NoLineBreak(lines[i])
    requires k in Parsed(EnvGrammar(), lines)
    ensures NoLineBreak(Parsed(EnvGrammar(), lines)[k])
  {
    var i := ParsedFromLine(EnvGrammar(), lines, k);
    ParsedOnOneLine(lines[i]);
  }

  // ----- when a value survives -----

  lemma OneUpdateReads(raw: Option<string>, k: string, v: string)
    requires GoodKey()(k) && NoLineBreak(k) && NoLineBreak(v)
    ensures var parsed := ParsedFile(Some(UpdatedText(raw, [Binding(k, v)])));
            k in parsed && parsed[k] == CookValue(v)
  {
    var updates := [Binding(k, v)];
    UnbrokenIsOneLine(v);
    assert ReadableUpdates(updates);
    UpdateThenParse(raw, updates, 0);
  }

  lemma ParsedTextOnOneLine(raw: Option<string>, k: string)
    ensures k in ParsedFile(raw) ==> NoLineBreak(ParsedFile(raw)[k])
  {
    if k in ParsedFile(raw) {
      ParsedValuesOnOneLine(Lines(raw), k);
    }
  }

  // Writing one value and reading it back gives that value exactly when it is on one line,
  // has no outer whitespace, is not wrapped in quotes, and has no '#' behind its first
  // character.
  lemma ValueSurvivesIff(raw: Option<string>, k: string, v: string)
    requires GoodKey()(k) && NoLineBreak(k)
    ensures var parsed := ParsedFile(Some(UpdatedText(raw, [Binding(k, v)])));
            (k in parsed && parsed[k] == v)
            <==> NoLineBreak(v) && Trimmed(v) && !IsQuoted(v) && BareHash(v) == -1
  {
    if NoLineBreak(v) {
      OneUpdateReads(raw, k, v);
      StableValueIff(v);
    } else {
      ParsedTextOnOneLine(Some(UpdatedText(raw, [Binding(k, v)])), k);
    }
  }
}
