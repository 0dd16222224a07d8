// Running update_env_file of scripts/_infisical_util.py again: when the file stays the same.
module EnvRepeat {
  import opened Wrappers
  import opened Sequences
  import opened Text
  import opened TextLines
  import opened LineLexer
  import opened LastWins
  import opened EnvTable
  import opened EnvRewrite
  import opened EnvLine
  import opened EnvFile

  // ----- how a written line is read again -----

  // On one line, one final carriage return aside.
  predicate OneLine(s: string) { NoLineBreak(DropReturn(s)) }

  function DropReturn(s: string): string {
    if s != "" && s[|s| - 1] == '\r' then s[..|s| - 1] else s
  }

  function Reread(line: string): seq<string> { SplitBy(ReadText(line + "\n"), IsLineBreak) }

  lemma ReadReturn(s: string)
    requires NoLineBreak(s)
    ensures ReadText(s + "\n") == s + "\n" && ReadText(s + "\r" + "\n") == s + "\n"
  {
    assert '\r' !in s;
    ReadTextAppend(s, "\n");
    ReadTextAppend(s, "\r\n");
    assert s + "\r" + "\n" == s + "\r\n";
    assert "\r\n"[2..] == "";
    assert ReadText("\r\n") == "\n" + ReadText("");
    assert ReadText("\n") == "\n" + ReadText("");
  }

  lemma OneLineIsReread(line: string)
    requires OneLine(line)
    ensures Reread(line) == [DropReturn(line)]
  {
    var s := DropReturn(line);
    ReadReturn(s);
    assert s != line ==> line == s + "\r";
    SplitLine(s, '\n', "", IsLineBreak);
    assert s + ['\n'] + "" == s + "\n";
  }

  lemma FirstBreak(s: string) returns (i: nat)
    requires !NoLineBreak(s)
    ensures i < |s| && IsLineBreak(s[i]) && NoLineBreak(s[..i])
  {
    i := 0;
    while !IsLineBreak(s[i])
      invariant i < |s| && NoLineBreak(s[..i])
      invariant exists j :: i <= j < |s| && IsLineBreak(s[j])
      decreases |s| - i
    {
      i := i + 1;
    }
  }

  lemma ReadNotEmpty(s: string)
    requires s != ""
    ensures ReadText(s) != ""
  {
  }

  // Text read behind a break makes for another line.
  lemma BreakThenMore(front: string, c: char, rest: string)
    requires NoLineBreak(front) && IsLineBreak(c) && rest != ""
    ensures |SplitBy(front + [c] + rest, IsLineBreak)| >= 2
  {
    SplitLine(front, c, rest, IsLineBreak);
  }

  // Reading up to a break and on, with something left behind it.
  lemma ReadAtBreak(front: string, c: char, rest: string) returns (d: char, more: string)
    requires NoLineBreak(front) && IsLineBreak(c) && rest != "" && (c == '\r' ==> rest != "\n")
    ensures IsLineBreak(d) && more != "" && ReadText(front + ([c] + rest)) == front + [d] + more
  {
    var s := [c] + rest;
    assert '\r' !in front;
    ReadTextAppend(front, s);
    assert s[1..] == rest;
    if c == '\r' && rest[0] == '\n' {
      d, more := '\n', ReadText(rest[1..]);
      assert s[2..] == rest[1..];
      ReadNotEmpty(rest[1..]);
      assert ReadText(s) == "\n" + more;
    } else {
      d, more := if c == '\r' then '\n' else c, ReadText(rest);
      ReadNotEmpty(rest);
      assert ReadText(s) == [d] + more;
    }
    assert front + ([d] + more) == front + [d] + more;
  }

  lemma SeveralLinesAreReread(line: string)
    requires !OneLine(line)
    ensures |Reread(line)| >= 2
  {
    BrokenIfDropped(line);
    var i := FirstBreak(line);
    var rest := line[i + 1..] + "\n";
    assert line + "\n" == line[..i] + ([line[i]] + rest);
    assert rest == "\n" ==> i == |line| - 1;
    var d, more := ReadAtBreak(line[..i], line[i], rest);
    BreakThenMore(line[..i], d, more);
  }

  lemma BrokenIfDropped(line: string)
    requires !OneLine(line)
    ensures !NoLineBreak(line)
  {
  }

  lemma RereadAppend(line: string, rest: string)
    ensures SplitBy(ReadText(line + "\n" + rest), IsLineBreak) == Reread(line) + SplitBy(ReadText(rest), IsLineBreak)
  {
    ReadTextSplit(line + "\n", rest);
    ReadEndsInNewline(line);
    SplitAppend(ReadText(line + "\n"), ReadText(rest), IsLineBreak);
  }

  function Dropping(): string -> string { (s: string) => DropReturn(s) }

  function FileText(lines: seq<string>): string { Join(lines, '\n') + "\n" }

  ghost predicate AllOneLine(lines: seq<string>) { All(lines, OneLine) }

  lemma FileLinesStep(line: string, rest: seq<string>)
    ensures Lines(Some(FileText([line] + rest)))
            == Reread(line) + (if rest == [] then [] else Lines(Some(FileText(rest))))
  {
    var lines := [line] + rest;
    assert lines[1..] == rest;
    if rest == [] {
      assert FileText(lines) == line + "\n";
    } else {
      assert FileText(lines) == line + "\n" + FileText(rest);
      RereadAppend(line, FileText(rest));
    }
  }

  // Writing lines and reading them gives at least as many, and as many only if each is one.
  lemma {:induction false} FileLines(lines: seq<string>)
    requires lines != []
    ensures var read := Lines(Some(FileText(lines)));
            && |read| >= |lines|
            && (|read| == |lines| <==> AllOneLine(lines))
            && (AllOneLine(lines) ==> read == Map(Dropping(), lines))
  {
    var line, rest := lines[0], lines[1..];
    assert lines == [line] + rest;
    if OneLine(line) {
      OneLineIsReread(line);
    } else {
      SeveralLinesAreReread(line);
    }
    FileLinesStep(line, rest);
    AllCons(line, rest, OneLine);
    MapCons(Dropping(), line, rest);
    if rest != [] {
      FileLines(rest);
    }
  }

  // ----- what update_env_file writes -----

  lemma DropReturnAppend(front: string, v: string)
    requires front != "" && front[|front| - 1] != '\r'
    ensures DropReturn(front + v) == front + DropReturn(v)
  {
  }

  lemma FreshDropped(k: string, v: string)
    ensures DropReturn(FreshLine(EnvLexicon(), k, v)) == FreshLine(EnvLexicon(), k, DropReturn(v))
  {
    DropReturnAppend(k + ['='], v);
  }

  lemma ExportDropped(k: string, v: string)
    ensures DropReturn(EXPORT + FreshLine(EnvLexicon(), k, v)) == EXPORT + FreshLine(EnvLexicon(), k, DropReturn(v))
  {
    var head := EXPORT + (k + ['=']);
    DropReturnAppend(head, v);
    Reassociate(EXPORT, k + ['='], v);
    Reassociate(EXPORT, k + ['='], DropReturn(v));
  }

  lemma DroppingCommutes()
    ensures Commutes(EnvGrammar(), Dropping(), Dropping())
  {
    var g := EnvGrammar();
    forall l, k, v ensures Dropping()(g.rewrite(l, k, v)) == g.rewrite(l, k, Dropping()(v)) {
      FreshDropped(k, v);
      ExportDropped(k, v);
    }
    forall k, v ensures Dropping()(g.make(k, v)) == g.make(k, Dropping()(v)) {
      FreshDropped(k, v);
    }
  }

  // A written line is one line exactly when its key has no break and its value is one line.
  lemma FreshOneLine(k: string, v: string)
    ensures OneLine(FreshLine(EnvLexicon(), k, v)) <==> NoLineBreak(k) && OneLine(v)
  {
    FreshDropped(k, v);
    FreshBreaks(k, DropReturn(v));
  }

  lemma FreshBreaks(k: string, v: string)
    ensures NoLineBreak(FreshLine(EnvLexicon(), k, v)) <==> NoLineBreak(k) && NoLineBreak(v)
  {
    var line := FreshLine(EnvLexicon(), k, v);
    assert forall i :: 0 <= i < |k| ==> line[i] == k[i];
    assert forall i :: 0 <= i < |v| ==> line[|k| + 1 + i] == v[i];
    assert forall i :: 0 <= i < |line| ==> line[i] == if i < |k| then k[i] else if i == |k| then '=' else v[i - |k| - 1];
  }

  lemma ExportBreaks(s: string)
    ensures NoLineBreak(EXPORT + s) <==> NoLineBreak(s)
  {
    assert forall i :: 0 <= i < |s| ==> (EXPORT + s)[7 + i] == s[i];
  }

  lemma RewriteOneLine(line: string, k: string, v: string)
    ensures OneLine(RewriteLine(EnvLexicon(), line, k, v)) <==> NoLineBreak(k) && OneLine(v)
  {
    FreshOneLine(k, v);
    FreshDropped(k, v);
    ExportDropped(k, v);
    ExportBreaks(FreshLine(EnvLexicon(), k, DropReturn(v)));
  }

  // The line update m writes.
  lemma WrittenOneLine(lines: seq<string>, updates: seq<Binding<string, string>>, m: nat)
    requires m < |updates|
    ensures OneLine(LineOf(EnvGrammar(), lines, updates, m)) <==> NoLineBreak(updates[m].key) && OneLine(updates[m].value)
  {
    var i := LastIndex(EnvGrammar(), lines, updates[m].key);
    if i >= 0 {
      RewriteOneLine(lines[i], updates[m].key, updates[m].value);
    } else {
      FreshOneLine(updates[m].key, updates[m].value);
    }
  }

  ghost predicate OneLineUpdates(updates: seq<Binding<string, string>>) {
    forall m :: 0 <= m < |updates| ==> NoLineBreak(updates[m].key) && OneLine(updates[m].value)
  }

  ghost predicate AllUnbroken(lines: seq<string>) { forall i :: 0 <= i < |lines| ==> NoLineBreak(lines[i]) }

  lemma UnbrokenIsOneLine(s: string)
    requires NoLineBreak(s)
    ensures OneLine(s) && DropReturn(s) == s
  {
  }

  function GlueOf(lines: seq<string>, updates: seq<Binding<string, string>>): seq<string> {
    Glue(BodyAfter(EnvGrammar(), lines, updates, |updates|))
  }

  lemma GlueIsUnbroken(lines: seq<string>, updates: seq<Binding<string, string>>)
    ensures AllUnbroken(GlueOf(lines, updates))
  {
    forall i | 0 <= i < |GlueOf(lines, updates)| ensures NoLineBreak(GlueOf(lines, updates)[i]) {
      GlueUnbroken(BodyAfter(EnvGrammar(), lines, updates, |updates|), i);
    }
  }

  // One-line updates write lines that are read again as they are, but for final returns.
  lemma WrittenLinesAreOneLine(lines: seq<string>, updates: seq<Binding<string, string>>)
    requires DistinctUpdates(updates) && AllUnbroken(lines) && OneLineUpdates(updates)
    ensures AllOneLine(UpdatedLines(lines, updates))
  {
    var g, glue := EnvGrammar(), GlueOf(lines, updates);
    var written := Written(g, lines, updates, glue);
    GlueIsUnbroken(lines, updates);
    forall i | 0 <= i < |written| ensures OneLine(written[i]) {
      if m: nat :| m < |updates| && Place(g, lines, updates, glue, m) == i {
        LineAtPlace(g, lines, updates, glue, m);
        WrittenOneLine(lines, updates, m);
      } else {
        UnwrittenLine(g, lines, updates, glue, i);
        UnbrokenIsOneLine((lines + glue)[i]);
      }
    }
  }

  // ----- updating again -----

  function Dropped(updates: seq<Binding<string, string>>): seq<Binding<string, string>> { MapValues(Dropping(), updates) }

  lemma MapUnbroken(lines: seq<string>)
    requires AllUnbroken(lines)
    ensures Map(Dropping(), lines) == lines
  {
    forall i | 0 <= i < |lines| ensures Dropping()(lines[i]) == lines[i] {
      UnbrokenIsOneLine(lines[i]);
    }
  }

  // One-line updates are read again as if their values had had no final returns.
  lemma ReadAgain(lines: seq<string>, updates: seq<Binding<string, string>>)
    requires DistinctUpdates(updates) && AllUnbroken(lines) && OneLineUpdates(updates)
    requires UpdatedLines(lines, updates) != []
    ensures Lines(Some(FileText(UpdatedLines(lines, updates))))
            == Written(EnvGrammar(), lines, Dropped(updates), GlueOf(lines, updates))
  {
    WrittenLinesAreOneLine(lines, updates);
    FileLines(UpdatedLines(lines, updates));
    DroppingCommutes();
    MapUnbroken(lines);
    GlueIsUnbroken(lines, updates);
    MapUnbroken(GlueOf(lines, updates));
    MapWritten(EnvGrammar(), Dropping(), Dropping(), lines, updates, GlueOf(lines, updates));
  }

  // Keys in the file, or found again once they are appended.
  ghost predicate FoundOrOwn(lines: seq<string>, updates: seq<Binding<string, string>>) {
    Findable(EnvGrammar(), OwnEnvKey(), lines, updates)
  }

  lemma FindableDropped(lines: seq<string>, updates: seq<Binding<string, string>>)
    requires FoundOrOwn(lines, updates)
    ensures FoundOrOwn(lines, Dropped(updates))
  {
  }

  lemma RepeatableIsRepeated(lines: seq<string>, updates: seq<Binding<string, string>>)
    requires DistinctUpdates(updates) && AllUnbroken(lines) && OneLineUpdates(updates)
    requires FoundOrOwn(lines, updates) && UpdatedLines(lines, updates) != []
    ensures UpdatedLines(Lines(Some(FileText(UpdatedLines(lines, updates)))), updates) == UpdatedLines(lines, updates)
  {
    var g, glue := EnvGrammar(), GlueOf(lines, updates);
    var again := Written(g, lines, Dropped(updates), glue);
    ReadAgain(lines, updates);
    EnvFoundStays();
    EnvOwnIsFiled();
    FindableDropped(lines, updates);
    GlueIsSilent(BodyAfter(g, lines, updates, |updates|));
    UpdateOverwrites(g, OwnEnvKey(), lines, Dropped(updates), updates, glue, GlueOf(again, updates));
  }

  lemma UpdatedAtLeast(lines: seq<string>, updates: seq<Binding<string, string>>)
    ensures |UpdatedLines(lines, updates)| >= |lines|
    ensures |UpdatedLines(lines, updates)| == |lines| ==> Appended(EnvGrammar(), lines, updates, |updates|) == []
  {
  }

  // A text that an update leaves as it is has all the keys, and gets one line for each.
  lemma UnchangedText(lines: seq<string>, updates: seq<Binding<string, string>>)
    requires DistinctUpdates(updates) && lines != []
    requires Lines(Some(FileText(UpdatedLines(lines, updates)))) == lines
    ensures OneLineUpdates(updates)
    ensures forall m :: 0 <= m < |updates| ==> LastIndex(EnvGrammar(), lines, updates[m].key) >= 0
  {
    var g, written := EnvGrammar(), UpdatedLines(lines, updates);
    UpdatedAtLeast(lines, updates);
    FileLines(written);
    NothingMissing(g, lines, updates, |updates|);
    forall m | 0 <= m < |updates| ensures NoLineBreak(updates[m].key) && OneLine(updates[m].value) {
      LineAtPlace(g, lines, updates, GlueOf(lines, updates), m);
      WrittenOneLine(lines, updates, m);
    }
  }

  lemma {:induction false} LongestKey(updates: seq<Binding<string, string>>) returns (bound: nat)
    ensures forall m :: 0 <= m < |updates| ==> |updates[m].key| <= bound
  {
    bound := 0;
    for n := 0 to |updates|
      invariant forall m :: 0 <= m < n ==> |updates[m].key| <= bound
    {
      bound := if |updates[n].key| > bound then |updates[n].key| else bound;
    }
  }

  // With a key that is neither in the file nor found again, some key is still missing when
  // the file is read again.
  lemma ForeignKeyStaysMissing(lines: seq<string>, updates: seq<Binding<string, string>>) returns (m: nat)
    requires DistinctUpdates(updates) && AllUnbroken(lines) && OneLineUpdates(updates)
    requires UpdatedLines(lines, updates) != [] && !FoundOrOwn(lines, updates)
    ensures m < |updates|
    ensures LastIndex(EnvGrammar(), Lines(Some(FileText(UpdatedLines(lines, updates)))), updates[m].key) == -1
  {
    var g, dropped, glue := EnvGrammar(), Dropped(updates), GlueOf(lines, updates);
    ReadAgain(lines, updates);
    EnvFoundStays();
    EnvOwnIsFiled();
    EnvOthersAreLost();
    GlueIsSilent(BodyAfter(g, lines, updates, |updates|));
    var bound := LongestKey(dropped);
    var foreign: nat :| foreign < |updates| && !OwnEnvKey()(updates[foreign].key) && LastIndex(g, lines, updates[foreign].key) < 0;
    m := StillMissing(g, OwnEnvKey(), Length(), bound, lines, dropped, glue, foreign);
  }

  lemma NothingWritten(lines: seq<string>, updates: seq<Binding<string, string>>)
    requires UpdatedLines(lines, updates) == []
    ensures lines == [] && updates == []
  {
    UpdatedAtLeast(lines, updates);
    assert forall m :: 0 <= m < |updates| ==> LastIndex(EnvGrammar(), lines, updates[m].key) == -1;
    NothingMissing(EnvGrammar(), lines, updates, |updates|);
  }

  lemma NoUpdates(raw: Option<string>)
    requires UpdatedLines(Lines(raw), []) == []
    ensures UpdatedText(Some(UpdatedText(raw, [])), []) == UpdatedText(raw, [])
  {
    WrittenTextLines([]);
    assert UpdatedLines([""], []) == [""];
  }

  // Updating twice writes the same text as updating once exactly when every key is on one
  // line and is in the file already or is one the updater finds again, and every value is on
  // one line, a final carriage return aside.
  lemma UpdateIsIdempotentIff(raw: Option<string>, updates: seq<Binding<string, string>>)
    requires DistinctUpdates(updates)
    ensures UpdatedText(Some(UpdatedText(raw, updates)), updates) == UpdatedText(raw, updates)
            <==> OneLineUpdates(updates) && FoundOrOwn(Lines(raw), updates)
  {
    var lines := Lines(raw);
    var written := UpdatedLines(lines, updates);
    if written == [] {
      NothingWritten(lines, updates);
      NoUpdates(raw);
    } else if OneLineUpdates(updates) && FoundOrOwn(lines, updates) {
      RepeatableIsRepeated(lines, updates);
    } else {
      ChangesAgain(raw, updates);
    }
  }

  lemma ChangesAgain(raw: Option<string>, updates: seq<Binding<string, string>>)
    requires DistinctUpdates(updates) && UpdatedLines(Lines(raw), updates) != []
    requires !OneLineUpdates(updates) || !FoundOrOwn(Lines(raw), updates)
    ensures UpdatedText(Some(UpdatedText(raw, updates)), updates) != UpdatedText(raw, updates)
  {
    var lines, text := Lines(raw), UpdatedText(raw, updates);
    var again := Lines(Some(text));
    FileLines(UpdatedLines(lines, updates));
    if UpdatedText(Some(text), updates) == text {
      UnchangedText(again, updates);
      var m := ForeignKeyStaysMissing(lines, updates);
    }
  }

  // A value of several lines leaves its tail behind in the file.
  lemma SeveralLinesLeaveATail(raw: Option<string>, k: string, v: string)
    requires !OneLine(v)
    ensures UpdatedText(Some(UpdatedText(raw, [Binding(k, v)])), [Binding(k, v)]) != UpdatedText(raw, [Binding(k, v)])
  {
    var updates := [Binding(k, v)];
    UpdateIsIdempotentIff(raw, updates);
    assert !OneLine(updates[0].value);
  }

  // A key that begins like a comment is appended again by every run.
  lemma CommentKeyIsAppendedAgain(raw: Option<string>, k: string, v: string)
    requires k != "" && k[0] == '#' && LastIndex(EnvGrammar(), Lines(raw), k) == -1
    ensures UpdatedText(Some(UpdatedText(raw, [Binding(k, v)])), [Binding(k, v)]) != UpdatedText(raw, [Binding(k, v)])
  {
    var updates := [Binding(k, v)];
    UpdateIsIdempotentIff(raw, updates);
    assert !OwnEnvKey()(updates[0].key);
  }
}
