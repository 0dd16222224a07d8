// Lines of a text: str.splitlines, str.join and text-mode reading, and when they are inverse
// to each other.
module TextLines {
  import opened Text
  import opened Sequences

  // str.splitlines, for one-character line boundaries.
  function SplitBy<T>(s: seq<T>, breaks: T -> bool): (lines: seq<seq<T>>)
    ensures lines == [] <==> s == []
    ensures forall i, j :: 0 <= i < |lines| && 0 <= j < |lines[i]| ==> !breaks(lines[i][j])
  {
    if |s| == 0 then []
    else
      var rest := SplitBy(s[1..], breaks);
      if breaks(s[0]) then [[]] + rest
      else if |rest| == 0 then [[s[0]]]
      else [[s[0]] + rest[0]] + rest[1..]
  }

  // sep.join(lines)
  function Join<T>(lines: seq<seq<T>>, sep: T): seq<T> {
    if |lines| == 0 then [] else if |lines| == 1 then lines[0] else lines[0] + [sep] + Join(lines[1..], sep)
  }

  lemma JoinTwo<T>(a: seq<T>, b: seq<T>, sep: T)
    ensures Join([a, b], sep) == a + [sep] + b
  {
    assert [a, b][1..] == [b];
  }

  // Reading in text mode: "\r\n" and "\r" become "\n".
  function ReadText(raw: string): string
    decreases |raw|
  {
    if raw == "" then ""
    else [if raw[0] == '\r' then '\n' else raw[0]] + ReadText(raw[Step(raw)..])
  }

  // How many characters become the first one read.
  function Step(raw: string): (n: nat)
    requires raw != ""
    ensures 1 <= n <= |raw|
  {
    if raw[0] == '\r' && |raw| > 1 && raw[1] == '\n' then 2 else 1
  }

  ghost predicate Unbroken<T>(line: seq<T>, breaks: T -> bool) {
    forall j :: 0 <= j < |line| ==> !breaks(line[j])
  }

  lemma {:induction false} SplitLine<T>(line: seq<T>, sep: T, rest: seq<T>, breaks: T -> bool)
    requires Unbroken(line, breaks) && breaks(sep)
    ensures SplitBy(line + [sep] + rest, breaks) == [line] + SplitBy(rest, breaks)
  {
    var s := line + [sep] + rest;
    if line == [] {
      assert s[0] == sep && s[1..] == rest;
    } else {
      assert s[0] == line[0] && s[1..] == line[1..] + [sep] + rest;
      SplitLine(line[1..], sep, rest, breaks);
      assert [line[0]] + line[1..] == line;
      assert ([line[1..]] + SplitBy(rest, breaks))[1..] == SplitBy(rest, breaks);
    }
  }

  // Joining unbroken lines with a final separator and splitting again gives the lines back.
  lemma {:induction false} SplitJoin<T>(lines: seq<seq<T>>, sep: T, breaks: T -> bool)
    requires lines != [] && breaks(sep) && forall i :: 0 <= i < |lines| ==> Unbroken(lines[i], breaks)
    ensures SplitBy(Join(lines, sep) + [sep], breaks) == lines
  {
    if |lines| == 1 {
      SplitLine(lines[0], sep, [], breaks);
      assert lines[0] + [sep] + [] == lines[0] + [sep];
    } else {
      var rest := Join(lines[1..], sep) + [sep];
      assert lines[0] + [sep] + Join(lines[1..], sep) + [sep] == lines[0] + [sep] + rest;
      SplitLine(lines[0], sep, rest, breaks);
      SplitJoin(lines[1..], sep, breaks);
    }
  }

  lemma {:induction false} ReadTextIdentity(text: string)
    requires forall i :: 0 <= i < |text| ==> text[i] != '\r'
    ensures ReadText(text) == text
  {
    if text != "" {
      ReadTextIdentity(text[1..]);
    }
  }

  // Translating newlines leaves a front part without carriage returns alone.
  lemma {:induction false} ReadTextAppend(a: string, b: string)
    requires '\r' !in a
    ensures ReadText(a + b) == a + ReadText(b)
  {
    if a == "" {
      assert a + b == b;
    } else {
      assert a[0] in a;
      assert (a + b)[1..] == a[1..] + b;
      ReadTextAppend(a[1..], b);
    }
  }

  lemma StepInFront(a: string, b: string)
    requires a != "" && a[|a| - 1] != '\r'
    ensures Step(a + b) == Step(a) && (a + b)[Step(a)..] == a[Step(a)..] + b && (a + b)[0] == a[0]
  {
    assert |a| > 1 ==> (a + b)[1] == a[1];
  }

  // Nor does a cut that is not behind a carriage return change what is read.
  lemma {:induction false} ReadTextSplit(a: string, b: string)
    requires a == "" || a[|a| - 1] != '\r'
    ensures ReadText(a + b) == ReadText(a) + ReadText(b)
    decreases |a|
  {
    if a == "" {
      assert a + b == b;
    } else {
      StepInFront(a, b);
      ReadTextSplit(a[Step(a)..], b);
      Reassociate([if a[0] == '\r' then '\n' else a[0]], ReadText(a[Step(a)..]), ReadText(b));
    }
  }

  lemma {:induction false} ReadEndsInNewline(line: string)
    ensures var s := ReadText(line + "\n"); s != "" && s[|s| - 1] == '\n'
    decreases |line|
  {
    if line == "" {
      assert ReadText("\n") == "\n" + ReadText("");
    } else if line == "\r" {
      assert (line + "\n")[2..] == "";
      assert ReadText(line + "\n") == "\n" + ReadText("");
    } else {
      var n := if line[0] == '\r' && line[1] == '\n' then 2 else 1;
      assert (line + "\n")[n..] == line[n..] + "\n";
      ReadEndsInNewline(line[n..]);
    }
  }

  lemma CountFirst<T>(s: seq<T>, c: T)
    requires s != []
    ensures multiset(s)[c] == (if s[0] == c then 1 else 0) + multiset(s[1..])[c]
  {
    assert s == [s[0]] + s[1..];
  }

  lemma CountStep(raw: string, c: char)
    requires raw != "" && c != '\r' && c != '\n'
    ensures multiset(raw)[c] == (if raw[0] == c then 1 else 0) + multiset(raw[Step(raw)..])[c]
  {
    CountFirst(raw, c);
    if Step(raw) == 2 {
      CountFirst(raw[1..], c);
      assert raw[1..][1..] == raw[2..];
    }
  }

  // Reading changes the number of no other character.
  lemma {:induction false} ReadTextCounts(raw: string, c: char)
    requires c != '\r' && c != '\n'
    ensures multiset(ReadText(raw))[c] == multiset(raw)[c]
    decreases |raw|
  {
    if raw != "" {
      ReadTextCounts(raw[Step(raw)..], c);
      CountStep(raw, c);
      CountFirst(ReadText(raw), c);
    }
  }

  lemma FirstLineGrows<T>(c: T, x: seq<seq<T>>, y: seq<seq<T>>)
    requires x != []
    ensures [[]] + (x + y) == [[]] + x + y
    ensures [[c] + (x + y)[0]] + (x + y)[1..] == [[c] + x[0]] + x[1..] + y
  {
    assert (x + y)[1..] == x[1..] + y;
  }

  lemma {:induction false} ReadTextHasNoReturn(raw: string)
    ensures '\r' !in ReadText(raw)
    decreases |raw|
  {
    if raw != "" {
      ReadTextHasNoReturn(raw[Step(raw)..]);
    }
  }

  // A front part is read as it is exactly when it has no carriage return.
  lemma FrontReads(raw: string, n: nat)
    requires n <= |raw| && n <= |ReadText(raw)|
    ensures ReadText(raw)[..n] == raw[..n] <==> '\r' !in raw[..n]
  {
    ReadTextHasNoReturn(raw);
    var read := ReadText(raw);
    assert forall i :: 0 <= i < n ==> read[..n][i] == read[i];
    if '\r' !in raw[..n] {
      assert raw == raw[..n] + raw[n..];
      ReadTextAppend(raw[..n], raw[n..]);
    }
  }

  // Blanks are read as blanks.
  lemma {:induction false} ReadBlanks(s: string)
    requires forall i :: 0 <= i < |s| ==> IsSpace(s[i])
    ensures forall i :: 0 <= i < |ReadText(s)| ==> IsSpace(ReadText(s)[i])
    decreases |s|
  {
    if s != "" {
      ReadBlanks(s[Step(s)..]);
    }
  }

  // Splitting behind a line boundary.
  lemma {:induction false} SplitAppend<T>(a: seq<T>, b: seq<T>, breaks: T -> bool)
    requires a != [] && breaks(a[|a| - 1])
    ensures SplitBy(a + b, breaks) == SplitBy(a, breaks) + SplitBy(b, breaks)
  {
    assert (a + b)[1..] == a[1..] + b;
    if |a| == 1 {
      assert a[1..] + b == b;
      assert SplitBy(a, breaks) == [[]];
    } else {
      SplitAppend(a[1..], b, breaks);
      FirstLineGrows(a[0], SplitBy(a[1..], breaks), SplitBy(b, breaks));
    }
  }

  // An unbroken front joins the first line.
  lemma {:induction false} SplitFront<T>(p: seq<T>, s: seq<T>, breaks: T -> bool)
    requires Unbroken(p, breaks) && s != []
    ensures SplitBy(p + s, breaks) == [p + SplitBy(s, breaks)[0]] + SplitBy(s, breaks)[1..]
  {
    if p == [] {
      assert p + s == s;
      assert [SplitBy(s, breaks)[0]] + SplitBy(s, breaks)[1..] == SplitBy(s, breaks);
      assert p + SplitBy(s, breaks)[0] == SplitBy(s, breaks)[0];
    } else {
      assert (p + s)[0] == p[0] && (p + s)[1..] == p[1..] + s;
      SplitFront(p[1..], s, breaks);
      assert [p[0]] + (p[1..] + SplitBy(s, breaks)[0]) == p + SplitBy(s, breaks)[0];
    }
  }

  lemma {:induction false} JoinHasOnly<T>(lines: seq<seq<T>>, sep: T, c: T)
    requires c != sep && forall i :: 0 <= i < |lines| ==> c !in lines[i]
    ensures c !in Join(lines, sep)
  {
    if |lines| > 1 {
      JoinHasOnly(lines[1..], sep, c);
    }
  }

  // A joined text contains only what its lines and the separator contain.
  lemma {:induction false} JoinUnbroken<T>(lines: seq<seq<T>>, sep: T, breaks: T -> bool)
    requires !breaks(sep) && forall i :: 0 <= i < |lines| ==> Unbroken(lines[i], breaks)
    ensures Unbroken(Join(lines, sep), breaks)
  {
    if |lines| > 1 {
      JoinUnbroken(lines[1..], sep, breaks);
    }
  }

  lemma AppendUnbroken<T>(a: seq<T>, b: seq<T>, breaks: T -> bool)
    requires Unbroken(a, breaks) && Unbroken(b, breaks)
    ensures Unbroken(a + b, breaks)
  {
  }

  lemma SuffixUnbroken<T>(s: seq<T>, n: nat, breaks: T -> bool)
    requires Unbroken(s, breaks) && n <= |s|
    ensures Unbroken(s[n..], breaks) && Unbroken(s[..n], breaks)
  {
  }

  lemma StripUnbroken<T>(s: seq<T>, blank: T -> bool, breaks: T -> bool)
    requires Unbroken(s, breaks)
    ensures Unbroken(StripBy(s, blank), breaks)
  {
    var r := RStripBy(s, blank);
    SuffixUnbroken(s, |r|, breaks);
    SuffixUnbroken(r, |r| - |LStripBy(r, blank)|, breaks);
  }

  // Joining is injective on lines without the separator.
  lemma JoinInjective<T>(a: seq<seq<T>>, b: seq<seq<T>>, sep: T)
    requires a != [] && b != [] && Join(a, sep) == Join(b, sep)
    requires forall i :: 0 <= i < |a| ==> sep !in a[i]
    requires forall i :: 0 <= i < |b| ==> sep !in b[i]
    ensures a == b
  {
    var breaks := (x: T) => x == sep;
    SplitJoin(a, sep, breaks);
    SplitJoin(b, sep, breaks);
  }
}
