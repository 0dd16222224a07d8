// Writing the generated section into a text, and recognising it there again.
module SectionSync {
  import opened Sequences
  import opened Text
  import opened SectionSplice

  // _replace_entry_point_section: replace every section, or append one after the right-trimmed
  // text.
  function Splice<T(==)>(x: Syntax<T>, s: seq<T>, body: seq<T>, blank: T -> bool): seq<T> {
    if FirstMatch(x, s).Some? then ReplaceAll(x, s, Section(x, body) + [x.newline])
    else RStripBy(s, blank) + [x.newline, x.newline] + Section(x, body) + [x.newline]
  }

  // The same with all the lines below the header given.
  function SpliceLines<T(==)>(x: Syntax<T>, s: seq<T>, lines: seq<T>, blank: T -> bool): seq<T> {
    if FirstMatch(x, s).Some? then ReplaceAll(x, s, Section(x, lines))
    else RStripBy(s, blank) + [x.newline, x.newline] + Section(x, lines)
  }

  lemma SpliceIsLines<T>(x: Syntax<T>, s: seq<T>, body: seq<T>, blank: T -> bool)
    ensures Splice(x, s, body, blank) == SpliceLines(x, s, body + [x.newline], blank)
  {
    Padded(x, body);
    Reassociate(RStripBy(s, blank) + [x.newline, x.newline], Section(x, body), [x.newline]);
  }

  function IsNewline<T(==)>(x: Syntax<T>): T -> bool { (c: T) => c == x.newline }

  // rstrip("\n")
  function Trim<T(==)>(x: Syntax<T>, s: seq<T>): seq<T> { RStripBy(s, IsNewline(x)) }

  // The comparison in check_mode.
  predicate InSync<T(==)>(x: Syntax<T>, s: seq<T>, body: seq<T>) {
    Trim(x, Existing(x, s)) == Trim(x, Section(x, body))
  }

  // A generated body: no line, or lines that are not all blank.
  ghost predicate IsEntries<T>(x: Syntax<T>, body: seq<T>) {
    body == [] || (body[|body| - 1] == x.newline && exists k: nat :: k < |body| && body[k] != x.newline)
  }

  ghost predicate EndsWith<T>(s: seq<T>, tail: seq<T>) {
    |tail| <= |s| && s[|s| - |tail|..] == tail
  }

  // No entries at all, or no bracket among them and the text does not end in a bare header.
  ghost predicate Settles<T>(x: Syntax<T>, s: seq<T>, body: seq<T>, blank: T -> bool) {
    body == [] || (x.bracket !in body && (Headless(x, s) ==> !EndsWith(RStripBy(s, blank), x.header)))
  }

  // ----- trimming -----

  lemma TrimNewline<T>(x: Syntax<T>, s: seq<T>)
    ensures Trim(x, s + [x.newline]) == Trim(x, s)
  {
    assert (s + [x.newline])[..|s|] == s;
  }

  lemma {:induction false} TrimCounts<T>(x: Syntax<T>, s: seq<T>, c: T)
    requires c != x.newline
    ensures multiset(Trim(x, s))[c] == multiset(s)[c]
  {
    if s != [] && s[|s| - 1] == x.newline {
      TrimCounts(x, s[..|s| - 1], c);
      assert s == s[..|s| - 1] + [x.newline];
    }
  }

  // Trimming a section stops at the last entry.
  lemma TrimSection<T>(x: Syntax<T>, body: seq<T>)
    requires Valid(x)
    ensures Trim(x, Section(x, [x.newline])) == x.header
    ensures body != [] && IsEntries(x, body) ==> |Trim(x, Section(x, body))| > |x.header|
  {
    TrimNewline(x, x.header + [x.newline]);
    TrimNewline(x, x.header);
    assert Trim(x, x.header) == x.header;
    if body != [] && IsEntries(x, body) {
      var k: nat :| k < |body| && body[k] != x.newline;
      assert Section(x, body)[|x.header| + 1 + k] != x.newline;
    }
  }

  lemma Padded<T>(x: Syntax<T>, body: seq<T>)
    ensures Section(x, body) + [x.newline] == Section(x, body + [x.newline])
  {
  }

  // A section with a bracket among its entries is never recognised.
  lemma BracketsAreNotFound<T>(x: Syntax<T>, s: seq<T>, body: seq<T>)
    requires Valid(x) && x.bracket in body
    ensures !InSync(x, s, body)
  {
    TrimCounts(x, Existing(x, s), x.bracket);
    TrimCounts(x, Section(x, body), x.bracket);
    SectionBrackets(x, body);
    var found := FirstMatch(x, s);
    if found.Some? {
      assert x.bracket !in found.value.body;
      SectionBrackets(x, found.value.body);
    }
  }

  lemma PartHasOnly<T>(front: seq<T>, part: seq<T>, rest: seq<T>, c: T)
    requires c !in front + (part + rest)
    ensures c !in part
  {
    var s := front + (part + rest);
    assert forall k: nat :: k < |part| ==> s[|front| + k] == part[k];
  }

  // Nor one with an element the text does not contain.
  lemma ForeignIsNotFound<T>(x: Syntax<T>, s: seq<T>, body: seq<T>, c: T)
    requires c != x.newline && c in body && c !in s
    ensures !InSync(x, s, body)
  {
    TrimCounts(x, Existing(x, s), c);
    TrimCounts(x, Section(x, body), c);
    assert c in Section(x, body);
    var found := FirstMatch(x, s);
    if found.Some? {
      PartHasOnly(found.value.front, Section(x, found.value.body), found.value.rest, c);
    }
  }

  // A tail that does not end in a blank survives trimming.
  lemma TailStays<T>(s: seq<T>, tail: seq<T>, blank: T -> bool)
    requires tail != [] && !blank(tail[|tail| - 1])
    ensures EndsWith(RStripBy(s + tail, blank), tail)
  {
    assert (s + tail)[|s|..] == tail;
  }

  // ----- the shape of the new text -----

  lemma HeadlessFront<T>(x: Syntax<T>, s: seq<T>, n: nat)
    requires Headless(x, s) && n <= |s|
    ensures Headless(x, s[..n])
  {
    HeaderlessPrefix(x, s, n);
  }

  // A section that was there has become the new one.
  lemma SpliceReplaces<T>(x: Syntax<T>, s: seq<T>, lines: seq<T>, blank: T -> bool) returns (m: Match<T>)
    requires Valid(x) && !Headless(x, s)
    ensures SpliceLines(x, s, lines, blank) == Whole(x, m) && Headless(x, m.front) && m.body == lines
    ensures IsBody(x, lines) ==> Leftmost(x, m)
  {
    var found := FirstMatch(x, s).value;
    m := Match(found.front, lines, ReplaceAll(x, found.rest, Section(x, lines)));
    if IsBody(x, lines) {
      ReplaceOverwrites(x, found.rest, lines, []);
    }
  }

  lemma HeaderAtEnd<T>(x: Syntax<T>, r: seq<T>, t: seq<T>, i: nat)
    requires i + |x.header| == |r| && HeaderAt(x, r + t, i)
    ensures EndsWith(r, x.header)
  {
    var s := r + t;
    assert forall k: nat :: k < |x.header| ==> s[i + k] == x.header[k];
    assert r[i..] == x.header;
  }

  lemma TwoNewlinesStart<T>(x: Syntax<T>, r: seq<T>)
    requires Valid(x) && Headless(x, r) && !EndsWith(r, x.header)
    ensures Headless(x, r + [x.newline, x.newline])
  {
    var s := r + [x.newline, x.newline];
    forall i: nat | i + |x.header| < |s| ensures !HeaderAt(x, s, i) {
      if i + |x.header| < |r| {
        HeaderInPrefix(x, r, [x.newline, x.newline], i);
      } else if i + |x.header| == |r| {
        if HeaderAt(x, s, i) {
          HeaderAtEnd(x, r, [x.newline, x.newline], i);
        }
      } else {
        var k: nat := |x.header| - 1;
        assert s[i + k] == x.newline && x.header[k] != x.newline;
      }
    }
  }

  // A new section has been appended.
  lemma SpliceAppends<T>(x: Syntax<T>, s: seq<T>, lines: seq<T>, blank: T -> bool) returns (m: Match<T>)
    requires Valid(x) && Headless(x, s) && !EndsWith(RStripBy(s, blank), x.header)
    ensures SpliceLines(x, s, lines, blank) == Whole(x, m) && Headless(x, m.front) && m.body == lines
    ensures m.front == RStripBy(s, blank) + [x.newline, x.newline] && m.rest == [] && BodyLength(x, m.rest) == 0
  {
    var r := RStripBy(s, blank);
    HeadlessFront(x, s, |r|);
    TwoNewlinesStart(x, r);
    m := Match(r + [x.newline, x.newline], lines, []);
    assert Whole(x, m) == m.front + Section(x, m.body);
  }

  // A new section has been appended after a bare header, which has become a section itself.
  lemma SpliceAfterHeader<T>(x: Syntax<T>, s: seq<T>, lines: seq<T>, blank: T -> bool) returns (m: Match<T>)
    requires Valid(x) && Headless(x, s) && EndsWith(RStripBy(s, blank), x.header)
    ensures SpliceLines(x, s, lines, blank) == Whole(x, m) && Leftmost(x, m)
    ensures m.front == FrontOf(x, RStripBy(s, blank)) && m.body == [x.newline] && m.rest == Section(x, lines)
  {
    var r := RStripBy(s, blank);
    var front := FrontOf(x, r);
    HeadlessFront(x, s, |r|);
    HeadlessFront(x, r, |front|);
    m := Match(front, [x.newline], Section(x, lines));
    assert r == front + x.header;
    AfterHeaderWhole(x, front, lines);
    StartsWithBracket(x, lines);
  }

  lemma StartsWithBracket<T>(x: Syntax<T>, lines: seq<T>)
    requires Valid(x)
    ensures BodyLength(x, Section(x, lines)) == 0
  {
    assert Section(x, lines)[0] == x.bracket;
  }

  // The text in front of a final header.
  function FrontOf<T>(x: Syntax<T>, r: seq<T>): seq<T>
    requires EndsWith(r, x.header)
  {
    r[..|r| - |x.header|]
  }

  lemma AfterHeaderWhole<T>(x: Syntax<T>, front: seq<T>, lines: seq<T>)
    ensures (front + x.header) + [x.newline, x.newline] + Section(x, lines)
            == Whole(x, Match(front, [x.newline], Section(x, lines)))
  {
  }

  // ----- recognising it again -----

  lemma ExistingIs<T>(x: Syntax<T>, m: Match<T>)
    requires Valid(x) && Leftmost(x, m)
    ensures Existing(x, Whole(x, m)) == Section(x, m.body)
  {
    LeftmostIsFirst(x, m);
  }

  lemma FoundPadded<T>(x: Syntax<T>, m: Match<T>, body: seq<T>)
    requires Valid(x) && Leftmost(x, m) && m.body == body + [x.newline]
    ensures InSync(x, Whole(x, m), body)
  {
    ExistingIs(x, m);
    Padded(x, body);
    TrimNewline(x, Section(x, body));
  }

  lemma FoundBlank<T>(x: Syntax<T>, m: Match<T>, body: seq<T>)
    requires Valid(x) && Leftmost(x, m) && m.body == [x.newline] && IsEntries(x, body)
    ensures InSync(x, Whole(x, m), body) <==> body == []
  {
    ExistingIs(x, m);
    TrimSection(x, body);
    Padded(x, []);
    TrimNewline(x, Section(x, []));
  }

  // The check passes on the new text exactly when the rewrite settles.
  lemma SyncIffSettles<T>(x: Syntax<T>, s: seq<T>, body: seq<T>, blank: T -> bool)
    requires Valid(x) && IsEntries(x, body)
    ensures InSync(x, Splice(x, s, body, blank), body) <==> Settles(x, s, body, blank)
  {
    SpliceIsLines(x, s, body, blank);
    if x.bracket in body {
      BracketsAreNotFound(x, Splice(x, s, body, blank), body);
    } else if !Headless(x, s) {
      var m := SpliceReplaces(x, s, body + [x.newline], blank);
      FoundPadded(x, m, body);
    } else if !EndsWith(RStripBy(s, blank), x.header) {
      var m := SpliceAppends(x, s, body + [x.newline], blank);
      FoundPadded(x, m, body);
    } else {
      var m := SpliceAfterHeader(x, s, body + [x.newline], blank);
      FoundBlank(x, m, body);
    }
  }

  lemma ReplaceLone<T>(x: Syntax<T>, m: Match<T>, section: seq<T>)
    requires Valid(x) && Leftmost(x, m)
    ensures ReplaceAll(x, Whole(x, m), section) == m.front + (section + ReplaceAll(x, m.rest, section))
  {
    LeftmostIsFirst(x, m);
  }

  lemma NothingToReplace<T>(x: Syntax<T>, line: seq<T>, section: seq<T>)
    requires x.newline !in line
    ensures ReplaceAll(x, line, section) == line
  {
    forall i: nat | i + |x.header| < |line| ensures !HeaderAt(x, line, i) {
      assert line[i + |x.header|] in line;
    }
  }

  lemma SpliceSection<T>(x: Syntax<T>, m: Match<T>, body: seq<T>, blank: T -> bool)
    requires Valid(x) && Headless(x, m.front)
    ensures !Headless(x, Whole(x, m))
    ensures Splice(x, Whole(x, m), body, blank) == ReplaceAll(x, Whole(x, m), Section(x, body + [x.newline]))
  {
    FrontIsFirst(x, m);
    Padded(x, body);
  }

  // Lines that the generated ones may be read back as.
  ghost predicate ReadsAs<T>(x: Syntax<T>, body: seq<T>, lines: seq<T>) {
    lines != [] && lines[|lines| - 1] == x.newline && Brackets(x, lines) == Brackets(x, body)
  }

  lemma ReadsAsBody<T>(x: Syntax<T>, body: seq<T>, lines: seq<T>)
    requires ReadsAs(x, body, lines) && x.bracket !in body
    ensures IsBody(x, lines)
  {
    assert multiset(lines)[x.bracket] == 0;
    assert x.bracket !in lines;
  }

  // A second rewrite, of the text as it is read back, gives the same text exactly when the
  // first one settles.
  lemma TwiceIffSettles<T>(x: Syntax<T>, s: seq<T>, body: seq<T>, lines: seq<T>, blank: T -> bool)
    requires Valid(x) && IsEntries(x, body) && ReadsAs(x, body, lines)
    ensures Splice(x, SpliceLines(x, s, lines, blank), body, blank) == Splice(x, s, body, blank) <==> Settles(x, s, body, blank)
  {
    if x.bracket in body {
      BracketsChange(x, s, body, lines, blank);
    } else {
      ReadsAsBody(x, body, lines);
      if !Headless(x, s) {
        ReplacedTwice(x, s, body, lines, blank);
      } else if !EndsWith(RStripBy(s, blank), x.header) {
        AppendedTwice(x, s, body, lines, blank);
      } else {
        AfterHeaderTwice(x, s, body, lines, blank);
      }
    }
  }

  lemma ReplacedTwice<T>(x: Syntax<T>, s: seq<T>, body: seq<T>, lines: seq<T>, blank: T -> bool)
    requires Valid(x) && IsBody(x, lines) && !Headless(x, s)
    ensures Splice(x, SpliceLines(x, s, lines, blank), body, blank) == Splice(x, s, body, blank)
  {
    var m := SpliceReplaces(x, s, lines, blank);
    SpliceSection(x, m, body, blank);
    SpliceIsLines(x, s, body, blank);
    ReplaceOverwrites(x, s, lines, Section(x, body + [x.newline]));
  }

  lemma AppendedTwice<T>(x: Syntax<T>, s: seq<T>, body: seq<T>, lines: seq<T>, blank: T -> bool)
    requires Valid(x) && IsBody(x, lines) && Headless(x, s) && !EndsWith(RStripBy(s, blank), x.header)
    ensures Splice(x, SpliceLines(x, s, lines, blank), body, blank) == Splice(x, s, body, blank)
  {
    var section := Section(x, body + [x.newline]);
    var m := SpliceAppends(x, s, lines, blank);
    var n := SpliceAppends(x, s, body + [x.newline], blank);
    SpliceSection(x, m, body, blank);
    SpliceIsLines(x, s, body, blank);
    ReplaceLone(x, m, section);
    NothingToReplace(x, m.rest, section);
  }

  // After a bare header only the empty section settles.
  lemma AfterHeaderTwice<T>(x: Syntax<T>, s: seq<T>, body: seq<T>, lines: seq<T>, blank: T -> bool)
    requires Valid(x) && IsBody(x, lines) && Headless(x, s) && EndsWith(RStripBy(s, blank), x.header)
    ensures Splice(x, SpliceLines(x, s, lines, blank), body, blank) == Splice(x, s, body, blank) <==> body == []
  {
    var section := Section(x, body + [x.newline]);
    var m := SpliceAfterHeader(x, s, lines, blank);
    var n := SpliceAfterHeader(x, s, body + [x.newline], blank);
    SpliceSection(x, m, body, blank);
    SpliceIsLines(x, s, body, blank);
    ReplaceLone(x, m, section);
    ReplaceWhole(x, lines, section);
    SameFront(m.front, section, Section(x, [x.newline]), section);
    SameSection(x, body + [x.newline], [x.newline]);
    assert |body + [x.newline]| == |body| + 1;
  }

  lemma ReplaceWhole<T>(x: Syntax<T>, b: seq<T>, section: seq<T>)
    requires Valid(x) && IsBody(x, b)
    ensures ReplaceAll(x, Section(x, b), section) == section
  {
    var m := Match([], b, []);
    assert Whole(x, m) == Section(x, b);
    ReplaceLone(x, m, section);
    NothingToReplace(x, [], section);
    assert [] + (section + []) == section;
  }

  lemma PaddedBrackets<T>(x: Syntax<T>, body: seq<T>)
    requires Valid(x) && x.bracket in body
    ensures x.bracket in body + [x.newline] && Brackets(x, body + [x.newline]) == Brackets(x, body)
  {
  }

  lemma RewriteGrows<T>(x: Syntax<T>, s: seq<T>, padded: seq<T>, lines: seq<T>, blank: T -> bool)
    requires Valid(x) && x.bracket in padded && Brackets(x, lines) == Brackets(x, padded)
    ensures Brackets(x, SpliceLines(x, SpliceLines(x, s, lines, blank), padded, blank)) > Brackets(x, SpliceLines(x, s, padded, blank))
  {
    var once := SpliceLines(x, s, lines, blank);
    SpliceHasHeader(x, s, lines, blank);
    BracketsGrow(x, once, padded);
    SpliceBracketsAlike(x, s, lines, padded, blank);
  }

  // With brackets in the entries every rewrite adds some.
  lemma BracketsChange<T>(x: Syntax<T>, s: seq<T>, body: seq<T>, lines: seq<T>, blank: T -> bool)
    requires Valid(x) && IsEntries(x, body) && ReadsAs(x, body, lines) && x.bracket in body
    ensures Splice(x, SpliceLines(x, s, lines, blank), body, blank) != Splice(x, s, body, blank)
  {
    PaddedBrackets(x, body);
    SpliceIsLines(x, SpliceLines(x, s, lines, blank), body, blank);
    SpliceIsLines(x, s, body, blank);
    RewriteGrows(x, s, body + [x.newline], lines, blank);
  }

  lemma SpliceHasHeader<T>(x: Syntax<T>, s: seq<T>, lines: seq<T>, blank: T -> bool)
    requires Valid(x)
    ensures !Headless(x, SpliceLines(x, s, lines, blank))
  {
    var m;
    if !Headless(x, s) {
      m := SpliceReplaces(x, s, lines, blank);
    } else if !EndsWith(RStripBy(s, blank), x.header) {
      m := SpliceAppends(x, s, lines, blank);
    } else {
      m := SpliceAfterHeader(x, s, lines, blank);
    }
    FrontIsFirst(x, m);
  }

  lemma SpliceBracketsAlike<T>(x: Syntax<T>, s: seq<T>, lines: seq<T>, padded: seq<T>, blank: T -> bool)
    requires Valid(x) && Brackets(x, lines) == Brackets(x, padded)
    ensures Brackets(x, SpliceLines(x, s, lines, blank)) == Brackets(x, SpliceLines(x, s, padded, blank))
  {
    SectionBrackets(x, lines);
    SectionBrackets(x, padded);
    BracketsAlike(x, s, Section(x, lines), Section(x, padded));
    var r := RStripBy(s, blank) + [x.newline, x.newline];
    assert r + Section(x, lines) == r + (Section(x, lines) + []);
    assert r + Section(x, padded) == r + (Section(x, padded) + []);
    BracketsOfParts(x, r, Section(x, lines), []);
    BracketsOfParts(x, r, Section(x, padded), []);
  }

  lemma SameFront<T>(p: seq<T>, a: seq<T>, b: seq<T>, rest: seq<T>)
    ensures p + (a + rest) == p + (b + rest) <==> a == b
  {
    if p + (a + rest) == p + (b + rest) {
      assert |p + (a + rest)| == |p| + |a| + |rest|;
      Cancel(p, a + rest, p, b + rest);
      Cancel(a, rest, b, rest);
    }
  }

  lemma SameSection<T>(x: Syntax<T>, a: seq<T>, b: seq<T>)
    ensures Section(x, a) == Section(x, b) <==> a == b
  {
    if Section(x, a) == Section(x, b) {
      Cancel(x.header + [x.newline], a, x.header + [x.newline], b);
    }
  }

  // ----- what is left behind -----

  // An unterminated last line of a section is not part of it: it stays behind the new one.
  lemma UnterminatedLineStays<T>(x: Syntax<T>, front: seq<T>, oldBody: seq<T>, line: seq<T>, body: seq<T>, blank: T -> bool)
    requires Valid(x) && Headless(x, front) && IsBody(x, oldBody)
    requires x.newline !in line && x.bracket !in line
    ensures Splice(x, front + (Section(x, oldBody) + line), body, blank)
            == front + (Section(x, body) + [x.newline] + line)
  {
    var m, section := Match(front, oldBody, line), Section(x, body) + [x.newline];
    var n := BodyLength(x, line);
    assert forall k: nat :: k < n ==> line[..n][k] in line;
    ReplaceLone(x, m, section);
    NothingToReplace(x, line, section);
    LeftmostIsFirst(x, m);
  }

  // ----- characters -----

  lemma SectionHasOnly<T>(x: Syntax<T>, body: seq<T>, c: T)
    requires c !in x.header && c != x.newline && c !in body
    ensures c !in Section(x, body)
  {
  }

  lemma {:induction false} ReplaceHasOnly<T>(x: Syntax<T>, s: seq<T>, section: seq<T>, c: T)
    requires c !in s && c !in section
    ensures c !in ReplaceAll(x, s, section)
    decreases |s|
  {
    var found := FirstMatch(x, s);
    if found.Some? {
      var m := found.value;
      assert forall k: nat :: k < |m.front| ==> s[k] == m.front[k];
      assert s[|s| - |m.rest|..] == m.rest;
      ReplaceHasOnly(x, m.rest, section, c);
    }
  }

  // The new text is made of the old one, the header, newlines and the body.
  lemma SpliceHasOnly<T>(x: Syntax<T>, s: seq<T>, body: seq<T>, blank: T -> bool, c: T)
    requires c !in s && c !in x.header && c != x.newline && c !in body
    ensures c !in Splice(x, s, body, blank)
  {
    SectionHasOnly(x, body, c);
    if FirstMatch(x, s).Some? {
      ReplaceHasOnly(x, s, Section(x, body) + [x.newline], c);
    }
  }
}
