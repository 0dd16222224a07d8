// The section expression of scripts/generate_entry_points.py: a header line, then the longest
// run of whole lines before the next opening bracket; finding it and replacing it everywhere.
module SectionSplice {
  import opened Wrappers
  import opened Sequences

  datatype Syntax<T> = Syntax(header: seq<T>, newline: T, bracket: T)

  // The header is one line that opens with the only bracket in it.
  ghost predicate Valid<T>(x: Syntax<T>) {
    x.newline != x.bracket && x.header != [] && x.header[0] == x.bracket
    && forall k: nat :: k < |x.header| ==> x.header[k] != x.newline && (x.header[k] == x.bracket ==> k == 0)
  }

  // ----- matching -----

  predicate HeaderAt<T(==)>(x: Syntax<T>, s: seq<T>, i: nat) {
    i + |x.header| < |s| && s[i + |x.header|] == x.newline
    && forall k: nat :: k < |x.header| ==> s[i + k] == x.header[k]
  }

  ghost predicate Headless<T>(x: Syntax<T>, s: seq<T>) { forall i: nat :: !HeaderAt(x, s, i) }

  ghost predicate FirstAt<T>(x: Syntax<T>, s: seq<T>, i: nat) {
    HeaderAt(x, s, i) && forall j: nat :: j < i ==> !HeaderAt(x, s, j)
  }

  function FirstHeader<T(==)>(x: Syntax<T>, s: seq<T>, from: nat := 0): (r: Option<nat>)
    requires forall j: nat :: j < from ==> !HeaderAt(x, s, j)
    ensures r.None? ==> Headless(x, s)
    ensures r.Some? ==> FirstAt(x, s, r.value)
    decreases |s| - from
  {
    if from >= |s| then None
    else if HeaderAt(x, s, from) then Some(from)
    else FirstHeader(x, s, from + 1)
  }

  // What the repeated group matches: whole lines without a bracket.
  ghost predicate IsBody<T>(x: Syntax<T>, b: seq<T>) {
    (b == [] || b[|b| - 1] == x.newline) && forall i: nat :: i < |b| ==> b[i] != x.bracket
  }

  lemma BodyCons<T>(x: Syntax<T>, t: seq<T>)
    requires t != [] && t[0] != x.bracket
    ensures forall m: nat :: 0 < m <= |t| ==>
              (IsBody(x, t[..m]) <==> (if m == 1 then t[0] == x.newline else IsBody(x, t[1..][..m - 1])))
  {
    forall m: nat | 0 < m <= |t|
      ensures IsBody(x, t[..m]) <==> (if m == 1 then t[0] == x.newline else IsBody(x, t[1..][..m - 1]))
    {
      var longer, shorter := t[..m], t[1..][..m - 1];
      assert forall i: nat :: i < m - 1 ==> shorter[i] == longer[i + 1];
      assert forall i: nat :: 0 < i < m ==> longer[i] == shorter[i - 1];
    }
  }

  // Its greedy match at the start of a text.
  function BodyLength<T(==)>(x: Syntax<T>, t: seq<T>): (n: nat)
    ensures n <= |t| && IsBody(x, t[..n])
    ensures forall m: nat :: n < m <= |t| ==> !IsBody(x, t[..m])
  {
    if t == [] || t[0] == x.bracket then
      assert forall m: nat :: 0 < m <= |t| ==> t[..m][0] == t[0];
      0
    else
      var n := BodyLength(x, t[1..]);
      BodyCons(x, t);
      if n > 0 then n + 1 else if t[0] == x.newline then 1 else 0
  }

  // ----- bodies -----

  lemma {:induction false} BodyAppend<T>(x: Syntax<T>, b: seq<T>, rest: seq<T>)
    requires IsBody(x, b)
    ensures BodyLength(x, b + rest) == |b| + BodyLength(x, rest)
  {
    if b == [] {
      assert b + rest == rest;
    } else {
      assert (b + rest)[1..] == b[1..] + rest;
      BodyAppend(x, b[1..], rest);
    }
  }

  // Nothing more of a section is left where its greedy match stops.
  lemma NothingLeft<T>(x: Syntax<T>, t: seq<T>)
    ensures BodyLength(x, t[BodyLength(x, t)..]) == 0
  {
    var n := BodyLength(x, t);
    assert t == t[..n] + t[n..];
    BodyAppend(x, t[..n], t[n..]);
  }

  // A bracket shuts out whatever follows it.
  lemma {:induction false} BracketStops<T>(x: Syntax<T>, p: seq<T>, rest: seq<T>)
    requires rest != [] && rest[0] == x.bracket
    ensures BodyLength(x, p + rest) == BodyLength(x, p)
  {
    if p == [] {
      assert p + rest == rest;
    } else {
      assert (p + rest)[1..] == p[1..] + rest;
      BracketStops(x, p[1..], rest);
    }
  }

  // ----- headers -----

  lemma FirstAtIsFirst<T>(x: Syntax<T>, s: seq<T>, i: nat)
    requires FirstAt(x, s, i)
    ensures FirstHeader(x, s) == Some(i)
  {
    var r := FirstHeader(x, s);
    assert r.Some? ==> r.value >= i && r.value <= i;
  }

  lemma HeaderInPrefix<T>(x: Syntax<T>, p: seq<T>, t: seq<T>, i: nat)
    requires i + |x.header| < |p|
    ensures HeaderAt(x, p + t, i) <==> HeaderAt(x, p, i)
  {
    assert forall k: nat :: k < |p| ==> (p + t)[k] == p[k];
  }

  lemma HeaderInSuffix<T>(x: Syntax<T>, p: seq<T>, t: seq<T>, i: nat)
    ensures HeaderAt(x, p + t, |p| + i) <==> HeaderAt(x, t, i)
  {
    var s := p + t;
    assert forall k: nat :: k < |t| ==> t[k] == s[|p| + k];
    if i + |x.header| < |t| && HeaderAt(x, s, |p| + i) {
      forall k: nat | k < |x.header| ensures t[i + k] == x.header[k] {
        assert s[|p| + i + k] == x.header[k];
      }
    }
  }

  // No header straddles an opening bracket.
  lemma NoStraddle<T>(x: Syntax<T>, p: seq<T>, t: seq<T>, i: nat)
    requires Valid(x) && t != [] && t[0] == x.bracket && i < |p| <= i + |x.header|
    ensures !HeaderAt(x, p + t, i)
  {
    var s, k := p + t, |p| - i;
    assert s[i + k] == x.bracket;
    assert k < |x.header| ==> x.header[k] != x.bracket;
  }

  lemma HeaderlessPrefix<T>(x: Syntax<T>, s: seq<T>, i: nat)
    requires i <= |s| && forall j: nat :: j < i ==> !HeaderAt(x, s, j)
    ensures Headless(x, s[..i])
  {
    assert s == s[..i] + s[i..];
    forall j: nat | j + |x.header| < i ensures !HeaderAt(x, s[..i], j) {
      HeaderInPrefix(x, s[..i], s[i..], j);
    }
  }

  lemma FirstAfter<T>(x: Syntax<T>, p: seq<T>, t: seq<T>)
    requires Valid(x) && Headless(x, p) && HeaderAt(x, t, 0)
    ensures FirstHeader(x, p + t) == Some(|p|)
  {
    HeaderInSuffix(x, p, t, 0);
    assert t[0 + 0] == x.header[0];
    forall j: nat | j < |p| ensures !HeaderAt(x, p + t, j) {
      if j + |x.header| < |p| {
        HeaderInPrefix(x, p, t, j);
      } else {
        NoStraddle(x, p, t, j);
      }
    }
    FirstAtIsFirst(x, p + t, |p|);
  }

  // ----- the first match -----

  // A section with this body.
  function Section<T>(x: Syntax<T>, b: seq<T>): seq<T> { x.header + [x.newline] + b }

  // A text around a section.
  datatype Match<T> = Match(front: seq<T>, body: seq<T>, rest: seq<T>)

  function Whole<T>(x: Syntax<T>, m: Match<T>): seq<T> { m.front + (Section(x, m.body) + m.rest) }

  // The section is the first one, and reaches as far as it can.
  ghost predicate Leftmost<T>(x: Syntax<T>, m: Match<T>) {
    Headless(x, m.front) && IsBody(x, m.body) && BodyLength(x, m.rest) == 0
  }

  lemma SectionIn<T>(x: Syntax<T>, s: seq<T>, i: nat)
    requires HeaderAt(x, s, i)
    ensures s[i..i + |x.header| + 1] == x.header + [x.newline]
  {
    forall k: nat | k < |x.header| ensures s[i..i + |x.header| + 1][k] == x.header[k] {
      assert s[i + k] == x.header[k];
    }
  }

  lemma SplitAt<T>(s: seq<T>, i: nat, j: nat, n: nat)
    requires i <= j && j + n <= |s|
    ensures s == s[..i] + (s[i..j] + s[j..][..n] + s[j + n..]) && s[j..][n..] == s[j + n..]
  {
  }

  // pattern.search
  function FirstMatch<T(==)>(x: Syntax<T>, s: seq<T>): (m: Option<Match<T>>)
    ensures m.None? <==> Headless(x, s)
    ensures m.Some? ==> Leftmost(x, m.value) && Whole(x, m.value) == s && |m.value.rest| < |s|
  {
    match FirstHeader(x, s)
    case None => None
    case Some(i) =>
      var j := i + |x.header| + 1;
      var n := BodyLength(x, s[j..]);
      HeaderlessPrefix(x, s, i);
      NothingLeft(x, s[j..]);
      SectionIn(x, s, i);
      SplitAt(s, i, j, n);
      Some(Match(s[..i], s[j..][..n], s[j + n..]))
  }

  lemma SectionStarts<T>(x: Syntax<T>, b: seq<T>, rest: seq<T>)
    requires Valid(x)
    ensures HeaderAt(x, Section(x, b) + rest, 0) && (Section(x, b) + rest)[0] == x.bracket
  {
    var t := Section(x, b) + rest;
    forall k: nat | k < |x.header| ensures t[0 + k] == x.header[k] {}
  }

  lemma FrontIsFirst<T>(x: Syntax<T>, m: Match<T>)
    requires Valid(x) && Headless(x, m.front)
    ensures FirstHeader(x, Whole(x, m)) == Some(|m.front|)
  {
    SectionStarts(x, m.body, m.rest);
    FirstAfter(x, m.front, Section(x, m.body) + m.rest);
  }

  lemma SectionAppend<T>(x: Syntax<T>, b: seq<T>, rest: seq<T>)
    ensures Section(x, b) + rest == x.header + [x.newline] + (b + rest)
  {
  }

  lemma SameMatch<T>(x: Syntax<T>, m: Match<T>, n: Match<T>)
    requires Valid(x) && Leftmost(x, m) && Leftmost(x, n) && Whole(x, m) == Whole(x, n)
    ensures m == n
  {
    FrontIsFirst(x, m);
    FrontIsFirst(x, n);
    Cancel(m.front, Section(x, m.body) + m.rest, n.front, Section(x, n.body) + n.rest);
    SectionAppend(x, m.body, m.rest);
    SectionAppend(x, n.body, n.rest);
    Cancel(x.header + [x.newline], m.body + m.rest, x.header + [x.newline], n.body + n.rest);
    BodyAppend(x, m.body, m.rest);
    BodyAppend(x, n.body, n.rest);
    Cancel(m.body, m.rest, n.body, n.rest);
  }

  // Only one way of taking a text apart is the first match.
  lemma LeftmostIsFirst<T>(x: Syntax<T>, m: Match<T>)
    requires Valid(x) && Leftmost(x, m)
    ensures FirstMatch(x, Whole(x, m)) == Some(m)
  {
    FrontIsFirst(x, m);
    SameMatch(x, m, FirstMatch(x, Whole(x, m)).value);
  }

  // Its first group, "" when there is none.
  function Existing<T(==)>(x: Syntax<T>, s: seq<T>): seq<T> {
    match FirstMatch(x, s)
    case None => []
    case Some(m) => Section(x, m.body)
  }

  // ----- replacing -----

  // pattern.sub with a literal replacement
  function ReplaceAll<T(==)>(x: Syntax<T>, s: seq<T>, section: seq<T>): seq<T>
    decreases |s|
  {
    match FirstMatch(x, s)
    case None => s
    case Some(m) => m.front + (section + ReplaceAll(x, m.rest, section))
  }

  // What can follow a section decides nothing about how far the front reaches.
  lemma SameReach<T>(x: Syntax<T>, p: seq<T>, b1: seq<T>, rest1: seq<T>, b2: seq<T>, rest2: seq<T>)
    requires Valid(x)
    ensures BodyLength(x, Whole(x, Match(p, b1, rest1))) == BodyLength(x, Whole(x, Match(p, b2, rest2)))
  {
    SectionStarts(x, b1, rest1);
    SectionStarts(x, b2, rest2);
    BracketStops(x, p, Section(x, b1) + rest1);
    BracketStops(x, p, Section(x, b2) + rest2);
  }

  // Replacing by a bracket-free section leaves no more to match than before, and replacing it
  // in turn by any other leaves nothing of it.
  lemma {:induction false} ReplaceOverwrites<T>(x: Syntax<T>, s: seq<T>, b: seq<T>, section: seq<T>)
    requires Valid(x) && IsBody(x, b)
    ensures var t := ReplaceAll(x, s, Section(x, b));
            ReplaceAll(x, t, section) == ReplaceAll(x, s, section)
            && (BodyLength(x, s) == 0 ==> BodyLength(x, t) == 0)
    decreases |s|
  {
    var found := FirstMatch(x, s);
    if found.Some? {
      var m := found.value;
      ReplaceOverwrites(x, m.rest, b, section);
      var again := Match(m.front, b, ReplaceAll(x, m.rest, Section(x, b)));
      LeftmostIsFirst(x, again);
      SameReach(x, m.front, m.body, m.rest, b, again.rest);
    }
  }

  // ----- what replacing keeps -----

  // gaps[0] + sections[0] + gaps[1] + ... + gaps[n]
  function Weave<T>(gaps: seq<seq<T>>, sections: seq<seq<T>>): seq<T>
    requires |gaps| == |sections| + 1
  {
    if sections == [] then gaps[0] else gaps[0] + (sections[0] + Weave(gaps[1..], sections[1..]))
  }

  // Outside the sections nothing starts one, and no whole line is left between a section and
  // the next bracket.
  ghost predicate Parsed<T>(x: Syntax<T>, gaps: seq<seq<T>>, bodies: seq<seq<T>>) {
    |gaps| == |bodies| + 1
    && (forall i: nat :: i < |gaps| ==> Headless(x, gaps[i]))
    && (forall i: nat :: i < |bodies| ==> IsBody(x, bodies[i]))
    && (forall i: nat :: 0 < i < |gaps| ==> BodyLength(x, gaps[i]) == 0)
  }

  function Sections<T>(x: Syntax<T>, bodies: seq<seq<T>>): seq<seq<T>> {
    seq(|bodies|, i requires 0 <= i < |bodies| => Section(x, bodies[i]))
  }

  function Copies<T>(n: nat, section: seq<T>): seq<seq<T>> { seq(n, _ => section) }

  lemma WeaveCons<T>(gap: seq<T>, gaps: seq<seq<T>>, section: seq<T>, sections: seq<seq<T>>)
    requires |gaps| == |sections| + 1
    ensures Weave([gap] + gaps, [section] + sections) == gap + (section + Weave(gaps, sections))
  {
    assert ([gap] + gaps)[1..] == gaps;
    assert ([section] + sections)[1..] == sections;
  }

  lemma SectionsCons<T>(x: Syntax<T>, body: seq<T>, bodies: seq<seq<T>>)
    ensures Sections(x, [body] + bodies) == [Section(x, body)] + Sections(x, bodies)
  {
  }

  lemma CopiesCons<T>(n: nat, section: seq<T>)
    ensures Copies(n + 1, section) == [section] + Copies(n, section)
  {
  }

  // Whatever stands before the next bracket also stands before the next section.
  lemma FrontReach<T>(x: Syntax<T>, m: Match<T>)
    requires Valid(x) && BodyLength(x, Whole(x, m)) == 0
    ensures BodyLength(x, m.front) == 0
  {
    SectionStarts(x, m.body, m.rest);
    BracketStops(x, m.front, Section(x, m.body) + m.rest);
  }

  lemma ParsedCons<T>(x: Syntax<T>, gap: seq<T>, gaps: seq<seq<T>>, body: seq<T>, bodies: seq<seq<T>>)
    requires Parsed(x, gaps, bodies) && Headless(x, gap) && IsBody(x, body) && BodyLength(x, gaps[0]) == 0
    ensures Parsed(x, [gap] + gaps, [body] + bodies)
  {
    var g := [gap] + gaps;
    forall i: nat | 0 < i < |g| ensures g[i] == gaps[i - 1] {}
  }

  // The text outside the sections is kept, and every section becomes the new one.
  lemma {:induction false} ReplaceKeepsGaps<T>(x: Syntax<T>, s: seq<T>, section: seq<T>)
    returns (gaps: seq<seq<T>>, bodies: seq<seq<T>>)
    requires Valid(x)
    ensures Parsed(x, gaps, bodies) && s == Weave(gaps, Sections(x, bodies))
    ensures ReplaceAll(x, s, section) == Weave(gaps, Copies(|bodies|, section))
    ensures bodies == [] <==> Headless(x, s)
    ensures BodyLength(x, s) == 0 ==> BodyLength(x, gaps[0]) == 0
    decreases |s|
  {
    var found := FirstMatch(x, s);
    if found.None? {
      gaps, bodies := [s], [];
    } else {
      var m := found.value;
      var g, t := ReplaceKeepsGaps(x, m.rest, section);
      gaps, bodies := [m.front] + g, [m.body] + t;
      ParsedCons(x, m.front, g, m.body, t);
      SectionsCons(x, m.body, t);
      CopiesCons(|t|, section);
      WeaveCons(m.front, g, Section(x, m.body), Sections(x, t));
      WeaveCons(m.front, g, section, Copies(|t|, section));
      if BodyLength(x, s) == 0 {
        FrontReach(x, m);
      }
    }
  }

  // ----- counting brackets -----

  ghost function Brackets<T>(x: Syntax<T>, s: seq<T>): nat { multiset(s)[x.bracket] }

  lemma SectionBrackets<T>(x: Syntax<T>, b: seq<T>)
    requires Valid(x)
    ensures Brackets(x, Section(x, b)) == 1 + Brackets(x, b)
  {
    var tail := x.header[1..];
    assert x.header == [x.bracket] + tail;
    assert x.bracket !in tail;
    assert Section(x, b) == [x.bracket] + tail + [x.newline] + b;
  }

  lemma BracketsOfParts<T>(x: Syntax<T>, front: seq<T>, section: seq<T>, rest: seq<T>)
    ensures Brackets(x, front + (section + rest)) == Brackets(x, front) + Brackets(x, section) + Brackets(x, rest)
  {
  }

  // Only the brackets of the new section count, not its text.
  lemma {:induction false} BracketsAlike<T>(x: Syntax<T>, s: seq<T>, a: seq<T>, b: seq<T>)
    requires Brackets(x, a) == Brackets(x, b)
    ensures Brackets(x, ReplaceAll(x, s, a)) == Brackets(x, ReplaceAll(x, s, b))
    decreases |s|
  {
    var found := FirstMatch(x, s);
    if found.Some? {
      var m := found.value;
      BracketsAlike(x, m.rest, a, b);
      BracketsOfParts(x, m.front, a, ReplaceAll(x, m.rest, a));
      BracketsOfParts(x, m.front, b, ReplaceAll(x, m.rest, b));
    }
  }

  // With a bracket among the entries every replacement adds brackets.
  lemma {:induction false} BracketsGrow<T>(x: Syntax<T>, s: seq<T>, b: seq<T>)
    requires Valid(x) && x.bracket in b
    ensures Brackets(x, ReplaceAll(x, s, Section(x, b))) >= Brackets(x, s)
    ensures !Headless(x, s) ==> Brackets(x, ReplaceAll(x, s, Section(x, b))) > Brackets(x, s)
    decreases |s|
  {
    var found := FirstMatch(x, s);
    if found.Some? {
      var m := found.value;
      BracketsGrow(x, m.rest, b);
      assert x.bracket !in m.body;
      SectionBrackets(x, b);
      SectionBrackets(x, m.body);
      BracketsOfParts(x, m.front, Section(x, m.body), m.rest);
      BracketsOfParts(x, m.front, Section(x, b), ReplaceAll(x, m.rest, Section(x, b)));
    }
  }
}
