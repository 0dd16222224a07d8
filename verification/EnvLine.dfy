// The env-file grammar of scripts/_infisical_util.py: the value rules of the parser, and the
// lines of the parser and the updater put together.
module EnvLine {
  import opened Wrappers
  import opened Text
  import opened LastWins
  import opened EnvTable
  import opened LineLexer
  import opened LineFiling
  import opened EnvRewrite

  const EXPORT := "export "

  // ----- values -----

  predicate IsQuoted(v: string) {
    |v| >= 2 && v[0] == v[|v| - 1] && (v[0] == '\'' || v[0] == '"')
  }

  // The least of the positions that are not -1.
  function LeastFound(a: int, b: int): int {
    if a == -1 then b else if b == -1 then a else if a <= b then a else b
  }

  // "#" in value[1:], and where.
  function BareHash(v: string): (q: int)
    ensures q == -1 || 1 <= q < |v|
    ensures q == -1 ==> forall i :: 1 <= i < |v| ==> v[i] != '#'
    ensures q != -1 ==> v[q] == '#' && forall i :: 1 <= i < q ==> v[i] != '#'
  {
    if v == "" then -1 else FindElement(v, '#', 1)
  }

  // The unquoted branch: the first of three comment markers ends the value.
  function CutComment(v: string): string {
    if Contains(v, " #") || Contains(v, "\t#") || BareHash(v) != -1 then
      var cut := LeastFound(LeastFound(Find(v, " #", 0), Find(v, "\t#", 0)), BareHash(v));
      Strip(v[..cut])
    else v
  }

  // What the parser makes of the text behind the equals sign.
  function CookValue(raw: string): string { CookStripped(Strip(raw)) }

  function CookStripped(v: string): string {
    if IsQuoted(v) then v[1..|v| - 1] else CutComment(v)
  }

  // ----- lines -----

  function EnvLexicon(): Lexicon<char> { Lexicon(IsSpace, '=', '#', EXPORT) }

  // _parse_env_file on one line.
  function ParseLine(line: string): Option<Binding<string, string>> {
    match PartsOf(EnvLexicon(), line)
    case None => None
    case Some(parts) => Some(Binding(parts.key, CookValue(parts.raw)))
  }

  function EnvGrammar(): Grammar<string, string, string> {
    Grammar(
      (line: string) => FiledKey(EnvLexicon(), line),
      ParseLine,
      (line: string, key: string, value: string) => RewriteLine(EnvLexicon(), line, key, value),
      (key: string, value: string) => FreshLine(EnvLexicon(), key, value),
      CookValue)
  }

  function GoodKey(): string -> bool {
    (key: string) => WellFormed(EnvLexicon(), key)
  }

  // ----- the comment rule -----

  // A blank and a '#', next to each other.
  lemma MarkerAt(v: string, blank: char, p: int)
    ensures OccursAt(v, [blank, '#'], p) <==> 0 <= p && p + 1 < |v| && v[p] == blank && v[p + 1] == '#'
  {
    if 0 <= p && p + 2 <= |v| {
      assert v[p..p + 2] == [v[p], v[p + 1]];
    }
  }

  // A marker that is found ends at a '#' behind the first character.
  lemma FoundMarker(v: string, blank: char)
    requires Find(v, [blank, '#'], 0) != -1
    ensures var p := Find(v, [blank, '#'], 0);
            0 <= p < |v| - 1 && v[p] == blank && BareHash(v) != -1 && BareHash(v) <= p + 1
  {
    MarkerAt(v, blank, Find(v, [blank, '#'], 0));
  }

  // The first such '#' has another character in front when no marker is found.
  lemma MissingMarker(v: string, blank: char)
    requires Find(v, [blank, '#'], 0) == -1 && BareHash(v) != -1
    ensures v[BareHash(v) - 1] != blank
  {
    MarkerAt(v, blank, BareHash(v) - 1);
  }

  lemma ContainsMarker(v: string, blank: char)
    ensures Contains(v, [blank, '#']) <==> Find(v, [blank, '#'], 0) != -1
  {
  }

  lemma FirstMarker(v: string, blank: char)
    ensures var p := Find(v, [blank, '#'], 0);
            && (p != -1 ==> 0 <= p < |v| - 1 && v[p] == blank && BareHash(v) != -1 && BareHash(v) <= p + 1)
            && (p == -1 && BareHash(v) != -1 ==> v[BareHash(v) - 1] != blank)
            && (Contains(v, [blank, '#']) <==> p != -1)
  {
    ContainsMarker(v, blank);
    if Find(v, [blank, '#'], 0) != -1 {
      FoundMarker(v, blank);
    } else if BareHash(v) != -1 {
      MissingMarker(v, blank);
    }
  }

  lemma StripDropsLastSpace(s: string)
    requires s != "" && IsSpace(s[|s| - 1])
    ensures Strip(s) == Strip(s[..|s| - 1])
  {
  }

  // Where the least marker lies: at the first '#' behind the first character, or at the
  // blank in front of it.
  lemma LeastMarker(v: string)
    ensures BareHash(v) == -1 ==> !Contains(v, " #") && !Contains(v, "\t#")
    ensures BareHash(v) != -1 ==>
              var cut := LeastFound(LeastFound(Find(v, " #", 0), Find(v, "\t#", 0)), BareHash(v));
              cut == BareHash(v) || (cut == BareHash(v) - 1 && IsSpace(v[cut]))
  {
    assert " #" == [' ', '#'] && "\t#" == ['\t', '#'];
    FirstMarker(v, ' ');
    FirstMarker(v, '\t');
  }

  // The three-marker rule is the simple one: cut at the first '#' behind the first
  // character, then trim.
  lemma CommentRule(v: string)
    ensures CutComment(v) == if BareHash(v) == -1 then v else Strip(v[..BareHash(v)])
  {
    LeastMarker(v);
    var q := BareHash(v);
    if q != -1 {
      var cut := LeastFound(LeastFound(Find(v, " #", 0), Find(v, "\t#", 0)), q);
      if cut != q {
        assert v[..q][..q - 1] == v[..cut];
        StripDropsLastSpace(v[..q]);
      }
    }
  }

  lemma StripIsPrefixOfTrimmedStart(v: string, n: nat)
    requires n <= |v| && v != "" && !IsSpace(v[0])
    ensures Strip(v[..n]) <= v
  {
    var r := RStrip(v[..n]);
    assert r == v[..|r|];
    assert LStrip(r) == r;
  }

  // An unquoted parsed value has no '#' behind its first character.
  lemma UnquotedHasNoComment(raw: string)
    requires !IsQuoted(Strip(raw))
    ensures BareHash(CookValue(raw)) == -1
  {
    var v := Strip(raw);
    CommentRule(v);
    var q := BareHash(v);
    if q != -1 {
      StripIsPrefixOfTrimmedStart(v, q);
      assert Strip(v[..q]) <= v && |Strip(v[..q])| <= q;
    }
  }

  // A value reads back unchanged exactly when it has no outer whitespace, is not wrapped in
  // a pair of quotes, and has no '#' behind its first character.
  lemma StableValueIff(v: string)
    ensures CookValue(v) == v <==> Trimmed(v) && !IsQuoted(v) && BareHash(v) == -1
  {
    CookedIsShorter(v);
    CommentRule(v);
  }

  lemma CookedIsShorter(v: string)
    ensures |CookValue(v)| <= |Strip(v)| <= |v|
    ensures IsQuoted(Strip(v)) || BareHash(Strip(v)) != -1 ==> |CookValue(v)| < |Strip(v)|
    ensures |Strip(v)| == |v| ==> Strip(v) == v
  {
    CommentRule(Strip(v));
  }

  // ----- the grammar as a whole -----

  lemma EnvLexiconIsSound()
    ensures Sound(EnvLexicon())
  {
  }

  lemma CookIgnoresTrailingSpace(v: string)
    ensures CookValue(RStrip(v)) == CookValue(v)
  {
    StripOfRStrip(v, IsSpace);
  }

  lemma FreshLineParses(k: string, v: string)
    requires GoodKey()(k)
    ensures ParseLine(FreshLine(EnvLexicon(), k, v)) == Some(Binding(k, CookValue(v)))
  {
    EnvLexiconIsSound();
    FreshParts(EnvLexicon(), k, v);
    CookIgnoresTrailingSpace(v);
  }

  lemma ExportLineParses(k: string, v: string)
    requires GoodKey()(k)
    ensures ParseLine(EXPORT + FreshLine(EnvLexicon(), k, v)) == Some(Binding(k, CookValue(v)))
  {
    EnvLexiconIsSound();
    WordParts(EnvLexicon(), k, v);
    CookIgnoresTrailingSpace(v);
  }

  lemma WrittenLineParses(line: string, k: string, v: string)
    requires GoodKey()(k)
    ensures ParseLine(FreshLine(EnvLexicon(), k, v)) == Some(Binding(k, CookValue(v)))
    ensures ParseLine(RewriteLine(EnvLexicon(), line, k, v)) == Some(Binding(k, CookValue(v)))
  {
    FreshLineParses(k, v);
    ExportLineParses(k, v);
  }

  lemma ParsedKeyIsFiledKey(line: string)
    requires ParseLine(line).Some?
    ensures FiledKey(EnvLexicon(), line) == Some(ParseLine(line).value.key)
  {
    EnvLexiconIsSound();
    PartsKeyIsFiledKey(EnvLexicon(), line);
  }

  // A line with a key for the updater is skipped by the parser exactly when it has the shape
  // `export =...`.
  lemma SkippedIffBareExport(line: string)
    requires FiledKey(EnvLexicon(), line).Some? && FiledKey(EnvLexicon(), line).value != ""
    ensures ParseLine(line).None? <==> BareWord(EnvLexicon(), line)
  {
    EnvLexiconIsSound();
    KeysDisagreeOnlyOnBareWord(EnvLexicon(), line);
  }

  // Keys that are found again when appended.
  function OwnEnvKey(): string -> bool {
    (key: string) => OwnKey(EnvLexicon(), key)
  }

  function Length(): string -> nat { (s: string) => |s| }

  lemma EnvRewriteAt(l: string, k: string, v: string, w: string)
    requires EnvGrammar().key(l) == Some(k)
    ensures EnvGrammar().key(EnvGrammar().rewrite(l, k, v)) == Some(k)
    ensures EnvGrammar().rewrite(EnvGrammar().rewrite(l, k, v), k, w) == EnvGrammar().rewrite(l, k, w)
  {
    EnvLexiconIsSound();
    FoundStaysFiled(EnvLexicon(), l, k, v);
    RewriteOverwrites(EnvLexicon(), l, k, v, w);
  }

  lemma EnvMakeAt(k: string, v: string, w: string)
    requires OwnEnvKey()(k)
    ensures EnvGrammar().key(EnvGrammar().make(k, v)) == Some(k)
    ensures EnvGrammar().rewrite(EnvGrammar().make(k, v), k, w) == EnvGrammar().make(k, w)
  {
    EnvLexiconIsSound();
    OwnKeyIsFiled(EnvLexicon(), k, v);
    FreshOverwrites(EnvLexicon(), k, v, w);
  }

  // A found line keeps its key...
  lemma EnvFoundStays()
    ensures FoundStays(EnvGrammar())
  {
    var g := EnvGrammar();
    forall l, k, v | g.key(l) == Some(k)
      ensures g.key(g.rewrite(l, k, v)) == Some(k) && forall w :: g.rewrite(g.rewrite(l, k, v), k, w) == g.rewrite(l, k, w)
    {
      forall w { EnvRewriteAt(l, k, v, w); }
    }
  }

  // ...a new line has its key when it is one of our own...
  lemma EnvOwnIsFiled()
    ensures OwnIsFiled(EnvGrammar(), OwnEnvKey())
  {
    var g := EnvGrammar();
    forall k, v | OwnEnvKey()(k)
      ensures g.key(g.make(k, v)) == Some(k) && forall w :: g.rewrite(g.make(k, v), k, w) == g.make(k, w)
    {
      forall w { EnvMakeAt(k, v, w); }
    }
  }

  // ...and otherwise a shorter one, or none.
  lemma EnvOthersAreLost()
    ensures Lossy(EnvGrammar(), OwnEnvKey(), Length())
  {
    var x := EnvLexicon();
    EnvLexiconIsSound();
    forall k, v | !OwnKey(x, k)
      ensures FiledKey(x, FreshLine(x, k, v)).Some? ==> |FiledKey(x, FreshLine(x, k, v)).value| < |k|
    {
      OtherKeyIsLost(x, k, v);
    }
  }

  lemma EnvParsedIsFiled(l: string)
    ensures EnvGrammar().parse(l).Some? ==> EnvGrammar().key(l) == Some(EnvGrammar().parse(l).value.key)
  {
    if ParseLine(l).Some? {
      ParsedKeyIsFiledKey(l);
    }
  }

  lemma EnvWrittenParses(l: string, k: string, v: string)
    requires GoodKey()(k)
    ensures EnvGrammar().parse(EnvGrammar().rewrite(l, k, v)) == Some(Binding(k, EnvGrammar().cook(v)))
    ensures EnvGrammar().parse(EnvGrammar().make(k, v)) == Some(Binding(k, EnvGrammar().cook(v)))
  {
    WrittenLineParses(l, k, v);
  }

  // The line grammar meets everything the file-level theory asks of it.
  lemma EnvGrammarIsCoherent()
    ensures Coherent(EnvGrammar(), GoodKey())
  {
    var g, ok := EnvGrammar(), GoodKey();
    EnvFoundStays();
    EnvOwnIsFiled();
    forall k | ok(k) ensures OwnEnvKey()(k) {}
    forall l ensures g.parse(l).Some? ==> g.key(l) == Some(g.parse(l).value.key) {
      EnvParsedIsFiled(l);
    }
    forall l, k, v | ok(k)
      ensures g.parse(g.rewrite(l, k, v)) == Some(Binding(k, g.cook(v)))
      ensures g.parse(g.make(k, v)) == Some(Binding(k, g.cook(v)))
    {
      EnvWrittenParses(l, k, v);
    }
  }
}
