// How scripts/_infisical_util.py takes a line apart, over any alphabet: the parser and the
// updater each find the key in front of the equals sign in their own way.
module LineLexer {
  import opened Wrappers
  import opened Sequences
  import opened Text

  // Blanks, the equals sign, the comment sign and the leading word ("export ").
  datatype Lexicon<!T> = Lexicon(blank: T -> bool, equals: T, hash: T, word: seq<T>)

  ghost predicate Sound<T>(x: Lexicon<T>) {
    && !x.blank(x.equals)
    && x.word != [] && !x.blank(x.word[0]) && x.word[0] != x.hash && x.blank(x.word[|x.word| - 1])
    && x.equals !in x.word && x.equals != x.hash
  }

  // A line taken apart: trimmed key and text behind the equals sign.
  datatype Parts<T> = Parts(key: seq<T>, raw: seq<T>)

  function RemovePrefix<T(==)>(s: seq<T>, p: seq<T>): seq<T> {
    if p <= s then s[|p|..] else s
  }

  // The text in front of and behind the first occurrence of c.
  datatype Halves<T> = Halves(before: seq<T>, after: seq<T>)

  // str.partition
  function Cut<T(==)>(s: seq<T>, c: T): (h: Option<Halves<T>>)
    ensures h.None? <==> c !in s
    ensures h.Some? ==> s == h.value.before + [c] + h.value.after && c !in h.value.before
  {
    if |s| == 0 then None
    else if s[0] == c then Some(Halves([], s[1..]))
    else
      match Cut(s[1..], c)
      case None => None
      case Some(h) => Some(Halves([s[0]] + h.before, h.after))
  }

  // A line cut at its first equals sign; no key, no parts.
  function Partition<T(==)>(x: Lexicon<T>, body: seq<T>): Option<Parts<T>> {
    match Cut(body, x.equals)
    case None => None
    case Some(h) =>
      var key := StripBy(h.before, x.blank);
      if |key| == 0 then None else Some(Parts(key, h.after))
  }

  // What the parser sees of a line.
  function PartsOf<T(==)>(x: Lexicon<T>, line: seq<T>): Option<Parts<T>> {
    var stripped := StripBy(line, x.blank);
    if |stripped| == 0 || stripped[0] == x.hash then None else Partition(x, RemovePrefix(stripped, x.word))
  }

  // The updater trims, drops the word, and trims again.
  function KeyText<T(==)>(x: Lexicon<T>, before: seq<T>): seq<T> {
    StripBy(RemovePrefix(StripBy(before, x.blank), x.word), x.blank)
  }

  function FiledUnder<T(==)>(x: Lexicon<T>, stripped: seq<T>): Option<seq<T>> {
    match Cut(stripped, x.equals)
    case None => None
    case Some(h) => Some(KeyText(x, h.before))
  }

  // The key the updater files a line under.
  function FiledKey<T(==)>(x: Lexicon<T>, line: seq<T>): Option<seq<T>> {
    var stripped := StripBy(line, x.blank);
    if |stripped| > 0 && stripped[0] == x.hash then None else FiledUnder(x, stripped)
  }

  function FreshLine<T>(x: Lexicon<T>, key: seq<T>, value: seq<T>): seq<T> { key + [x.equals] + value }

  // An overwritten line keeps its leading word.
  function RewriteLine<T(==)>(x: Lexicon<T>, line: seq<T>, key: seq<T>, value: seq<T>): seq<T> {
    if x.word <= LStripBy(line, x.blank) then x.word + FreshLine(x, key, value) else FreshLine(x, key, value)
  }

  // Keys under which the updater files the lines it writes for them.
  predicate OwnKey<T(==)>(x: Lexicon<T>, k: seq<T>) {
    TrimmedBy(k, x.blank) && !(x.word <= k) && x.equals !in k && (|k| > 0 ==> k[0] != x.hash)
  }

  // Keys that read back as themselves when written in front of an equals sign.
  predicate WellFormed<T(==)>(x: Lexicon<T>, k: seq<T>) { |k| > 0 && OwnKey(x, k) }

  // ----- trimming -----

  lemma {:induction false} RStripAppend<T>(a: seq<T>, b: seq<T>, blank: T -> bool)
    requires RStripBy(b, blank) != [] || (a != [] && !blank(a[|a| - 1]))
    ensures RStripBy(a + b, blank) == a + RStripBy(b, blank)
  {
    if b == [] {
      assert a + b == a;
    } else if blank(b[|b| - 1]) {
      assert (a + b)[..|a + b| - 1] == a + b[..|b| - 1];
      RStripAppend(a, b[..|b| - 1], blank);
    }
  }

  lemma StripFromHead<T>(s: seq<T>, blank: T -> bool)
    requires s != [] && !blank(s[0])
    ensures StripBy(s, blank) == RStripBy(s, blank) && StripBy(s, blank) <= s && StripBy(s, blank) != []
  {
    assert RStripBy(s, blank) == s[..|RStripBy(s, blank)|];
  }

  lemma StripOfRStrip<T>(s: seq<T>, blank: T -> bool)
    ensures StripBy(RStripBy(s, blank), blank) == StripBy(s, blank)
    ensures StripBy(StripBy(s, blank), blank) == StripBy(s, blank)
  {
  }

  // Stripping a written line trims only the end of its value.
  lemma StripBehind<T>(head: seq<T>, v: seq<T>, blank: T -> bool)
    requires head != [] && !blank(head[0]) && !blank(head[|head| - 1])
    ensures StripBy(head + v, blank) == head + RStripBy(v, blank)
  {
    RStripAppend(head, v, blank);
    StripFromHead(head + v, blank);
  }

  // There is only one way to cut at the first c.
  lemma CutUnique<T>(before: seq<T>, after: seq<T>, c: T)
    requires c !in before
    ensures Cut(before + [c] + after, c) == Some(Halves(before, after))
  {
    var s := before + [c] + after;
    assert s[|before|] == c;
    var h := Cut(s, c).value;
    assert s[|h.before|] == c;
    assert h.before == s[..|before|] == before;
    assert h.after == s[|before| + 1..] == after;
  }

  // Cutting sees through a prefix without the element.
  lemma CutBehind<T>(p: seq<T>, s: seq<T>, c: T)
    requires c !in p && c in s
    ensures Cut(p + s, c) == Some(Halves(p + Cut(s, c).value.before, Cut(s, c).value.after))
  {
    var h := Cut(s, c).value;
    assert p + s == (p + h.before) + [c] + h.after;
    CutUnique(p + h.before, h.after, c);
  }

  // ----- the parser and the updater agree on lines -----

  lemma DropPrefix<T>(p: seq<T>, s: seq<T>)
    ensures RemovePrefix(p + s, p) == s
  {
  }

  lemma KeyBehindWord<T>(x: Lexicon<T>, s: seq<T>)
    requires Sound(x) && StripBy(s, x.blank) != []
    ensures KeyText(x, x.word + s) == StripBy(s, x.blank)
  {
    var r := RStripBy(s, x.blank);
    StripFromHead(x.word + s, x.blank);
    RStripAppend(x.word, s, x.blank);
    DropPrefix(x.word, r);
    StripOfRStrip(s, x.blank);
  }

  lemma KeyWithoutWord<T>(x: Lexicon<T>, before: seq<T>)
    requires before != [] && !x.blank(before[0]) && !(x.word <= before)
    ensures KeyText(x, before) == StripBy(before, x.blank)
  {
    StripFromHead(before, x.blank);
    StripOfRStrip(before, x.blank);
  }

  lemma FiledWithWord<T>(x: Lexicon<T>, body: seq<T>)
    requires Sound(x) && Partition(x, body).Some?
    ensures FiledUnder(x, x.word + body) == Some(Partition(x, body).value.key)
  {
    CutBehind(x.word, body, x.equals);
    KeyBehindWord(x, Cut(body, x.equals).value.before);
  }

  // In front of the cut stands the beginning of the line.
  lemma CutHead<T>(x: Lexicon<T>, s: seq<T>)
    requires Cut(s, x.equals).Some? && Cut(s, x.equals).value.before != []
    ensures var before := Cut(s, x.equals).value.before;
            before[0] == s[0] && (x.word <= before ==> x.word <= s)
  {
  }

  lemma FiledWithoutWord<T>(x: Lexicon<T>, s: seq<T>)
    requires Sound(x) && s != [] && !x.blank(s[0]) && !(x.word <= s) && Partition(x, s).Some?
    ensures FiledUnder(x, s) == Some(Partition(x, s).value.key)
  {
    CutHead(x, s);
    KeyWithoutWord(x, Cut(s, x.equals).value.before);
  }

  lemma FiledAsPartitioned<T>(x: Lexicon<T>, s: seq<T>)
    requires Sound(x) && s != [] && !x.blank(s[0]) && Partition(x, RemovePrefix(s, x.word)).Some?
    ensures FiledUnder(x, s) == Some(Partition(x, RemovePrefix(s, x.word)).value.key)
  {
    if x.word <= s {
      PrefixSplit(x.word, s);
      FiledWithWord(x, s[|x.word|..]);
    } else {
      FiledWithoutWord(x, s);
    }
  }

  lemma PrefixSplit<T>(p: seq<T>, s: seq<T>)
    requires p <= s
    ensures s == p + s[|p|..]
  {
  }

  // Whatever the parser binds, the updater files under the same key.
  lemma PartsKeyIsFiledKey<T>(x: Lexicon<T>, line: seq<T>)
    requires Sound(x) && PartsOf(x, line).Some?
    ensures FiledKey(x, line) == Some(PartsOf(x, line).value.key)
  {
    FiledAsPartitioned(x, StripBy(line, x.blank));
  }

  lemma SkippedWithoutWord<T>(x: Lexicon<T>, s: seq<T>)
    requires Sound(x) && (s == [] || !x.blank(s[0])) && !(x.word <= s)
    requires FiledUnder(x, s).Some? && FiledUnder(x, s).value != []
    ensures Partition(x, s).Some?
  {
    var before := Cut(s, x.equals).value.before;
    if before != [] {
      CutHead(x, s);
      KeyWithoutWord(x, before);
    }
  }

  // The leading word directly in front of the equals sign, blanks aside.
  ghost predicate BareWord<T(!new)>(x: Lexicon<T>, line: seq<T>) {
    var s := StripBy(line, x.blank);
    x.word <= s
    && var halves := Cut(RemovePrefix(s, x.word), x.equals);
       halves.Some? && StripBy(halves.value.before, x.blank) == []
  }

  // A line with the word is skipped when nothing but blanks stands in front of its first
  // equals sign.
  lemma SkippedBehindWord<T(!new)>(x: Lexicon<T>, s: seq<T>)
    requires Sound(x) && x.word <= s && FiledUnder(x, s).Some?
    ensures var body := RemovePrefix(s, x.word);
            Cut(body, x.equals).Some? && (Partition(x, body).None? <==> StripBy(Cut(body, x.equals).value.before, x.blank) == [])
  {
    MemberBehind(x.word, s, x.equals);
  }

  lemma MemberBehind<T>(p: seq<T>, s: seq<T>, c: T)
    requires p <= s && c in s && c !in p
    ensures c in s[|p|..]
  {
    var i :| 0 <= i < |s| && s[i] == c;
    assert s[|p|..][i - |p|] == c;
  }

  // They part ways on that shape only: the updater files such a line, the parser skips it.
  lemma KeysDisagreeOnlyOnBareWord<T(!new)>(x: Lexicon<T>, line: seq<T>)
    requires Sound(x) && FiledKey(x, line).Some? && FiledKey(x, line).value != []
    ensures PartsOf(x, line).None? <==> BareWord(x, line)
  {
    var s := StripBy(line, x.blank);
    if x.word <= s {
      SkippedBehindWord(x, s);
    } else {
      SkippedWithoutWord(x, s);
    }
  }

  // ----- written lines read back -----

  lemma FreshLacksWord<T>(x: Lexicon<T>, k: seq<T>, v: seq<T>)
    requires Sound(x) && OwnKey(x, k)
    ensures !(x.word <= FreshLine(x, k, v))
  {
    var line := FreshLine(x, k, v);
    assert line[|k|] == x.equals;
    if |x.word| <= |k| {
      assert line[..|x.word|] == k[..|x.word|];
    } else {
      assert x.word[|k|] != line[|k|];
    }
  }

  lemma FreshPartition<T>(x: Lexicon<T>, k: seq<T>, v: seq<T>)
    requires WellFormed(x, k)
    ensures Partition(x, FreshLine(x, k, v)) == Some(Parts(k, v))
  {
    CutUnique(k, v, x.equals);
  }

  lemma FreshStripped<T>(x: Lexicon<T>, k: seq<T>, v: seq<T>)
    requires Sound(x) && WellFormed(x, k)
    ensures StripBy(FreshLine(x, k, v), x.blank) == FreshLine(x, k, RStripBy(v, x.blank))
  {
    StripBehind(k + [x.equals], v, x.blank);
  }

  lemma WordStripped<T>(x: Lexicon<T>, k: seq<T>, v: seq<T>)
    requires Sound(x) && WellFormed(x, k)
    ensures StripBy(x.word + FreshLine(x, k, v), x.blank) == x.word + FreshLine(x, k, RStripBy(v, x.blank))
  {
    var head := x.word + (k + [x.equals]);
    StripBehind(head, v, x.blank);
    Reassociate(x.word, k + [x.equals], v);
    Reassociate(x.word, k + [x.equals], RStripBy(v, x.blank));
  }

  lemma FreshParts<T>(x: Lexicon<T>, k: seq<T>, v: seq<T>)
    requires Sound(x) && WellFormed(x, k)
    ensures PartsOf(x, FreshLine(x, k, v)) == Some(Parts(k, RStripBy(v, x.blank)))
  {
    var r := RStripBy(v, x.blank);
    FreshStripped(x, k, v);
    FreshLacksWord(x, k, r);
    FreshPartition(x, k, r);
    assert FreshLine(x, k, r)[0] == k[0];
  }

  lemma WordParts<T>(x: Lexicon<T>, k: seq<T>, v: seq<T>)
    requires Sound(x) && WellFormed(x, k)
    ensures PartsOf(x, x.word + FreshLine(x, k, v)) == Some(Parts(k, RStripBy(v, x.blank)))
  {
    var r := RStripBy(v, x.blank);
    WordStripped(x, k, v);
    DropPrefix(x.word, FreshLine(x, k, r));
    FreshPartition(x, k, r);
    assert (x.word + FreshLine(x, k, r))[0] == x.word[0];
  }

  lemma LStripKeepsHead<T>(s: seq<T>, blank: T -> bool)
    requires s != [] && !blank(s[0])
    ensures LStripBy(s, blank) == s
  {
  }
}
