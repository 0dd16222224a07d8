// Where scripts/_infisical_util.py files the lines it writes, over any alphabet: which keys
// update_env_file finds again.
module LineFiling {
  import opened Wrappers
  import opened Sequences
  import opened Text
  import opened LineLexer

  lemma TrimmedStays<T>(s: seq<T>, blank: T -> bool)
    requires TrimmedBy(s, blank)
    ensures StripBy(s, blank) == s && RStripBy(s, blank) == s
  {
  }

  lemma KeyOfOwn<T>(x: Lexicon<T>, k: seq<T>)
    requires OwnKey(x, k)
    ensures KeyText(x, k) == k
  {
  }

  lemma FreshCut<T>(x: Lexicon<T>, k: seq<T>, v: seq<T>)
    requires x.equals !in k
    ensures Cut(FreshLine(x, k, v), x.equals) == Some(Halves(k, v))
  {
    CutUnique(k, v, x.equals);
  }

  // ----- new lines -----

  lemma FreshHead<T>(x: Lexicon<T>, k: seq<T>, v: seq<T>)
    requires Sound(x) && TrimmedBy(k, x.blank)
    ensures StripBy(FreshLine(x, k, v), x.blank) == FreshLine(x, k, RStripBy(v, x.blank))
  {
    StripBehind(k + [x.equals], v, x.blank);
  }

  // A line written for one of our own keys is filed under it.
  lemma OwnKeyIsFiled<T>(x: Lexicon<T>, k: seq<T>, v: seq<T>)
    requires Sound(x) && OwnKey(x, k)
    ensures FiledKey(x, FreshLine(x, k, v)) == Some(k)
  {
    var r := RStripBy(v, x.blank);
    FreshHead(x, k, v);
    FreshCut(x, k, r);
    KeyOfOwn(x, k);
    assert FreshLine(x, k, r)[0] == if k == [] then x.equals else k[0];
  }

  lemma {:induction false} CutIsFirst<T>(s: seq<T>, c: T, i: nat)
    requires i < |s| && s[i] == c
    ensures Cut(s, c).Some? && |Cut(s, c).value.before| <= i
  {
    if s[0] != c {
      CutIsFirst(s[1..], c, i - 1);
    }
  }

  lemma KeyTextShorter<T>(x: Lexicon<T>, before: seq<T>)
    ensures |KeyText(x, before)| <= |before|
    ensures |KeyText(x, before)| == |before| ==> KeyText(x, before) == before && TrimmedBy(before, x.blank) && (x.word != [] ==> !(x.word <= before))
  {
    var s := StripBy(before, x.blank);
    StripLength(before, x.blank);
    StripLength(RemovePrefix(s, x.word), x.blank);
  }

  lemma StripLength<T>(s: seq<T>, blank: T -> bool)
    ensures |StripBy(s, blank)| <= |s|
    ensures |StripBy(s, blank)| == |s| ==> StripBy(s, blank) == s && TrimmedBy(s, blank)
  {
    var r := RStripBy(s, blank);
    assert |r| == |s| ==> r == s;
    assert |LStripBy(r, blank)| == |r| ==> LStripBy(r, blank) == r;
  }

  // Where an element that is not blank ends up when the text is stripped.
  lemma StripShifts<T>(s: seq<T>, blank: T -> bool, i: nat) returns (j: nat)
    requires i < |s| && !blank(s[i])
    ensures j <= i && j < |StripBy(s, blank)| && StripBy(s, blank)[j] == s[i]
    ensures j == i ==> StripBy(s, blank) <= s
  {
    var r := RStripBy(s, blank);
    assert i < |r|;
    LStripKeeps(r, blank, i);
    j := i - (|r| - |LStripBy(r, blank)|);
  }

  lemma CutOfFresh<T>(x: Lexicon<T>, k: seq<T>, v: seq<T>)
    requires Sound(x)
    ensures var s := StripBy(FreshLine(x, k, v), x.blank);
            var cut := Cut(s, x.equals);
            cut.Some? && |cut.value.before| <= |k|
            && (|cut.value.before| == |k| ==> cut.value.before == k && k <= s && x.equals !in k)
  {
    var line := FreshLine(x, k, v);
    var s := StripBy(line, x.blank);
    assert line[|k|] == x.equals;
    var j := StripShifts(line, x.blank, |k|);
    CutIsFirst(s, x.equals, j);
    CutIsPrefix(s, x.equals);
    var before := Cut(s, x.equals).value.before;
    if |before| == |k| {
      PrefixOfFresh(x, s, before, k, v);
    }
  }

  // A line written for any other key is filed under a shorter one, if at all.
  lemma OtherKeyIsLost<T>(x: Lexicon<T>, k: seq<T>, v: seq<T>)
    requires Sound(x) && !OwnKey(x, k)
    ensures FiledKey(x, FreshLine(x, k, v)).Some? ==> |FiledKey(x, FreshLine(x, k, v)).value| < |k|
  {
    CutOfFresh(x, k, v);
    LostBehindCut(x, StripBy(FreshLine(x, k, v), x.blank), k);
  }

  lemma LostBehindCut<T>(x: Lexicon<T>, s: seq<T>, k: seq<T>)
    requires Sound(x) && !OwnKey(x, k) && Cut(s, x.equals).Some? && |Cut(s, x.equals).value.before| <= |k|
    requires |Cut(s, x.equals).value.before| == |k| ==> Cut(s, x.equals).value.before == k && k <= s && x.equals !in k
    ensures (s != [] && s[0] == x.hash) || |KeyText(x, Cut(s, x.equals).value.before)| < |k|
  {
    var before := Cut(s, x.equals).value.before;
    KeyTextShorter(x, before);
    if |before| == |k| {
      WholeKeyIsOwn(x, s, k);
    }
  }

  lemma CutIsPrefix<T>(s: seq<T>, c: T)
    requires Cut(s, c).Some?
    ensures Cut(s, c).value.before <= s && c !in Cut(s, c).value.before
  {
  }

  lemma PrefixOfFresh<T>(x: Lexicon<T>, s: seq<T>, before: seq<T>, k: seq<T>, v: seq<T>)
    requires before <= s <= FreshLine(x, k, v) && |before| == |k|
    ensures before == k
  {
    assert before == FreshLine(x, k, v)[..|k|];
  }

  // A key that is filed whole and is not our own begins like a comment.
  lemma WholeKeyIsOwn<T>(x: Lexicon<T>, s: seq<T>, k: seq<T>)
    requires Sound(x) && !OwnKey(x, k) && k <= s && x.equals !in k
    ensures (s != [] && s[0] == x.hash) || |KeyText(x, k)| < |k|
  {
    KeyTextShorter(x, k);
  }

  // ----- overwritten lines -----

  lemma PlainKey<T>(x: Lexicon<T>, s: seq<T>, before: seq<T>)
    requires s != [] && !x.blank(s[0]) && s[0] != x.hash && !(x.word <= s)
    requires before <= s && x.equals !in before
    ensures OwnKey(x, KeyText(x, before))
  {
    if before == [] {
      KeyTextShorter(x, before);
      assert x.word != [];
    } else {
      assert x.word <= before ==> x.word <= s;
      KeyWithoutWord(x, before);
      StripFromHead(before, x.blank);
      StripHasOnly(before, x.blank, x.equals);
      PrefixLacks(x.word, StripBy(before, x.blank), before);
    }
  }

  lemma PrefixLacks<T>(word: seq<T>, k: seq<T>, s: seq<T>)
    requires k <= s && !(word <= s)
    ensures !(word <= k)
  {
  }

  // The key of a found line: without the word in front it is one of our own.
  lemma FoundPlain<T>(x: Lexicon<T>, line: seq<T>, k: seq<T>)
    requires Sound(x) && FiledKey(x, line) == Some(k) && !(x.word <= LStripBy(line, x.blank))
    ensures OwnKey(x, k)
  {
    var s := StripBy(line, x.blank);
    StripOfLStrip(line, x.blank);
    PrefixLacks(x.word, s, LStripBy(line, x.blank));
    CutIsPrefix(s, x.equals);
    PlainKey(x, s, Cut(s, x.equals).value.before);
  }

  lemma {:induction false} LStripOfRStrip<T>(s: seq<T>, blank: T -> bool)
    ensures LStripBy(RStripBy(s, blank), blank) <= LStripBy(s, blank)
  {
    var r := RStripBy(s, blank);
    if s == [] || !blank(s[0]) {
      assert r <= s;
      if r != [] {
        assert r[0] == s[0];
      }
    } else if r != [] {
      assert r[0] == s[0];
      RStripTail(s, blank);
      LStripOfRStrip(s[1..], blank);
    }
  }

  lemma {:induction false} RStripTail<T>(s: seq<T>, blank: T -> bool)
    requires RStripBy(s, blank) != []
    ensures RStripBy(s[1..], blank) == RStripBy(s, blank)[1..]
  {
    if blank(s[|s| - 1]) {
      RStripTail(s[..|s| - 1], blank);
      assert s[..|s| - 1][1..] == s[1..][..|s| - 2];
    }
  }

  // A stripped line is a front part of the left-stripped one.
  lemma StripOfLStrip<T>(s: seq<T>, blank: T -> bool)
    ensures StripBy(s, blank) <= LStripBy(s, blank)
    ensures StripBy(s, blank) == RStripBy(LStripBy(s, blank), blank)
  {
    LStripOfRStrip(s, blank);
    StripRight(s, blank);
  }

  lemma {:induction false} StripRight<T>(s: seq<T>, blank: T -> bool)
    ensures LStripBy(RStripBy(s, blank), blank) == RStripBy(LStripBy(s, blank), blank)
  {
    if s != [] && blank(s[0]) {
      StripRight(s[1..], blank);
      if RStripBy(s, blank) != [] {
        RStripTail(s, blank);
      } else {
        AllBlank(s, blank);
      }
    }
  }

  lemma {:induction false} AllBlank<T>(s: seq<T>, blank: T -> bool)
    requires s != [] && RStripBy(s, blank) == []
    ensures RStripBy(s[1..], blank) == []
  {
    if |s| > 1 {
      AllBlank(s[..|s| - 1], blank);
      assert s[..|s| - 1][1..] == s[1..][..|s| - 2];
    }
  }

  // With the word in front it is not empty.
  lemma FoundBehindWord<T>(x: Lexicon<T>, line: seq<T>, k: seq<T>)
    requires Sound(x) && FiledKey(x, line) == Some(k) && x.word <= LStripBy(line, x.blank)
    ensures k != [] && TrimmedBy(k, x.blank) && x.equals !in k
  {
    var t := LStripBy(line, x.blank);
    var s := StripBy(line, x.blank);
    StripOfLStrip(line, x.blank);
    PrefixSplit(x.word, t);
    FiledBehindWord(x, t[|x.word|..], k);
  }

  lemma WordRest<T>(x: Lexicon<T>, rest: seq<T>)
    requires Sound(x) && x.equals in RStripBy(x.word + rest, x.blank)
    ensures x.equals in RStripBy(rest, x.blank)
    ensures RStripBy(x.word + rest, x.blank) == x.word + RStripBy(rest, x.blank)
  {
    var t, r := x.word + rest, RStripBy(rest, x.blank);
    var i :| 0 <= i < |RStripBy(t, x.blank)| && RStripBy(t, x.blank)[i] == x.equals;
    assert t[i] == x.equals && i >= |x.word|;
    assert rest[i - |x.word|] == x.equals;
    assert r[i - |x.word|] == x.equals;
    RStripAppend(x.word, rest, x.blank);
  }

  lemma FiledBehindWord<T>(x: Lexicon<T>, rest: seq<T>, k: seq<T>)
    requires Sound(x) && FiledUnder(x, RStripBy(x.word + rest, x.blank)) == Some(k)
    ensures k != [] && TrimmedBy(k, x.blank) && x.equals !in k
  {
    WordRest(x, rest);
    var r := RStripBy(rest, x.blank);
    CutBehind(x.word, r, x.equals);
    var before := Cut(r, x.equals).value.before;
    KeyBehindWordIsNotEmpty(x, before);
    KeyTextHasOnly(x, x.word + before, x.equals);
  }

  lemma SliceHasOnly<T>(s: seq<T>, i: nat, j: nat, c: T)
    requires c !in s && i <= j <= |s|
    ensures c !in s[i..j]
  {
  }

  lemma StripHasOnly<T>(s: seq<T>, blank: T -> bool, c: T)
    requires c !in s
    ensures c !in StripBy(s, blank)
  {
    var r := RStripBy(s, blank);
    SliceHasOnly(s, 0, |r|, c);
    SliceHasOnly(r, |r| - |LStripBy(r, blank)|, |r|, c);
  }

  lemma KeyTextHasOnly<T>(x: Lexicon<T>, before: seq<T>, c: T)
    requires c !in before
    ensures c !in KeyText(x, before)
  {
    var s := StripBy(before, x.blank);
    StripHasOnly(before, x.blank, c);
    if x.word <= s {
      SliceHasOnly(s, |x.word|, |s|, c);
    }
    StripHasOnly(RemovePrefix(s, x.word), x.blank, c);
  }

  lemma {:induction false} RStripBlankTail<T>(a: seq<T>, b: seq<T>, blank: T -> bool)
    requires RStripBy(b, blank) == []
    ensures RStripBy(a + b, blank) == RStripBy(a, blank)
  {
    if b == [] {
      assert a + b == a;
    } else {
      assert (a + b)[..|a + b| - 1] == a + b[..|b| - 1];
      RStripBlankTail(a, b[..|b| - 1], blank);
    }
  }

  // Even with nothing but blanks behind it, the word without its own blanks is a key.
  lemma KeyBehindWordIsNotEmpty<T>(x: Lexicon<T>, before: seq<T>)
    requires Sound(x)
    ensures KeyText(x, x.word + before) != []
  {
    if StripBy(before, x.blank) != [] {
      KeyBehindWord(x, before);
    } else {
      var w := RStripBy(x.word, x.blank);
      StripsToNothing(before, x.blank);
      RStripBlankTail(x.word, before, x.blank);
      assert w[..1] == x.word[..1];
      assert |w| < |x.word|;
      TrimmedStays(w, x.blank);
    }
  }

  lemma StripsToNothing<T>(s: seq<T>, blank: T -> bool)
    requires StripBy(s, blank) == []
    ensures RStripBy(s, blank) == []
  {
    var r := RStripBy(s, blank);
    if r != [] {
      LStripKeeps(r, blank, |r| - 1);
    }
  }

  // A found line stays filed under its key when it is overwritten.
  lemma FoundStaysFiled<T>(x: Lexicon<T>, line: seq<T>, k: seq<T>, v: seq<T>)
    requires Sound(x) && FiledKey(x, line) == Some(k)
    ensures FiledKey(x, RewriteLine(x, line, k, v)) == Some(k)
  {
    if x.word <= LStripBy(line, x.blank) {
      FoundBehindWord(x, line, k);
      WordLineIsFiled(x, k, v);
    } else {
      FoundPlain(x, line, k);
      OwnKeyIsFiled(x, k, v);
    }
  }

  lemma WordLineIsFiled<T>(x: Lexicon<T>, k: seq<T>, v: seq<T>)
    requires Sound(x) && k != [] && TrimmedBy(k, x.blank) && x.equals !in k
    ensures FiledKey(x, x.word + FreshLine(x, k, v)) == Some(k)
  {
    var r := RStripBy(v, x.blank);
    var s := x.word + FreshLine(x, k, r);
    StripBehind(x.word + (k + [x.equals]), v, x.blank);
    Reassociate(x.word, k + [x.equals], v);
    Reassociate(x.word, k + [x.equals], r);
    FreshCut(x, k, r);
    CutBehind(x.word, FreshLine(x, k, r), x.equals);
    TrimmedStays(k, x.blank);
    KeyBehindWord(x, k);
    assert s[0] == x.word[0];
  }

  // Overwriting it again leaves nothing of the earlier value.
  lemma RewriteOverwrites<T>(x: Lexicon<T>, line: seq<T>, k: seq<T>, v: seq<T>, w: seq<T>)
    requires Sound(x) && FiledKey(x, line) == Some(k)
    ensures RewriteLine(x, RewriteLine(x, line, k, v), k, w) == RewriteLine(x, line, k, w)
  {
    if x.word <= LStripBy(line, x.blank) {
      WordOverwrites(x, k, v, w);
    } else {
      FoundPlain(x, line, k);
      FreshOverwrites(x, k, v, w);
    }
  }

  lemma WordOverwrites<T>(x: Lexicon<T>, k: seq<T>, v: seq<T>, w: seq<T>)
    requires Sound(x)
    ensures RewriteLine(x, x.word + FreshLine(x, k, v), k, w) == x.word + FreshLine(x, k, w)
  {
    var line := x.word + FreshLine(x, k, v);
    assert line[0] == x.word[0];
    LStripKeepsHead(line, x.blank);
  }

  lemma FreshOverwrites<T>(x: Lexicon<T>, k: seq<T>, v: seq<T>, w: seq<T>)
    requires Sound(x) && OwnKey(x, k)
    ensures RewriteLine(x, FreshLine(x, k, v), k, w) == FreshLine(x, k, w)
  {
    FreshLacksWord(x, k, v);
    assert FreshLine(x, k, v)[0] == if k == [] then x.equals else k[0];
    LStripKeepsHead(FreshLine(x, k, v), x.blank);
  }
}
