// Two migration files in one: a file name that holds the line of another file in front of its
// own, for scripts/check_schema_fingerprint.py.
module SchemaMerging {
  import opened TextLines
  import opened Ordering
  import opened SchemaFingerprint

  const SUFFIX := ".sql"

  ghost predicate EndsIn(s: string, tail: string) {
    |s| >= |tail| && s[|s| - |tail|..] == tail
  }

  ghost predicate IsSqlName(name: string) { EndsIn(name, SUFFIX) }

  // What the glob can return.
  ghost predicate SqlFiles(dir: Migrations) { forall name :: name in dir ==> IsSqlName(name) }

  ghost predicate NamesWithin(dir: Migrations, limit: nat) { forall name :: name in dir ==> |name| <= limit }

  lemma EndsInTransitive(s: string, t: string, u: string)
    requires EndsIn(s, t) && EndsIn(t, u)
    ensures EndsIn(s, u)
  {
    assert s[|s| - |t|..][|t| - |u|..] == s[|s| - |u|..];
  }

  lemma CanonicalOfOne(sha: Hash, name: string, content: string)
    ensures Canonical(sha, map[name := content]) == Entry(sha, name, content)
  {
    var dir := map[name := content];
    assert Lists([name], dir.Keys, StrLess);
    StrLessTotal();
    AscendingUnique(Names(dir), [name], StrLess);
    assert name in dir;
  }

  lemma EntryLength(sha: Hash, name: string, content: string)
    requires Hexadecimal(sha)
    ensures |Entry(sha, name, content)| == |name| + 65 && name <= Entry(sha, name, content)
  {
    assert IsDigest(sha(content));
  }

  lemma EntryBehind(sha: Hash, front: string, back: string, content: string)
    ensures Entry(sha, front + back, content) == front + Entry(sha, back, content)
  {
    assert (front + back) + ":" + sha(content) == front + (back + ":" + sha(content));
  }

  lemma {:induction false} LessThanLonger(a: string, b: string, c: string)
    requires StrLess(a, b) && b <= c
    ensures StrLess(a, c)
  {
    if a != [] && b != [] && a[0] == b[0] {
      LessThanLonger(a[1..], b[1..], c[1..]);
    }
  }

  lemma {:induction false} JoinLast<T>(lines: seq<seq<T>>, sep: T)
    requires lines != []
    ensures var last, s := lines[|lines| - 1], Join(lines, sep);
            |s| >= |last| && s[|s| - |last|..] == last && (|lines| > 1 ==> sep in s)
  {
    if |lines| > 1 {
      JoinLast(lines[1..], sep);
      var rest, s := Join(lines[1..], sep), Join(lines, sep);
      assert s == lines[0] + [sep] + rest;
      assert s[|s| - |rest|..] == rest;
      assert s[|lines[0]|] == sep;
    }
  }

  // ----- the last two files in one -----

  // The line of the last file but one, and the last name behind it.
  ghost function MergedName(sha: Hash, dir: Migrations): string
    requires |Names(dir)| > 1
  {
    var names := Names(dir);
    var a, b := names[|names| - 2], names[|names| - 1];
    assert a in names && a in dir;
    Entry(sha, a, dir[a]) + ['\n'] + b
  }

  // It is 66 characters longer than the two names.
  lemma MergedLength(sha: Hash, dir: Migrations)
    requires Hexadecimal(sha) && |Names(dir)| > 1
    ensures var names := Names(dir);
            |MergedName(sha, dir)| == |names[|names| - 2]| + |names[|names| - 1]| + 66
  {
    var names := Names(dir);
    var a := names[|names| - 2];
    assert a in names && a in dir;
    EntryLength(sha, a, dir[a]);
  }

  ghost function Merged(sha: Hash, dir: Migrations): Migrations
    requires |Names(dir)| > 1
  {
    var names := Names(dir);
    var a, b := names[|names| - 2], names[|names| - 1];
    assert b in names && b in dir;
    (map k | k in dir && k != a && k != b :: dir[k])[MergedName(sha, dir) := dir[b]]
  }

  // It follows all the names before the last two.
  lemma MergedIsLast(sha: Hash, dir: Migrations, i: nat)
    requires |Names(dir)| > 1 && i < |Names(dir)| - 2
    ensures StrLess(Names(dir)[i], MergedName(sha, dir))
  {
    var names := Names(dir);
    var a := names[|names| - 2];
    assert a in names && a in dir;
    assert StrLess(names[i], a);
    StartsWith(a, ":" + sha(dir[a]), ['\n'] + names[|names| - 1]);
    assert (a + (":" + sha(dir[a]))) + (['\n'] + names[|names| - 1]) == MergedName(sha, dir) by {
      MergedParts(a, sha(dir[a]), names[|names| - 1]);
    }
    LessThanLonger(names[i], a, MergedName(sha, dir));
  }

  lemma StartsWith<T>(a: seq<T>, b: seq<T>, c: seq<T>)
    ensures a <= (a + b) + c
  {
  }

  lemma MergedParts(a: string, digest: string, b: string)
    ensures (a + (":" + digest)) + (['\n'] + b) == a + ":" + digest + ['\n'] + b
  {
  }

  lemma MergedListsFront(sha: Hash, dir: Migrations, i: nat)
    requires |Names(dir)| > 1 && i < |Names(dir)| - 2
    ensures Names(dir)[i] in dir && Names(dir)[i] in Merged(sha, dir)
  {
    StrLessTotal();
    var names := Names(dir);
    AscendingDistinct(names, StrLess);
    assert names[i] in names;
  }

  lemma MergedHasOnly(sha: Hash, dir: Migrations, x: string)
    requires |Names(dir)| > 1 && x in Merged(sha, dir) && x != MergedName(sha, dir)
    ensures x in Names(dir)[..|Names(dir)| - 2]
  {
    var names := Names(dir);
    var n := |names| - 2;
    assert x in dir && x in names;
    var i :| 0 <= i < |names| && names[i] == x;
    assert names[..n][i] == x;
  }

  lemma MergedMember(sha: Hash, dir: Migrations, x: string)
    requires |Names(dir)| > 1
    ensures x in Names(dir)[..|Names(dir)| - 2] + [MergedName(sha, dir)] <==> x in Merged(sha, dir)
  {
    var front := Names(dir)[..|Names(dir)| - 2];
    if x in front {
      var i :| 0 <= i < |front| && front[i] == x;
      MergedListsFront(sha, dir, i);
    } else if x in Merged(sha, dir) && x != MergedName(sha, dir) {
      MergedHasOnly(sha, dir, x);
    }
  }

  lemma MergedAscends(sha: Hash, dir: Migrations)
    requires |Names(dir)| > 1
    ensures Ascending(Names(dir)[..|Names(dir)| - 2] + [MergedName(sha, dir)], StrLess)
  {
    var names := Names(dir);
    var n := |names| - 2;
    var listing := names[..n] + [MergedName(sha, dir)];
    forall i, j | 0 <= i < j < |listing| ensures StrLess(listing[i], listing[j]) {
      if j == n {
        MergedIsLast(sha, dir, i);
      } else {
        assert StrLess(names[i], names[j]);
      }
    }
  }

  lemma MergedNames(sha: Hash, dir: Migrations)
    requires |Names(dir)| > 1
    ensures Names(Merged(sha, dir)) == Names(dir)[..|Names(dir)| - 2] + [MergedName(sha, dir)]
  {
    var listing := Names(dir)[..|Names(dir)| - 2] + [MergedName(sha, dir)];
    StrLessTotal();
    MergedAscends(sha, dir);
    forall x ensures x in listing <==> x in Merged(sha, dir) { MergedMember(sha, dir, x); }
    AscendingUnique(Names(Merged(sha, dir)), listing, StrLess);
  }

  lemma MergedContent(sha: Hash, dir: Migrations, i: nat)
    requires |Names(dir)| > 1 && i < |Names(dir)| - 2
    ensures Names(dir)[i] in dir && Names(dir)[i] in Merged(sha, dir)
    ensures Merged(sha, dir)[Names(dir)[i]] == dir[Names(dir)[i]]
  {
    StrLessTotal();
    var names := Names(dir);
    AscendingDistinct(names, StrLess);
    assert names[i] in names;
    MergedIsLast(sha, dir, i);
    assert names[i] != MergedName(sha, dir);
  }

  lemma MergedEntryAt(sha: Hash, dir: Migrations, i: nat)
    requires |Names(dir)| > 1 && i < |Names(dir)| - 2
    ensures |Names(Merged(sha, dir))| == |Names(dir)| - 1
    ensures Entries(sha, Merged(sha, dir))[i] == Entries(sha, dir)[i]
  {
    MergedNames(sha, dir);
    MergedContent(sha, dir, i);
  }

  lemma MergedLastEntry(sha: Hash, dir: Migrations)
    requires |Names(dir)| > 1
    ensures var n, merged := |Names(dir)| - 2, Merged(sha, dir);
            |Names(merged)| == n + 1 && Entries(sha, merged)[n] == Entries(sha, dir)[n] + ['\n'] + Entries(sha, dir)[n + 1]
  {
    var names := Names(dir);
    var n := |names| - 2;
    MergedNames(sha, dir);
    assert names[n] in names && names[n] in dir && names[n + 1] in names && names[n + 1] in dir;
    EntryBehind(sha, Entry(sha, names[n], dir[names[n]]) + ['\n'], names[n + 1], dir[names[n + 1]]);
  }

  lemma MergedEntries(sha: Hash, dir: Migrations)
    requires |Names(dir)| > 1
    ensures var n, merged := |Names(dir)| - 2, Merged(sha, dir);
            |Names(merged)| == n + 1 && Entries(sha, merged)[..n] == Entries(sha, dir)[..n]
            && Entries(sha, merged)[n] == Entries(sha, dir)[n] + ['\n'] + Entries(sha, dir)[n + 1]
  {
    var n := |Names(dir)| - 2;
    MergedLastEntry(sha, dir);
    forall i | 0 <= i < n ensures Entries(sha, Merged(sha, dir))[i] == Entries(sha, dir)[i] {
      MergedEntryAt(sha, dir, i);
    }
    SamePrefix(Entries(sha, Merged(sha, dir)), Entries(sha, dir), n);
  }

  lemma SamePrefix<T>(a: seq<T>, b: seq<T>, n: nat)
    requires n <= |a| && n <= |b| && forall i :: 0 <= i < n ==> a[i] == b[i]
    ensures a[..n] == b[..n]
  {
  }

  lemma {:induction false} JoinMerged<T>(lines: seq<seq<T>>, merged: seq<seq<T>>, sep: T)
    requires |lines| == |merged| + 1 && |merged| > 0 && lines[..|merged| - 1] == merged[..|merged| - 1]
    requires merged[|merged| - 1] == lines[|lines| - 2] + [sep] + lines[|lines| - 1]
    ensures Join(lines, sep) == Join(merged, sep)
  {
    if |merged| == 1 {
      assert lines == [lines[0], lines[1]];
      JoinTwo(lines[0], lines[1], sep);
    } else {
      assert lines[1..][..|merged| - 2] == lines[..|merged| - 1][1..];
      assert merged[1..][..|merged| - 2] == merged[..|merged| - 1][1..];
      assert lines[0] == lines[..|merged| - 1][0] && merged[0] == merged[..|merged| - 1][0];
      JoinMerged(lines[1..], merged[1..], sep);
    }
  }

  lemma MergedNamesAreSql(sha: Hash, dir: Migrations)
    requires SqlFiles(dir) && |Names(dir)| > 1
    ensures IsSqlName(MergedName(sha, dir))
  {
    var names := Names(dir);
    var b := names[|names| - 1];
    assert b in names && b in dir;
    EndsInTransitive(MergedName(sha, dir), b, SUFFIX);
  }

  // A directory of several files has the fingerprint of another one, in which the name of the
  // last file also holds the line of the one before; no hash collision is involved.
  lemma SeveralFilesCollide(sha: Hash, dir: Migrations) returns (other: Migrations)
    requires Hexadecimal(sha) && SqlFiles(dir) && |Names(dir)| > 1
    ensures SqlFiles(other) && |other| == |dir| - 1
    ensures forall name :: name in other ==> name in dir || name == MergedName(sha, dir)
    ensures Fingerprint(sha, other) == Fingerprint(sha, dir) && Hashed(sha, other) <= Hashed(sha, dir)
  {
    other := Merged(sha, dir);
    MergedNames(sha, dir);
    MergedEntries(sha, dir);
    MergedNamesAreSql(sha, dir);
    JoinMerged(Entries(sha, dir), Entries(sha, other), '\n');
    assert |other| == |other.Keys| == |Names(other)| && |dir| == |dir.Keys| == |Names(dir)|;
    MergedValues(sha, dir);
  }

  lemma MergedValues(sha: Hash, dir: Migrations)
    requires |Names(dir)| > 1
    ensures Merged(sha, dir).Values <= dir.Values && Merged(sha, dir) != map[] && dir != map[]
  {
    var b := Names(dir)[|Names(dir)| - 1];
    assert b in Names(dir) && b in dir;
    assert MergedName(sha, dir) in Merged(sha, dir);
  }

  lemma TwoSqlFiles(content: string)
    ensures var two := map["a.sql" := content, "b.sql" := content];
            |two| == 2 && NoNewlineInNames(two) && SqlFiles(two)
  {
    var two := map["a.sql" := content, "b.sql" := content];
    assert "a.sql"[0] != "b.sql"[0];
    assert two.Keys == {"a.sql", "b.sql"} && |two| == |two.Keys|;
  }

  // Two files, and the one file that passes for them.
  lemma NewlineInNameCollides(sha: Hash, content: string) returns (one: Migrations)
    requires Hexadecimal(sha)
    ensures var two := map["a.sql" := content, "b.sql" := content];
            NoNewlineInNames(two) && SqlFiles(one) && one != two && Fingerprint(sha, one) == Fingerprint(sha, two)
  {
    TwoSqlFiles(content);
    assert |Names(map["a.sql" := content, "b.sql" := content])| == 2;
    one := SeveralFilesCollide(sha, map["a.sql" := content, "b.sql" := content]);
  }

}
