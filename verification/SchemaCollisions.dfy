// Newlines in file names and the fingerprint of scripts/check_schema_fingerprint.py: which
// directories can be mistaken for others.
module SchemaCollisions {
  import opened TextLines
  import opened Ordering
  import opened Wrappers
  import opened SchemaFingerprint
  import opened SchemaMerging

  ghost function LastName(dir: Migrations): string
    requires Names(dir) != []
  {
    Names(dir)[|Names(dir)| - 1]
  }

  lemma CutEntry(s: string, name: string, digest: string)
    requires |digest| == 64 && |s| >= |name| + 65 && s[|s| - (|name| + 65)..] == name + ":" + digest
    ensures s == s[..|s| - 65] + ":" + digest
    ensures s[..|s| - 65][|s| - 65 - |name|..] == name
  {
    var n := |s| - 65;
    var e := name + ":" + digest;
    assert s == s[..n - |name|] + e;
  }

  lemma LastEntryLength(name: string, digest: string)
    ensures |name + ":" + digest| == |name| + 1 + |digest|
  {
  }

  // A text that ends in an entry is that text without the digest, and the digest.
  ghost predicate EndsInEntry(s: string, name: string, digest: string) {
    |s| >= 65 && s[..|s| - 65] + ":" + digest == s && EndsIn(s[..|s| - 65], name)
  }

  lemma CutTail(s: string, last: string, name: string, digest: string)
    requires |digest| == 64 && last == name + ":" + digest && EndsIn(s, last)
    ensures EndsInEntry(s, name, digest)
  {
    LastEntryLength(name, digest);
    CutEntry(s, name, digest);
  }

  lemma LastLineEnds(lines: seq<string>)
    requires lines != []
    ensures EndsIn(Join(lines, '\n'), lines[|lines| - 1])
  {
    JoinLast(lines, '\n');
  }

  lemma CutLast(lines: seq<string>, name: string, digest: string)
    requires lines != [] && |digest| == 64 && lines[|lines| - 1] == name + ":" + digest
    ensures EndsInEntry(Join(lines, '\n'), name, digest)
  {
    LastLineEnds(lines);
    CutTail(Join(lines, '\n'), lines[|lines| - 1], name, digest);
  }

  // A single line without separators is joined from itself only.
  lemma LoneLine<T>(a: seq<seq<T>>, b: seq<seq<T>>, sep: T)
    requires |a| == 1 && sep !in a[0] && b != [] && Join(a, sep) == Join(b, sep)
    ensures a == b
  {
    JoinLast(b, sep);
  }

  // The canonical text of at most one file, newline-free, belongs to no other directory.
  lemma OneLineIdentifies(sha: Hash, a: Migrations, b: Migrations)
    requires Hexadecimal(sha) && NoNewlineInNames(a) && |a| <= 1
    requires CollisionFree(sha, a.Values + b.Values) && Canonical(sha, a) == Canonical(sha, b)
    ensures a == b
  {
    if a != map[] { NonEmptyCanonical(sha, a); }
    if b != map[] { NonEmptyCanonical(sha, b); }
    assert |"[]"| == 2;
    if a != map[] && b != map[] {
      assert |Names(a)| == |a.Keys| == |a|;
      EntryHasNoNewline(sha, Names(a)[0], a[Names(a)[0]]);
      LoneLine(Entries(sha, a), Entries(sha, b), '\n');
      EntriesDetermineDirectory(sha, a, b);
    }
  }

  // Any other directory of SQL files, no name longer than the limit, has another fingerprint
  // unless the hash collides.
  ghost predicate Unmistakable(sha: Hash, stamped: Migrations, limit: nat) {
    forall later :: Possible(sha, stamped, limit, later) ==> Fingerprint(sha, later) != Fingerprint(sha, stamped)
  }

  ghost predicate Possible(sha: Hash, stamped: Migrations, limit: nat, later: Migrations) {
    SqlFiles(later) && NamesWithin(later, limit) && later != stamped && CollisionFree(sha, Hashed(sha, stamped) + Hashed(sha, later))
  }

  lemma SeveralFilesAreMistakable(sha: Hash, stamped: Migrations, limit: nat)
    requires Hexadecimal(sha) && SqlFiles(stamped) && NamesWithin(stamped, limit) && CollisionFree(sha, Hashed(sha, stamped))
    requires |Names(stamped)| > 1 && |MergedName(sha, stamped)| <= limit
    ensures !Unmistakable(sha, stamped, limit)
  {
    var other := SeveralFilesCollide(sha, stamped);
    assert Hashed(sha, stamped) + Hashed(sha, other) == Hashed(sha, stamped);
    assert Possible(sha, stamped, limit, other);
  }

  // ----- one file -----

  // The name is the line of another file, a newline, and a later name.
  ghost predicate SwallowsAs(sha: Hash, stamped: Migrations, name: string, front: string, content: string, back: string) {
    && name == Entry(sha, front, content) + ['\n'] + back
    && IsSqlName(front) && IsSqlName(back) && StrLess(front, back)
    && CollisionFree(sha, Hashed(sha, stamped) + {content})
  }

  ghost predicate Swallows(sha: Hash, stamped: Migrations, name: string) {
    exists front, content, back :: SwallowsAs(sha, stamped, name, front, content, back)
  }

  lemma NewlineFreeSwallowsNothing(sha: Hash, stamped: Migrations, name: string)
    requires '\n' !in name
    ensures !Swallows(sha, stamped, name)
  {
    forall front, content, back ensures !SwallowsAs(sha, stamped, name, front, content, back) {
      assert (Entry(sha, front, content) + ['\n'] + back)[|Entry(sha, front, content)|] == '\n';
    }
  }

  lemma NamesOfTwo(dir: Migrations, first: string, second: string)
    requires dir.Keys == {first, second} && StrLess(first, second)
    ensures Names(dir) == [first, second]
  {
    StrLessTotal();
    var names := [first, second];
    assert StrLess(names[0], names[1]);
    assert first != second;
    assert |dir.Keys| == 2;
    assert Lists(names, dir.Keys, StrLess);
    AscendingUnique(Names(dir), names, StrLess);
  }

  lemma CanonicalOfTwo(sha: Hash, dir: Migrations, first: string, second: string)
    requires dir.Keys == {first, second} && StrLess(first, second)
    ensures Canonical(sha, dir) == Entry(sha, first, dir[first]) + ['\n'] + Entry(sha, second, dir[second])
  {
    NamesOfTwo(dir, first, second);
    assert Entries(sha, dir) == [Entry(sha, first, dir[first]), Entry(sha, second, dir[second])];
    JoinTwo(Entry(sha, first, dir[first]), Entry(sha, second, dir[second]), '\n');
    assert first in dir;
  }

  // The one file and the two it stands for.
  lemma SwallowingCollides(sha: Hash, name: string, content: string, front: string, inner: string, back: string)
    requires SwallowsAs(sha, map[name := content], name, front, inner, back)
    ensures var two := map[front := inner, back := content];
            front != back && SqlFiles(two) && Canonical(sha, two) == Canonical(sha, map[name := content])
  {
    StrLessTotal();
    var two := map[front := inner, back := content];
    CanonicalOfOne(sha, name, content);
    CanonicalOfTwo(sha, two, front, back);
    EntryBehind(sha, Entry(sha, front, inner) + ['\n'], back, content);
  }

  lemma HashedOfTwo(sha: Hash, front: string, inner: string, back: string, content: string)
    ensures Hashed(sha, map[front := inner, back := content]) <= {inner, content, Canonical(sha, map[front := inner, back := content])}
  {
  }

  lemma HashedOfOne(sha: Hash, name: string, content: string)
    ensures Hashed(sha, map[name := content]) == {content, Canonical(sha, map[name := content])}
  {
    assert name in map[name := content];
  }

  lemma FewerCollide(sha: Hash, a: set<string>, b: set<string>)
    requires a <= b && CollisionFree(sha, b)
    ensures CollisionFree(sha, a)
  {
  }

  lemma OtherIsMistaken(sha: Hash, stamped: Migrations, limit: nat, other: Migrations)
    requires Possible(sha, stamped, limit, other) && Canonical(sha, other) == Canonical(sha, stamped)
    ensures !Unmistakable(sha, stamped, limit)
  {
  }

  lemma TwoAreNotOne(name: string, content: string, front: string, inner: string, back: string)
    requires front != back
    ensures map[front := inner, back := content] != map[name := content]
  {
    var two := map[front := inner, back := content];
    assert front in two && back in two;
  }

  lemma HashedTogether(sha: Hash, name: string, content: string, front: string, inner: string, back: string)
    requires Canonical(sha, map[front := inner, back := content]) == Canonical(sha, map[name := content])
    ensures Hashed(sha, map[name := content]) + Hashed(sha, map[front := inner, back := content])
            <= Hashed(sha, map[name := content]) + {inner}
  {
    HashedOfTwo(sha, front, inner, back, content);
    HashedOfOne(sha, name, content);
  }

  lemma SwallowedAreShorter(sha: Hash, stamped: Migrations, name: string, front: string, inner: string, back: string)
    requires SwallowsAs(sha, stamped, name, front, inner, back)
    ensures |front| <= |name| && |back| <= |name|
  {
  }

  lemma SwallowingIsMistakable(sha: Hash, name: string, content: string, limit: nat)
    requires Swallows(sha, map[name := content], name) && |name| <= limit
    ensures !Unmistakable(sha, map[name := content], limit)
  {
    var stamped := map[name := content];
    var front, inner, back :| SwallowsAs(sha, stamped, name, front, inner, back);
    var two := map[front := inner, back := content];
    SwallowingCollides(sha, name, content, front, inner, back);
    HashedTogether(sha, name, content, front, inner, back);
    FewerCollide(sha, Hashed(sha, stamped) + Hashed(sha, two), Hashed(sha, stamped) + {inner});
    TwoAreNotOne(name, content, front, inner, back);
    SwallowedAreShorter(sha, stamped, name, front, inner, back);
    OtherIsMistaken(sha, stamped, limit, two);
  }

  lemma JoinFirst<T>(lines: seq<seq<T>>, sep: T)
    requires lines != []
    ensures lines[0] <= Join(lines, sep)
  {
  }

  lemma LaterName(sha: Hash, dir: Migrations, back: string)
    requires Hexadecimal(sha) && |Names(dir)| > 1
    requires var joined := Join(Entries(sha, dir)[1..], '\n'); |joined| >= 65 && back == joined[..|joined| - 65]
    ensures StrLess(Names(dir)[0], back)
  {
    var names, rest := Names(dir), Entries(sha, dir)[1..];
    EntryLength(sha, names[1], dir[names[1]]);
    JoinFirst(rest, '\n');
    PrefixOfCut(names[1], rest[0], Join(rest, '\n'));
    assert StrLess(names[0], names[1]);
    LessThanLonger(names[0], names[1], back);
  }

  lemma LastIsSql(dir: Migrations)
    requires SqlFiles(dir) && Names(dir) != []
    ensures LastName(dir) in dir && IsSqlName(LastName(dir))
  {
    assert LastName(dir) in Names(dir);
  }

  lemma LastEntryOfRest(sha: Hash, dir: Migrations)
    requires |Names(dir)| > 1
    ensures LastName(dir) in dir
    ensures var rest := Entries(sha, dir)[1..];
            rest != [] && rest[|rest| - 1] == LastName(dir) + ":" + sha(dir[LastName(dir)])
  {
    assert LastName(dir) in Names(dir);
  }

  lemma JoinTail<T>(lines: seq<seq<T>>, sep: T)
    requires |lines| > 1
    ensures Join(lines, sep) == lines[0] + [sep] + Join(lines[1..], sep)
  {
  }

  lemma CutRest(lines: seq<string>, name: string, digest: string) returns (back: string)
    requires |lines| > 1 && |digest| == 64 && lines[1..][|lines| - 2] == name + ":" + digest
    ensures EndsIn(back, name) && Join(lines, '\n') == lines[0] + ['\n'] + (back + ":" + digest)
    ensures |Join(lines[1..], '\n')| >= 65 && back == Join(lines[1..], '\n')[..|Join(lines[1..], '\n')| - 65]
  {
    var rest := lines[1..];
    CutLast(rest, name, digest);
    back := Join(rest, '\n')[..|Join(rest, '\n')| - 65];
    JoinTail(lines, '\n');
  }

  // The lines behind the first one of a directory: a name without its digest.
  lemma BehindFirst(sha: Hash, dir: Migrations) returns (back: string, digest: string)
    requires Hexadecimal(sha) && SqlFiles(dir) && |Names(dir)| > 1
    ensures |digest| == 64 && IsSqlName(back) && StrLess(Names(dir)[0], back)
    ensures Join(Entries(sha, dir), '\n') == Entries(sha, dir)[0] + ['\n'] + (back + ":" + digest)
  {
    LastIsSql(dir);
    LastEntryOfRest(sha, dir);
    digest := sha(dir[LastName(dir)]);
    assert IsDigest(digest);
    back := CutRest(Entries(sha, dir), LastName(dir), digest);
    EndsInTransitive(back, LastName(dir), SUFFIX);
    LaterName(sha, dir, back);
  }

  lemma PrefixOfCut(name: string, entry: string, joined: string)
    requires name <= entry <= joined && |entry| == |name| + 65
    ensures name <= joined[..|joined| - 65]
  {
  }

  lemma SameName(a: string, b: string, x: string, y: string)
    requires a + ":" + x == b + (":" + y) && |x| == |y|
    ensures a == b
  {
    assert a == (a + ":" + x)[..|a|];
    assert |a + ":" + x| == |a| + 1 + |x| && |b + (":" + y)| == |b| + 1 + |y|;
    assert b == (b + (":" + y))[..|b|];
  }

  lemma SameNameInLine(name: string, x: string, line: string, back: string, y: string)
    requires name + ":" + x == line + ['\n'] + (back + ":" + y) && |x| == |y|
    ensures name == line + ['\n'] + back
  {
    assert line + ['\n'] + (back + ":" + y) == (line + ['\n'] + back) + (":" + y);
    SameName(name, line + ['\n'] + back, x, y);
  }

  // Another directory with the canonical text of one file has two lines, and the name of the
  // one file swallows the first.
  lemma MistakenIsSwallowed(sha: Hash, name: string, content: string, later: Migrations)
    requires Hexadecimal(sha) && SqlFiles(later) && |Names(later)| > 1
    requires Canonical(sha, later) == Canonical(sha, map[name := content])
    requires CollisionFree(sha, Hashed(sha, map[name := content]) + Hashed(sha, later))
    ensures Swallows(sha, map[name := content], name)
  {
    var front := Names(later)[0];
    assert front in Names(later) && front in later;
    var back, digest := BehindFirst(sha, later);
    CanonicalOfOne(sha, name, content);
    assert IsDigest(sha(content));
    assert IsSqlName(front);
    SameNameInLine(name, sha(content), Entry(sha, front, later[front]), back, digest);
    assert later[front] in later.Values;
    FewerCollide(sha, Hashed(sha, map[name := content]) + {later[front]}, Hashed(sha, map[name := content]) + Hashed(sha, later));
    assert SwallowsAs(sha, map[name := content], name, front, later[front], back);
  }

  lemma OnlyFile(dir: Migrations) returns (name: string)
    requires |dir| == 1
    ensures name in dir && dir == map[name := dir[name]]
  {
    name :| name in dir;
    assert |dir.Keys - {name}| == 0;
    assert dir.Keys == {name};
  }

  lemma SameSingleFile(sha: Hash, name: string, content: string, later: Migrations)
    requires Hexadecimal(sha) && |later| == 1 && Canonical(sha, later) == Canonical(sha, map[name := content])
    requires CollisionFree(sha, later.Values + {content})
    ensures later == map[name := content]
  {
    var other := OnlyFile(later);
    CanonicalOfOne(sha, other, later[other]);
    CanonicalOfOne(sha, name, content);
    EntryInjective(sha, name, content, other, later[other]);
    assert later[other] in later.Values;
  }

  lemma UnswallowingIsUnmistakable(sha: Hash, name: string, content: string, limit: nat)
    requires Hexadecimal(sha) && !Swallows(sha, map[name := content], name)
    ensures Unmistakable(sha, map[name := content], limit)
  {
    var stamped := map[name := content];
    forall later | Possible(sha, stamped, limit, later) ensures Fingerprint(sha, later) != Fingerprint(sha, stamped) {
      FewerTextsCollide(sha, stamped, later);
      if Fingerprint(sha, later) == Fingerprint(sha, stamped) {
        OneFileMistaken(sha, name, content, later);
      }
    }
  }

  lemma OneFileMistaken(sha: Hash, name: string, content: string, later: Migrations)
    requires Hexadecimal(sha) && SqlFiles(later) && later != map[name := content]
    requires CollisionFree(sha, Hashed(sha, map[name := content]) + Hashed(sha, later))
    requires Canonical(sha, later) == Canonical(sha, map[name := content])
    ensures Swallows(sha, map[name := content], name)
  {
    HashedOfOne(sha, name, content);
    CanonicalOfOne(sha, name, content);
    EntryLength(sha, name, content);
    assert |"[]"| == 2;
    assert later != map[];
    NonEmptyCanonical(sha, later);
    assert |Names(later)| == |later.Keys| == |later|;
    if |later| == 1 {
      FewerCollide(sha, later.Values + {content}, Hashed(sha, map[name := content]) + Hashed(sha, later));
      SameSingleFile(sha, name, content, later);
    } else {
      MistakenIsSwallowed(sha, name, content, later);
    }
  }

  lemma EmptyIsUnmistakable(sha: Hash, limit: nat)
    requires Hexadecimal(sha)
    ensures Unmistakable(sha, map[], limit)
  {
    forall later | Possible(sha, map[], limit, later) ensures Fingerprint(sha, later) != Fingerprint(sha, map[]) {
      FewerTextsCollide(sha, map[], later);
      NonEmptyCanonical(sha, later);
      assert |"[]"| == 2;
    }
  }

  // The name that merges the last two stamped files is no longer than the limit.
  ghost predicate MergeFits(sha: Hash, stamped: Migrations, limit: nat) {
    |Names(stamped)| > 1 ==> |MergedName(sha, stamped)| <= limit
  }

  // At most one file, and not one whose name swallows the line of another.
  ghost predicate AloneAndPlain(sha: Hash, stamped: Migrations) {
    |stamped| <= 1 && forall name :: name in stamped ==> !Swallows(sha, stamped, name)
  }

  // Whatever the limit on names, such a directory is never mistaken.
  lemma AloneAndPlainIsUnmistakable(sha: Hash, stamped: Migrations, limit: nat)
    requires Hexadecimal(sha) && AloneAndPlain(sha, stamped)
    ensures Unmistakable(sha, stamped, limit)
  {
    if |stamped| == 1 {
      var name := OnlyFile(stamped);
      UnswallowingIsUnmistakable(sha, name, stamped[name], limit);
    } else {
      assert stamped == map[];
      EmptyIsUnmistakable(sha, limit);
    }
  }

  // Where the last two names can be merged within the limit, no other directory is safe.
  lemma UnmistakableIff(sha: Hash, stamped: Migrations, limit: nat)
    requires Hexadecimal(sha) && SqlFiles(stamped) && NamesWithin(stamped, limit) && CollisionFree(sha, Hashed(sha, stamped))
    requires MergeFits(sha, stamped, limit)
    ensures Unmistakable(sha, stamped, limit) <==> AloneAndPlain(sha, stamped)
  {
    assert |Names(stamped)| == |stamped.Keys| == |stamped|;
    if |stamped| > 1 {
      SeveralFilesAreMistakable(sha, stamped, limit);
    } else if AloneAndPlain(sha, stamped) {
      AloneAndPlainIsUnmistakable(sha, stamped, limit);
    } else {
      var name := OnlyFile(stamped);
      SwallowingIsMistakable(sha, name, stamped[name], limit);
    }
  }

  // Whatever names up to the limit the two directories hold: as long as no texts collide under
  // the hash, verify tells every other directory from the stamped one exactly when at most one
  // file was stamped, and not one whose name swallows the line of another. A name without a
  // newline swallows none.
  lemma EveryChangeIsDetectedIff(sha: Hash, stamped: Migrations, limit: nat, now: string)
    requires Hexadecimal(sha) && SqlFiles(stamped) && NamesWithin(stamped, limit) && CollisionFree(sha, Hashed(sha, stamped))
    requires MergeFits(sha, stamped, limit)
    ensures (forall later :: Possible(sha, stamped, limit, later) ==>
               VerifyCode(sha, Some(later), Some(ArtifactText(Fingerprint(sha, stamped), now, |stamped|))) == 2)
            <==> AloneAndPlain(sha, stamped)
  {
    forall later
      ensures VerifyCode(sha, Some(later), Some(ArtifactText(Fingerprint(sha, stamped), now, |stamped|))) == 2
              <==> Fingerprint(sha, later) != Fingerprint(sha, stamped)
    {
      VerifyCompares(sha, stamped, now, later);
    }
    UnmistakableIff(sha, stamped, limit);
  }
}
