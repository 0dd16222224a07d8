// scripts/check_schema_fingerprint.py: the canonical text of a migrations directory, its
// fingerprint, and the committed artifact.
module SchemaFingerprint {
  import opened Wrappers
  import opened Text
  import opened TextLines
  import opened Ordering
  import opened LineLexer

  // The *.sql files of the directory: name to contents.
  type Migrations = map<string, string>

  // hexdigest of SHA-256, of which only the shape is known.
  type Hash = string -> string

  ghost predicate IsDigest(d: string) { |d| == 64 && AllHex(d) }

  ghost predicate Hexadecimal(sha: Hash) { forall x :: IsDigest(sha(x)) }

  // ----- the fingerprint -----

  function Entry(sha: Hash, name: string, content: string): string { name + ":" + sha(content) }

  ghost function Names(dir: Migrations): (names: seq<string>)
    ensures Lists(names, dir.Keys, StrLess)
  {
    StrLessTotal();
    Sorted(dir.Keys, StrLess)
  }

  ghost function Entries(sha: Hash, dir: Migrations): (entries: seq<string>)
    ensures |entries| == |Names(dir)|
    ensures forall i :: 0 <= i < |entries| ==> Names(dir)[i] in dir && entries[i] == Entry(sha, Names(dir)[i], dir[Names(dir)[i]])
  {
    var names := Names(dir);
    assert forall i :: 0 <= i < |names| ==> names[i] in names && names[i] in dir.Keys;
    seq(|names|, i requires 0 <= i < |names| => Entry(sha, names[i], dir[names[i]]))
  }

  // What is hashed in the end; an empty directory has a text of its own.
  ghost function Canonical(sha: Hash, dir: Migrations): string {
    if dir == map[] then "[]" else Join(Entries(sha, dir), '\n')
  }

  ghost function Fingerprint(sha: Hash, dir: Migrations): string { sha(Canonical(sha, dir)) }

  // The names of the migration files in sorted order.
  method SortedNames(dir: Migrations) returns (names: seq<string>)
    ensures names == Names(dir)
  {
    StrLessTotal();
    names := Sort(dir.Keys, StrLess);
  }

  method ComputeFingerprint(sha: Hash, dir: Migrations) returns (fingerprint: string, count: nat)
    ensures fingerprint == Fingerprint(sha, dir) && count == |dir|
  {
    var names := SortedNames(dir);
    if |names| == 0 {
      assert dir.Keys == {};
      return sha("[]"), 0;
    }
    assert |dir.Keys| == |dir|;
    var entries: seq<string> := [];
    for i := 0 to |names|
      invariant entries == Entries(sha, dir)[..i]
    {
      assert names[i] in names && names[i] in dir.Keys;
      entries := entries + [Entry(sha, names[i], dir[names[i]])];
    }
    assert Entries(sha, dir)[..|names|] == Entries(sha, dir);
    fingerprint, count := sha(Join(entries, '\n')), |names|;
  }

  // ----- the canonical text determines the directory -----

  ghost predicate NoNewlineInNames(dir: Migrations) { forall name :: name in dir ==> '\n' !in name }

  // No two of these texts share a digest: all that is asked of the hash, on the finitely
  // many texts at hand.
  ghost predicate CollisionFree(sha: Hash, texts: set<string>) {
    forall x, y :: x in texts && y in texts && sha(x) == sha(y) ==> x == y
  }

  // Everything hashed for a directory: the files and the canonical text.
  ghost function Hashed(sha: Hash, dir: Migrations): set<string> {
    dir.Values + {Canonical(sha, dir)}
  }

  // An entry's name and digest can be read off again, whatever colons the name contains.
  lemma EntryInjective(sha: Hash, name1: string, content1: string, name2: string, content2: string)
    requires Hexadecimal(sha) && Entry(sha, name1, content1) == Entry(sha, name2, content2)
    ensures name1 == name2 && sha(content1) == sha(content2)
  {
    var d1, d2 := sha(content1), sha(content2);
    assert IsDigest(d1) && IsDigest(d2);
    var e1, e2 := Entry(sha, name1, content1), Entry(sha, name2, content2);
    assert |e1| == |name1| + 65 && |e2| == |name2| + 65;
    assert name1 == e1[..|name1|] && name2 == e2[..|name2|];
    assert d1 == e1[|name1| + 1..] && d2 == e2[|name2| + 1..];
  }

  lemma EntryHasNoNewline(sha: Hash, name: string, content: string)
    requires Hexadecimal(sha) && '\n' !in name
    ensures '\n' !in Entry(sha, name, content)
  {
    assert IsDigest(sha(content));
  }

  // The names of a directory, and the directory those names came from.
  lemma SameFiles(a: Migrations, b: Migrations)
    requires Names(a) == Names(b) && forall i :: 0 <= i < |Names(a)| ==> a[Names(a)[i]] == b[Names(b)[i]]
    ensures a == b
  {
    forall k ensures k in a <==> k in Names(a) {}
    forall k ensures k in b <==> k in Names(b) {}
    forall k | k in a ensures a[k] == b[k] {
      var i :| 0 <= i < |Names(a)| && Names(a)[i] == k;
    }
  }

  lemma SameEntry(sha: Hash, a: Migrations, b: Migrations, i: nat)
    requires Hexadecimal(sha) && CollisionFree(sha, a.Values + b.Values)
    requires i < |Names(a)| && i < |Names(b)| && Entries(sha, a)[i] == Entries(sha, b)[i]
    ensures Names(a)[i] == Names(b)[i] && a[Names(a)[i]] == b[Names(b)[i]]
  {
    var n, m := Names(a)[i], Names(b)[i];
    EntryInjective(sha, n, a[n], m, b[m]);
    assert a[n] in a.Values && b[m] in b.Values;
  }

  lemma EntriesDetermineDirectory(sha: Hash, a: Migrations, b: Migrations)
    requires Hexadecimal(sha) && CollisionFree(sha, a.Values + b.Values) && Entries(sha, a) == Entries(sha, b)
    ensures a == b
  {
    assert |Names(a)| == |Entries(sha, a)| == |Entries(sha, b)| == |Names(b)|;
    forall i | 0 <= i < |Names(a)| ensures Names(a)[i] == Names(b)[i] && a[Names(a)[i]] == b[Names(b)[i]] {
      SameEntry(sha, a, b, i);
    }
    SameFiles(a, b);
  }

  lemma NonEmptyCanonical(sha: Hash, dir: Migrations)
    requires Hexadecimal(sha) && dir != map[]
    ensures Entries(sha, dir) != [] && |Canonical(sha, dir)| >= 65
  {
    var k :| k in dir;
    assert k in Names(dir);
    var e := Entries(sha, dir)[0];
    assert IsDigest(sha(dir[Names(dir)[0]]));
    assert |e| >= 65;
  }

  // Equal canonical texts come from equal directories; "[]" comes from the empty one only.
  lemma CanonicalInjective(sha: Hash, a: Migrations, b: Migrations)
    requires Hexadecimal(sha) && NoNewlineInNames(a) && NoNewlineInNames(b)
    requires CollisionFree(sha, a.Values + b.Values) && Canonical(sha, a) == Canonical(sha, b)
    ensures a == b
  {
    if a != map[] { NonEmptyCanonical(sha, a); }
    if b != map[] { NonEmptyCanonical(sha, b); }
    assert |"[]"| == 2;
    if a != map[] && b != map[] {
      var ea, eb := Entries(sha, a), Entries(sha, b);
      forall i | 0 <= i < |ea| ensures '\n' !in ea[i] { EntryHasNoNewline(sha, Names(a)[i], a[Names(a)[i]]); }
      forall i | 0 <= i < |eb| ensures '\n' !in eb[i] { EntryHasNoNewline(sha, Names(b)[i], b[Names(b)[i]]); }
      JoinInjective(ea, eb, '\n');
      EntriesDetermineDirectory(sha, a, b);
    }
  }

  lemma FewerTextsCollide(sha: Hash, a: Migrations, b: Migrations)
    requires CollisionFree(sha, Hashed(sha, a) + Hashed(sha, b))
    ensures CollisionFree(sha, a.Values + b.Values)
    ensures Fingerprint(sha, a) == Fingerprint(sha, b) ==> Canonical(sha, a) == Canonical(sha, b)
  {
  }

  // Without a hash collision among the texts involved, the fingerprint identifies the
  // directory.
  lemma FingerprintIdentifies(sha: Hash, a: Migrations, b: Migrations)
    requires Hexadecimal(sha) && NoNewlineInNames(a) && NoNewlineInNames(b)
    requires CollisionFree(sha, Hashed(sha, a) + Hashed(sha, b))
    ensures Fingerprint(sha, a) == Fingerprint(sha, b) <==> a == b
  {
    FewerTextsCollide(sha, a, b);
    if Fingerprint(sha, a) == Fingerprint(sha, b) {
      CanonicalInjective(sha, a, b);
    }
  }

  // ----- the artifact -----

  const MARK: string := "sha256:"

  // The value of the first marked line, None when there is none or it is PENDING.
  function FirstMarked(lines: seq<string>): Option<string> {
    if |lines| == 0 then None
    else
      var stripped := Strip(lines[0]);
      if MARK <= stripped then
        if stripped[7..] == "PENDING" then None else Some(stripped[7..])
      else FirstMarked(lines[1..])
  }

  // read_artifact; an absent or unreadable file is None.
  function ReadArtifact(text: Option<string>): Option<string> {
    if text.None? then None else FirstMarked(SplitBy(ReadText(text.value), IsLineBreak))
  }

  const COMMENT1 := "# Schema migration " + "fingerprint for " + "omnibase_infra (auto-generated)"
  const COMMENT2 := "# Regenerate: python " + "scripts/check_" + "schema_fingerprint.py stamp"
  const COMMENT3 := "# Verify:     python " + "scripts/check_" + "schema_fingerprint.py verify"

  // What write_artifact puts behind the fingerprint line.
  function Trailer(now: string, count: nat): string {
    "generated_at: " + now + "\n" + "migration_file_count: " + Decimal(count) + "\n"
  }

  // write_artifact
  function ArtifactText(fingerprint: string, now: string, count: nat): string {
    COMMENT1 + "\n" + (COMMENT2 + "\n" + (COMMENT3 + "\n" + (MARK + fingerprint + "\n" + Trailer(now, count))))
  }

  // A comment line is one line and is not the marked one.
  ghost predicate IsComment(line: string) {
    line != "" && line[0] == '#' && Unbroken(line, IsLineBreak)
  }

  lemma CommentAppend(front: string, part: string)
    requires IsComment(front) && Unbroken(part, IsLineBreak)
    ensures IsComment(front + part)
  {
  }

  lemma Comment1IsComment()
    ensures IsComment(COMMENT1)
  {
    CommentAppend("# Schema migration ", "fingerprint for ");
    CommentAppend("# Schema migration " + "fingerprint for ", "omnibase_infra (auto-generated)");
  }

  lemma Comment2IsComment()
    ensures IsComment(COMMENT2)
  {
    CommentAppend("# Regenerate: python ", "scripts/check_");
    CommentAppend("# Regenerate: python " + "scripts/check_", "schema_fingerprint.py stamp");
  }

  lemma Comment3IsComment()
    ensures IsComment(COMMENT3)
  {
    CommentAppend("# Verify:     python ", "scripts/check_");
    CommentAppend("# Verify:     python " + "scripts/check_", "schema_fingerprint.py verify");
  }

  // A comment line in front does not change what is read.
  lemma CommentSkipped(line: string, rest: string)
    requires IsComment(line)
    ensures ReadArtifact(Some(line + "\n" + rest)) == ReadArtifact(Some(rest))
  {
    var text := line + "\n";
    UnbrokenHasNoReturn(line);
    ReadTextAppend(text, rest);
    SplitLine(line, '\n', ReadText(rest), IsLineBreak);
    assert text + ReadText(rest) == line + ['\n'] + ReadText(rest);
    StripFromHead(line, IsSpace);
    assert Strip(line)[0] == '#';
  }

  lemma DigestUnbroken(value: string)
    requires IsDigest(value)
    ensures Unbroken(value, IsLineBreak) && !IsSpace(value[63])
  {
    assert forall i :: 0 <= i < |value| ==> IsHexDigit(value[i]);
  }

  lemma UnbrokenHasNoReturn(line: string)
    requires Unbroken(line, IsLineBreak)
    ensures '\r' !in line + "\n"
  {
  }

  lemma MarkedLine(value: string)
    requires IsDigest(value)
    ensures Unbroken(MARK + value, IsLineBreak) && '\r' !in MARK + value + "\n"
    ensures Strip(MARK + value) == MARK + value
  {
    DigestUnbroken(value);
    AppendUnbroken(MARK, value, IsLineBreak);
    UnbrokenHasNoReturn(MARK + value);
    assert Trimmed(MARK + value);
  }

  // A marked line in front is what is read.
  lemma MarkedRead(value: string, rest: string)
    requires IsDigest(value)
    ensures ReadArtifact(Some(MARK + value + "\n" + rest)) == Some(value)
  {
    var line := MARK + value;
    MarkedLine(value);
    ReadTextAppend(line + "\n", rest);
    SplitLine(line, '\n', ReadText(rest), IsLineBreak);
    assert line + "\n" + ReadText(rest) == line + ['\n'] + ReadText(rest);
    assert line[7..] == value && |"PENDING"| == 7;
  }

  // The artifact reads back as the fingerprint it was written for.
  lemma ArtifactRoundTrip(fingerprint: string, now: string, count: nat)
    requires IsDigest(fingerprint)
    ensures ReadArtifact(Some(ArtifactText(fingerprint, now, count))) == Some(fingerprint)
  {
    var rest := MARK + fingerprint + "\n" + Trailer(now, count);
    Comment1IsComment();
    Comment2IsComment();
    Comment3IsComment();
    MarkedRead(fingerprint, Trailer(now, count));
    CommentSkipped(COMMENT3, rest);
    CommentSkipped(COMMENT2, COMMENT3 + "\n" + rest);
    CommentSkipped(COMMENT1, COMMENT2 + "\n" + (COMMENT3 + "\n" + rest));
  }

  // ----- verify and stamp -----

  // The exit code of cmd_verify; a missing directory is None.
  ghost function VerifyCode(sha: Hash, dir: Option<Migrations>, artifact: Option<string>): nat {
    if dir.Some? && ReadArtifact(artifact) == Some(Fingerprint(sha, dir.value)) then 0 else 2
  }

  class Artifact {
    // The artifact file, None while it does not exist.
    var text: Option<string>

    constructor (content: Option<string>)
      ensures text == content
    {
      text := content;
    }

    // cmd_verify
    method Verify(sha: Hash, dir: Option<Migrations>) returns (code: nat)
      ensures code == VerifyCode(sha, dir, text)
    {
      if dir.None? {
        return 2;
      }
      var fingerprint, _ := ComputeFingerprint(sha, dir.value);
      var committed := ReadArtifact(text);
      if committed.None? {
        return 2;
      }
      if fingerprint != committed.value {
        return 2;
      }
      return 0;
    }

    // cmd_stamp; now is the rendered clock.
    method Stamp(sha: Hash, dir: Option<Migrations>, dryRun: bool, now: string) returns (code: nat)
      modifies this
      ensures code == if dir.None? then 2 else 0
      ensures text == if dir.None? || dryRun then old(text)
                      else Some(ArtifactText(Fingerprint(sha, dir.value), now, |dir.value|))
    {
      if dir.None? {
        return 2;
      }
      var fingerprint, count := ComputeFingerprint(sha, dir.value);
      if dryRun {
        return 0;
      }
      text := Some(ArtifactText(fingerprint, now, count));
      return 0;
    }
  }

  // Verifying against a stamped artifact compares fingerprints.
  lemma VerifyCompares(sha: Hash, stamped: Migrations, now: string, later: Migrations)
    requires Hexadecimal(sha)
    ensures VerifyCode(sha, Some(later), Some(ArtifactText(Fingerprint(sha, stamped), now, |stamped|)))
            == (if Fingerprint(sha, later) == Fingerprint(sha, stamped) then 0 else 2)
  {
    assert IsDigest(sha(Canonical(sha, stamped)));
    ArtifactRoundTrip(Fingerprint(sha, stamped), now, |stamped|);
  }

  // Verifying against the artifact stamped for a directory succeeds for that directory and,
  // whatever file was added, removed, renamed or edited, for no other.
  lemma StampThenVerify(sha: Hash, stamped: Migrations, now: string, later: Migrations)
    requires Hexadecimal(sha) && NoNewlineInNames(stamped) && NoNewlineInNames(later)
    requires CollisionFree(sha, Hashed(sha, stamped) + Hashed(sha, later))
    ensures var artifact := Some(ArtifactText(Fingerprint(sha, stamped), now, |stamped|));
            VerifyCode(sha, Some(later), artifact) == (if later == stamped then 0 else 2)
  {
    VerifyCompares(sha, stamped, now, later);
    FingerprintIdentifies(sha, stamped, later);
  }
}
