// What the planner of scripts/disk_gc_plan.py removes, in terms of the texts docker prints and
// the keep-list holds: which container references, tags, repositories and pull-request tags
// protect or condemn an image.
module DiskGcTexts {
  import opened Wrappers
  import opened Text
  import opened Padding
  import opened DiskGcModel
  import opened DiskGcPlan
  import opened DiskGcExact

  ghost predicate OnRemovalList(p: Policy, images: seq<Image>, id: string) {
    id in Reconciled(RemovalQueue(RulingOf(p), images), KeptIds(RulingOf(p), images))
  }

  // ----- image ids as docker prints them -----

  ghost predicate OnlyHex(s: string) { forall i :: 0 <= i < |s| ==> s[i] in "0123456789abcdef" }

  lemma HexDigits(s: string)
    ensures OnlyHex(s) <==> AllHex(s)
  {
    forall i | 0 <= i < |s| ensures s[i] in "0123456789abcdef" <==> IsHexDigit(s[i]) {
      HexDigit(s[i]);
    }
  }

  lemma HexDigit(c: char)
    ensures c in "0123456789abcdef" <==> IsHexDigit(c)
  {
    var digits := "0123456789abcdef";
    if '0' <= c <= '9' {
      assert digits[c as int - '0' as int] == c;
    } else if 'a' <= c <= 'f' {
      assert digits[10 + (c as int - 'a' as int)] == c;
    }
  }

  // An id of 12 to 64 hexadecimal digits, blanks and "sha256:" aside.
  ghost predicate PrintedAs(text: string, hex: string, a: string, b: string) {
    && 12 <= |hex| <= 64 && OnlyHex(hex) && Blanks(a, IsSpace) && Blanks(b, IsSpace)
    && (text == a + hex + b || text == a + ("sha256:" + hex) + b)
  }

  ghost predicate PrintsId(text: string, digits: string) {
    exists hex, a, b :: PrintedAs(text, hex, a, b) && digits == hex[..12]
  }

  lemma HexIsTrimmed(hex: string)
    requires AllHex(hex) && hex != ""
    ensures Trimmed(hex) && Trimmed("sha256:" + hex) && !("sha256:" <= hex)
  {
    assert IsHexDigit(hex[0]) && IsHexDigit(hex[|hex| - 1]);
  }

  lemma StripPrinted(text: string, hex: string, a: string, b: string)
    requires PrintedAs(text, hex, a, b)
    ensures Strip(text) == hex || Strip(text) == "sha256:" + hex
  {
    HexDigits(hex);
    HexIsTrimmed(hex);
    if text == a + hex + b {
      StripPadded(a, hex, b, IsSpace);
    } else {
      StripPadded(a, "sha256:" + hex, b, IsSpace);
    }
  }

  lemma BehindMark(hex: string)
    ensures "sha256:" <= "sha256:" + hex && ("sha256:" + hex)[7..] == hex
  {
  }

  lemma PrintedHasShortId(text: string, hex: string, a: string, b: string)
    requires PrintedAs(text, hex, a, b)
    ensures ShortId(text) == Some(hex[..12])
  {
    StripPrinted(text, hex, a, b);
    HexDigits(hex);
    HexIsTrimmed(hex);
    BehindMark(hex);
  }

  lemma MarkInFront(v: string)
    requires "sha256:" <= v
    ensures v == "sha256:" + v[7..]
  {
  }

  lemma ShortIdIsPrinted(text: string) returns (hex: string, a: string, b: string)
    requires ShortId(text).Some?
    ensures PrintedAs(text, hex, a, b) && ShortId(text).value == hex[..12]
  {
    var v := Strip(text);
    a, b := StripSplits(text, IsSpace);
    if "sha256:" <= v {
      hex := v[7..];
      MarkInFront(v);
    } else {
      hex := v;
    }
    HexDigits(hex);
  }

  lemma ShortIdIff(text: string, digits: string)
    ensures ShortId(text) == Some(digits) <==> PrintsId(text, digits)
  {
    if ShortId(text) == Some(digits) {
      var hex, a, b := ShortIdIsPrinted(text);
    }
    if hex, a, b :| PrintedAs(text, hex, a, b) && digits == hex[..12] {
      PrintedHasShortId(text, hex, a, b);
    }
  }

  // ----- what protects or condemns a row -----

  ghost predicate SharesId(inUse: set<string>, id: string) {
    exists entry, digits :: entry in inUse && PrintsId(entry, digits) && PrintsId(id, digits)
  }

  // A container was started from this image: by its id, by repo:tag, or by an id with the
  // same twelve digits.
  ghost predicate HeldByContainer(inUse: set<string>, img: Image) {
    img.id in inUse
    || (img.repo !in {"", "<none>"} && img.tag != "" && img.repo + ":" + img.tag in inUse)
    || SharesId(inUse, img.id)
  }

  ghost predicate Protected(p: Policy, img: Image) {
    (img.tag in p.keepTags && img.tag !in {"", "<none>"}) || (p.protectRunning && HeldByContainer(p.inUse, img))
  }

  // pr-N, zeros in front of the number and a final newline aside.
  ghost predicate NamesPr(tag: string, n: nat) {
    exists digits :: IsNumeral(digits, n) && tag in {"pr-" + digits, "pr-" + digits + "\n"}
  }

  // The pull-request lookup is on and the row has a repository and a pull-request tag.
  ghost predicate AsksForPr(p: Policy, img: Image) {
    p.prState.Some? && img.repo !in {"", "<none>"} && exists n: nat :: NamesPr(img.tag, n)
  }

  ghost predicate PrFinished(p: Policy, img: Image)
    requires p.prState.Some?
  {
    exists n: nat :: NamesPr(img.tag, n) && p.prState.value(n) in {Merged, Closed}
  }

  ghost predicate Tracked(repo: string, keepRepos: seq<string>) {
    exists k, a, b :: 0 <= k < |keepRepos| && HasPart(repo, a, keepRepos[k], b)
  }

  ghost predicate Untagged(img: Image) { img.repo in {"", "<none>"} || img.tag == "<none>" }

  // An old generation of a tracked repository.
  ghost predicate Competes(p: Policy, img: Image) {
    && !Protected(p, img) && !AsksForPr(p, img) && img.age >= p.minAgeDays as real
    && !Untagged(img) && Tracked(img.repo, p.keepRepos)
  }

  // Competing rows of the same repository that are younger, or as old and listed before.
  ghost function Ahead(p: Policy, images: seq<Image>, i: nat): set<nat>
    requires i < |images|
  {
    set j: nat | j < |images| && images[j].repo == images[i].repo && Competes(p, images[j])
                 && (images[j].age < images[i].age || (images[j].age == images[i].age && j < i))
  }

  // Nothing about the row keeps its id.
  ghost predicate Discarded(p: Policy, images: seq<Image>, i: nat)
    requires i < |images|
  {
    var img := images[i];
    !Protected(p, img)
    && if AsksForPr(p, img) then PrFinished(p, img)
       else img.age >= p.minAgeDays as real
            && (Untagged(img) || (Tracked(img.repo, p.keepRepos) && |Ahead(p, images, i)| >= p.keepGenerations))
  }

  // ----- the guards are these -----

  lemma SharesIdIff(inUse: set<string>, id: string)
    ensures SharesId(inUse, id) <==> (ShortId(id).Some? && exists entry :: entry in inUse && ShortId(entry) == ShortId(id))
  {
    if entry, digits :| entry in inUse && PrintsId(entry, digits) && PrintsId(id, digits) {
      ShortIdIff(entry, digits);
      ShortIdIff(id, digits);
    }
    if ShortId(id).Some? {
      var digits := ShortId(id).value;
      ShortIdIff(id, digits);
      if entry :| entry in inUse && ShortId(entry) == ShortId(id) {
        ShortIdIff(entry, digits);
      }
    }
  }

  lemma HeldIff(inUse: set<string>, img: Image)
    ensures IsInUse(img.id, Reference(img), inUse) <==> HeldByContainer(inUse, img)
  {
    SharesIdIff(inUse, img.id);
  }

  lemma ProtectedIff(p: Policy, img: Image)
    ensures HardProtected(p, img) <==> Protected(p, img)
  {
    HeldIff(p.inUse, img);
  }

  lemma PrText(digits: string)
    ensures ("pr-" + digits)[3..] == digits && "pr-" <= "pr-" + digits
    ensures DropOneNewline("pr-" + digits + "\n") == "pr-" + digits
  {
    assert ("pr-" + digits + "\n")[..|"pr-" + digits|] == "pr-" + digits;
  }

  lemma NumberOfTag(tag: string, digits: string, n: nat)
    requires IsNumeral(digits, n) && tag in {"pr-" + digits, "pr-" + digits + "\n"}
    ensures PrNumber(tag) == Some(n)
  {
    NumeralIff(digits, n);
    PrText(digits);
    assert DropOneNewline("pr-" + digits) == "pr-" + digits by {
      assert digits[|digits| - 1] != '\n';
    }
  }

  lemma NewlineDropped(t: string)
    ensures t in {DropOneNewline(t), DropOneNewline(t) + "\n"}
  {
    if t != "" && t[|t| - 1] == '\n' {
      assert t == t[..|t| - 1] + [t[|t| - 1]];
    }
  }

  lemma PrNumberIff(tag: string, n: nat)
    ensures PrNumber(tag) == Some(n) <==> NamesPr(tag, n)
  {
    if PrNumber(tag) == Some(n) {
      var t := DropOneNewline(tag);
      NewlineDropped(tag);
      NumeralIff(t[3..], n);
      assert t == "pr-" + t[3..];
    }
    if digits :| IsNumeral(digits, n) && tag in {"pr-" + digits, "pr-" + digits + "\n"} {
      NumberOfTag(tag, digits, n);
    }
  }

  lemma TrackedIff(repo: string, keepRepos: seq<string>)
    ensures RepoProtected(repo, keepRepos) <==> Tracked(repo, keepRepos)
  {
    forall k | 0 <= k < |keepRepos| ensures Contains(repo, keepRepos[k]) <==> exists a, b :: HasPart(repo, a, keepRepos[k], b) {
      ContainsIff(repo, keepRepos[k]);
    }
  }

  lemma PrNamed(tag: string)
    ensures PrNumber(tag).Some? <==> exists n: nat :: NamesPr(tag, n)
    ensures forall n: nat :: NamesPr(tag, n) <==> PrNumber(tag) == Some(n)
  {
    forall n: nat ensures NamesPr(tag, n) <==> PrNumber(tag) == Some(n) {
      PrNumberIff(tag, n);
    }
    if PrNumber(tag).Some? {
      assert NamesPr(tag, PrNumber(tag).value);
    }
  }

  lemma DecidedIff(p: Policy, img: Image)
    ensures DecidedByPr(p, img) <==> AsksForPr(p, img)
    ensures FinishedPr(p, img) <==> AsksForPr(p, img) && PrFinished(p, img)
  {
    PrNamed(img.tag);
  }

  lemma CompetesIff(p: Policy, img: Image)
    ensures Superseded(p, img) <==> Competes(p, img)
  {
    ProtectedIff(p, img);
    DecidedIff(p, img);
    TrackedIff(img.repo, p.keepRepos);
  }

  lemma DiscardedIff(p: Policy, images: seq<Image>, i: nat)
    requires i < |images|
    ensures Removable(p, images, i) <==> Discarded(p, images, i)
  {
    forall j: nat | j < |images| ensures Superseded(p, images[j]) <==> Competes(p, images[j]) {
      CompetesIff(p, images[j]);
    }
    assert Before(p, images, i) == Ahead(p, images, i);
    ProtectedIff(p, images[i]);
    DecidedIff(p, images[i]);
    TrackedIff(images[i].repo, p.keepRepos);
  }

  // ----- the removal list, by texts alone -----

  lemma RemovedByTextIff(p: Policy, images: seq<Image>, id: string)
    ensures OnRemovalList(p, images, id) <==>
            id in AllIds(images) && forall i: nat :: i < |images| && images[i].id == id ==> Discarded(p, images, i)
  {
    RemovedIff(p, images, id);
    forall i: nat | i < |images| { DiscardedIff(p, images, i); }
  }

  // ----- containers -----

  // An image a container was started from, by id, by repo:tag or by its twelve digits, is not
  // removed, whatever else the plan knows about it...
  lemma ContainersProtect(p: Policy, images: seq<Image>, i: nat, ref: string, digits: string)
    requires i < |images| && p.protectRunning && ref in p.inUse
    requires ref == images[i].id
             || (images[i].repo !in {"", "<none>"} && images[i].tag != "" && ref == images[i].repo + ":" + images[i].tag)
             || (PrintsId(ref, digits) && PrintsId(images[i].id, digits))
    ensures !OnRemovalList(p, images, images[i].id)
  {
    RemovedByTextIff(p, images, images[i].id);
    assert Protected(p, images[i]);
  }

  lemma UnheldRow(p: Policy, img: Image)
    requires !HeldByContainer(p.inUse, img)
    ensures var q := p.(protectRunning := false);
            && (Protected(p, img) <==> Protected(q, img))
            && (Competes(p, img) <==> Competes(q, img))
            && (AsksForPr(p, img) <==> AsksForPr(q, img))
  {
  }

  ghost predicate NoneHeld(p: Policy, images: seq<Image>) {
    forall i :: 0 <= i < |images| ==> !HeldByContainer(p.inUse, images[i])
  }

  lemma UnheldDiscarded(p: Policy, images: seq<Image>, i: nat)
    requires i < |images| && NoneHeld(p, images)
    ensures Discarded(p, images, i) <==> Discarded(p.(protectRunning := false), images, i)
  {
    forall j | 0 <= j < |images| { UnheldRow(p, images[j]); }
    assert Ahead(p, images, i) == Ahead(p.(protectRunning := false), images, i);
  }

  // ...and containers started from none of the rows protect nothing.
  lemma OthersProtectNothing(p: Policy, images: seq<Image>, id: string)
    requires NoneHeld(p, images)
    ensures OnRemovalList(p, images, id) <==> OnRemovalList(p.(protectRunning := false), images, id)
  {
    RemovedByTextIff(p, images, id);
    RemovedByTextIff(p.(protectRunning := false), images, id);
    forall i: nat | i < |images| { UnheldDiscarded(p, images, i); }
  }

  // ----- reasons -----

  ghost predicate HasKeepTag(p: Policy, img: Image) { img.tag in p.keepTags && img.tag !in {"", "<none>"} }

  ghost predicate Held(p: Policy, img: Image) { p.protectRunning && HeldByContainer(p.inUse, img) }

  // Which reason the planner gives for keeping a row outright.
  lemma ReasonIff(p: Policy, img: Image)
    ensures Classify(p, img) == Keep(KeepTag) <==> HasKeepTag(p, img)
    ensures Classify(p, img) == Keep(ReferencedByContainer) <==> !HasKeepTag(p, img) && Held(p, img)
    ensures Classify(p, img) == Keep(PrNotMerged) <==> !Protected(p, img) && AsksForPr(p, img) && !PrFinished(p, img)
    ensures Classify(p, img) == Keep(TooYoung) <==>
            !Protected(p, img) && !AsksForPr(p, img) && img.age < p.minAgeDays as real
    ensures Classify(p, img) == Keep(UntrackedRepo) <==>
            !Protected(p, img) && !AsksForPr(p, img) && img.age >= p.minAgeDays as real
            && !Untagged(img) && !Tracked(img.repo, p.keepRepos)
    ensures Classify(p, img) != Keep(NewestGeneration)
  {
    HeldIff(p.inUse, img);
    DecidedIff(p, img);
    TrackedIff(img.repo, p.keepRepos);
  }

  // ----- the references of a removed image -----

  // repo:tag of a row that has both.
  ghost predicate Shows(img: Image, id: string, ref: string) {
    img.id == id && img.repo !in {"", "<none>"} && img.tag !in {"", "<none>"} && ref == img.repo + ":" + img.tag
  }

  // Row i is the first one of this id that shows the reference.
  ghost predicate FirstShown(images: seq<Image>, id: string, ref: string, i: nat) {
    i < |images| && Shows(images[i], id, ref) && forall k :: 0 <= k < i ==> !Shows(images[k], id, ref)
  }

  lemma RefShown(images: seq<Image>, id: string, ref: string)
    ensures ref in RefsOf(images, id) <==> exists i :: 0 <= i < |images| && Shows(images[i], id, ref)
  {
    forall i | 0 <= i < |images|
      ensures Shows(images[i], id, ref) <==> images[i].id == id && HasTagRef(images[i]) && Reference(images[i]) == ref
    {
    }
  }

  lemma FirstShow(images: seq<Image>, id: string, ref: string) returns (i: nat)
    requires exists k :: 0 <= k < |images| && Shows(images[k], id, ref)
    ensures FirstShown(images, id, ref, i)
  {
    i := 0;
    while !Shows(images[i], id, ref)
      invariant i < |images| && forall k :: 0 <= k < i ==> !Shows(images[k], id, ref)
      decreases |images| - i
    {
      i := i + 1;
    }
  }

  // The plan lists every repo:tag of the id, each once, in the order of the rows that show it
  // first.
  lemma {:induction false} RefsInRowOrder(images: seq<Image>, id: string, a: nat, b: nat, i: nat, j: nat)
    requires a < b < |RefsOf(images, id)|
    requires FirstShown(images, id, RefsOf(images, id)[a], i) && FirstShown(images, id, RefsOf(images, id)[b], j)
    ensures i < j
  {
    var front := images[..|images| - 1];
    var refs := RefsOf(images, id);
    RefShown(front, id, refs[a]);
    RefShown(front, id, refs[b]);
    assert forall k :: 0 <= k < |front| ==> front[k] == images[k];
    assert refs[a] == RefsOf(front, id)[a];
    var k := FirstShow(front, id, refs[a]);
    if b < |RefsOf(front, id)| {
      var m := FirstShow(front, id, refs[b]);
      RefsInRowOrder(front, id, a, b, k, m);
    }
  }
}
