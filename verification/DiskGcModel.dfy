// Classification of docker image rows: scripts/disk_gc_plan.py, the guards of build_plan.
module DiskGcModel {
  import opened Wrappers
  import opened Text
  import opened Counting
  import opened DiskGcSort

  // One row of `docker image ls`; age is the parsed CreatedAt in days.
  datatype Image = Image(id: string, repo: string, tag: string, age: real)

  datatype PrState = Merged | Closed | Open | Unknown

  // The keep-list, the set of references held by containers, and the pull-request lookup.
  datatype Policy = Policy(
    keepRepos: seq<string>,
    keepTags: set<string>,
    protectRunning: bool,
    keepGenerations: int,
    minAgeDays: int,
    inUse: set<string>,
    prState: Option<nat -> PrState>)

  datatype Reason = KeepTag | ReferencedByContainer | PrNotMerged | TooYoung | UntrackedRepo | NewestGeneration

  // What the guard chain decides about one row: keep its id, reap its id, or compete for
  // one of the retained generations of its repository.
  datatype Verdict = Keep(reason: Reason) | Reap | Candidate

  predicate IsHexId(v: string) { 12 <= |v| <= 64 && AllHex(v) }

  // _short_id
  function ShortId(value: string): Option<string> {
    var v := Strip(value);
    var bare := if "sha256:" <= v then v[7..] else v;
    if IsHexId(bare) then Some(bare[..12]) else None
  }

  // _is_in_use
  predicate IsInUse(id: string, ref: string, inUse: set<string>) {
    id in inUse || ref in inUse
    || (ShortId(id).Some? && exists entry :: entry in inUse && ShortId(entry) == ShortId(id))
  }

  // _pr_number_from_tag: ^pr-(\d+)$
  function PrNumber(tag: string): Option<nat> {
    var t := DropOneNewline(tag);
    if "pr-" <= t && |t| > 3 && AllDigits(t[3..]) then Some(DecimalValue(t[3..])) else None
  }

  // ^sha-[0-9a-f]{6,40}$
  predicate IsShaTag(tag: string) {
    var t := DropOneNewline(tag);
    "sha-" <= t && 10 <= |t| <= 44 && AllHex(t[4..])
  }

  predicate IsDisposableCiTag(tag: string) { PrNumber(tag).Some? || IsShaTag(tag) }

  predicate RepoProtected(repo: string, keepRepos: seq<string>) {
    exists k :: 0 <= k < |keepRepos| && Contains(repo, keepRepos[k])
  }

  // The string a row is matched by: repo:tag, or the id when there is no usable repository.
  function Reference(img: Image): string {
    if img.repo != "" && img.tag != "" && img.repo != "<none>" then img.repo + ":" + img.tag else img.id
  }

  predicate HasTagRef(img: Image) {
    img.repo != "" && img.tag != "" && img.repo != "<none>" && img.tag != "<none>"
  }

  // A row whose pull request is known to be finished.
  predicate FinishedPr(p: Policy, img: Image) {
    p.prState.Some? && img.repo != "" && img.repo != "<none>" && PrNumber(img.tag).Some?
    && p.prState.value(PrNumber(img.tag).value) in {Merged, Closed}
  }

  // The keep-tag and in-use guards, which run before every other rule.
  predicate HardProtected(p: Policy, img: Image) {
    (img.tag in p.keepTags && img.tag != "" && img.tag != "<none>")
    || (p.protectRunning && IsInUse(img.id, Reference(img), p.inUse))
  }

  // The chain of guards of build_plan, in source order.
  function Classify(p: Policy, img: Image): Verdict {
    if img.tag in p.keepTags && img.tag != "" && img.tag != "<none>" then Keep(KeepTag)
    else if p.protectRunning && IsInUse(img.id, Reference(img), p.inUse) then Keep(ReferencedByContainer)
    else if p.prState.Some? && IsDisposableCiTag(img.tag) && img.repo != "" && img.repo != "<none>"
            && PrNumber(img.tag).Some? then
      if p.prState.value(PrNumber(img.tag).value) in {Merged, Closed} then Reap else Keep(PrNotMerged)
    else if img.age < p.minAgeDays as real then Keep(TooYoung)
    else if img.repo == "<none>" || img.repo == "" || img.tag == "<none>" then Reap
    else if RepoProtected(img.repo, p.keepRepos) then Candidate
    else Keep(UntrackedRepo)
  }

  // All the retention and reconciliation stages see of a policy: the verdict on each row
  // and the number of generations to keep.
  datatype Ruling = Ruling(verdict: Image -> Verdict, keep: int)

  function RulingOf(p: Policy): Ruling {
    Ruling((img: Image) => Classify(p, img), p.keepGenerations)
  }

  // A candidate row of `repo` whose (age, id) satisfies q.
  function Lift(g: Ruling, repo: string, q: Entry -> bool): Image -> bool {
    (img: Image) => img.repo == repo && g.verdict(img) == Candidate && q(Entry(img.age, img.id))
  }

  function Any(): Entry -> bool { (e: Entry) => true }

  // How many candidate rows of the same repository beat row i to a retained slot: the
  // younger ones, and the equally old ones listed before it.
  function Rank(g: Ruling, images: seq<Image>, i: nat): nat
    requires i < |images|
  {
    Count(images, Lift(g, images[i].repo, Younger(images[i].age)))
    + Count(images[..i], Lift(g, images[i].repo, SameAge(images[i].age)))
  }

  // The row on its own asks for its id to be kept.
  predicate KeepsRow(g: Ruling, images: seq<Image>, i: nat)
    requires i < |images|
  {
    g.verdict(images[i]).Keep?
    || (g.verdict(images[i]) == Candidate && Rank(g, images, i) < g.keep)
  }

  function AllIds(images: seq<Image>): set<string> {
    set i | 0 <= i < |images| :: images[i].id
  }

  function KeptIds(g: Ruling, images: seq<Image>): set<string> {
    set i | 0 <= i < |images| && KeepsRow(g, images, i) :: images[i].id
  }

  // Keep wins: an id is removed when no row keeps it.
  function RemovedIds(g: Ruling, images: seq<Image>): set<string> {
    AllIds(images) - KeptIds(g, images)
  }
}
