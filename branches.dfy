/**
 * `mapChapters`: one ordered pass over the raw feed items that skips externally hosted
 * chapters, places each chapter on a branch (its language's display name, or that name with a
 * " (n)" suffix when the plain branch already has a chapter with the same declared number),
 * resolves its number and name, and keeps it when the list builder accepts its id.
 *
 * The dedup index `branchedChapters` maps a branch to (declared number -> chapter). Locale display
 * names, the uid hash, float formatting and date parsing are parameters (`Env`).
 */
module Branches {
  import opened Wrappers
  import Text

  /** The fields of one feed item that `mapChapters` reads; `number` is the declared `chapter`
    * attribute, already defaulted to 0 when absent. */
  datatype RawItem = RawItem(
    id: string,
    number: real,
    language: Option<string>,
    team: Option<string>,
    externalUrl: Option<string>,
    publishAt: string,
    title: Option<string>)

  /** Library behaviour the pass relies on but which is not part of this model. */
  datatype Env = Env(
    displayName: string -> string,   // Locale.forLanguageTag(tag).getDisplayName(..).toTitleCase(..)
    uid: string -> int,              // generateUid
    numberText: real -> string,      // Float.toString
    parseDate: string -> int)        // dateFormat.tryParse

  /** A resolved chapter (`MangaChapter`). */
  datatype Chapter = Chapter(
    id: int,
    name: string,
    number: int,
    url: string,
    scanlator: Option<string>,
    uploadDate: int,
    branch: string)

  /** The dedup index: branch -> declared number -> chapter. */
  type Index = map<string, map<real, Chapter>>

  /** `firstNotNullOf` found no free branch: NoSuchElementException. */
  datatype MapError = NoFreeBranch(itemId: string)

  /** The branch label text of a possibly missing display name, as string templates print it. */
  function Label(lc: Option<string>): string {
    if lc.Some? then lc.value else "null"
  }

  function CandidateText(lc: Option<string>, i: nat): string {
    if i == 0 then Label(lc) else Label(lc) + " (" + Text.NatText(i) + ")"
  }

  /** Candidate `i` of the branch probe: `lc` itself for 0 (which may be null), else "lc (i)". */
  function Candidate(lc: Option<string>, i: nat): Option<string> {
    if i == 0 && lc.None? then None else Some(CandidateText(lc, i))
  }

  predicate Occupied(index: Index, branch: string, number: real) {
    branch in index && number in index[branch]
  }

  /** Candidate `i` is a branch name with no chapter at `number` yet. */
  predicate Usable(index: Index, lc: Option<string>, number: real, i: nat) {
    Candidate(lc, i).Some? && !Occupied(index, Candidate(lc, i).value, number)
  }

  /** `(list.indices).firstNotNullOf { ... }` from candidate `i` on, below `probes`. */
  function FirstFree(index: Index, lc: Option<string>, number: real, i: nat, probes: nat): (r: Option<nat>)
    ensures r.Some? ==> Usable(index, lc, number, r.value)
    decreases probes - i
  {
    if i >= probes then None
    else if Usable(index, lc, number, i) then Some(i)
    else FirstFree(index, lc, number, i + 1, probes)
  }

  /** The probe answers the first usable candidate in `[i, probes)`, and nothing only when none is. */
  lemma {:induction false} FirstFreeIsFirstUsable(index: Index, lc: Option<string>, number: real, i: nat, probes: nat)
    ensures var r := FirstFree(index, lc, number, i, probes);
      (r.Some? ==> i <= r.value < probes && Usable(index, lc, number, r.value)) &&
      (r.Some? ==> forall j :: i <= j < r.value ==> !Usable(index, lc, number, j)) &&
      (r.None? <==> forall j :: i <= j < probes ==> !Usable(index, lc, number, j))
    decreases probes - i
  {
    if i < probes && !Usable(index, lc, number, i) {
      FirstFreeIsFirstUsable(index, lc, number, i + 1, probes);
    }
  }

  /** The resolved number: the declared number truncated when positive; otherwise one more than
    * the size of the chosen branch, or 0 when that branch is not in the index yet. */
  function ResolvedNumber(index: Index, branch: string, number: real): (r: int)
    ensures number > 0.0 ==> r >= 0 && r as real <= number < r as real + 1.0
    ensures number <= 0.0 ==> (r == 0 <==> branch !in index)
    ensures number <= 0.0 && branch in index ==> r == |index[branch]| + 1
  {
    if number <= 0.0 then (if branch in index then |index[branch]| + 1 else 0) else number.Floor
  }

  /** The title when present and non-empty, else "Chapter #" and the number's text without a trailing ".0". */
  function ChapterName(title: Option<string>, number: real, numberText: real -> string): (r: string)
    ensures title.Some? && title.value != "" ==> r == title.value
    ensures title.None? || title == Some("") ==>
      |r| >= 9 && r[..9] == "Chapter #" &&
      if Text.EndsWith(numberText(number), ".0") then r[9..] + ".0" == numberText(number)
      else r[9..] == numberText(number)
  {
    if title.Some? && title.value != "" then title.value
    else "Chapter #" + Text.RemoveSuffix(numberText(number), ".0")
  }

  /** Kotlin's `Char.isWhitespace`. */
  predicate IsWhitespace(c: char) {
    var n := c as int;
    n == 0x20 || 0x09 <= n <= 0x0D || 0x1C <= n <= 0x1F || n == 0xA0 || n == 0x1680 ||
    0x2000 <= n <= 0x200A || n == 0x2028 || n == 0x2029 || n == 0x202F || n == 0x205F || n == 0x3000
  }

  predicate IsBlank(s: string) {
    forall i :: 0 <= i < |s| ==> IsWhitespace(s[i])
  }

  /** The scanlation group's name, dropped when blank. */
  function Scanlator(team: Option<string>): (r: Option<string>)
    ensures r.Some? <==> team.Some? && !IsBlank(team.value)
    ensures r.Some? ==> r == team
  {
    if team.Some? && !IsBlank(team.value) then team else None
  }

  /** The display name of the item's language, null when the item has none. */
  function Lc(item: RawItem, env: Env): Option<string> {
    if item.language.Some? then Some(env.displayName(item.language.value)) else None
  }

  function MakeChapter(index: Index, item: RawItem, branch: string, env: Env): Chapter {
    Chapter(
      env.uid(item.id),
      ChapterName(item.title, item.number, env.numberText),
      ResolvedNumber(index, branch, item.number),
      item.id,
      Scanlator(item.team),
      env.parseDate(item.publishAt),
      branch)
  }

  /** `branchedChapters.getOrPut(branch, ::HashMap)[number] = chapter`. */
  function Insert(index: Index, branch: string, number: real, chapter: Chapter): Index {
    index[branch := (if branch in index then index[branch] else map[])[number := chapter]]
  }

  function Ids(chapters: seq<Chapter>): set<int> {
    set c | c in chapters :: c.id
  }

  /** The branches that already hold a chapter at declared number `number`. */
  function Holders(index: Index, number: real): set<string> {
    set b | b in index && number in index[b]
  }

  /** The state of the pass: the index, the builder's accepted chapters, and (for the proofs)
    * the position in the input of each accepted chapter. */
  datatype State = State(index: Index, accepted: seq<Chapter>, origin: seq<nat>)

  /** One iteration of the loop, on item `k`, probing candidates below `probes`. */
  function Step(st: State, items: seq<RawItem>, k: nat, probes: nat, env: Env): Result<State, MapError>
    requires k < |items|
  {
    var item := items[k];
    if item.externalUrl.Some? then Success(st)
    else
      var lc := Lc(item, env);
      match FirstFree(st.index, lc, item.number, 0, probes)
      case None => Failure(NoFreeBranch(item.id))
      case Some(i) =>
        var branch := Candidate(lc, i).value;
        var chapter := MakeChapter(st.index, item, branch, env);
        if chapter.id in Ids(st.accepted) then Success(st)
        else
          assert item.number in Insert(st.index, branch, item.number, chapter)[branch];
          Success(State(Insert(st.index, branch, item.number, chapter), st.accepted + [chapter], st.origin + [k]))
  }

  /** An externally hosted item changes nothing; otherwise the step either leaves the state as it
    * is or appends one chapter to the builder, and the index changes exactly when the builder does. */
  lemma StepEffect(st: State, items: seq<RawItem>, k: nat, probes: nat, env: Env)
    requires k < |items|
    ensures var r := Step(st, items, k, probes, env);
      (items[k].externalUrl.Some? ==> r == Success(st)) &&
      (r.Success? ==> r.value == st || r.value.accepted == st.accepted + [r.value.accepted[|st.accepted|]]) &&
      (r.Success? ==> (r.value.index == st.index <==> r.value.accepted == st.accepted))
  {
  }

  /** What holds of the state after the first `k` items. */
  ghost predicate WellFormed(items: seq<RawItem>, k: nat, st: State) {
    k <= |items| && OriginsValid(items, k, st) && DistinctIds(st.accepted) &&
    SlotsHeld(items, st) && HoldersBounded(st.index, |st.accepted|)
  }

  /** Accepted chapters come from distinct, served items among the first `k`, in input order. */
  ghost predicate OriginsValid(items: seq<RawItem>, k: nat, st: State) {
    k <= |items| &&
    |st.accepted| == |st.origin| <= k &&
    (forall j :: 0 <= j < |st.origin| ==>
      st.origin[j] < k && items[st.origin[j]].externalUrl.None? && st.accepted[j].url == items[st.origin[j]].id) &&
    (forall j1, j2 :: 0 <= j1 < j2 < |st.origin| ==> st.origin[j1] < st.origin[j2])
  }

  /** The builder holds each id once. */
  ghost predicate DistinctIds(chapters: seq<Chapter>) {
    forall j1, j2 :: 0 <= j1 < j2 < |chapters| ==> chapters[j1].id != chapters[j2].id
  }

  /** Each accepted chapter sits in the index at its (branch, declared number) slot. */
  ghost predicate SlotsHeld(items: seq<RawItem>, st: State) {
    |st.origin| == |st.accepted| &&
    forall j :: 0 <= j < |st.accepted| && st.origin[j] < |items| ==>
      SlotHolds(st.index, st.accepted[j], items[st.origin[j]].number)
  }

  predicate SlotHolds(index: Index, c: Chapter, number: real) {
    Occupied(index, c.branch, number) && index[c.branch][number] == c
  }

  /** At any declared number, at most `n` branches hold a chapter. */
  ghost predicate HoldersBounded(index: Index, n: nat) {
    forall number :: |Holders(index, number)| <= n
  }

  /** The loop after `k` items: the fold of `Step` over them, stopping at the first failure. */
  function Run(items: seq<RawItem>, probes: nat, k: nat, env: Env): Result<State, MapError>
    requires k <= |items|
  {
    if k == 0 then Success(State(map[], [], []))
    else
      match Run(items, probes, k - 1, env)
      case Failure(e) => Failure(e)
      case Success(st) => Step(st, items, k - 1, probes, env)
  }

  lemma InitialWellFormed(items: seq<RawItem>)
    ensures WellFormed(items, 0, State(map[], [], []))
  {
    assert forall number :: Holders(map[], number) == {};
  }

  /** The loop state after `k` items, when there is one, satisfies the invariant. */
  ghost predicate Reached(items: seq<RawItem>, probes: nat, k: nat, env: Env)
    requires k <= |items|
  {
    Run(items, probes, k, env).Success? ==> WellFormed(items, k, Run(items, probes, k, env).value)
  }

  /** Every state the loop reaches satisfies the invariant. */
  lemma {:induction false} RunWellFormed(items: seq<RawItem>, probes: nat, k: nat, env: Env)
    requires k <= |items|
    ensures Reached(items, probes, k, env)
  {
    if k == 0 {
      InitialWellFormed(items);
    } else {
      RunWellFormed(items, probes, k - 1, env);
      RunStepWellFormed(items, probes, k, env);
    }
  }

  lemma RunStepWellFormed(items: seq<RawItem>, probes: nat, k: nat, env: Env)
    requires 0 < k <= |items|
    requires Reached(items, probes, k - 1, env)
    ensures Reached(items, probes, k, env)
  {
    var prev := Run(items, probes, k - 1, env);
    if prev.Success? {
      var j := k - 1;
      StepPreservesWellFormed(prev.value, items, j, probes, env);
      var next := Step(prev.value, items, j, probes, env);
      assert Run(items, probes, k, env) == next;
      if next.Success? {
        assert next.value == Run(items, probes, k, env).value;
      }
    }
  }

  /** `mapChapters(list)`: the chapters the builder ends up with, or the exception. */
  function Resolve(items: seq<RawItem>, env: Env): Result<seq<Chapter>, MapError> {
    match Run(items, |items|, |items|, env)
    case Failure(e) => Failure(e)
    case Success(st) => Success(st.accepted)
  }

  lemma IdsSnoc(chapters: seq<Chapter>, c: Chapter)
    ensures Ids(chapters + [c]) == Ids(chapters) + {c.id}
  {
    assert forall x :: x in chapters + [c] <==> x in chapters || x == c;
  }

  /** Filling slot (b, n) adds `b` to the holders of `n` and changes no other number's holders. */
  lemma InsertHolders(index: Index, b: string, n: real, c: Chapter, number: real)
    ensures Holders(Insert(index, b, n, c), number) <= Holders(index, number) + {b}
  {
  }

  lemma SubsetCard<T>(a: set<T>, b: set<T>)
    requires a <= b
    ensures |a| <= |b|
  {
    assert b == a + (b - a);
  }

  lemma InsertKeepsBound(index: Index, b: string, n: real, c: Chapter, bound: nat)
    requires HoldersBounded(index, bound)
    ensures HoldersBounded(Insert(index, b, n, c), bound + 1)
  {
    forall number ensures |Holders(Insert(index, b, n, c), number)| <= bound + 1 {
      InsertHolders(index, b, n, c, number);
      SubsetCard(Holders(Insert(index, b, n, c), number), Holders(index, number) + {b});
    }
  }

  lemma StepPreservesWellFormed(st: State, items: seq<RawItem>, k: nat, probes: nat, env: Env)
    requires k < |items|
    requires WellFormed(items, k, st)
    ensures Step(st, items, k, probes, env).Success? ==> WellFormed(items, k + 1, Step(st, items, k, probes, env).value)
  {
    var r := Step(st, items, k, probes, env);
    if r.Success? && r.value != st {
      var item := items[k];
      var lc := Lc(item, env);
      var i := FirstFree(st.index, lc, item.number, 0, probes).value;
      FirstFreeIsFirstUsable(st.index, lc, item.number, 0, probes);
      var branch := Candidate(lc, i).value;
      var chapter := MakeChapter(st.index, item, branch, env);
      assert r.value == State(Insert(st.index, branch, item.number, chapter), st.accepted + [chapter], st.origin + [k]);
      AcceptPreservesWellFormed(st, items, k, branch, chapter);
    } else if r.Success? {
      assert OriginsValid(items, k + 1, st);
    }
  }

  /** Accepting a chapter from item `k` into a free slot keeps the invariant. */
  lemma AcceptPreservesWellFormed(st: State, items: seq<RawItem>, k: nat, branch: string, chapter: Chapter)
    requires k < |items| && WellFormed(items, k, st)
    requires items[k].externalUrl.None? && chapter.url == items[k].id && chapter.branch == branch
    requires !Occupied(st.index, branch, items[k].number)
    requires chapter.id !in Ids(st.accepted)
    ensures WellFormed(items, k + 1,
      State(Insert(st.index, branch, items[k].number, chapter), st.accepted + [chapter], st.origin + [k]))
  {
    var st' := State(Insert(st.index, branch, items[k].number, chapter), st.accepted + [chapter], st.origin + [k]);
    assert OriginsValid(items, k + 1, st');
    forall j | 0 <= j < |st.accepted| ensures st.accepted[j].id != chapter.id {
      assert st.accepted[j] in st.accepted;
    }
    assert DistinctIds(st'.accepted);
    forall j | 0 <= j < |st.accepted|
      ensures SlotHolds(st'.index, st'.accepted[j], items[st'.origin[j]].number)
    {
      assert SlotHolds(st.index, st.accepted[j], items[st.origin[j]].number);
    }
    assert SlotHolds(st'.index, chapter, items[k].number);
    assert SlotsHeld(items, st');
    InsertKeepsBound(st.index, branch, items[k].number, chapter, |st.accepted|);
  }

  /** A failure ends the loop: later items do not change it. */
  lemma {:induction false} RunFailureSticks(items: seq<RawItem>, probes: nat, k: nat, m: nat, env: Env)
    requires k <= m <= |items|
    requires Run(items, probes, k, env).Failure?
    ensures Run(items, probes, m, env) == Run(items, probes, k, env)
    decreases m - k
  {
    if k < m {
      RunFailureSticks(items, probes, k, m - 1, env);
    }
  }

  /** `ChaptersListBuilder`: an ordered list that accepts a chapter only when its id is new. */
  class ChaptersListBuilder {
    var ids: set<int>
    var list: seq<Chapter>

    ghost predicate Valid()
      reads this
    {
      ids == Ids(list)
    }

    constructor (initialSize: nat)
      ensures Valid() && list == []
    {
      ids := {};
      list := [];
    }

    /** Appends `c` unless a chapter with its id is already held; answers whether it did. */
    method Add(c: Chapter) returns (added: bool)
      requires Valid()
      modifies this
      ensures Valid()
      ensures added <==> c.id !in Ids(old(list))
      ensures list == if added then old(list) + [c] else old(list)
    {
      if c.id in ids {
        added := false;
      } else {
        IdsSnoc(list, c);
        ids := ids + {c.id};
        list := list + [c];
        added := true;
      }
    }
  }

  /** `mapChapters(list)`: the loop over the feed items, with the builder and the dedup index. */
  method MapChapters(items: seq<RawItem>, env: Env) returns (r: Result<seq<Chapter>, MapError>)
    ensures r == Resolve(items, env)
  {
    var builder := new ChaptersListBuilder(|items|);
    var branched: Index := map[];
    ghost var origin: seq<nat> := [];
    var k := 0;
    while k < |items|
      invariant k <= |items|
      invariant builder.Valid()
      invariant Run(items, |items|, k, env) == Success(State(branched, builder.list, origin))
    {
      var item := items[k];
      if item.externalUrl.None? {
        var lc := Lc(item, env);
        var found := FirstFree(branched, lc, item.number, 0, |items|);
        if found.None? {
          RunFailureSticks(items, |items|, k + 1, |items|, env);
          return Failure(NoFreeBranch(item.id));
        }
        var branch := Candidate(lc, found.value).value;
        var chapter := MakeChapter(branched, item, branch, env);
        var added := builder.Add(chapter);
        if added {
          branched := Insert(branched, branch, item.number, chapter);
          origin := origin + [k];
        }
      }
      k := k + 1;
    }
    r := Success(builder.list);
  }

  // ---------------------------------------------------------------------------------------------
  // What the pass guarantees about its result.

  /** The input position of each chapter the pass ends with. */
  ghost function Origin(items: seq<RawItem>, env: Env): seq<nat>
    requires Resolve(items, env).Success?
  {
    Run(items, |items|, |items|, env).value.origin
  }

  /** The builder never keeps two chapters with the same id. */
  lemma ResolvedIdsDistinct(items: seq<RawItem>, env: Env)
    ensures Resolve(items, env).Success? ==>
      forall j1, j2 :: 0 <= j1 < j2 < |Resolve(items, env).value| ==>
        Resolve(items, env).value[j1].id != Resolve(items, env).value[j2].id
  {
    RunWellFormed(items, |items|, |items|, env);
  }

  /** Each chapter comes from a served (not externally hosted) item, and chapters keep the feed order. */
  lemma ResolvedFromServedItemsInOrder(items: seq<RawItem>, env: Env)
    requires Resolve(items, env).Success?
    ensures var chapters, origin := Resolve(items, env).value, Origin(items, env);
      |origin| == |chapters| &&
      (forall j :: 0 <= j < |chapters| ==>
        origin[j] < |items| && items[origin[j]].externalUrl.None? && chapters[j].url == items[origin[j]].id) &&
      (forall j1, j2 :: 0 <= j1 < j2 < |chapters| ==> origin[j1] < origin[j2])
  {
    RunWellFormed(items, |items|, |items|, env);
  }

  /** No two chapters share a branch and a declared number: a collision always moves to another branch. */
  lemma ResolvedSlotsDistinct(items: seq<RawItem>, env: Env)
    requires Resolve(items, env).Success?
    ensures var chapters, origin := Resolve(items, env).value, Origin(items, env);
      |origin| == |chapters| &&
      (forall j :: 0 <= j < |chapters| ==> origin[j] < |items|) &&
      (forall j1, j2 :: 0 <= j1 < j2 < |chapters| ==>
        chapters[j1].branch != chapters[j2].branch || items[origin[j1]].number != items[origin[j2]].number)
  {
    RunWellFormed(items, |items|, |items|, env);
    var st := Run(items, |items|, |items|, env).value;
    forall j1, j2 | 0 <= j1 < j2 < |st.accepted|
      ensures st.accepted[j1].branch != st.accepted[j2].branch || items[st.origin[j1]].number != items[st.origin[j2]].number
    {
      assert SlotHolds(st.index, st.accepted[j1], items[st.origin[j1]].number);
      assert SlotHolds(st.index, st.accepted[j2], items[st.origin[j2]].number);
      assert st.accepted[j1].id != st.accepted[j2].id;
    }
  }

  /** Every served item is represented: its id's uid is among the kept chapters (it was kept, or
    * an earlier chapter already had that id). */
  lemma {:induction false} RunCoversServedItems(items: seq<RawItem>, probes: nat, k: nat, env: Env)
    requires k <= |items|
    ensures Run(items, probes, k, env).Success? ==>
      forall i :: 0 <= i < k && items[i].externalUrl.None? ==>
        env.uid(items[i].id) in Ids(Run(items, probes, k, env).value.accepted)
  {
    if k > 0 {
      RunCoversServedItems(items, probes, k - 1, env);
      var prev := Run(items, probes, k - 1, env);
      if prev.Success? && Run(items, probes, k, env).Success? {
        var st := prev.value;
        var st' := Run(items, probes, k, env).value;
        assert st' == Step(st, items, k - 1, probes, env).value;
        StepEffect(st, items, k - 1, probes, env);
        var item := items[k - 1];
        if item.externalUrl.None? {
          var lc := Lc(item, env);
          var i := FirstFree(st.index, lc, item.number, 0, probes).value;
          var chapter := MakeChapter(st.index, item, Candidate(lc, i).value, env);
          if chapter.id !in Ids(st.accepted) {
            assert st'.accepted == st.accepted + [chapter];
          }
        }
        if st'.accepted != st.accepted {
          IdsSnoc(st.accepted, st'.accepted[|st.accepted|]);
        }
      }
    }
  }

  /** Nothing served is silently dropped except as a repeated id. */
  lemma ResolvedCoversServedItems(items: seq<RawItem>, env: Env)
    ensures Resolve(items, env).Success? ==>
      forall i :: 0 <= i < |items| && items[i].externalUrl.None? ==> env.uid(items[i].id) in Ids(Resolve(items, env).value)
  {
    RunCoversServedItems(items, |items|, |items|, env);
  }

  /** An input made only of externally hosted chapters yields no chapters. */
  lemma {:induction false} AllExternalYieldsNothing(items: seq<RawItem>, probes: nat, k: nat, env: Env)
    requires k <= |items|
    requires forall i :: 0 <= i < |items| ==> items[i].externalUrl.Some?
    ensures Run(items, probes, k, env) == Success(State(map[], [], []))
  {
    if k > 0 {
      AllExternalYieldsNothing(items, probes, k - 1, env);
    }
  }

  // ---------------------------------------------------------------------------------------------
  // When the branch probe finds a free branch.

  lemma CandidateTextInjective(lc: Option<string>, i: nat, j: nat)
    ensures CandidateText(lc, i) == CandidateText(lc, j) ==> i == j
  {
    var name := Label(lc);
    if i != 0 && j != 0 {
      var ti, tj := Text.NatText(i), Text.NatText(j);
      assert name + " (" + ti + ")" == CandidateText(lc, i);
      assert name + " (" + tj + ")" == CandidateText(lc, j);
      if CandidateText(lc, i) == CandidateText(lc, j) {
        assert |ti| == |tj|;
        assert ti == CandidateText(lc, i)[|name| + 2..|name| + 2 + |ti|];
        assert tj == CandidateText(lc, j)[|name| + 2..|name| + 2 + |tj|];
        Text.NatTextInjective(i, j);
      }
    } else if i != 0 || j != 0 {
      assert |CandidateText(lc, i)| != |CandidateText(lc, j)|;
    }
  }

  /** The texts of candidates `lo` to `n - 1`. */
  function ProbeTexts(lc: Option<string>, lo: nat, n: nat): set<string> {
    set i | lo <= i < n :: CandidateText(lc, i)
  }

  lemma {:induction false} ProbeTextsCount(lc: Option<string>, lo: nat, n: nat)
    requires lo <= n
    ensures |ProbeTexts(lc, lo, n)| == n - lo
    decreases n
  {
    if n == lo {
      assert ProbeTexts(lc, lo, n) == {};
    } else {
      ProbeTextsCount(lc, lo, n - 1);
      var prev, next := ProbeTexts(lc, lo, n - 1), CandidateText(lc, n - 1);
      forall i | lo <= i < n - 1
        ensures CandidateText(lc, i) != next
      {
        CandidateTextInjective(lc, i, n - 1);
      }
      assert next !in prev;
      assert ProbeTexts(lc, lo, n) == prev + {next};
    }
  }

  /** When no candidate below `probes` is free, every non-null candidate already holds a chapter at
    * `number`: at least `probes` branches, one fewer when the display name is null. */
  lemma NoFreeBranchMeansManyHolders(index: Index, lc: Option<string>, number: real, probes: nat)
    ensures FirstFree(index, lc, number, 0, probes).None? ==>
      |Holders(index, number)| >= probes - (if lc.None? then 1 else 0)
  {
    if FirstFree(index, lc, number, 0, probes).Some? {
      return;
    }
    FirstFreeIsFirstUsable(index, lc, number, 0, probes);
    var lo := if lc.None? && probes > 0 then 1 else 0;
    forall t | t in ProbeTexts(lc, lo, probes) ensures t in Holders(index, number) {
      var i :| lo <= i < probes && t == CandidateText(lc, i);
      assert !Usable(index, lc, number, i);
    }
    ProbeTextsCount(lc, lo, probes);
    SubsetCard(ProbeTexts(lc, lo, probes), Holders(index, number));
  }

  /** The step on item `k` succeeds when there are more probes than chapters accepted so far
    * (one more still when the item has no language). */
  lemma StepSucceeds(st: State, items: seq<RawItem>, k: nat, probes: nat, env: Env)
    requires k < |items| && WellFormed(items, k, st)
    requires probes > k + (if items[k].language.None? then 1 else 0)
    ensures Step(st, items, k, probes, env).Success?
  {
    var item := items[k];
    if item.externalUrl.None? {
      var lc := Lc(item, env);
      NoFreeBranchMeansManyHolders(st.index, lc, item.number, probes);
      assert |Holders(st.index, item.number)| <= |st.accepted| <= k;
    }
  }

  lemma {:induction false} RunSucceeds(items: seq<RawItem>, probes: nat, k: nat, env: Env)
    requires k <= |items|
    requires forall i :: 0 <= i < k ==> probes > i + (if items[i].language.None? then 1 else 0)
    ensures Run(items, probes, k, env).Success?
  {
    if k > 0 {
      RunSucceeds(items, probes, k - 1, env);
      RunWellFormed(items, probes, k - 1, env);
      StepSucceeds(Run(items, probes, k - 1, env).value, items, k - 1, probes, env);
    }
  }

  /** As written, the pass cannot fail when every item names its language: `list.size` candidates
    * always include a free one. */
  lemma ResolveSucceedsWhenLanguagesPresent(items: seq<RawItem>, env: Env)
    requires forall i :: 0 <= i < |items| ==> items[i].language.Some?
    ensures Resolve(items, env).Success?
  {
    RunSucceeds(items, |items|, |items|, env);
  }

  /** As written, one item without a language is enough to exhaust the candidates: candidate 0 is
    * null and there are no others. */
  lemma SingleItemWithoutLanguageFails(env: Env)
    ensures var item := RawItem("c1", 1.0, None, None, None, "2022-01-02T00:27:11+00:00", None);
      Resolve([item], env) == Failure(NoFreeBranch("c1"))
  {
    var item := RawItem("c1", 1.0, None, None, None, "2022-01-02T00:27:11+00:00", None);
    assert !Usable(map[], None, 1.0, 0);
    assert FirstFree(map[], None, 1.0, 0, 1).None?;
    assert Run([item], 1, 1, env) == Step(State(map[], [], []), [item], 0, 1, env);
  }

  /** Probing one more candidate than there are items always finds a free branch. */
  function ResolveWithSpareProbe(items: seq<RawItem>, env: Env): (r: seq<Chapter>)
    ensures forall j1, j2 :: 0 <= j1 < j2 < |r| ==> r[j1].id != r[j2].id
    ensures forall i :: 0 <= i < |items| && items[i].externalUrl.None? ==> env.uid(items[i].id) in Ids(r)
  {
    RunSucceeds(items, |items| + 1, |items|, env);
    RunWellFormed(items, |items| + 1, |items|, env);
    RunCoversServedItems(items, |items| + 1, |items|, env);
    Run(items, |items| + 1, |items|, env).value.accepted
  }

  lemma {:induction false} FirstFreeWider(index: Index, lc: Option<string>, number: real, i: nat, p: nat, q: nat)
    requires p <= q
    requires FirstFree(index, lc, number, i, p).Some?
    ensures FirstFree(index, lc, number, i, q) == FirstFree(index, lc, number, i, p)
    decreases p - i
  {
    if !Usable(index, lc, number, i) {
      FirstFreeWider(index, lc, number, i + 1, p, q);
    }
  }

  lemma {:induction false} RunWider(items: seq<RawItem>, p: nat, q: nat, k: nat, env: Env)
    requires k <= |items| && p <= q
    requires Run(items, p, k, env).Success?
    ensures Run(items, q, k, env) == Run(items, p, k, env)
  {
    if k > 0 {
      RunWider(items, p, q, k - 1, env);
      var item := items[k - 1];
      if item.externalUrl.None? {
        FirstFreeWider(Run(items, p, k - 1, env).value.index, Lc(item, env), item.number, 0, p, q);
      }
    }
  }

  /** The spare probe changes nothing where the pass as written succeeds. */
  lemma SpareProbeAgrees(items: seq<RawItem>, env: Env)
    requires Resolve(items, env).Success?
    ensures ResolveWithSpareProbe(items, env) == Resolve(items, env).value
  {
    RunWider(items, |items|, |items| + 1, |items|, env);
  }

  // ---------------------------------------------------------------------------------------------
  // Two items of one language: the collision rule and the number it resolves.

  /** An item served by the site, in language `tag`, without title or group. */
  function Served(id: string, number: real, tag: string): RawItem {
    RawItem(id, number, Some(tag), None, None, "2022-01-02T00:27:11+00:00", None)
  }

  /** Two served items of the same language with different ids: the second stays on the language's
    * branch unless the first already holds its declared number, in which case it moves to "L (1)". */
  lemma TwoItemsOfOneLanguage(x: RawItem, y: RawItem, env: Env)
    requires x.externalUrl.None? && y.externalUrl.None? && x.language.Some? && y.language == x.language
    requires env.uid(x.id) != env.uid(y.id)
    ensures var name := env.displayName(x.language.value);
      var first := MakeChapter(map[], x, name, env);
      var index := Insert(map[], name, x.number, first);
      var branch := if y.number == x.number then name + " (1)" else name;
      Resolve([x, y], env) == Success([first, MakeChapter(index, y, branch, env)])
  {
    var items := [x, y];
    var name := env.displayName(x.language.value);
    var lc := Some(name);
    assert Usable(map[], lc, x.number, 0);
    assert FirstFree(map[], lc, x.number, 0, 2) == Some(0);
    var first := MakeChapter(map[], x, name, env);
    assert Ids([]) == {};
    assert Lc(items[0], env) == lc && Candidate(lc, 0) == Some(name);
    var none: seq<Chapter>, start: seq<nat> := [], [];
    assert none + [first] == [first] && start + [0] == [0];
    var st1 := State(Insert(map[], name, x.number, first), [first], [0]);
    assert Step(State(map[], [], []), items, 0, 2, env) == Success(st1);
    assert Run(items, 2, 1, env) == Success(st1);
    assert Ids([first]) == {env.uid(x.id)};
    assert CandidateText(lc, 1) == name + " (1)";
    assert name + " (1)" != name by {
      assert |name + " (1)"| != |name|;
    }
    if y.number == x.number {
      assert !Usable(st1.index, lc, y.number, 0);
      assert Usable(st1.index, lc, y.number, 1);
      assert FirstFree(st1.index, lc, y.number, 0, 2) == Some(1);
    } else {
      assert Usable(st1.index, lc, y.number, 0);
      assert FirstFree(st1.index, lc, y.number, 0, 2) == Some(0);
    }
    var branch := if y.number == x.number then name + " (1)" else name;
    var second := MakeChapter(st1.index, y, branch, env);
    assert Lc(items[1], env) == lc;
    assert [first] + [second] == [first, second];
    assert Step(st1, items, 1, 2, env).value.accepted == [first, second];
  }

  /** Two English items with the same declared number 5 land on "English" and "English (1)". */
  lemma SameNumberMovesToNumberedBranch(env: Env)
    requires env.displayName("en") == "English" && env.uid("a") != env.uid("b")
    ensures var r := Resolve([Served("a", 5.0, "en"), Served("b", 5.0, "en")], env);
      r.Success? && |r.value| == 2 &&
      r.value[0].branch == "English" && r.value[0].number == 5 &&
      r.value[1].branch == "English (1)" && r.value[1].number == 5
  {
    TwoItemsOfOneLanguage(Served("a", 5.0, "en"), Served("b", 5.0, "en"), env);
  }

  /** Two English items without a declared number also split into "English" and "English (1)", and
    * both resolve to 0: each is the first chapter of a branch the index does not have yet. */
  lemma UnnumberedItemsSpreadOverBranches(env: Env)
    requires env.displayName("en") == "English" && env.uid("a") != env.uid("b")
    ensures var r := Resolve([Served("a", 0.0, "en"), Served("b", 0.0, "en")], env);
      r.Success? && |r.value| == 2 &&
      r.value[0].branch == "English" && r.value[0].number == 0 &&
      r.value[1].branch == "English (1)" && r.value[1].number == 0
  {
    TwoItemsOfOneLanguage(Served("a", 0.0, "en"), Served("b", 0.0, "en"), env);
  }

  /** An unnumbered item after chapter 1 of its branch is numbered 2: the branch's size plus one. */
  lemma UnnumberedItemFollowsBranchSize(env: Env)
    requires env.displayName("en") == "English" && env.uid("a") != env.uid("b")
    ensures var r := Resolve([Served("a", 1.0, "en"), Served("b", 0.0, "en")], env);
      r.Success? && |r.value| == 2 &&
      r.value[0].branch == "English" && r.value[0].number == 1 &&
      r.value[1].branch == "English" && r.value[1].number == 2
  {
    TwoItemsOfOneLanguage(Served("a", 1.0, "en"), Served("b", 0.0, "en"), env);
  }

  /** Declared numbers 1.2 and 1.5 share a branch and both resolve to 1: resolved numbers may repeat
    * within a branch; only the declared numbers are kept apart. */
  lemma ResolvedNumbersMayRepeat(env: Env)
    requires env.displayName("en") == "English" && env.uid("a") != env.uid("b")
    ensures var r := Resolve([Served("a", 1.2, "en"), Served("b", 1.5, "en")], env);
      r.Success? && |r.value| == 2 &&
      r.value[0].branch == r.value[1].branch == "English" &&
      r.value[0].number == r.value[1].number == 1
  {
    TwoItemsOfOneLanguage(Served("a", 1.2, "en"), Served("b", 1.5, "en"), env);
  }

  /** Without a title, an integral number is printed without its ".0". */
  lemma ChapterNameOfIntegralNumber(title: Option<string>, n: int, numberText: real -> string)
    requires title.None? || title == Some("")
    requires numberText(n as real) == Text.IntText(n) + ".0"
    ensures ChapterName(title, n as real, numberText) == "Chapter #" + Text.IntText(n)
  {
    Text.RemoveAppendedSuffix(Text.IntText(n), ".0");
  }
}
