/** getChapterData of content-script.js: open the table of contents, then for
    each entry click it up to three times until the reader reports a position
    whose number differs from the last position recorded, and record that
    position as the entry's start. The page itself is not modelled; what the
    walker observes of it is: whether the page container and the TOC button
    exist, the TOC entries, each entry's title element, and for every click
    the texts the position reader then finds. */
module ChapterWalker {
  import opened Wrappers
  import opened Text
  import opened PositionReader

  /** Title recorded for an entry that has no ".chapter-title" element. */
  const UnknownTitle: string := "Unknown Chapter"

  /** Clicks tried per entry before it is given up. */
  const MaxAttempts: nat := 3

  /** A recorded chapter start; `kind` gives the `type` field ("page" or
      "location", see TypeName). */
  datatype Chapter = Chapter(title: string, page: nat, kind: Kind)

  /** One "ion-item.toc-item" entry: the text of its ".chapter-title" element
      (None when it has none), and, for the n-th click on it, the candidate
      texts getCurrentPosition then reads (see PositionReader.Reading). A
      click beyond the listed ones finds no position text at all. */
  datatype TocItem = TocItem(titleText: Option<string>, attempts: seq<seq<Option<string>>>)

  /** What the walker finds on the page: the ".pagination-container"
      element, the TOC button in the shadow DOM, and the TOC entries in
      document order. */
  datatype TocView = TocView(containerFound: bool, tocButtonFound: bool, items: seq<TocItem>)

  /** The arguments of one progressCallback(current, total, title) call. */
  datatype ProgressEvent = ProgressEvent(current: nat, total: nat, title: string)

  /** The title of an entry: its title element's text, trimmed. */
  function ChapterTitle(item: TocItem): string {
    if item.titleText.Some? then Trim(item.titleText.value) else UnknownTitle
  }

  /** The texts the position reader sees after click number `attempt`. */
  function AttemptCandidates(item: TocItem, attempt: nat): seq<Option<string>> {
    if attempt < |item.attempts| then item.attempts[attempt] else []
  }

  /** The position read after click number `attempt`. */
  function Outcome(item: TocItem, attempt: nat): Option<Position> {
    ReadPosition(AttemptCandidates(item, attempt))
  }

  /** A reading is accepted when there is one and either nothing has been
      recorded yet or its number differs from the last recorded number. Only
      numbers are compared: the kind is not. */
  predicate Accepts(previous: Option<Position>, position: Option<Position>) {
    position.Some? && (previous.None? || previous.value.number != position.value.number)
  }

  /** The readings of the first three clicks on an entry. */
  function Outcomes(item: TocItem): (os: seq<Option<Position>>)
    ensures |os| == MaxAttempts
  {
    seq(MaxAttempts, (k: nat) => Outcome(item, k))
  }

  /** Each reading if it is accepted, None otherwise. */
  function AcceptedOutcomes(outcomes: seq<Option<Position>>, previous: Option<Position>): (rs: seq<Option<Position>>)
    ensures |rs| == |outcomes|
  {
    seq(|outcomes|, (k: nat) requires k < |outcomes| =>
      if Accepts(previous, outcomes[k]) then outcomes[k] else None)
  }

  /** The first accepted reading of a series of clicks. */
  function FirstAccepted(outcomes: seq<Option<Position>>, previous: Option<Position>): Option<Position> {
    FirstSome(AcceptedOutcomes(outcomes, previous))
  }

  /** The position an entry is recorded at: the first accepted reading
      among the first three clicks, or None when the entry is given up. */
  function Navigate(item: TocItem, previous: Option<Position>): Option<Position> {
    FirstAccepted(Outcomes(item), previous)
  }

  /** The walker's state between entries: what it has recorded and the last
      accepted position. */
  datatype WalkState = WalkState(chapters: seq<Chapter>, previous: Option<Position>)

  /** One entry of the walk. */
  function Visit(st: WalkState, item: TocItem): WalkState {
    match Navigate(item, st.previous)
    case Some(pos) => WalkState(st.chapters + [Chapter(ChapterTitle(item), pos.number, pos.kind)], Some(pos))
    case None => st
  }

  /** The walk over entries in document order, from the initial state. */
  function Walk(items: seq<TocItem>): WalkState {
    if items == [] then WalkState([], None)
    else Visit(Walk(items[..|items| - 1]), items[|items| - 1])
  }

  /** The TOC is usable: container, button and at least one entry exist. */
  predicate TocOpened(view: TocView) {
    view.containerFound && view.tocButtonFound && |view.items| > 0
  }

  /** What getChapterData resolves to: nothing when the TOC cannot be used,
      otherwise the chapters the walk records. */
  function ChaptersOf(view: TocView): seq<Chapter> {
    if TocOpened(view) then Walk(view.items).chapters else []
  }

  /** The progress calls: one per entry, before it is clicked, numbered from
      1, when a callback is given and the TOC could be used. */
  function ProgressOf(view: TocView, reportProgress: bool): (events: seq<ProgressEvent>)
    ensures |events| == if reportProgress && TocOpened(view) then |view.items| else 0
  {
    if reportProgress && TocOpened(view) then ProgressEvents(view.items) else []
  }

  /** The k-th call reports entry k + 1 of |items|, with its title. */
  function ProgressEvents(items: seq<TocItem>): (events: seq<ProgressEvent>)
    ensures |events| == |items|
  {
    seq(|items|, (k: nat) requires k < |items| => ProgressEvent(k + 1, |items|, ChapterTitle(items[k])))
  }

  lemma ProgressStep(items: seq<TocItem>, n: nat)
    requires n < |items|
    ensures ProgressEvents(items)[..n + 1]
         == ProgressEvents(items)[..n] + [ProgressEvent(n + 1, |items|, ChapterTitle(items[n]))]
  {
  }

  /** The walk over a longer prefix of the entries visits one more entry. */
  lemma WalkStep(items: seq<TocItem>, n: nat)
    requires n < |items|
    ensures Walk(items[..n + 1]) == Visit(Walk(items[..n]), items[n])
  {
    assert items[..n + 1][..n] == items[..n];
  }

  /** The retry loop for one entry: click, read the position, and stop at
      the first accepted reading or after the third click. */
  method NavigateEntry(item: TocItem, previous: Option<Position>) returns (accepted: Option<Position>)
    ensures accepted == Navigate(item, previous)
  {
    accepted := None;
    var attempt := 0;
    while attempt < MaxAttempts
      invariant attempt <= MaxAttempts
      invariant forall j :: 0 <= j < attempt ==> !Accepts(previous, Outcomes(item)[j])
    {
      var position := GetCurrentPosition(AttemptCandidates(item, attempt));
      if position.Some? && (previous.None? || previous.value.number != position.value.number) {
        FirstAcceptedAt(Outcomes(item), previous, attempt);
        accepted := position;
        return;
      }
      attempt := attempt + 1;
    }
    FirstAcceptedNone(Outcomes(item), previous);
  }

  /** getChapterData. The test-mode switch, the clicks and the delays are
      not modelled; each click's outcome is read from the view. */
  method GetChapterData(view: TocView, reportProgress: bool)
    returns (chapters: seq<Chapter>, progress: seq<ProgressEvent>)
    ensures chapters == ChaptersOf(view)
    ensures progress == ProgressOf(view, reportProgress)
  {
    chapters := [];
    progress := [];
    if !view.containerFound || !view.tocButtonFound || |view.items| == 0 {
      return;
    }
    var items := view.items;
    var previous: Option<Position> := None;
    var index := 0;
    while index < |items|
      invariant index <= |items|
      invariant Walk(items[..index]) == WalkState(chapters, previous)
      invariant progress == if reportProgress then ProgressEvents(items)[..index] else []
    {
      var item := items[index];
      var title := ChapterTitle(item);
      if reportProgress {
        ProgressStep(items, index);
        progress := progress + [ProgressEvent(index + 1, |items|, title)];
      }
      var accepted := NavigateEntry(item, previous);
      WalkStep(items, index);
      if accepted.Some? {
        chapters := chapters + [Chapter(title, accepted.value.number, accepted.value.kind)];
        previous := accepted;
      }
      index := index + 1;
    }
    assert items[..index] == items;
    assert ProgressEvents(items)[..index] == ProgressEvents(items);
  }

  // ---------------------------------------------------------------------
  // Properties of the walk.

  /** The retry rule: of a series of clicks, the reading of the first one
      that is accepted is recorded. */
  lemma FirstAcceptedAt(outcomes: seq<Option<Position>>, previous: Option<Position>, k: nat)
    requires k < |outcomes|
    requires forall j :: 0 <= j < k ==> !Accepts(previous, outcomes[j])
    requires Accepts(previous, outcomes[k])
    ensures FirstAccepted(outcomes, previous) == outcomes[k]
  {
    FirstSomeAt(AcceptedOutcomes(outcomes, previous), k);
  }

  /** An entry is given up exactly when none of its clicks yields an
      accepted reading. */
  lemma FirstAcceptedNone(outcomes: seq<Option<Position>>, previous: Option<Position>)
    ensures FirstAccepted(outcomes, previous).None? <==>
      forall k :: 0 <= k < |outcomes| ==> !Accepts(previous, outcomes[k])
  {
    var rs := AcceptedOutcomes(outcomes, previous);
    FirstSomeSpec(rs);
    assert forall k :: 0 <= k < |outcomes| ==> (rs[k].None? <==> !Accepts(previous, outcomes[k]));
  }

  /** What is recorded is an accepted reading of one of the clicks, and no
      earlier click was accepted. */
  lemma FirstAcceptedIsAReading(outcomes: seq<Option<Position>>, previous: Option<Position>)
    requires FirstAccepted(outcomes, previous).Some?
    ensures exists k :: (0 <= k < |outcomes| && outcomes[k] == FirstAccepted(outcomes, previous)
                         && Accepts(previous, outcomes[k])
                         && forall j :: 0 <= j < k ==> !Accepts(previous, outcomes[j]))
  {
    var rs := AcceptedOutcomes(outcomes, previous);
    FirstSomeSpec(rs);
    var k :| 0 <= k < |rs| && rs[k] == FirstSome(rs) && (forall j :: 0 <= j < k ==> rs[j].None?);
    assert forall j :: 0 <= j < k ==> (rs[j].None? <==> !Accepts(previous, outcomes[j]));
  }

  /** What an entry is recorded at is an accepted reading of one of its
      first three clicks. */
  lemma NavigateReadsAClick(item: TocItem, previous: Option<Position>)
    requires Navigate(item, previous).Some?
    ensures exists k :: (0 <= k < MaxAttempts && Outcome(item, k) == Navigate(item, previous)
                         && Accepts(previous, Outcome(item, k)))
  {
    FirstAcceptedIsAReading(Outcomes(item), previous);
    var k :| 0 <= k < MaxAttempts && Outcomes(item)[k] == Navigate(item, previous)
             && Accepts(previous, Outcomes(item)[k]);
    assert Outcomes(item)[k] == Outcome(item, k);
  }

  /** Clicks after the third are never made: only the first three outcomes
      of an entry matter. */
  lemma NavigateIgnoresLaterClicks(title: Option<string>, attempts: seq<seq<Option<string>>>,
                                   previous: Option<Position>)
    requires |attempts| >= MaxAttempts
    ensures Navigate(TocItem(title, attempts), previous)
         == Navigate(TocItem(title, attempts[..MaxAttempts]), previous)
  {
    var a := Outcomes(TocItem(title, attempts));
    var b := Outcomes(TocItem(title, attempts[..MaxAttempts]));
    assert forall k :: 0 <= k < MaxAttempts ==> a[k] == b[k];
    assert a == b;
  }

  /** The last accepted position is the last recorded chapter's, and there
      is none before the first chapter is recorded. */
  lemma {:induction false} WalkPrevious(items: seq<TocItem>)
    ensures Walk(items).chapters == [] <==> Walk(items).previous.None?
    ensures Walk(items).chapters != [] ==>
      var last := Walk(items).chapters[|Walk(items).chapters| - 1];
      Walk(items).previous == Some(Position(last.kind, last.page))
  {
    if items != [] {
      WalkPrevious(items[..|items| - 1]);
    }
  }

  /** Each entry adds at most one chapter. */
  lemma {:induction false} ChaptersAtMostEntries(items: seq<TocItem>)
    ensures |Walk(items).chapters| <= |items|
  {
    if items != [] {
      ChaptersAtMostEntries(items[..|items| - 1]);
    }
  }

  /** Two consecutive recorded chapters never start at the same number: a
      reading equal to the last recorded number is never accepted. */
  lemma {:induction false} ConsecutiveChaptersDiffer(items: seq<TocItem>)
    ensures var cs := Walk(items).chapters;
      forall k :: 0 < k < |cs| ==> cs[k - 1].page != cs[k].page
  {
    if items != [] {
      var init := items[..|items| - 1];
      var item := items[|items| - 1];
      var st := Walk(init);
      ConsecutiveChaptersDiffer(init);
      var pos := Navigate(item, st.previous);
      if pos.Some? {
        WalkPrevious(init);
        NavigateReadsAClick(item, st.previous);
      }
    }
  }

  /** The chapter was recorded from the entry: it carries the entry's title
      and the reading of one of the entry's first three clicks. */
  predicate RecordedFrom(ch: Chapter, item: TocItem) {
    && ch.title == ChapterTitle(item)
    && exists k :: 0 <= k < MaxAttempts && Outcome(item, k) == Some(Position(ch.kind, ch.page))
  }

  /** idx maps each chapter of cs to the entry of items it was recorded
      from, in strictly increasing order. */
  ghost predicate IndexesEntries(cs: seq<Chapter>, items: seq<TocItem>, idx: seq<nat>) {
    && |idx| == |cs|
    && (forall k :: 0 <= k < |idx| ==> idx[k] < |items| && RecordedFrom(cs[k], items[idx[k]]))
    && (forall k, l :: 0 <= k < l < |idx| ==> idx[k] < idx[l])
  }

  /** An index map into the entries before the last one stays valid once
      the last entry is added, and extends by the last entry's index. */
  lemma ExtendIndex(cs: seq<Chapter>, items: seq<TocItem>, idx: seq<nat>)
    requires items != [] && IndexesEntries(cs, items[..|items| - 1], idx)
    ensures IndexesEntries(cs, items, idx)
    ensures forall ch :: RecordedFrom(ch, items[|items| - 1]) ==>
      IndexesEntries(cs + [ch], items, idx + [|items| - 1])
  {
    var n := |items| - 1;
    assert forall k :: 0 <= k < |idx| ==> items[..n][idx[k]] == items[idx[k]];
    forall ch | RecordedFrom(ch, items[n])
      ensures IndexesEntries(cs + [ch], items, idx + [n])
    {
      var idx' := idx + [n];
      var cs' := cs + [ch];
      assert forall k :: 0 <= k < |idx| ==> idx'[k] == idx[k] && cs'[k] == cs[k];
    }
  }

  /** Chapters follow the table of contents: the k-th chapter was recorded
      from entry idx[k], and the entries are visited in document order, so
      idx is strictly increasing. */
  lemma {:induction false} ChaptersFollowToc(items: seq<TocItem>)
    ensures exists idx: seq<nat> :: IndexesEntries(Walk(items).chapters, items, idx)
  {
    if items == [] {
      assert IndexesEntries(Walk(items).chapters, items, []);
    } else {
      var n := |items| - 1;
      var init := items[..n];
      var item := items[n];
      var st := Walk(init);
      ChaptersFollowToc(init);
      var idx: seq<nat> :| IndexesEntries(st.chapters, init, idx);
      ExtendIndex(st.chapters, items, idx);
      var pos := Navigate(item, st.previous);
      if pos.Some? {
        NavigateReadsAClick(item, st.previous);
        var ch := Chapter(ChapterTitle(item), pos.value.number, pos.value.kind);
        assert RecordedFrom(ch, item);
        assert IndexesEntries(Walk(items).chapters, items, idx + [n]);
      } else {
        assert IndexesEntries(Walk(items).chapters, items, idx);
      }
    }
  }

  // ---------------------------------------------------------------------
  // Examples of the retry rule, in terms of what each click reads.

  /** The page has not moved on after two clicks but has after the third:
      the third reading is recorded. */
  lemma ThirdClickAccepted(p: Position, q: Position)
    requires p.number != q.number
    ensures FirstAccepted([Some(p), Some(p), Some(q)], Some(p)) == Some(q)
  {
    FirstAcceptedAt([Some(p), Some(p), Some(q)], Some(p), 2);
  }

  /** Three clicks that leave the reader where it was give the entry up. */
  lemma UnmovedEntryGivenUp(p: Position)
    ensures FirstAccepted([Some(p), Some(p), Some(p)], Some(p)) == None
  {
    FirstAcceptedNone([Some(p), Some(p), Some(p)], Some(p));
  }

  /** A click that shows no position text does not count as moving on. */
  lemma MissingReadingRetried(p: Position, q: Position)
    requires p.number != q.number
    ensures FirstAccepted([None, Some(q), Some(p)], Some(p)) == Some(q)
  {
    FirstAcceptedAt([None, Some(q), Some(p)], Some(p), 1);
  }

  /** Only the number is compared: moving from page n to location n counts
      as not having moved. */
  lemma KindNotCompared(n: nat)
    ensures FirstAccepted([Some(Position(Location, n))], Some(Position(Page, n))) == None
  {
    FirstAcceptedNone([Some(Position(Location, n))], Some(Position(Page, n)));
  }

  /** Only consecutive chapters are kept apart: a later entry may be
      recorded at the same number as an earlier, non-adjacent one. */
  lemma NonAdjacentRepeat(a: TocItem, b: TocItem, c: TocItem, p: Position, q: Position)
    requires p.number != q.number
    requires Outcome(a, 0) == Some(p) && Outcome(b, 0) == Some(q) && Outcome(c, 0) == Some(p)
    ensures Walk([a, b, c]).chapters
         == [Chapter(ChapterTitle(a), p.number, p.kind), Chapter(ChapterTitle(b), q.number, q.kind),
             Chapter(ChapterTitle(c), p.number, p.kind)]
  {
    assert Outcomes(a)[0] == Some(p) && Outcomes(b)[0] == Some(q) && Outcomes(c)[0] == Some(p);
    FirstAcceptedAt(Outcomes(a), None, 0);
    FirstAcceptedAt(Outcomes(b), Some(p), 0);
    FirstAcceptedAt(Outcomes(c), Some(q), 0);
    var items := [a, b, c];
    assert items[..0] == [];
    WalkStep(items, 0);
    assert Walk(items[..1]) == WalkState([Chapter(ChapterTitle(a), p.number, p.kind)], Some(p));
    WalkStep(items, 1);
    assert Walk(items[..2]).previous == Some(q);
    WalkStep(items, 2);
    assert items[..3] == items;
  }

  /** An entry whose clicks show written progress text reads the positions
      written, so the examples above describe real reader states. */
  lemma ShownOutcome(title: Option<string>, ps: seq<Position>, total: nat, k: nat)
    requires k < |ps|
    ensures Outcome(TocItem(title, seq(|ps|, (j: nat) requires j < |ps| => [Some(FormatPosition(ps[j], total))])), k)
         == Some(ps[k])
  {
    ReadFormatted(ps[k], total);
  }
}
