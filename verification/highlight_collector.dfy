/** getHighlightsData of content-script.js: open the annotations view and
    turn each annotation entry into a highlight {page, text}, where the page
    comes from the entry's title through the regular expression
    Page\s+(\d+). The page is not modelled; what the collector observes of
    it is: whether the Annotations button exists, and the annotation entries
    with their title and text elements. */
module HighlightCollector {
  import opened Wrappers
  import opened Text
  import opened PositionReader

  // ---------------------------------------------------------------------
  // The page reference Page\s+(\d+) in an annotation title.

  /** The pattern matches at index i, its group occupying [b, c): the word
      "Page", white space, and the greedy run of digits holding n. */
  ghost predicate PageRefMatch(s: string, i: nat, b: nat, c: nat, n: nat) {
    && WordAt(s, i, Page)
    && i + 4 < b < c <= |s|
    && AllSpace(s, i + 4, b)
    && AllDigits(s[b..c])
    && (c == |s| || !IsDigit(s[c]))
    && n == DecimalValue(s[b..c])
  }

  /** No match of the pattern starts before index i. */
  ghost predicate NoPageRefBefore(s: string, i: nat) {
    forall j, b, c, n :: 0 <= j < i ==> !PageRefMatch(s, j, b, c, n)
  }

  /** The pattern tried at index i: the number after "Page" and white space. */
  function PageRefAt(s: string, i: nat): Option<nat> {
    if WordAt(s, i, Page) && i + 4 < GroupStart(s, i + 4) < GroupEnd(s, i + 4) then
      GroupIsDigits(s, i + 4);
      Some(DecimalValue(s[GroupStart(s, i + 4)..GroupEnd(s, i + 4)]))
    else None
  }

  /** The scanner's verdict at every index of s. */
  function PageRefMatches(s: string): (ms: seq<Option<nat>>)
    ensures |ms| == |s|
  {
    seq(|s|, (k: nat) => PageRefAt(s, k))
  }

  /** The number in the leftmost match, as titleText.match(...)[1] read by
      parseInt; None when the title has no match. */
  function FindPageRef(s: string): Option<nat> {
    FirstSome(PageRefMatches(s))
  }

  /** What the scanner finds, the pattern describes. */
  lemma PageRefAtSound(s: string, i: nat)
    requires PageRefAt(s, i).Some?
    ensures i + 4 <= |s|
    ensures PageRefMatch(s, i, GroupStart(s, i + 4), GroupEnd(s, i + 4), PageRefAt(s, i).value)
  {
    SpaceRunMaximal(s, i + 4);
    DigitRunMaximal(s, GroupStart(s, i + 4));
    GroupIsDigits(s, i + 4);
  }

  /** Every match the pattern describes is found by the scanner. */
  lemma PageRefAtComplete(s: string, i: nat, b: nat, c: nat, n: nat)
    requires PageRefMatch(s, i, b, c, n)
    ensures PageRefAt(s, i) == Some(n)
  {
    assert IsDigit(s[b]) by { assert s[b..c][0] == s[b]; }
    assert AllDigit(s, b, c) by {
      assert forall k :: b <= k < c ==> s[k] == s[b..c][k - b];
    }
    SpaceRunIs(s, i + 4, b);
    DigitRunIs(s, b, c);
  }

  lemma NoScannerPageRefBefore(s: string, i: nat)
    requires i <= |s|
    requires forall j :: 0 <= j < i ==> PageRefMatches(s)[j].None?
    ensures NoPageRefBefore(s, i)
  {
    forall j, b, c, n | 0 <= j < i
      ensures !PageRefMatch(s, j, b, c, n)
    {
      assert PageRefMatches(s)[j] == PageRefAt(s, j);
      if PageRefMatch(s, j, b, c, n) {
        PageRefAtComplete(s, j, b, c, n);
        assert false;
      }
    }
  }

  /** FindPageRef is the leftmost-first search: it returns the number of
      the match that starts first, and None exactly when there is none. */
  lemma FindPageRefLeftmost(s: string)
    ensures FindPageRef(s).Some? ==>
      exists i, b, c :: PageRefMatch(s, i, b, c, FindPageRef(s).value) && NoPageRefBefore(s, i)
    ensures FindPageRef(s).None? <==> NoPageRefBefore(s, |s|)
  {
    var ms := PageRefMatches(s);
    FirstSomeSpec(ms);
    if FindPageRef(s).Some? {
      var i :| 0 <= i < |s| && ms[i] == FindPageRef(s) && forall j :: 0 <= j < i ==> ms[j].None?;
      NoScannerPageRefBefore(s, i);
      PageRefAtSound(s, i);
      assert !NoPageRefBefore(s, |s|);
    } else {
      NoScannerPageRefBefore(s, |s|);
    }
  }

  /** No match can start before index i when s[..i] holds no 'P'. */
  lemma NoCapitalPBefore(s: string, i: nat)
    requires i <= |s|
    requires forall k :: 0 <= k < i ==> s[k] != 'P'
    ensures forall j :: 0 <= j < i ==> PageRefMatches(s)[j].None?
  {
  }

  /** "Page n" written in a title is read back as n, whatever precedes it
      (as long as it holds no 'P') and whatever follows it (as long as it
      does not continue the numeral). */
  lemma PageRefRoundTrip(prefix: string, n: nat, suffix: string)
    requires forall k :: 0 <= k < |prefix| ==> prefix[k] != 'P'
    requires suffix == [] || !IsDigit(suffix[0])
    ensures FindPageRef(prefix + "Page " + Decimal(n) + suffix) == Some(n)
  {
    var d := Decimal(n);
    var s := prefix + "Page " + d + suffix;
    var i := |prefix|;
    var b := i + 5;
    var c := b + |d|;
    assert s[i] == 'P' && s[i + 1] == 'a' && s[i + 2] == 'g' && s[i + 3] == 'e' && s[i + 4] == ' ';
    assert s[b..c] == d;
    assert c == |s| || s[c] == suffix[0];
    DecimalRoundTrip(n);
    assert PageRefMatch(s, i, b, c, n);
    PageRefAtComplete(s, i, b, c, n);
    NoCapitalPBefore(s, i);
    FirstSomeAt(PageRefMatches(s), i);
  }

  /** A title without a capital P, such as "Location 345", has no page. */
  lemma NoCapitalPNoPageRef(s: string)
    requires forall k :: 0 <= k < |s| ==> s[k] != 'P'
    ensures FindPageRef(s) == None
  {
    NoCapitalPBefore(s, |s|);
    FirstSomeSpec(PageRefMatches(s));
  }

  // ---------------------------------------------------------------------
  // The collector.

  /** One ".notebook-editable-item" entry: the text of its
      ".grouped-annotation_title" element and of its
      ".notebook-editable-item-black" element, None where one is missing. */
  datatype Annotation = Annotation(titleText: Option<string>, bodyText: Option<string>)

  /** What openAnnotations and the collector find: the Annotations button,
      and the entries present after it was clicked, in document order. */
  datatype AnnotationsView = AnnotationsView(buttonFound: bool, entries: seq<Annotation>)

  datatype Highlight = Highlight(page: nat, text: string)

  /** openAnnotations succeeds when the button exists and at least one
      entry is present after the click. */
  predicate AnnotationsOpened(view: AnnotationsView) {
    view.buttonFound && |view.entries| > 0
  }

  /** The highlight an entry yields: both elements must exist and the
      trimmed title must hold a page reference; the text is trimmed. */
  function Extract(entry: Annotation): Option<Highlight> {
    if entry.titleText.Some? && entry.bodyText.Some? then
      match FindPageRef(Trim(entry.titleText.value))
      case Some(n) => Some(Highlight(n, Trim(entry.bodyText.value)))
      case None => None
    else None
  }

  /** The highlights of the entries, in entry order. */
  function Collected(entries: seq<Annotation>): seq<Highlight> {
    if entries == [] then []
    else
      var last := Extract(entries[|entries| - 1]);
      Collected(entries[..|entries| - 1]) + (if last.Some? then [last.value] else [])
  }

  /** What getHighlightsData resolves to. */
  function HighlightsOf(view: AnnotationsView): seq<Highlight> {
    if AnnotationsOpened(view) then Collected(view.entries) else []
  }

  lemma CollectedStep(entries: seq<Annotation>, n: nat)
    requires n < |entries|
    ensures Collected(entries[..n + 1])
         == Collected(entries[..n]) + (if Extract(entries[n]).Some? then [Extract(entries[n]).value] else [])
  {
    assert entries[..n + 1][..n] == entries[..n];
  }

  /** getHighlightsData. The test-mode switch, the click and the delay are
      not modelled. */
  method GetHighlightsData(view: AnnotationsView) returns (highlights: seq<Highlight>)
    ensures highlights == HighlightsOf(view)
  {
    if !view.buttonFound || |view.entries| == 0 {
      return [];
    }
    highlights := [];
    var entries := view.entries;
    for k := 0 to |entries|
      invariant highlights == Collected(entries[..k])
    {
      var entry := entries[k];
      CollectedStep(entries, k);
      if entry.titleText.Some? && entry.bodyText.Some? {
        var titleText := Trim(entry.titleText.value);
        var page := FindPageRef(titleText);
        if page.Some? {
          highlights := highlights + [Highlight(page.value, Trim(entry.bodyText.value))];
        }
      }
    }
    assert entries[..|entries|] == entries;
  }

  // ---------------------------------------------------------------------
  // Properties of the collector.

  /** idx lists, in increasing order, exactly the entries that yield a
      highlight, and hs[k] is what entry idx[k] yields. */
  ghost predicate KeptEntries(entries: seq<Annotation>, hs: seq<Highlight>, idx: seq<nat>) {
    && |idx| == |hs|
    && (forall k :: 0 <= k < |idx| ==> idx[k] < |entries| && Extract(entries[idx[k]]) == Some(hs[k]))
    && (forall k, l :: 0 <= k < l < |idx| ==> idx[k] < idx[l])
    && (forall j :: 0 <= j < |entries| && Extract(entries[j]).Some? ==> j in idx)
  }

  /** An entry that yields nothing leaves the index list as it was. */
  lemma ExtendKeptSkip(entries: seq<Annotation>, hs: seq<Highlight>, idx: seq<nat>)
    requires entries != [] && KeptEntries(entries[..|entries| - 1], hs, idx)
    requires Extract(entries[|entries| - 1]).None?
    ensures KeptEntries(entries, hs, idx)
  {
    var n := |entries| - 1;
    assert forall j :: 0 <= j < n ==> entries[..n][j] == entries[j];
  }

  /** An entry that yields a highlight is appended to the index list. */
  lemma ExtendKeptKeep(entries: seq<Annotation>, hs: seq<Highlight>, idx: seq<nat>)
    requires entries != [] && KeptEntries(entries[..|entries| - 1], hs, idx)
    requires Extract(entries[|entries| - 1]).Some?
    ensures KeptEntries(entries, hs + [Extract(entries[|entries| - 1]).value], idx + [|entries| - 1])
  {
    var n := |entries| - 1;
    var idx' := idx + [n];
    var hs' := hs + [Extract(entries[n]).value];
    forall k | 0 <= k < |idx'|
      ensures idx'[k] < |entries| && Extract(entries[idx'[k]]) == Some(hs'[k])
    {
      if k < |idx| {
        assert idx'[k] == idx[k] && hs'[k] == hs[k];
        assert entries[..n][idx[k]] == entries[idx[k]];
      }
    }
    forall k, l | 0 <= k < l < |idx'|
      ensures idx'[k] < idx'[l]
    {
      if l < |idx| {
        assert idx'[k] == idx[k] && idx'[l] == idx[l];
      } else {
        assert idx'[k] == idx[k] < n;
      }
    }
    forall j | 0 <= j < |entries| && Extract(entries[j]).Some?
      ensures j in idx'
    {
      if j < n {
        assert entries[..n][j] == entries[j];
        assert j in idx;
      } else {
        assert idx'[|idx|] == j;
      }
    }
  }

  /** The collector keeps exactly the entries that have both elements and
      a page reference in their title, in entry order, each once. */
  lemma {:induction false} CollectedKeepsEntries(entries: seq<Annotation>)
    ensures exists idx: seq<nat> :: KeptEntries(entries, Collected(entries), idx)
  {
    if entries == [] {
      assert KeptEntries(entries, Collected(entries), []);
    } else {
      var n := |entries| - 1;
      CollectedKeepsEntries(entries[..n]);
      var idx: seq<nat> :| KeptEntries(entries[..n], Collected(entries[..n]), idx);
      var idx' := ExtendKept(entries, idx);
    }
  }

  /** One more entry: the index list grows by that entry exactly when it
      yields a highlight. */
  lemma ExtendKept(entries: seq<Annotation>, idx: seq<nat>) returns (idx': seq<nat>)
    requires entries != []
    requires KeptEntries(entries[..|entries| - 1], Collected(entries[..|entries| - 1]), idx)
    ensures KeptEntries(entries, Collected(entries), idx')
  {
    var n := |entries| - 1;
    var hs := Collected(entries[..n]);
    if Extract(entries[n]).Some? {
      ExtendKeptKeep(entries, hs, idx);
      idx' := idx + [n];
    } else {
      ExtendKeptSkip(entries, hs, idx);
      idx' := idx;
    }
  }

  /** The page of a kept entry is the number of the leftmost "Page n" in
      its trimmed title. */
  lemma ExtractedPage(entry: Annotation)
    requires Extract(entry).Some?
    ensures entry.titleText.Some? && entry.bodyText.Some?
    ensures var t := Trim(entry.titleText.value);
      exists i, b, c :: PageRefMatch(t, i, b, c, Extract(entry).value.page) && NoPageRefBefore(t, i)
  {
    FindPageRefLeftmost(Trim(entry.titleText.value));
  }

  /** An entry whose title is "Page n" (around it only white space) yields
      page n with its trimmed text. */
  lemma ExtractPageTitle(n: nat, body: string)
    ensures Extract(Annotation(Some("Page " + Decimal(n)), Some(body))) == Some(Highlight(n, Trim(body)))
  {
    var t := "Page " + Decimal(n);
    assert t[0] == 'P';
    assert t[|t| - 1] == Decimal(n)[|Decimal(n)| - 1];
    TrimmedIsTrim(t);
    PageRefRoundTrip([], n, []);
    assert [] + "Page " + Decimal(n) + [] == t;
  }

  /** An entry missing its title or its text element yields nothing, and so
      does one whose title has only a location. */
  lemma ExtractDropsEntries(title: Option<string>, body: Option<string>)
    ensures Extract(Annotation(None, body)) == None
    ensures Extract(Annotation(title, None)) == None
    ensures Extract(Annotation(Some("Location 345"), body)) == None
  {
    assert Trim("Location 345") == "Location 345" by {
      TrimmedIsTrim("Location 345");
    }
    NoCapitalPNoPageRef("Location 345");
  }
}
