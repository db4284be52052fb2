/** The position reader of content-script.js: the regular expression
    (Page|Location)\s+(\d+)\s+of\s+\d+ applied to the reader's progress text,
    and getCurrentPosition, which tries the candidate places for that text
    in priority order and returns the first reading that parses. */
module PositionReader {
  import opened Wrappers
  import opened Text

  datatype Kind = Page | Location

  /** A reading position: the matched kind word and the first number. */
  datatype Position = Position(kind: Kind, number: nat)

  /** The word of the first alternative group, as it appears in the text. */
  function KindWord(k: Kind): string {
    match k
    case Page => "Page"
    case Location => "Location"
  }

  /** The `type` field of a position and of a recorded chapter: the
      matched word, lower-cased. The model keeps the field as its Kind
      (Position.kind, Chapter.kind), which stands for this string. */
  function TypeName(k: Kind): string {
    match k
    case Page => "page"
    case Location => "location"
  }

  function AsciiLowerChar(c: char): char {
    if 'A' <= c <= 'Z' then (c as int + 32) as char else c
  }

  /** String.prototype.toLowerCase restricted to ASCII letters (the only
      letters the kind words contain). */
  function AsciiLower(s: string): (r: string)
    ensures |r| == |s|
  {
    seq(|s|, k requires 0 <= k < |s| => AsciiLowerChar(s[k]))
  }

  /** The type names are the kind words lower-cased. */
  lemma TypeNameIsLowerCase(k: Kind)
    ensures TypeName(k) == AsciiLower(KindWord(k))
  {
    var w := KindWord(k);
    assert forall j | 0 <= j < |w| :: AsciiLower(w)[j] == TypeName(k)[j];
  }

  /** Length of the kind word. */
  function WordLength(k: Kind): (n: nat)
    ensures n == |KindWord(k)|
  {
    match k
    case Page => 4
    case Location => 8
  }

  /** The kind word k is spelled out in s from index i on. */
  predicate WordAt(s: string, i: nat, k: Kind) {
    match k
    case Page =>
      i + 4 <= |s| && s[i] == 'P' && s[i + 1] == 'a' && s[i + 2] == 'g' && s[i + 3] == 'e'
    case Location =>
      i + 8 <= |s| && s[i] == 'L' && s[i + 1] == 'o' && s[i + 2] == 'c' && s[i + 3] == 'a'
      && s[i + 4] == 't' && s[i + 5] == 'i' && s[i + 6] == 'o' && s[i + 7] == 'n'
  }

  /** The literal "of" of the pattern is spelled out in s from index o on. */
  predicate OfAt(s: string, o: nat) {
    o + 2 <= |s| && s[o] == 'o' && s[o + 1] == 'f'
  }

  /** WordAt is the kind word appearing in s at i. */
  lemma WordAtSpelling(s: string, i: nat, k: Kind)
    requires i + |KindWord(k)| <= |s|
    ensures WordAt(s, i, k) <==> s[i..i + |KindWord(k)|] == KindWord(k)
  {
    var w := KindWord(k);
    if WordAt(s, i, k) {
      assert forall j :: 0 <= j < |w| ==> s[i..i + |w|][j] == w[j];
    }
    if s[i..i + |w|] == w {
      assert forall j :: i <= j < i + |w| ==> s[j] == s[i..i + |w|][j - i];
    }
  }

  // ---------------------------------------------------------------------
  // The pattern as a predicate: where a match starting at i lies.

  /** From index f: one or more white-space characters followed by a digit,
      the tail \s+\d+ of the pattern (the last \d+ needs only one digit). */
  ghost predicate SpacesThenDigitAt(s: string, f: nat) {
    exists e :: f < e < |s| && AllSpace(s, f, e) && IsDigit(s[e])
  }

  /** From index c: the rest \s+of\s+\d+ of the pattern after its number. */
  ghost predicate TailAt(s: string, c: nat) {
    exists o :: c < o && o + 2 <= |s| && AllSpace(s, c, o) && OfAt(s, o) && SpacesThenDigitAt(s, o + 2)
  }

  /** The pattern matches at index i with kind p.kind, its second group
      occupying [b, c) and holding the numeral of p.number. */
  ghost predicate PositionMatch(s: string, i: nat, b: nat, c: nat, p: Position) {
    var a := i + WordLength(p.kind);
    && WordAt(s, i, p.kind)
    && a < b < c <= |s|
    && AllSpace(s, a, b)
    && AllDigits(s[b..c])
    && p.number == DecimalValue(s[b..c])
    && TailAt(s, c)
  }

  /** No match of the pattern starts before index i. */
  ghost predicate NoPositionMatchBefore(s: string, i: nat) {
    forall j, b, c, p :: 0 <= j < i ==> !PositionMatch(s, j, b, c, p)
  }

  // ---------------------------------------------------------------------
  // The pattern as a scanner: the greedy runs of \s+ and \d+.

  /** Where the number group starts once the kind word ends at a. */
  function GroupStart(s: string, a: nat): (b: nat)
    requires a <= |s|
    ensures a <= b <= |s|
  {
    a + SpaceRun(s, a)
  }

  /** Where the number group ends once the kind word ends at a. */
  function GroupEnd(s: string, a: nat): (c: nat)
    requires a <= |s|
    ensures GroupStart(s, a) <= c <= |s|
  {
    GroupStart(s, a) + DigitRun(s, GroupStart(s, a))
  }

  lemma GroupIsDigits(s: string, a: nat)
    requires a <= |s|
    ensures AllDigits(s[GroupStart(s, a)..GroupEnd(s, a)])
  {
    var b := GroupStart(s, a);
    DigitRunMaximal(s, b);
    assert forall k :: 0 <= k < GroupEnd(s, a) - b ==> s[b..GroupEnd(s, a)][k] == s[b + k];
  }

  /** The scanner for \s+of\s+\d from index c. */
  predicate TailFrom(s: string, c: nat)
    requires c <= |s|
  {
    var o := c + SpaceRun(s, c);
    c < o && OfAt(s, o) && o + 2 + SpaceRun(s, o + 2) < |s|
    && o + 2 < o + 2 + SpaceRun(s, o + 2) && IsDigit(s[o + 2 + SpaceRun(s, o + 2)])
  }

  /** The tail scanner accepts exactly where the tail of the pattern matches. */
  lemma TailFromIff(s: string, c: nat)
    requires c <= |s|
    ensures TailFrom(s, c) <==> TailAt(s, c)
  {
    if TailFrom(s, c) {
      TailFromSound(s, c);
    }
    if TailAt(s, c) {
      TailFromComplete(s, c);
    }
  }

  lemma TailFromSound(s: string, c: nat)
    requires c <= |s| && TailFrom(s, c)
    ensures TailAt(s, c)
  {
    var o := c + SpaceRun(s, c);
    SpaceRunMaximal(s, c);
    SpaceRunMaximal(s, o + 2);
    assert SpacesThenDigitAt(s, o + 2);
  }

  lemma TailFromComplete(s: string, c: nat)
    requires c <= |s| && TailAt(s, c)
    ensures TailFrom(s, c)
  {
    var o :| c < o && o + 2 <= |s| && AllSpace(s, c, o) && OfAt(s, o) && SpacesThenDigitAt(s, o + 2);
    var e :| o + 2 < e < |s| && AllSpace(s, o + 2, e) && IsDigit(s[e]);
    TailFromWitness(s, c, o, e);
  }

  /** The tail of the pattern with its "of" at o and its digit at e. */
  ghost predicate TailWitness(s: string, c: nat, o: nat, e: nat) {
    c < o && o + 2 < e < |s| && AllSpace(s, c, o) && OfAt(s, o) && AllSpace(s, o + 2, e) && IsDigit(s[e])
  }

  lemma TailFromWitness(s: string, c: nat, o: nat, e: nat)
    requires TailWitness(s, c, o, e)
    ensures TailFrom(s, c)
  {
    assert !IsSpace(s[o]) by { assert s[o] == 'o'; }
    SpaceRunIs(s, c, o);
    SpaceRunIs(s, o + 2, e);
    TailFromRuns(s, c, o, e);
  }

  /** TailFrom, given where its two space runs end. */
  lemma TailFromRuns(s: string, c: nat, o: nat, e: nat)
    requires c < o && o + 2 < e < |s| && OfAt(s, o) && IsDigit(s[e])
    requires SpaceRun(s, c) == o - c && SpaceRun(s, o + 2) == e - (o + 2)
    ensures TailFrom(s, c)
  {
  }

  /** The rest of the pattern once the kind word has been read up to index a. */
  function MatchAfterWord(s: string, a: nat, k: Kind): Option<Position>
    requires a <= |s|
  {
    var b := GroupStart(s, a);
    var c := GroupEnd(s, a);
    if a < b < c && TailFrom(s, c) then
      GroupIsDigits(s, a);
      Some(Position(k, DecimalValue(s[b..c])))
    else None
  }

  /** The pattern tried at index i. The character classes of the pattern are
      pairwise disjoint, so backtracking never gives up a character of a
      greedy run: the match at i, if any, is the one the greedy runs find. */
  function MatchPositionAt(s: string, i: nat): Option<Position> {
    if WordAt(s, i, Page) then MatchAfterWord(s, i + 4, Page)
    else if WordAt(s, i, Location) then MatchAfterWord(s, i + 8, Location)
    else None
  }

  /** What the scanner finds, the pattern describes: a match at i whose
      number group is the greedy one. */
  lemma MatchPositionAtSound(s: string, i: nat)
    requires MatchPositionAt(s, i).Some?
    ensures i + WordLength(MatchPositionAt(s, i).value.kind) <= |s|
    ensures
      var a := i + WordLength(MatchPositionAt(s, i).value.kind);
      PositionMatch(s, i, GroupStart(s, a), GroupEnd(s, a), MatchPositionAt(s, i).value)
  {
    var p := MatchPositionAt(s, i).value;
    var a := i + WordLength(p.kind);
    assert WordAt(s, i, p.kind) && MatchAfterWord(s, a, p.kind) == Some(p);
    SpaceRunMaximal(s, a);
    GroupIsDigits(s, a);
    TailFromIff(s, GroupEnd(s, a));
  }

  /** The tail of the pattern starts with white space. */
  lemma TailAtStartsWithSpace(s: string, c: nat)
    requires TailAt(s, c)
    ensures c < |s| && IsSpace(s[c])
  {
  }

  /** The number group of a match is the greedy one: the white space after
      the kind word and the digits after that are maximal runs. */
  lemma GroupIs(s: string, i: nat, b: nat, c: nat, p: Position)
    requires PositionMatch(s, i, b, c, p)
    ensures GroupStart(s, i + WordLength(p.kind)) == b && GroupEnd(s, i + WordLength(p.kind)) == c
  {
    TailAtStartsWithSpace(s, c);
    assert IsDigit(s[b]) by { assert s[b..c][0] == s[b]; }
    assert AllDigit(s, b, c) by {
      assert forall k :: b <= k < c ==> s[k] == s[b..c][k - b];
    }
    SpaceRunIs(s, i + WordLength(p.kind), b);
    DigitRunIs(s, b, c);
  }

  /** The scanner tries the kind word that is spelled out at i. */
  lemma MatchPositionAtWord(s: string, i: nat, k: Kind)
    requires WordAt(s, i, k)
    ensures MatchPositionAt(s, i) == MatchAfterWord(s, i + WordLength(k), k)
  {
  }

  lemma MatchAfterWordComplete(s: string, i: nat, b: nat, c: nat, p: Position)
    requires PositionMatch(s, i, b, c, p)
    ensures MatchAfterWord(s, i + WordLength(p.kind), p.kind) == Some(p)
  {
    TailFromIff(s, c);
    GroupIs(s, i, b, c, p);
  }

  /** Every match the predicate describes is found by the scanner, with the
      same kind and number. */
  lemma MatchPositionAtComplete(s: string, i: nat, b: nat, c: nat, p: Position)
    requires PositionMatch(s, i, b, c, p)
    ensures MatchPositionAt(s, i) == Some(p)
  {
    MatchPositionAtWord(s, i, p.kind);
    MatchAfterWordComplete(s, i, b, c, p);
  }

  /** The scanner's verdict at every index of s. */
  function PositionMatches(s: string): (ms: seq<Option<Position>>)
    ensures |ms| == |s|
  {
    seq(|s|, (k: nat) => MatchPositionAt(s, k))
  }

  /** The leftmost match of the pattern in s, as String.prototype.match
      returns it (no global flag): its kind and the value of its first
      number, or None when the text has no match. */
  function FindPosition(s: string): Option<Position> {
    FirstSome(PositionMatches(s))
  }

  /** FindPosition is the leftmost-first regular-expression search: it
      returns the match that starts first, and None exactly when the text
      holds no match anywhere. */
  lemma FindPositionLeftmost(s: string)
    ensures FindPosition(s).Some? ==>
      exists i, b, c :: PositionMatch(s, i, b, c, FindPosition(s).value) && NoPositionMatchBefore(s, i)
    ensures FindPosition(s).None? <==> NoPositionMatchBefore(s, |s|)
  {
    var ms := PositionMatches(s);
    var r := FindPosition(s);
    FirstSomeSpec(ms);
    if r.Some? {
      var i :| 0 <= i < |s| && ms[i] == r && forall j :: 0 <= j < i ==> ms[j].None?;
      NoScannerMatchBefore(s, i);
      MatchPositionAtSound(s, i);
      var b, c :| PositionMatch(s, i, b, c, r.value);
      assert !NoPositionMatchBefore(s, |s|);
    } else {
      NoScannerMatchBefore(s, |s|);
    }
  }

  lemma NoScannerMatchBefore(s: string, i: nat)
    requires i <= |s|
    requires forall j :: 0 <= j < i ==> PositionMatches(s)[j].None?
    ensures NoPositionMatchBefore(s, i)
  {
    forall j, b, c, p | 0 <= j < i
      ensures !PositionMatch(s, j, b, c, p)
    {
      assert PositionMatches(s)[j] == MatchPositionAt(s, j);
      if PositionMatch(s, j, b, c, p) {
        MatchPositionAtComplete(s, j, b, c, p);
        assert false;
      }
    }
  }

  // ---------------------------------------------------------------------
  // Reading and writing progress text.

  /** The reader's progress text: "Page 42 of 300", "Location 1500 of 9000". */
  function FormatPosition(p: Position, total: nat): string {
    KindWord(p.kind) + " " + Decimal(p.number) + " of " + Decimal(total)
  }

  /** Where written progress text is embedded in s at i, s spells out its
      kind word at i and a space after it. */
  lemma FormattedWord(s: string, i: nat, p: Position, total: nat)
    requires i + |FormatPosition(p, total)| <= |s|
    requires s[i..i + |FormatPosition(p, total)|] == FormatPosition(p, total)
    ensures WordAt(s, i, p.kind) && s[i + |KindWord(p.kind)|] == ' '
  {
    var f := FormatPosition(p, total);
    var w := KindWord(p.kind);
    assert forall k | i <= k < i + |f| :: s[k] == f[k - i];
    assert s[i..i + |w|] == w by {
      assert forall k | 0 <= k < |w| :: s[i..i + |w|][k] == f[k] == w[k];
    }
    WordAtSpelling(s, i, p.kind);
  }

  /** ... followed by the numeral of the number. */
  lemma FormattedNumber(s: string, i: nat, p: Position, total: nat)
    requires i + |FormatPosition(p, total)| <= |s|
    requires s[i..i + |FormatPosition(p, total)|] == FormatPosition(p, total)
    ensures var b := i + |KindWord(p.kind)| + 1;
      b + |Decimal(p.number)| <= |s| && s[b..b + |Decimal(p.number)|] == Decimal(p.number)
  {
    var f := FormatPosition(p, total);
    var d := Decimal(p.number);
    var x := KindWord(p.kind) + " ";
    assert f == x + d + (" of " + Decimal(total));
    assert f[|x|..|x| + |d|] == d;
    SubSlice(s, i, f, |x|, d);
  }

  /** A piece of a piece of s is a piece of s. */
  lemma SubSlice(s: string, i: nat, f: string, off: nat, d: string)
    requires i + |f| <= |s| && s[i..i + |f|] == f
    requires off + |d| <= |f| && f[off..off + |d|] == d
    ensures s[i + off..i + off + |d|] == d
  {
    forall k | 0 <= k < |d|
      ensures s[i + off..i + off + |d|][k] == d[k]
    {
      assert d[k] == f[off + k] == s[i..i + |f|][off + k];
    }
  }

  /** ... followed by " of " and the numeral of the total. */
  lemma FormattedTail(s: string, i: nat, p: Position, total: nat)
    requires i + |FormatPosition(p, total)| <= |s|
    requires s[i..i + |FormatPosition(p, total)|] == FormatPosition(p, total)
    ensures var c := i + |KindWord(p.kind)| + 1 + |Decimal(p.number)|;
      c + 4 < |s| && s[c] == ' ' && s[c + 1] == 'o' && s[c + 2] == 'f' && s[c + 3] == ' '
      && IsDigit(s[c + 4])
  {
    var f := FormatPosition(p, total);
    var c := |KindWord(p.kind)| + 1 + |Decimal(p.number)|;
    assert f[c] == ' ' && f[c + 1] == 'o' && f[c + 2] == 'f' && f[c + 3] == ' ';
    assert f[c + 4] == Decimal(total)[0];
    assert forall k | i <= k < i + |f| :: s[k] == f[k - i];
  }

  /** A position written with single spaces: the kind word at i, one
      space, the numeral in [b, c), then " of " and a digit. */
  predicate SingleSpacedAt(s: string, i: nat, k: Kind, b: nat, c: nat) {
    && WordAt(s, i, k) && b == i + WordLength(k) + 1
    && b < c && c + 4 < |s| && s[b - 1] == ' ' && AllDigits(s[b..c])
    && s[c] == ' ' && s[c + 1] == 'o' && s[c + 2] == 'f' && s[c + 3] == ' ' && IsDigit(s[c + 4])
  }

  /** " of " and a digit from c on is the tail of the pattern. */
  lemma SingleSpacedTail(s: string, c: nat)
    requires c + 4 < |s| && s[c] == ' ' && s[c + 1] == 'o' && s[c + 2] == 'f' && s[c + 3] == ' ' && IsDigit(s[c + 4])
    ensures TailAt(s, c)
  {
    assert AllSpace(s, c + 3, c + 4);
    assert SpacesThenDigitAt(s, c + 3);
    assert AllSpace(s, c, c + 1) && OfAt(s, c + 1);
  }

  /** The scanner reads a single-spaced position. */
  lemma MatchSingleSpaced(s: string, i: nat, k: Kind, b: nat, c: nat)
    requires SingleSpacedAt(s, i, k, b, c)
    ensures MatchPositionAt(s, i) == Some(Position(k, DecimalValue(s[b..c])))
  {
    var p := Position(k, DecimalValue(s[b..c]));
    SingleSpacedTail(s, c);
    assert AllSpace(s, b - 1, b);
    assert PositionMatch(s, i, b, c, p);
    MatchPositionAtComplete(s, i, b, c, p);
  }

  /** Written progress text is single-spaced, with the numeral of the
      number as its number group. */
  lemma FormattedLayout(s: string, i: nat, p: Position, total: nat)
    requires i + |FormatPosition(p, total)| <= |s|
    requires s[i..i + |FormatPosition(p, total)|] == FormatPosition(p, total)
    ensures var b := i + |KindWord(p.kind)| + 1;
      var c := b + |Decimal(p.number)|;
      c <= |s| && SingleSpacedAt(s, i, p.kind, b, c) && s[b..c] == Decimal(p.number)
  {
    FormattedWord(s, i, p, total);
    FormattedNumber(s, i, p, total);
    FormattedTail(s, i, p, total);
  }

  /** Written progress text matches where it is written. */
  lemma FormattedMatch(s: string, i: nat, p: Position, total: nat)
    requires i + |FormatPosition(p, total)| <= |s|
    requires s[i..i + |FormatPosition(p, total)|] == FormatPosition(p, total)
    ensures MatchPositionAt(s, i) == Some(p)
  {
    var b := i + |KindWord(p.kind)| + 1;
    var c := b + |Decimal(p.number)|;
    FormattedLayout(s, i, p, total);
    DecimalRoundTrip(p.number);
    MatchSingleSpaced(s, i, p.kind, b, c);
  }

  /** No match can start before index i when s[..i] holds no 'P' and no 'L',
      the first letters of the kind words. */
  lemma NoKindLetterBefore(s: string, i: nat)
    requires i <= |s|
    requires forall k :: 0 <= k < i ==> s[k] != 'P' && s[k] != 'L'
    ensures forall j :: 0 <= j < i ==> PositionMatches(s)[j].None?
  {
  }

  /** Progress text is read back as the position it was written from,
      whatever follows it and whatever precedes it, as long as what precedes
      it holds no 'P' or 'L' that could start an earlier match. */
  lemma FormatPositionParses(prefix: string, p: Position, total: nat, suffix: string)
    requires forall k :: 0 <= k < |prefix| ==> prefix[k] != 'P' && prefix[k] != 'L'
    ensures FindPosition(prefix + FormatPosition(p, total) + suffix) == Some(p)
  {
    var f := FormatPosition(p, total);
    var s := prefix + f + suffix;
    var i := |prefix|;
    assert s[i..i + |f|] == f;
    FormattedMatch(s, i, p, total);
    NoKindLetterBefore(s, i);
    FirstSomeAt(PositionMatches(s), i);
  }

  /** Text without a capital P or L holds no position. */
  lemma NoKindLetterNoPosition(s: string)
    requires forall k :: 0 <= k < |s| ==> s[k] != 'P' && s[k] != 'L'
    ensures FindPosition(s) == None
  {
    NoKindLetterBefore(s, |s|);
    FirstSomeSpec(PositionMatches(s));
  }

  lemma ExamplePageReading()
    ensures FindPosition("Page 42 of 300") == Some(Position(Page, 42))
  {
    assert Decimal(42) == "42";
    assert Decimal(300) == "300";
    assert "" + FormatPosition(Position(Page, 42), 300) + "" == "Page 42 of 300";
    FormatPositionParses("", Position(Page, 42), 300, "");
  }

  lemma ExampleLocationReading()
    ensures FindPosition("Location 1500 of 9000") == Some(Position(Location, 1500))
  {
    assert Decimal(1500) == "1500";
    assert Decimal(9000) == "9000";
    assert "" + FormatPosition(Position(Location, 1500), 9000) + "" == "Location 1500 of 9000";
    FormatPositionParses("", Position(Location, 1500), 9000, "");
  }

  /** A bare "42 of 300", without its kind word, is not a position. */
  lemma ExampleNoKindWord()
    ensures FindPosition("42 of 300") == None
  {
    NoKindLetterNoPosition("42 of 300");
  }

  // ---------------------------------------------------------------------
  // getCurrentPosition

  /** What one candidate of getCurrentPosition yields. A candidate is the
      text content of one selector's element: "div.text-div", then
      "#reader-footer div.text-div", then the text div inside the
      KindleReaderIFrame frame, then "#kindleReader-footer div.text-div".
      None stands for an element that is missing, a frame whose document
      cannot be read, or a frame without the text div. */
  function Reading(candidate: Option<string>): Option<Position> {
    if candidate.Some? then FindPosition(Trim(candidate.value)) else None
  }

  function Readings(candidates: seq<Option<string>>): (rs: seq<Option<Position>>)
    ensures |rs| == |candidates|
  {
    seq(|candidates|, (k: nat) requires k < |candidates| => Reading(candidates[k]))
  }

  /** The first candidate, in priority order, whose trimmed text holds a
      position decides the reading; readings are never merged. */
  function ReadPosition(candidates: seq<Option<string>>): Option<Position> {
    FirstSome(Readings(candidates))
  }

  /** getCurrentPosition: try each candidate in turn and return the first
      reading that parses; a missing or unreadable candidate, or one whose
      text does not match, passes on to the next. */
  method GetCurrentPosition(candidates: seq<Option<string>>) returns (position: Option<Position>)
    ensures position.Some? ==>
      exists m :: 0 <= m < |candidates| && candidates[m].Some?
        && position == FindPosition(Trim(candidates[m].value))
        && forall j :: 0 <= j < m ==> Reading(candidates[j]).None?
    ensures position.None? <==> forall j :: 0 <= j < |candidates| ==> Reading(candidates[j]).None?
    ensures position == ReadPosition(candidates)
  {
    var readings := Readings(candidates);
    for k := 0 to |candidates|
      invariant forall j :: 0 <= j < k ==> Reading(candidates[j]).None?
    {
      if candidates[k].Some? {
        var text := Trim(candidates[k].value);
        var found := FindPosition(text);
        if found.Some? {
          assert found == Reading(candidates[k]);
          assert forall j :: 0 <= j < k ==> readings[j] == Reading(candidates[j]);
          FirstSomeAt(readings, k);
          return found;
        }
      }
    }
    assert forall j :: 0 <= j < |candidates| ==> readings[j] == Reading(candidates[j]);
    FirstSomeSpec(readings);
    position := None;
  }

  /** A reader whose only progress text is written progress text reads the
      position it was written from. */
  lemma ReadFormatted(p: Position, total: nat)
    ensures ReadPosition([Some(FormatPosition(p, total))]) == Some(p)
  {
    var f := FormatPosition(p, total);
    var t := Decimal(total);
    assert f[0] == KindWord(p.kind)[0];
    assert f[|f| - 1] == t[|t| - 1];
    TrimmedIsTrim(f);
    FormatPositionParses([], p, total, []);
    assert [] + f + [] == f;
    FirstSomeAt(Readings([Some(f)]), 0);
  }
}
