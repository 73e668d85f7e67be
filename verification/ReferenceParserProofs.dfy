/** What the body scanners guarantee: spans, completeness, and printing undone by parsing. */
module ReferenceParserProofs {
  import opened Prelude
  import opened Text
  import opened ReferenceParser
  import LeftmostScan
  import Sorting

  // ---------------------------------------------------------------- soundness and order

  ghost predicate FreeOf(s: string, c: char) {
    forall i :: 0 <= i < |s| ==> s[i] != c
  }

  /** Display text is trimmed; a blank one is dropped. */
  ghost predicate IsDisplay(text: string, display: Option<string>) {
    if Trim(text) == "" then display == None else display == Some(Trim(text))
  }

  ghost predicate NestsNoOpening(content: string) {
    forall j :: !OccursAt(content, "[[", j)
  }

  /** Target and display text are what stands before and after the first `|`, blanks trimmed. */
  ghost predicate ReadsContent(content: string, x: ParsedReference) {
    || (FreeOf(content, '|') && x.rawTarget == Trim(content) && x.displayText == None)
    || (exists i: nat :: i < |content| && SplitsAt(content, i, x))
  }

  ghost predicate SplitsAt(content: string, i: nat, x: ParsedReference)
    requires i < |content|
  {
    && content[i] == '|' && FreeOf(content[..i], '|')
    && x.rawTarget == Trim(content[..i]) && IsDisplay(content[i + 1..], x.displayText)
  }

  /**
   * A reported wikilink sits on its own delimiters, nests no opening, and names the trimmed,
   * non-empty target and the display text written between them.
   */
  ghost predicate SoundWikilink(body: string, x: ParsedReference, start: nat, end: nat) {
    && start + 4 <= end <= |body|
    && OccursAt(body, "[[", start) && OccursAt(body, "]]", end - 2)
    && x.kind == Wikilink
    && x.spanStart == Offset(body, start) <= I32_MAX && x.spanEnd == Offset(body, end) <= I32_MAX
    && x.rawTarget != "" && Trimmed(x.rawTarget)
    && x.targetObject == None && x.targetWorkspace == None
    && NestsNoOpening(body[start + 2..end - 2]) && ReadsContent(body[start + 2..end - 2], x)
  }

  lemma WikilinkOfSound(body: string, span: (nat, nat))
    requires PairEnd(body, span.0) == Some(span.1)
    ensures WikilinkOf(body, span).Some? ==> SoundWikilink(body, WikilinkOf(body, span).value, span.0, span.1)
  {
    hide ByteLen, Trimmed, WikilinkContent, Contains, ReadsContent, NestsNoOpening;
    FindFirst(body, "]]", span.0 + 2);
    if WikilinkOf(body, span).Some? {
      var content := body[span.0 + 2..span.1 - 2];
      WikilinkTargetTrimmed(content);
      NoOpeningContained(content);
      WikilinkReadsContent(content, WikilinkOf(body, span).value);
    }
  }

  lemma NoOpeningContained(content: string)
    ensures Contains(content, "[[") <==> !NestsNoOpening(content)
  {
    FindFirst(content, "[[", 0);
  }

  lemma WikilinkReadsContent(content: string, x: ParsedReference)
    requires x.rawTarget == BareWikilink(content).rawTarget && x.displayText == BareWikilink(content).displayText
    ensures ReadsContent(content, x)
  {
    FindChar(content, '|', 0);
    match Find(content, "|", 0)
    case Some(i) => assert SplitsAt(content, i, x);
    case None =>
  }

  lemma WikilinkTargetTrimmed(content: string)
    ensures Trimmed(BareWikilink(content).rawTarget)
  {
    match SplitOnce(content, "|")
    case Some((target, _)) => TrimSpec(target);
    case None => TrimSpec(content);
  }

  /** The pairs a body's scan selects. */
  ghost function PairSpans(body: string): seq<(nat, nat)> {
    PairsBounded(body);
    LeftmostScan.Scan(Pairs(body), 0, |body|)
  }

  /** The `k`-th reported wikilink comes from this selected pair. */
  ghost function WikilinkSource(body: string, k: nat): nat
    requires k < |Wikilinks(body)|
  {
    SourceIndex(WikilinkReader(body), PairSpans(body), k)
  }

  lemma WikilinksSound(body: string, k: nat)
    requires k < |Wikilinks(body)|
    ensures var i := WikilinkSource(body, k);
            && i < |PairSpans(body)|
            && SoundWikilink(body, Wikilinks(body)[k], PairSpans(body)[i].0, PairSpans(body)[i].1)
  {
    hide WikilinkOf, SoundWikilink;
    PairsBounded(body);
    LeftmostScan.ScanIsLeftmost(Pairs(body), 0, |body|);
    WikilinkOfSound(body, PairSpans(body)[WikilinkSource(body, k)]);
  }

  /** Nothing else is required: every selected pair with such content and small offsets is reported. */
  lemma WikilinkReported(body: string, i: nat, x: ParsedReference)
    requires i < |PairSpans(body)|
    requires SoundWikilink(body, x, PairSpans(body)[i].0, PairSpans(body)[i].1)
    ensures x in Wikilinks(body)
  {
    hide SoundWikilink, WikilinkOf;
    var span := PairSpans(body)[i];
    SoundWikilinkRead(body, span, x);
    FilterMapMembers(WikilinkReader(body), PairSpans(body), x);
    assert WikilinkReader(body)(PairSpans(body)[i]) == Some(x);
  }

  lemma SoundWikilinkRead(body: string, span: (nat, nat), x: ParsedReference)
    requires SoundWikilink(body, x, span.0, span.1)
    ensures WikilinkOf(body, span) == Some(x)
  {
    hide Contains, NestsNoOpening, ReadsContent, WikilinkContent, Trimmed, OccursAt, ByteLen;
    var content := body[span.0 + 2..span.1 - 2];
    NoOpeningContained(content);
    ContentDetermines(content, x);
  }

  /** The only `c` of a stretch that ends in one is found by a search from its start. */
  lemma CharFound(s: string, c: char, from: nat, i: nat)
    requires from <= i < |s| && s[i] == c && FreeOf(s[from..i], c)
    ensures Find(s, [c], from) == Some(i)
  {
    assert s[i..i + 1] == [c];
    forall k | from <= k < i ensures !OccursAt(s, [c], k) {
      assert s[from..i][k - from] == s[k];
      NoOccurrence(s, [c], k);
    }
    FindIs(s, [c], from, i);
  }

  lemma CharMissing(s: string, c: char)
    requires FreeOf(s, c)
    ensures Find(s, [c], 0).None?
  {
    FindChar(s, c, 0);
  }

  lemma DisplayIs(text: string, display: Option<string>)
    ensures IsDisplay(text, display) <==> display == NonEmptyOwned(text)
  {
    hide Trim;
  }

  lemma ContentDetermines(content: string, x: ParsedReference)
    requires ReadsContent(content, x)
    ensures WikilinkContent(content) == (x.rawTarget, x.displayText)
  {
    hide Trim, Find, IsDisplay, NonEmptyOwned;
    if i: nat :| i < |content| && SplitsAt(content, i, x) {
      CharFound(content, '|', 0, i);
      assert content[0..i] == content[..i];
      DisplayIs(content[i + 1..], x.displayText);
    } else {
      CharMissing(content, '|');
    }
  }

  /** Every raw target is trimmed and non-empty, so trimming affected titles loses none of them. */
  lemma RawTargetsTrimmed(body: string)
    ensures forall x :: x in Wikilinks(body) ==>
              x.kind == Wikilink && x.rawTarget != "" && Trim(x.rawTarget) == x.rawTarget
  {
    forall x | x in Wikilinks(body)
      ensures x.kind == Wikilink && x.rawTarget != "" && Trim(x.rawTarget) == x.rawTarget
    {
      var k :| 0 <= k < |Wikilinks(body)| && Wikilinks(body)[k] == x;
      WikilinksSound(body, k);
      TrimOfTrimmed(x.rawTarget);
    }
  }

  /** Wikilink spans are disjoint and increasing. */
  lemma WikilinksDisjoint(body: string, k: nat, l: nat)
    requires k < l < |Wikilinks(body)|
    ensures Wikilinks(body)[k].spanStart < Wikilinks(body)[k].spanEnd <= Wikilinks(body)[l].spanStart
  {
    WikilinksSound(body, k);
    WikilinksSound(body, l);
    SourceIndexMonotone(WikilinkReader(body), PairSpans(body), k, l);
    PairsBounded(body);
    LeftmostScan.ScanIsLeftmost(Pairs(body), 0, |body|);
    var a, b := PairSpans(body)[WikilinkSource(body, k)], PairSpans(body)[WikilinkSource(body, l)];
    OffsetMonotone(body, a.0, a.1);
    OffsetMonotone(body, a.1, b.0);
  }

  /**
   * The wikilink scanner against its declarative meaning: there is exactly one choice of
   * non-overlapping pairs that leaves no pair out, and the references are that choice's readings.
   */
  lemma WikilinksComplete(body: string, spans: seq<(nat, nat)>)
    ensures LeftmostScan.IsLeftmostScan(Pairs(body), 0, spans) <==> spans == PairSpans(body)
    ensures spans == PairSpans(body) ==> Wikilinks(body) == FilterMap(WikilinkReader(body), spans)
  {
    PairsBounded(body);
    LeftmostScan.ScanIsLeftmost(Pairs(body), 0, |body|);
    if LeftmostScan.IsLeftmostScan(Pairs(body), 0, spans) {
      LeftmostScan.LeftmostScanUnique(Pairs(body), 0, |body|, spans);
    }
  }

  // ---------------------------------------------------------------- Markdown links

  /** A text that is a UUID as a whole. */
  ghost predicate IsUuid(text: string, id: Uuid) {
    text != "" && FreeOf(text, '/') && text in UUID_TEXTS && UUID_TEXTS[text] == id
  }

  ghost predicate IsObjectUrl(destination: string, objectText: string) {
    destination == "kival://objects/" + objectText
  }

  ghost predicate IsWorkspaceUrl(destination: string, workspaceText: string, objectText: string) {
    destination == "kival://workspaces/" + workspaceText + "/objects/" + objectText
  }

  /** The destination is one of the two supported URLs and spells these ids. */
  ghost predicate NamesObject(destination: string, workspace: Option<Uuid>, target: Uuid) {
    if workspace.None? then
      exists o :: IsObjectUrl(destination, o) && IsUuid(o, target)
    else
      exists w, o :: IsWorkspaceUrl(destination, w, o) && IsUuid(w, workspace.value) && IsUuid(o, target)
  }

  lemma UuidTexts(text: string)
    ensures forall id: Uuid :: ParseExactUuid(text) == Some(id) <==> IsUuid(text, id)
  {
    FindChar(text, '/', 0);
    if Contains(text, "/") {
      FindFirst(text, "/", 0);
    }
  }

  lemma ObjectUrlPrefix(destination: string)
    ensures StripPrefix(destination, "kival://objects/").Some? <==> exists o :: IsObjectUrl(destination, o)
    ensures forall o :: IsObjectUrl(destination, o) ==> StripPrefix(destination, "kival://objects/") == Some(o)
    ensures StripPrefix(destination, "kival://objects/").Some? ==>
              IsObjectUrl(destination, StripPrefix(destination, "kival://objects/").value)
              && StripPrefix(destination, "kival://workspaces/").None?
  {
    var prefix := "kival://objects/";
    if prefix <= destination {
      assert destination == prefix + destination[|prefix|..];
      assert IsObjectUrl(destination, destination[|prefix|..]);
      assert destination[8] == 'o' && "kival://workspaces/"[8] == 'w';
    }
  }

  /** The first separator of a workspace URL stands right after its slash-free workspace id. */
  lemma WorkspaceUrlSplits(rest: string, w: string, o: string)
    requires rest == w + "/objects/" + o && FreeOf(w, '/')
    ensures SplitOnce(rest, "/objects/") == Some((w, o))
  {
    var separator := "/objects/";
    assert rest[|w|..|w| + |separator|] == separator;
    assert OccursAt(rest, separator, |w|);
    forall i | 0 <= i < |w| ensures !OccursAt(rest, separator, i) {
      assert rest[i] == w[i];
      NoOccurrence(rest, separator, i);
    }
    FindIs(rest, separator, 0, |w|);
    assert rest[..|w|] == w && rest[|w| + |separator|..] == o;
  }

  lemma WorkspaceUrlPrefix(destination: string, rest: string)
    ensures StripPrefix(destination, "kival://workspaces/") == Some(rest)
       <==> destination == "kival://workspaces/" + rest
    ensures destination == "kival://workspaces/" + rest ==> StripPrefix(destination, "kival://objects/").None?
  {
    var prefix := "kival://workspaces/";
    if prefix <= destination {
      assert destination == prefix + destination[|prefix|..];
      assert destination[8] == 'w' && "kival://objects/"[8] == 'o';
    }
  }

  /** What is parsed is spelled by the destination. */
  lemma ParsedIsSpelled(destination: string, workspace: Option<Uuid>, target: Uuid)
    requires ParseKivalDestination(destination) == Some((workspace, target))
    ensures NamesObject(destination, workspace, target)
  {
    hide IsUuid, ParseExactUuid, StripPrefix, Find;
    ObjectUrlPrefix(destination);
    match StripPrefix(destination, "kival://objects/")
    case Some(o) => UuidTexts(o);
    case None =>
      var rest := StripPrefix(destination, "kival://workspaces/").value;
      WorkspaceUrlPrefix(destination, rest);
      var (w, o) := SplitOnce(rest, "/objects/").value;
      SplitRejoins(rest, "/objects/");
      UuidTexts(w);
      UuidTexts(o);
      assert IsWorkspaceUrl(destination, w, o);
  }

  lemma SplitRejoins(s: string, separator: string)
    requires SplitOnce(s, separator).Some?
    ensures s == SplitOnce(s, separator).value.0 + separator + SplitOnce(s, separator).value.1
  {
    FindFirst(s, separator, 0);
  }

  /** What a destination spells is parsed. */
  lemma SpelledIsParsed(destination: string, workspace: Option<Uuid>, target: Uuid)
    requires NamesObject(destination, workspace, target)
    ensures ParseKivalDestination(destination) == Some((workspace, target))
  {
    hide ParseExactUuid, StripPrefix, SplitOnce;
    ObjectUrlPrefix(destination);
    if workspace.None? {
      var o :| IsObjectUrl(destination, o) && IsUuid(o, target);
      UuidTexts(o);
    } else {
      var w, o :| IsWorkspaceUrl(destination, w, o) && IsUuid(w, workspace.value) && IsUuid(o, target);
      WorkspaceUrlPrefix(destination, w + "/objects/" + o);
      assert destination == "kival://workspaces/" + (w + "/objects/" + o);
      WorkspaceUrlSplits(w + "/objects/" + o, w, o);
      UuidTexts(w);
      UuidTexts(o);
    }
  }

  /** A destination is parsed exactly when it is a supported URL, to exactly the ids it spells. */
  lemma DestinationIsExact(destination: string, workspace: Option<Uuid>, target: Uuid)
    ensures ParseKivalDestination(destination) == Some((workspace, target))
       <==> NamesObject(destination, workspace, target)
  {
    hide ParseKivalDestination, NamesObject;
    if NamesObject(destination, workspace, target) {
      SpelledIsParsed(destination, workspace, target);
    }
    if ParseKivalDestination(destination) == Some((workspace, target)) {
      ParsedIsSpelled(destination, workspace, target);
    }
  }

  /** The label ends at its first `]`, and the destination runs from `](` to its first `)`. */
  ghost predicate ReadsLink(body: string, x: ParsedReference, start: nat, labelEnd: nat, end: nat)
    requires end <= |body|
  {
    && start < labelEnd && labelEnd + 2 < end
    && body[labelEnd] == ']' && FreeOf(body[start + 1..labelEnd], ']')
    && body[labelEnd + 1] == '(' && FreeOf(body[labelEnd + 2..end - 1], ')')
    && x.rawTarget == Trim(body[labelEnd + 2..end - 1])
    && IsDisplay(body[start + 1..labelEnd], x.displayText)
  }

  /**
   * A reported Markdown link sits on its own delimiters, is no image, and its target is the trimmed
   * text between its parentheses, a supported destination that names the recorded object.
   */
  ghost predicate SoundKivalLink(body: string, x: ParsedReference, start: nat, end: nat) {
    && start < end <= |body|
    && body[start] == '[' && (start > 0 ==> body[start - 1] != '!') && body[end - 1] == ')'
    && x.kind == KivalObjectLink && x.targetObject.Some?
    && x.spanStart == Offset(body, start) <= I32_MAX && x.spanEnd == Offset(body, end) <= I32_MAX
    && NamesObject(x.rawTarget, x.targetWorkspace, x.targetObject.value)
    && exists labelEnd: nat :: ReadsLink(body, x, start, labelEnd, end)
  }

  lemma KivalLinkOfSound(body: string, span: (nat, nat))
    requires LinkEnd(body, span.0) == Some(span.1)
    ensures KivalLinkOf(body, span).Some? ==> SoundKivalLink(body, KivalLinkOf(body, span).value, span.0, span.1)
  {
    hide ParseKivalDestination, ByteLen, Find, Trim;
    var (labelEnd, destinationEnd) := LinkParts(body, span.0).value;
    FindChar(body, ']', span.0 + 1);
    FindChar(body, ')', labelEnd + 2);
    hide NamesObject;
    if KivalLinkOf(body, span).Some? {
      var x := KivalLinkOf(body, span).value;
      DestinationIsExact(x.rawTarget, x.targetWorkspace, x.targetObject.value);
      assert ReadsLink(body, KivalLinkOf(body, span).value, span.0, labelEnd, span.1);
    }
  }

  ghost function LinkSpans(body: string): seq<(nat, nat)> {
    LinksBounded(body);
    LeftmostScan.Scan(Links(body), 0, |body|)
  }

  ghost function KivalLinkSource(body: string, k: nat): nat
    requires k < |KivalLinks(body)|
  {
    SourceIndex(KivalLinkReader(body), LinkSpans(body), k)
  }

  lemma KivalLinksSound(body: string, k: nat)
    requires k < |KivalLinks(body)|
    ensures var i := KivalLinkSource(body, k);
            && i < |LinkSpans(body)|
            && SoundKivalLink(body, KivalLinks(body)[k], LinkSpans(body)[i].0, LinkSpans(body)[i].1)
  {
    hide KivalLinkOf, SoundKivalLink;
    LinksBounded(body);
    LeftmostScan.ScanIsLeftmost(Links(body), 0, |body|);
    KivalLinkOfSound(body, LinkSpans(body)[KivalLinkSource(body, k)]);
  }

  /** Every selected link to a supported destination and with small offsets is reported. */
  lemma KivalLinkReported(body: string, i: nat, x: ParsedReference)
    requires i < |LinkSpans(body)|
    requires SoundKivalLink(body, x, LinkSpans(body)[i].0, LinkSpans(body)[i].1)
    ensures x in KivalLinks(body)
  {
    hide SoundKivalLink, KivalLinkOf;
    var span := LinkSpans(body)[i];
    SoundKivalLinkRead(body, span, x);
    FilterMapMembers(KivalLinkReader(body), LinkSpans(body), x);
    assert KivalLinkReader(body)(LinkSpans(body)[i]) == Some(x);
  }

  lemma SoundKivalLinkRead(body: string, span: (nat, nat), x: ParsedReference)
    requires SoundKivalLink(body, x, span.0, span.1)
    ensures KivalLinkOf(body, span) == Some(x)
  {
    hide ParseKivalDestination, NamesObject, ByteLen, Find, Trim, IsDisplay, NonEmptyOwned;
    var e: nat :| ReadsLink(body, x, span.0, e, span.1);
    CharFound(body, ']', span.0 + 1, e);
    CharFound(body, ')', e + 2, span.1 - 1);
    DisplayIs(body[span.0 + 1..e], x.displayText);
    DestinationIsExact(x.rawTarget, x.targetWorkspace, x.targetObject.value);
  }

  /** Markdown-link spans are disjoint and increasing. */
  lemma KivalLinksDisjoint(body: string, k: nat, l: nat)
    requires k < l < |KivalLinks(body)|
    ensures KivalLinks(body)[k].spanStart < KivalLinks(body)[k].spanEnd <= KivalLinks(body)[l].spanStart
  {
    hide ParseKivalDestination;
    KivalLinksSound(body, k);
    KivalLinksSound(body, l);
    SourceIndexMonotone(KivalLinkReader(body), LinkSpans(body), k, l);
    LinksBounded(body);
    LeftmostScan.ScanIsLeftmost(Links(body), 0, |body|);
    var a, b := LinkSpans(body)[KivalLinkSource(body, k)], LinkSpans(body)[KivalLinkSource(body, l)];
    OffsetMonotone(body, a.0, a.1);
    OffsetMonotone(body, a.1, b.0);
  }

  /** As `WikilinksComplete`, for Markdown links: skips and early stops lose no link. */
  lemma KivalLinksComplete(body: string, spans: seq<(nat, nat)>)
    ensures LeftmostScan.IsLeftmostScan(Links(body), 0, spans) <==> spans == LinkSpans(body)
    ensures spans == LinkSpans(body) ==> KivalLinks(body) == FilterMap(KivalLinkReader(body), spans)
  {
    LinksBounded(body);
    LeftmostScan.ScanIsLeftmost(Links(body), 0, |body|);
    if LeftmostScan.IsLeftmostScan(Links(body), 0, spans) {
      LeftmostScan.LeftmostScanUnique(Links(body), 0, |body|, spans);
    }
  }

  // ---------------------------------------------------------------- the merged list

  predicate SpanLeq(x: ParsedReference, y: ParsedReference) {
    x.spanStart < y.spanStart || (x.spanStart == y.spanStart && x.spanEnd <= y.spanEnd)
  }

  /** What `parse_object_references` returns. */
  ghost function References(body: string): seq<ParsedReference> {
    Sorting.SortBy(SpanLeq, Wikilinks(body) + KivalLinks(body))
  }

  method ParseObjectReferences(body: string) returns (references: seq<ParsedReference>)
    ensures references == References(body)
    ensures forall i, j :: 0 <= i < j < |references| ==>
              || references[i].spanStart < references[j].spanStart
              || (references[i].spanStart == references[j].spanStart && references[i].spanEnd <= references[j].spanEnd)
    ensures multiset(references) == multiset(Wikilinks(body)) + multiset(KivalLinks(body))
  {
    references := ParseWikilinks(body);
    var links := ParseKivalLinks(body);
    references := references + links;
    Sorting.SortBySorts(SpanLeq, references);
    references := Sorting.SortBy(SpanLeq, references);
  }

  /** The merged list holds exactly the wikilinks and the Markdown links. */
  lemma ReferencesAre(body: string, x: ParsedReference)
    ensures x in References(body) <==> x in Wikilinks(body) || x in KivalLinks(body)
    ensures x in References(body) && x.kind == Wikilink ==>
              x in Wikilinks(body) && x.rawTarget != "" && Trim(x.rawTarget) == x.rawTarget
  {
    hide ParseKivalDestination;
    Sorting.MultisetMembership(References(body), Wikilinks(body) + KivalLinks(body));
    RawTargetsTrimmed(body);
    if x in KivalLinks(body) {
      var k :| 0 <= k < |KivalLinks(body)| && KivalLinks(body)[k] == x;
      KivalLinksSound(body, k);
    }
  }

  // ---------------------------------------------------------------- printing and parsing

  /** A piece of a printed body: plain text, or a link with its authored target and display text. */
  datatype Piece = Plain(text: string) | Link(target: string, display: Option<string>)

  ghost predicate Printable(p: Piece) {
    match p
    case Plain(text) => FreeOf(text, '[')
    case Link(target, display) =>
      && Trim(target) != "" && FreeOf(target, '[') && FreeOf(target, ']') && FreeOf(target, '|')
      && (display.Some? ==> FreeOf(display.value, '[') && FreeOf(display.value, ']'))
  }

  function Content(target: string, display: Option<string>): string {
    match display
    case Some(text) => target + "|" + text
    case None => target
  }

  function PrintPiece(p: Piece): string {
    match p
    case Plain(text) => text
    case Link(target, display) => "[[" + Content(target, display) + "]]"
  }

  function Print(pieces: seq<Piece>): string {
    if pieces == [] then "" else PrintPiece(pieces[0]) + Print(pieces[1..])
  }

  /** The reference a piece printed on bytes `offset..next` stands for. */
  function ExpectedPiece(p: Piece, offset: nat, next: nat): seq<ParsedReference> {
    match p
    case Plain(_) => []
    case Link(target, display) =>
      var displayText := if display.Some? && Trim(display.value) != "" then Some(Trim(display.value)) else None;
      [ParsedReference(Trim(target), displayText, Wikilink, offset, next, None, None)]
  }

  /** The links a printed body should parse to, when it starts at byte `offset`. */
  function Expected(pieces: seq<Piece>, offset: nat): seq<ParsedReference> {
    if pieces == [] then []
    else
      var next := offset + ByteLen(PrintPiece(pieces[0]));
      ExpectedPiece(pieces[0], offset, next) + Expected(pieces[1..], next)
  }

  lemma ContentReads(target: string, display: Option<string>)
    requires Printable(Link(target, display))
    ensures !Contains(Content(target, display), "[[")
    ensures WikilinkContent(Content(target, display))
         == (Trim(target), if display.Some? then NonEmptyOwned(display.value) else None)
  {
    hide Trim, NonEmptyOwned;
    var content := Content(target, display);
    FindFirst(content, "[[", 0);
    FindChar(content, '|', 0);
    if display.Some? {
      assert content[|target|] == '|';
      assert content[..|target|] == target && content[|target| + 1..] == display.value;
    }
  }

  /** A printed link's own brackets delimit it: no closing occurs earlier. */
  lemma LinkCloses(body: string, c: nat, content: string)
    requires OccursAt(body, "[[" + content + "]]", c)
    requires FreeOf(content, ']')
    ensures OccursAt(body, "[[", c)
    ensures Find(body, "]]", c + 2) == Some(c + 2 + |content|)
    ensures OccursAt(body, content, c + 2)
  {
    var close := c + 2 + |content|;
    assert "[[" + content + "]]" == "[[" + (content + "]]");
    OccursSplit(body, "[[", content + "]]", c);
    OccursSplit(body, content, "]]", c + 2);
    OccursChars(body, content, c + 2);
    forall k | c + 2 <= k < close ensures !OccursAt(body, "]]", k) {
      NoOccurrence(body, "]]", k);
    }
    FindIs(body, "]]", c + 2, close);
  }

  lemma OffsetFits(body: string, i: nat)
    requires i <= |body| && ByteLen(body) <= I32_MAX
    ensures Offset(body, i) <= I32_MAX
  {
    OffsetMonotone(body, i, |body|);
    assert body[..|body|] == body;
  }

  lemma WikilinkReads(body: string, c: nat, content: string)
    requires c + |content| + 4 <= |body| && OccursAt(body, content, c + 2)
    requires !Contains(content, "[[") && BareWikilink(content).rawTarget != "" && ByteLen(body) <= I32_MAX
    ensures var end := c + |content| + 4;
            WikilinkOf(body, (c, end))
            == Some(BareWikilink(content).(spanStart := Offset(body, c), spanEnd := Offset(body, end)))
  {
    hide Contains, BareWikilink, Offset, ByteLen;
    OffsetFits(body, c);
    OffsetFits(body, c + |content| + 4);
    assert (c + |content| + 4) - 2 == c + 2 + |content|;
  }

  /** The link printed at `c` is the next pair, and it reads back as authored. */
  lemma LinkParses(body: string, c: nat, target: string, display: Option<string>)
    requires Printable(Link(target, display)) && ByteLen(body) <= I32_MAX
    requires OccursAt(body, PrintPiece(Link(target, display)), c)
    ensures var end := c + |PrintPiece(Link(target, display))|;
            && PairEnd(body, c) == Some(end)
            && OptionToSeq(WikilinkOf(body, (c, end)))
               == ExpectedPiece(Link(target, display), Offset(body, c), Offset(body, end))
  {
    hide Trim, NonEmptyOwned, Find, Contains, WikilinkContent, WikilinkOf, Offset, ByteLen, OccursAt;
    var content := Content(target, display);
    ContentReads(target, display);
    if display.Some? {
      DisplayIs(display.value, NonEmptyOwned(display.value));
    }
    LinkCloses(body, c, content);
    WikilinkReads(body, c, content);
  }

  lemma PlainHoldsNoPair(body: string, c: nat, text: string)
    requires OccursAt(body, text, c) && FreeOf(text, '[')
    ensures forall s: nat :: c <= s < c + |text| ==> PairEnd(body, s).None?
  {
    OccursChars(body, text, c);
    forall s: nat | c <= s < c + |text| ensures PairEnd(body, s).None? {
      NoOccurrence(body, "[[", s);
    }
  }

  lemma PlainStep(body: string, c: nat, text: string)
    requires OccursAt(body, text, c) && FreeOf(text, '[')
    ensures WikilinksFrom(body, c) == WikilinksFrom(body, c + |text|)
  {
    hide WikilinkOf;
    PlainHoldsNoPair(body, c, text);
    hide PairEnd;
    PairsBounded(body);
    LeftmostScan.CollectSkips(Pairs(body), WikilinkReader(body), c, c + |text|, |body|);
  }

  lemma LinkStep(body: string, c: nat, end: nat)
    requires PairEnd(body, c) == Some(end)
    ensures WikilinksFrom(body, c) == OptionToSeq(WikilinkOf(body, (c, end))) + WikilinksFrom(body, end)
  {
    hide WikilinkOf, PairEnd;
    PairsBounded(body);
    LeftmostScan.CollectMatch(Pairs(body), WikilinkReader(body), c, end, |body|);
  }

  lemma PieceStep(body: string, c: nat, p: Piece)
    requires OccursAt(body, PrintPiece(p), c) && Printable(p) && ByteLen(body) <= I32_MAX
    ensures var end := c + |PrintPiece(p)|;
            WikilinksFrom(body, c) == ExpectedPiece(p, Offset(body, c), Offset(body, end)) + WikilinksFrom(body, end)
  {
    hide WikilinkOf, WikilinkContent, PairEnd, WikilinksFrom, Trim, NonEmptyOwned, ByteLen, Offset;
    match p
    case Plain(text) => PlainStep(body, c, text);
    case Link(target, display) =>
      LinkParses(body, c, target, display);
      LinkStep(body, c, c + |PrintPiece(p)|);
  }

  lemma WikilinksEnd(body: string)
    ensures WikilinksFrom(body, |body|) == []
  {
    hide WikilinkOf;
    PairsBounded(body);
    LeftmostScan.CollectStops(Pairs(body), WikilinkReader(body), |body|, |body|);
  }

  lemma {:induction false} PrintParses(body: string, c: nat, pieces: seq<Piece>)
    requires OccursAt(body, Print(pieces), c) && c + |Print(pieces)| == |body|
    requires ByteLen(body) <= I32_MAX
    requires forall p :: p in pieces ==> Printable(p)
    ensures WikilinksFrom(body, c) == Expected(pieces, Offset(body, c))
    decreases |pieces|
  {
    hide PrintPiece, Printable, ExpectedPiece, WikilinksFrom, ByteLen, Offset, OccursAt;
    if pieces == [] {
      WikilinksEnd(body);
    } else {
      var text := PrintPiece(pieces[0]);
      OccursSplit(body, text, Print(pieces[1..]), c);
      OffsetAfter(body, text, c);
      PrintParses(body, c + |text|, pieces[1..]);
      PieceStep(body, c, pieces[0]);
    }
  }

  /**
   * Parsing undoes printing: a body of plain text and links parses to exactly those links, in
   * order, with their byte spans.
   */
  lemma PrintThenParse(pieces: seq<Piece>)
    requires forall p :: p in pieces ==> Printable(p)
    requires ByteLen(Print(pieces)) <= I32_MAX
    ensures Wikilinks(Print(pieces)) == Expected(pieces, 0)
  {
    hide Trim, NonEmptyOwned, WikilinkOf;
    var body := Print(pieces);
    assert body[0..|body|] == body;
    PrintParses(body, 0, pieces);
  }
}
