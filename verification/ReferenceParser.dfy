/** The two body scanners and the merged reference list (crates/kernel/src/object_references.rs). */
module ReferenceParser {
  import opened Prelude
  import opened Text
  import LeftmostScan

  type Uuid = nat

  /**
   * The texts `Uuid::parse_str` accepts, with their values. The parser belongs to a library, so
   * the table is arbitrary: every result below holds whatever it contains.
   */
  const UUID_TEXTS: imap<string, Uuid>

  const I32_MAX: nat := 0x7FFF_FFFF

  datatype ReferenceKind = Wikilink | KivalObjectLink

  /** A parsed reference; spans are UTF-8 byte offsets, the end exclusive. */
  datatype ParsedReference = ParsedReference(
    rawTarget: string,
    displayText: Option<string>,
    kind: ReferenceKind,
    spanStart: nat,
    spanEnd: nat,
    targetObject: Option<Uuid>,
    targetWorkspace: Option<Uuid>)

  function NonEmptyOwned(value: string): Option<string> {
    var trimmed := Trim(value);
    if trimmed == "" then None else Some(trimmed)
  }

  /** The reference with its byte span, unless an offset does not fit the database integer. */
  function WithSpan(body: string, reference: ParsedReference, start: nat, end: nat): Option<ParsedReference>
    requires start <= |body| && end <= |body|
  {
    var spanStart, spanEnd := Offset(body, start), Offset(body, end);
    if spanStart <= I32_MAX && spanEnd <= I32_MAX
    then Some(reference.(spanStart := spanStart, spanEnd := spanEnd))
    else None
  }

  method PushReference(references: seq<ParsedReference>, reference: ParsedReference, body: string, start: nat, end: nat)
    returns (r: seq<ParsedReference>)
    requires start <= |body| && end <= |body|
    ensures var spanStart, spanEnd := ByteLen(body[..start]), ByteLen(body[..end]);
            r == references + (if spanStart <= 0x7FFF_FFFF && spanEnd <= 0x7FFF_FFFF
                               then [reference.(spanStart := spanStart, spanEnd := spanEnd)] else [])
    ensures r == references + OptionToSeq(WithSpan(body, reference, start, end))
  {
    r := references;
    match WithSpan(body, reference, start, end)
    case Some(x) => r := r + [x];
    case None =>
  }

  // ---------------------------------------------------------------- double-bracket links

  /** End of the `[[ … ]]` pair that opens at `s`. */
  function PairEnd(body: string, s: nat): Option<nat> {
    if OccursAt(body, "[[", s) then
      match Find(body, "]]", s + 2)
      case Some(e) => Some(e + 2)
      case None => None
    else None
  }

  ghost function Pairs(body: string): LeftmostScan.Matcher {
    s => PairEnd(body, s)
  }

  lemma PairsBounded(body: string)
    ensures LeftmostScan.Bounded(Pairs(body), |body|)
  {
  }

  /** Target and display text of a pair's content. */
  function WikilinkContent(content: string): (string, Option<string>) {
    match SplitOnce(content, "|")
    case Some((target, display)) => (Trim(target), NonEmptyOwned(display))
    case None => (Trim(content), None)
  }

  function BareWikilink(content: string): ParsedReference {
    var (target, display) := WikilinkContent(content);
    ParsedReference(target, display, Wikilink, 0, 0, None, None)
  }

  /** The reference a pair stands for: nested openings and blank targets are ignored. */
  function WikilinkOf(body: string, span: (nat, nat)): Option<ParsedReference> {
    if span.0 + 4 <= span.1 <= |body| then
      var content := body[span.0 + 2..span.1 - 2];
      if Contains(content, "[[") || BareWikilink(content).rawTarget == "" then None
      else WithSpan(body, BareWikilink(content), span.0, span.1)
    else None
  }

  ghost function WikilinkReader(body: string): ((nat, nat)) -> Option<ParsedReference> {
    span => WikilinkOf(body, span)
  }

  ghost function WikilinksFrom(body: string, cursor: nat): seq<ParsedReference> {
    PairsBounded(body);
    LeftmostScan.Collect(Pairs(body), WikilinkReader(body), cursor, |body|)
  }

  /** What `parse_wikilinks` returns: the references of the leftmost scan's pairs. */
  ghost function Wikilinks(body: string): seq<ParsedReference> {
    WikilinksFrom(body, 0)
  }

  /** An opening or a closing that is missing from the cursor on leaves no pair to find. */
  lemma WikilinksStop(body: string, cursor: nat)
    requires cursor <= |body|
    requires var opening := Find(body, "[[", cursor);
             opening.None? || Find(body, "]]", opening.value + 2).None?
    ensures WikilinksFrom(body, cursor) == []
  {
    FindFirst(body, "[[", cursor);
    forall s: nat | cursor <= s ensures PairEnd(body, s).None? {
      if OccursAt(body, "[[", s) {
        FindLater(body, "]]", Find(body, "[[", cursor).value + 2, s + 2);
      }
    }
    PairsBounded(body);
    LeftmostScan.CollectStops(Pairs(body), WikilinkReader(body), cursor, |body|);
  }

  /** The first opening and the first closing after it are the scan's next pair. */
  lemma WikilinksAdvance(body: string, cursor: nat, start: nat, contentEnd: nat)
    requires cursor <= |body|
    requires Find(body, "[[", cursor) == Some(start)
    requires Find(body, "]]", start + 2) == Some(contentEnd)
    ensures WikilinksFrom(body, cursor)
         == OptionToSeq(WikilinkOf(body, (start, contentEnd + 2))) + WikilinksFrom(body, contentEnd + 2)
  {
    hide WikilinkOf, Find;
    FindFirst(body, "[[", cursor);
    PairsBounded(body);
    LeftmostScan.CollectSkips(Pairs(body), WikilinkReader(body), cursor, start, |body|);
    LeftmostScan.CollectMatch(Pairs(body), WikilinkReader(body), start, contentEnd + 2, |body|);
  }

  /** Appends the reference of one pair, unless it nests an opening or its target is blank. */
  method PushWikilink(references: seq<ParsedReference>, body: string, start: nat, contentEnd: nat)
    returns (r: seq<ParsedReference>)
    requires start + 2 <= contentEnd && contentEnd + 2 <= |body|
    ensures r == references + OptionToSeq(WikilinkOf(body, (start, contentEnd + 2)))
  {
    hide Contains, WikilinkContent;
    r := references;
    var content := body[start + 2..contentEnd];
    if !Contains(content, "[[") {
      var (rawTarget, displayText) := WikilinkContent(content);
      if rawTarget != "" {
        var reference := ParsedReference(rawTarget, displayText, Wikilink, 0, 0, None, None);
        r := PushReference(r, reference, body, start, contentEnd + 2);
      }
    }
  }

  /** Scans for double-bracket links with a cursor, stopping at the first unclosed opening. */
  method ParseWikilinks(body: string) returns (references: seq<ParsedReference>)
    ensures references == Wikilinks(body)
  {
    hide WikilinkOf, WikilinksFrom;
    references := [];
    var cursor := 0;
    while true
      invariant cursor <= |body|
      invariant references + WikilinksFrom(body, cursor) == Wikilinks(body)
      decreases |body| - cursor
    {
      var opening := Find(body, "[[", cursor);
      if opening.None? {
        WikilinksStop(body, cursor);
        break;
      }
      var start := opening.value;
      var closing := Find(body, "]]", start + 2);
      if closing.None? {
        WikilinksStop(body, cursor);
        break;
      }
      var contentEnd := closing.value;
      WikilinksAdvance(body, cursor, start, contentEnd);
      references := PushWikilink(references, body, start, contentEnd);
      cursor := contentEnd + 2;
    }
  }

  // ---------------------------------------------------------------- Markdown links

  function ParseExactUuid(value: string): Option<Uuid> {
    if value != "" && !Contains(value, "/") && value in UUID_TEXTS then Some(UUID_TEXTS[value]) else None
  }

  /** Optional workspace and object of a supported destination. */
  function ParseKivalDestination(destination: string): Option<(Option<Uuid>, Uuid)> {
    match StripPrefix(destination, "kival://objects/")
    case Some(objectText) =>
      (match ParseExactUuid(objectText)
       case Some(target) => Some((None, target))
       case None => None)
    case None =>
      match StripPrefix(destination, "kival://workspaces/")
      case None => None
      case Some(rest) =>
        match SplitOnce(rest, "/objects/")
        case None => None
        case Some((workspaceText, objectText)) =>
          match (ParseExactUuid(workspaceText), ParseExactUuid(objectText))
          case (Some(workspace), Some(target)) => Some((Some(workspace), target))
          case _ => None
  }

  /** Closing bracket of the label that opens at `s` and closing parenthesis of its destination. */
  function LinkParts(body: string, s: nat): Option<(nat, nat)> {
    if s < |body| && body[s] == '[' && (s > 0 ==> body[s - 1] != '!') then
      match Find(body, "]", s + 1)
      case None => None
      case Some(labelEnd) =>
        if labelEnd + 1 < |body| && body[labelEnd + 1] == '(' then
          match Find(body, ")", labelEnd + 2)
          case Some(destinationEnd) => Some((labelEnd, destinationEnd))
          case None => None
        else None
    else None
  }

  function LinkEnd(body: string, s: nat): Option<nat> {
    match LinkParts(body, s)
    case Some((_, destinationEnd)) => Some(destinationEnd + 1)
    case None => None
  }

  ghost function Links(body: string): LeftmostScan.Matcher {
    s => LinkEnd(body, s)
  }

  lemma LinksBounded(body: string)
    ensures LeftmostScan.Bounded(Links(body), |body|)
  {
  }

  function BareKivalLink(labelText: string, destination: string): Option<ParsedReference> {
    match ParseKivalDestination(destination)
    case Some((workspace, target)) =>
      Some(ParsedReference(destination, NonEmptyOwned(labelText), KivalObjectLink, 0, 0, Some(target), workspace))
    case None => None
  }

  /** The reference a Markdown link stands for, when its trimmed destination is a Kival URL. */
  function KivalLinkOf(body: string, span: (nat, nat)): Option<ParsedReference> {
    match LinkParts(body, span.0)
    case None => None
    case Some((labelEnd, destinationEnd)) =>
      match BareKivalLink(body[span.0 + 1..labelEnd], Trim(body[labelEnd + 2..destinationEnd]))
      case Some(reference) => WithSpan(body, reference, span.0, destinationEnd + 1)
      case None => None
  }

  ghost function KivalLinkReader(body: string): ((nat, nat)) -> Option<ParsedReference> {
    span => KivalLinkOf(body, span)
  }

  ghost function KivalLinksFrom(body: string, cursor: nat): seq<ParsedReference> {
    LinksBounded(body);
    LeftmostScan.Collect(Links(body), KivalLinkReader(body), cursor, |body|)
  }

  /** What `parse_kival_links` returns: the Kival references among the leftmost scan's links. */
  ghost function KivalLinks(body: string): seq<ParsedReference> {
    KivalLinksFrom(body, 0)
  }

  lemma KivalLinksNone(body: string, cursor: nat)
    requires forall s: nat :: cursor <= s ==> LinkParts(body, s).None?
    ensures KivalLinksFrom(body, cursor) == []
  {
    LinksBounded(body);
    LeftmostScan.CollectStops(Links(body), KivalLinkReader(body), cursor, |body|);
  }

  lemma KivalLinksSkip(body: string, cursor: nat, next: nat)
    requires cursor <= next
    requires forall s: nat :: cursor <= s < next ==> LinkParts(body, s).None?
    ensures KivalLinksFrom(body, cursor) == KivalLinksFrom(body, next)
  {
    LinksBounded(body);
    LeftmostScan.CollectSkips(Links(body), KivalLinkReader(body), cursor, next, |body|);
  }

  lemma LinkPartsAre(body: string, start: nat, labelEnd: nat, destinationEnd: nat)
    requires start < |body| && body[start] == '[' && !(start > 0 && body[start - 1] == '!')
    requires Find(body, "]", start + 1) == Some(labelEnd)
    requires labelEnd + 1 < |body| && body[labelEnd + 1] == '('
    requires Find(body, ")", labelEnd + 2) == Some(destinationEnd)
    ensures LinkParts(body, start) == Some((labelEnd, destinationEnd))
  {
  }

  lemma KivalLinksStep(body: string, start: nat, labelEnd: nat, destinationEnd: nat)
    requires LinkParts(body, start) == Some((labelEnd, destinationEnd))
    ensures KivalLinksFrom(body, start)
         == OptionToSeq(KivalLinkOf(body, (start, destinationEnd + 1))) + KivalLinksFrom(body, destinationEnd + 1)
  {
    LinksBounded(body);
    hide KivalLinkOf, LinkParts;
    LeftmostScan.CollectMatch(Links(body), KivalLinkReader(body), start, destinationEnd + 1, |body|);
  }

  /** Nothing before the first opening bracket is a link. */
  lemma KivalLinksSeek(body: string, cursor: nat)
    requires cursor <= |body|
    ensures match Find(body, "[", cursor)
            case Some(start) => body[start] == '[' && KivalLinksFrom(body, cursor) == KivalLinksFrom(body, start)
            case None => KivalLinksFrom(body, cursor) == []
  {
    var opening := Find(body, "[", cursor);
    FindChar(body, '[', cursor);
    assert forall s: nat :: cursor <= s && (opening.Some? ==> s < opening.value) ==> LinkParts(body, s).None?;
    hide LinkParts, KivalLinksFrom;
    match opening
    case None => KivalLinksNone(body, cursor);
    case Some(start) => KivalLinksSkip(body, cursor, start);
  }

  lemma KivalLinksPastImage(body: string, start: nat)
    requires 0 < start < |body| && body[start - 1] == '!'
    ensures KivalLinksFrom(body, start) == KivalLinksFrom(body, start + 1)
  {
    KivalLinksSkip(body, start, start + 1);
  }

  /** An early stop loses nothing: every later label closes no earlier than the first one does. */
  lemma KivalLinksStop(body: string, start: nat)
    requires start < |body|
    requires var labelEnd := Find(body, "]", start + 1);
             labelEnd.None? || (labelEnd.value + 2 <= |body| && Find(body, ")", labelEnd.value + 2).None?)
    ensures KivalLinksFrom(body, start) == []
  {
    forall s: nat | start <= s ensures LinkParts(body, s).None? {
      NoLinkAfterStop(body, start, s);
    }
    hide LinkParts, KivalLinksFrom;
    KivalLinksNone(body, start);
  }

  lemma NoLinkAfterStop(body: string, start: nat, s: nat)
    requires start < |body| && start <= s
    requires var labelEnd := Find(body, "]", start + 1);
             labelEnd.None? || (labelEnd.value + 2 <= |body| && Find(body, ")", labelEnd.value + 2).None?)
    ensures LinkParts(body, s).None?
  {
    hide Find, OccursAt;
    if s < |body| {
      FindLater(body, "]", start + 1, s + 1);
      var labelEnd := Find(body, "]", s + 1);
      if labelEnd.Some? && labelEnd.value + 2 <= |body| {
        FindLater(body, ")", Find(body, "]", start + 1).value + 2, labelEnd.value + 2);
      }
    }
  }

  lemma NoLinkInsideLabel(body: string, start: nat, labelEnd: nat, s: nat)
    requires start <= s <= labelEnd < |body| && Find(body, "]", start + 1) == Some(labelEnd)
    requires !(labelEnd + 1 < |body| && body[labelEnd + 1] == '(')
    ensures LinkParts(body, s).None?
  {
    if s < labelEnd {
      FindLater(body, "]", start + 1, s + 1);
    } else {
      FindChar(body, ']', start + 1);
    }
  }

  /** A label not followed by `(` hides no link that opens inside it. */
  lemma KivalLinksPastLabel(body: string, start: nat, labelEnd: nat)
    requires start < |body| && Find(body, "]", start + 1) == Some(labelEnd)
    requires !(labelEnd + 1 < |body| && body[labelEnd + 1] == '(')
    ensures KivalLinksFrom(body, start) == KivalLinksFrom(body, labelEnd + 1)
  {
    hide *;
    FindWithin(body, "]", start + 1);
    forall s: nat | start <= s < labelEnd + 1 ensures LinkParts(body, s).None? {
      NoLinkInsideLabel(body, start, labelEnd, s);
    }
    KivalLinksSkip(body, start, labelEnd + 1);
  }

  /** Appends the reference of one Markdown link when its destination is a supported Kival URL. */
  method PushKivalLink(references: seq<ParsedReference>, body: string, start: nat, labelEnd: nat, destinationEnd: nat)
    returns (r: seq<ParsedReference>)
    requires LinkParts(body, start) == Some((labelEnd, destinationEnd))
    ensures r == references + OptionToSeq(KivalLinkOf(body, (start, destinationEnd + 1)))
  {
    hide ParseKivalDestination, BareKivalLink, Find, Trim;
    r := references;
    var destination := Trim(body[labelEnd + 2..destinationEnd]);
    var reference := BareKivalLink(body[start + 1..labelEnd], destination);
    if reference.Some? {
      r := PushReference(r, reference.value, body, start, destinationEnd + 1);
    }
  }

  /** Scans for Markdown links with a cursor, skipping images and stopping when no close is left. */
  method ParseKivalLinks(body: string) returns (references: seq<ParsedReference>)
    ensures references == KivalLinks(body)
  {
    hide KivalLinkOf, KivalLinksFrom, LinkParts;
    references := [];
    var cursor := 0;
    while true
      invariant cursor <= |body|
      invariant references + KivalLinksFrom(body, cursor) == KivalLinks(body)
      decreases |body| - cursor
    {
      var opening := Find(body, "[", cursor);
      KivalLinksSeek(body, cursor);
      if opening.None? {
        break;
      }
      var start := opening.value;
      if start > 0 && body[start - 1] == '!' {
        KivalLinksPastImage(body, start);
        cursor := start + 1;
        continue;
      }
      var labelClose := Find(body, "]", start + 1);
      if labelClose.None? {
        KivalLinksStop(body, start);
        break;
      }
      var labelEnd := labelClose.value;
      if !(labelEnd + 1 < |body| && body[labelEnd + 1] == '(') {
        KivalLinksPastLabel(body, start, labelEnd);
        cursor := labelEnd + 1;
        continue;
      }
      var closing := Find(body, ")", labelEnd + 2);
      if closing.None? {
        KivalLinksStop(body, start);
        break;
      }
      var destinationEnd := closing.value;
      LinkPartsAre(body, start, labelEnd, destinationEnd);
      KivalLinksStep(body, start, labelEnd, destinationEnd);
      references := PushKivalLink(references, body, start, labelEnd, destinationEnd);
      cursor := destinationEnd + 1;
    }
  }
}
