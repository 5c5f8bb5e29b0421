/**
  The segment computation of the inline suggestion view
  (`renderContentWithSuggestions`). It walks the change groups in
  ascending `startPos` with a cursor into the original text, and emits the
  untouched text before each group, the group's deletions and the group's
  insertions; the cursor then jumps to the group's `endPos`.
 */
module InlineSuggestions {
  import opened Text
  import opened ChangeGroups
  import Sorting

  datatype Segment = Unchanged(text: Content) | Deleted(text: Content) | Inserted(text: Content)

  /** What the view shows: the original as it is, the "No content" notice, or the segments. */
  datatype View = Plain(text: Content) | NoContent | Segments(segments: seq<Segment>)

  function NegatedStartPos(g: ChangeGroup): int { -g.startPos }

  /** The stable ascending sort by `startPos` the view uses. */
  function DisplayOrder(groups: seq<ChangeGroup>): (r: seq<ChangeGroup>)
    ensures multiset(r) == multiset(groups)
    ensures forall i, j :: 0 <= i < j < |r| ==> r[i].startPos <= r[j].startPos
  {
    var r := Sorting.SortDesc(groups, NegatedStartPos);
    assert Sorting.NonIncreasing(r, NegatedStartPos);
    r
  }

  function DeletionSegments(dels: seq<Edit>): (r: seq<Segment>)
    ensures |r| == |dels|
    ensures forall i :: 0 <= i < |dels| ==> r[i] == Deleted(dels[i].text)
  {
    seq(|dels|, i requires 0 <= i < |dels| => Deleted(dels[i].text))
  }

  function InsertionSegments(ins: seq<Edit>): (r: seq<Segment>)
    ensures |r| == |ins|
    ensures forall i :: 0 <= i < |ins| ==> r[i] == Inserted(ins[i].text)
  {
    seq(|ins|, i requires 0 <= i < |ins| => Inserted(ins[i].text))
  }

  /** The segments of one group reached at `cursor`: the untouched gap, the deletions, the insertions. */
  function GroupSegments(original: Content, cursor: int, g: ChangeGroup): seq<Segment> {
    Gap(original, cursor, g)
    + DeletionSegments(g.deletions)
    + InsertionSegments(g.insertions)
  }

  /** The segments from `cursor` on, through `groups` in the order given. */
  function Walk(original: Content, cursor: int, groups: seq<ChangeGroup>): seq<Segment>
    decreases |groups|
  {
    if |groups| == 0 then
      if cursor < |original| then [Unchanged(From(original, cursor))] else []
    else
      GroupSegments(original, cursor, groups[0]) + Walk(original, groups[0].endPos, groups[1..])
  }

  function Render(original: Content, groups: seq<ChangeGroup>): (r: View)
    ensures |groups| == 0 ==> r == Plain(original)
    ensures |groups| > 0 && |original| == 0 ==> r == NoContent
    ensures |groups| > 0 && |original| > 0 ==> r.Segments?
  {
    if |groups| == 0 then Plain(original)
    else if |original| == 0 then NoContent
    else Segments(Walk(original, 0, DisplayOrder(groups)))
  }

  // ---------------------------------------------------------------------------
  // Reading the view

  /** The text of the segments a reader takes as the original: unchanged and deleted. */
  function OldReading(segments: seq<Segment>): Content
    decreases |segments|
  {
    if |segments| == 0 then []
    else (if segments[0].Inserted? then [] else segments[0].text) + OldReading(segments[1..])
  }

  /** The text of the segments a reader takes as the result: unchanged and inserted. */
  function NewReading(segments: seq<Segment>): Content
    decreases |segments|
  {
    if |segments| == 0 then []
    else (if segments[0].Deleted? then [] else segments[0].text) + NewReading(segments[1..])
  }

  function ShownOriginal(v: View): Content {
    match v
    case Plain(t) => t
    case NoContent => []
    case Segments(s) => OldReading(s)
  }

  function ShownResult(v: View): Content {
    match v
    case Plain(t) => t
    case NoContent => []
    case Segments(s) => NewReading(s)
  }

  lemma ReadingsAppend(a: seq<Segment>, b: seq<Segment>)
    ensures OldReading(a + b) == OldReading(a) + OldReading(b)
    ensures NewReading(a + b) == NewReading(a) + NewReading(b)
  {
    OldReadingAppend(a, b);
    NewReadingAppend(a, b);
  }

  lemma {:induction false} OldReadingAppend(a: seq<Segment>, b: seq<Segment>)
    ensures OldReading(a + b) == OldReading(a) + OldReading(b)
    decreases |a|
  {
    if |a| == 0 {
      assert a + b == b;
    } else {
      var head := if a[0].Inserted? then [] else a[0].text;
      assert (a + b)[0] == a[0] && (a + b)[1..] == a[1..] + b;
      assert OldReading(a + b) == head + OldReading(a[1..] + b);
      OldReadingAppend(a[1..], b);
      assert OldReading(a) == head + OldReading(a[1..]);
    }
  }

  lemma {:induction false} NewReadingAppend(a: seq<Segment>, b: seq<Segment>)
    ensures NewReading(a + b) == NewReading(a) + NewReading(b)
    decreases |a|
  {
    if |a| == 0 {
      assert a + b == b;
    } else {
      var head := if a[0].Deleted? then [] else a[0].text;
      assert (a + b)[0] == a[0] && (a + b)[1..] == a[1..] + b;
      assert NewReading(a + b) == head + NewReading(a[1..] + b);
      NewReadingAppend(a[1..], b);
      assert NewReading(a) == head + NewReading(a[1..]);
    }
  }

  lemma {:induction false} ReadingsOfDeletions(dels: seq<Edit>)
    ensures OldReading(DeletionSegments(dels)) == DeletedText(dels)
    ensures NewReading(DeletionSegments(dels)) == []
    decreases |dels|
  {
    if |dels| > 0 {
      assert DeletionSegments(dels)[1..] == DeletionSegments(dels[1..]);
      ReadingsOfDeletions(dels[1..]);
    }
  }

  lemma {:induction false} ReadingsOfInsertions(ins: seq<Edit>)
    ensures OldReading(InsertionSegments(ins)) == []
    ensures NewReading(InsertionSegments(ins)) == InsertedText(ins)
    decreases |ins|
  {
    if |ins| > 0 {
      assert InsertionSegments(ins)[1..] == InsertionSegments(ins[1..]);
      ReadingsOfInsertions(ins[1..]);
    }
  }

  /** A group read as the original: its span holds the deleted text. */
  function DeletionSpan(g: ChangeGroup): Span {
    Span(g.startPos, g.endPos, DeletedText(g.deletions))
  }

  /** A group read as the result: its span holds the inserted text, in stored order. */
  function InsertionSpan(g: ChangeGroup): Span {
    Span(g.startPos, g.endPos, InsertedText(g.insertions))
  }

  /** The untouched text before a group, as a segment list. */
  function Gap(original: Content, cursor: int, g: ChangeGroup): seq<Segment> {
    if cursor < g.startPos then [Unchanged(Between(original, cursor, g.startPos))] else []
  }

  lemma GapReadings(original: Content, cursor: int, g: ChangeGroup)
    ensures OldReading(Gap(original, cursor, g)) == Between(original, cursor, g.startPos)
    ensures NewReading(Gap(original, cursor, g)) == Between(original, cursor, g.startPos)
  {
    if cursor < g.startPos {
      var gap := Gap(original, cursor, g);
      assert gap[1..] == [];
      assert OldReading(gap) == Between(original, cursor, g.startPos) + OldReading([]);
      assert NewReading(gap) == Between(original, cursor, g.startPos) + NewReading([]);
    }
  }

  lemma GroupReadings(original: Content, cursor: int, g: ChangeGroup)
    ensures OldReading(GroupSegments(original, cursor, g)) == Between(original, cursor, g.startPos) + DeletedText(g.deletions)
    ensures NewReading(GroupSegments(original, cursor, g)) == Between(original, cursor, g.startPos) + InsertedText(g.insertions)
  {
    var gap := Gap(original, cursor, g);
    var dels := DeletionSegments(g.deletions);
    assert GroupSegments(original, cursor, g) == gap + dels + InsertionSegments(g.insertions);
    ReadingsAppend(gap + dels, InsertionSegments(g.insertions));
    ReadingsAppend(gap, dels);
    ReadingsOfDeletions(g.deletions);
    ReadingsOfInsertions(g.insertions);
    GapReadings(original, cursor, g);
  }

  /**
    Read as the original, the walk is the left-to-right rebuild through the
    groups with each span holding its deleted text; read as the result, the
    same with each span holding its inserted text. Nothing is assumed about
    the groups.
   */
  lemma {:induction false} WalkReadings(original: Content, cursor: int, groups: seq<ChangeGroup>)
    ensures OldReading(Walk(original, cursor, groups)) == Rebuild(original, cursor, Spans(groups, DeletionSpan))
    ensures NewReading(Walk(original, cursor, groups)) == Rebuild(original, cursor, Spans(groups, InsertionSpan))
    decreases |groups|
  {
    if |groups| == 0 {
      if cursor < |original| {
        assert OldReading([Unchanged(From(original, cursor))]) == From(original, cursor) + OldReading([]);
        assert NewReading([Unchanged(From(original, cursor))]) == From(original, cursor) + NewReading([]);
      }
    } else {
      var g := groups[0];
      ReadingsAppend(GroupSegments(original, cursor, g), Walk(original, g.endPos, groups[1..]));
      GroupReadings(original, cursor, g);
      WalkReadings(original, g.endPos, groups[1..]);
      assert Spans(groups, DeletionSpan)[1..] == Spans(groups[1..], DeletionSpan);
      assert Spans(groups, InsertionSpan)[1..] == Spans(groups[1..], InsertionSpan);
    }
  }

  // ---------------------------------------------------------------------------
  // What the view promises

  /** The group's deletions are the original text of its span. */
  predicate Matches(original: Content, g: ChangeGroup) {
    0 <= g.startPos <= g.endPos <= |original| && DeletedText(g.deletions) == original[g.startPos..g.endPos]
  }

  /** Well-formed groups that lie apart come out of the display sort strictly left to right. */
  lemma DisplayOrderAscends(groups: seq<ChangeGroup>)
    requires forall i :: 0 <= i < |groups| ==> WellFormed(groups[i])
    requires Sorting.Pairwise(groups, Apart)
    ensures var order := DisplayOrder(groups);
      && (forall i :: 0 <= i < |order| ==> WellFormed(order[i]))
      && (forall i, j :: 0 <= i < j < |order| ==> order[i].endPos < order[j].startPos)
  {
    var order := DisplayOrder(groups);
    Sorting.SortDescPairwise(groups, NegatedStartPos, Apart);
    forall i | 0 <= i < |order|
      ensures WellFormed(order[i])
    {
      assert order[i] in multiset(groups);
    }
    forall i, j | 0 <= i < j < |order|
      ensures order[i].endPos < order[j].startPos
    {
      TilesShape(order[j].deletions, order[j].startPos, order[j].endPos);
      assert Apart(order[i], order[j]);
    }
  }

  /**
    The view shows the COMPLETE original: for groups inside the text,
    pairwise apart, whose deletions are the original text of their spans,
    the unchanged and deleted segments together read back exactly the
    original, in whatever order the groups are stored. Where a group's
    insertions sit is irrelevant to this reading.
   */
  lemma ShowsWholeOriginal(original: Content, groups: seq<ChangeGroup>)
    requires forall i :: 0 <= i < |groups| ==> Matches(original, groups[i])
    requires Sorting.Pairwise(groups, Apart)
    ensures ShownOriginal(Render(original, groups)) == original
  {
    if |groups| > 0 && |original| > 0 {
      var order := DisplayOrder(groups);
      assert Render(original, groups) == Segments(Walk(original, 0, order));
      DeletionSpansInOrder(original, groups);
      WalkReadings(original, 0, order);
      RebuildUnchanged(original, 0, Spans(order, DeletionSpan));
    }
  }

  /**
    The same for groups stored left to right, each ending at or before the
    next one starts (adjacent groups allowed).
   */
  lemma ShowsWholeOriginalInStoredOrder(original: Content, groups: seq<ChangeGroup>)
    requires forall i :: 0 <= i < |groups| ==> Matches(original, groups[i])
    requires forall i, j :: 0 <= i < j < |groups| ==> groups[i].endPos <= groups[j].startPos
    ensures ShownOriginal(Render(original, groups)) == original
  {
    if |groups| > 0 && |original| > 0 {
      Sorting.SortDescOfSorted(groups, NegatedStartPos);
      assert DisplayOrder(groups) == groups;
      assert Render(original, groups) == Segments(Walk(original, 0, groups));
      var spans := Spans(groups, DeletionSpan);
      MatchingSpansFit(original, groups);
      WalkReadings(original, 0, groups);
      RebuildUnchanged(original, 0, spans);
    }
  }

  /** The deletion span of each matching group fits the original and holds its text. */
  lemma MatchingSpansFit(original: Content, order: seq<ChangeGroup>)
    requires forall i :: 0 <= i < |order| ==> Matches(original, order[i])
    ensures var spans := Spans(order, DeletionSpan);
      forall i :: 0 <= i < |spans| ==> Fits(original, spans[i]) && spans[i].text == original[spans[i].lo..spans[i].hi]
  {
  }

  /** In display order, the deletion spans fit, hold the original text, and follow one another. */
  lemma DeletionSpansInOrder(original: Content, groups: seq<ChangeGroup>)
    requires forall i :: 0 <= i < |groups| ==> Matches(original, groups[i])
    requires Sorting.Pairwise(groups, Apart)
    ensures var spans := Spans(DisplayOrder(groups), DeletionSpan);
      && (forall i :: 0 <= i < |spans| ==> Fits(original, spans[i]) && spans[i].text == original[spans[i].lo..spans[i].hi])
      && (|spans| > 0 ==> 0 <= spans[0].lo)
      && (forall i :: 0 <= i < |spans| - 1 ==> spans[i].hi <= spans[i + 1].lo)
  {
    var order := DisplayOrder(groups);
    Sorting.SortDescPairwise(groups, NegatedStartPos, Apart);
    forall i | 0 <= i < |order|
      ensures Matches(original, order[i])
    {
      assert order[i] in multiset(groups);
    }
    MatchingSpansFit(original, order);
    forall i | 0 <= i < |order| - 1
      ensures order[i].endPos <= order[i + 1].startPos
    {
      assert Apart(order[i], order[i + 1]);
    }
  }

  /** Strictly ascending groups are displayed in their stored order. */
  lemma AscendingGroupsKeepOrder(groups: seq<ChangeGroup>)
    requires forall i, j :: 0 <= i < j < |groups| ==> groups[i].startPos < groups[j].startPos
    ensures DisplayOrder(groups) == groups
  {
    Sorting.SortDescOfSorted(groups, NegatedStartPos);
  }

  /**
    The view and `accept` agree: for the groups of the position-safety
    theorem, each with at most one insertion, the unchanged and inserted
    segments read exactly the content `accept` writes, in whatever order the
    groups are stored. (An empty original with groups shows "No content"
    instead.)
   */
  lemma ShowsAcceptedResult(original: Content, groups: seq<ChangeGroup>)
    requires |original| > 0 || |groups| == 0
    requires forall i :: 0 <= i < |groups| ==>
      WellFormed(groups[i]) && groups[i].endPos <= |original| && |groups[i].insertions| <= 1
    requires Sorting.Pairwise(groups, Apart)
    ensures ShownResult(Render(original, groups)) == ApplyChangeGroups(original, groups)
  {
    if |groups| > 0 {
      var order := DisplayOrder(groups);
      assert Render(original, groups) == Segments(Walk(original, 0, order));
      WalkReadings(original, 0, order);
      AcceptRebuildsDisplayOrder(original, groups);
    }
  }

  /** What `accept` writes is the rebuild through the groups in display order, each span holding its insertions. */
  lemma AcceptRebuildsDisplayOrder(original: Content, groups: seq<ChangeGroup>)
    requires forall i :: 0 <= i < |groups| ==>
      WellFormed(groups[i]) && groups[i].endPos <= |original| && |groups[i].insertions| <= 1
    requires Sorting.Pairwise(groups, Apart)
    ensures ApplyChangeGroups(original, groups) == Rebuild(original, 0, Spans(DisplayOrder(groups), InsertionSpan))
  {
    var order := DisplayOrder(groups);
    ApplyChangeGroupsRebuilds(original, groups);
    DisplayIsProcessingReversed(groups);
    forall i | 0 <= i < |order|
      ensures |order[i].insertions| <= 1
    {
      assert order[i] in multiset(groups);
    }
    InsertionSpansAreGroupSpans(order);
  }

  /** The view's ascending order is the reverse of the order `accept` applies the groups in. */
  lemma DisplayIsProcessingReversed(groups: seq<ChangeGroup>)
    requires forall i :: 0 <= i < |groups| ==> WellFormed(groups[i])
    requires Sorting.Pairwise(groups, Apart)
    ensures DisplayOrder(groups) == Sorting.Reverse(ProcessingOrder(groups))
  {
    var processing := ProcessingOrder(groups);
    DisplayOrderStrict(groups);
    ProcessingOrderStrict(groups);
    ReverseAscends(processing);
    Sorting.ReverseMultiset(processing);
    Sorting.StrictlySortedUnique(DisplayOrder(groups), Sorting.Reverse(processing), StartPos);
  }

  /** Groups that lie apart are displayed in strictly increasing `startPos`. */
  lemma DisplayOrderStrict(groups: seq<ChangeGroup>)
    requires forall i :: 0 <= i < |groups| ==> WellFormed(groups[i])
    requires Sorting.Pairwise(groups, Apart)
    ensures var order := DisplayOrder(groups);
      forall i, j :: 0 <= i < j < |order| ==> StartPos(order[i]) < StartPos(order[j])
  {
    var order := DisplayOrder(groups);
    DisplayOrderAscends(groups);
    forall i, j | 0 <= i < j < |order|
      ensures StartPos(order[i]) < StartPos(order[j])
    {
      TilesShape(order[i].deletions, order[i].startPos, order[i].endPos);
    }
  }

  lemma ReverseAscends(order: seq<ChangeGroup>)
    requires forall i, j :: 0 <= i < j < |order| ==> order[j].startPos < order[i].startPos
    ensures var ascending := Sorting.Reverse(order);
      forall i, j :: 0 <= i < j < |ascending| ==> StartPos(ascending[i]) < StartPos(ascending[j])
  {
    var ascending := Sorting.Reverse(order);
    forall i, j | 0 <= i < j < |ascending|
      ensures StartPos(ascending[i]) < StartPos(ascending[j])
    {
      assert ascending[i] == order[|order| - 1 - i] && ascending[j] == order[|order| - 1 - j];
    }
  }

  /** Groups that lie apart have distinct starts, so `accept` visits them in strictly decreasing `startPos`. */
  lemma ProcessingOrderStrict(groups: seq<ChangeGroup>)
    requires forall i :: 0 <= i < |groups| ==> WellFormed(groups[i])
    requires Sorting.Pairwise(groups, Apart)
    ensures var order := ProcessingOrder(groups);
      forall i, j :: 0 <= i < j < |order| ==> order[j].startPos < order[i].startPos
  {
    var order := ProcessingOrder(groups);
    Sorting.SortDescPairwise(groups, StartPos, Apart);
    forall i, j | 0 <= i < j < |order|
      ensures order[j].startPos < order[i].startPos
    {
      assert Apart(order[i], order[j]);
      assert order[i] in multiset(groups) && order[j] in multiset(groups);
      ApartStartsDiffer(order[j], order[i]);
    }
  }

  /** Of two well-formed groups that lie apart, the one that does not start later starts strictly earlier. */
  lemma ApartStartsDiffer(x: ChangeGroup, y: ChangeGroup)
    requires WellFormed(x) && WellFormed(y) && Apart(y, x)
    requires x.startPos <= y.startPos
    ensures x.startPos < y.startPos
  {
    TilesShape(x.deletions, x.startPos, x.endPos);
    TilesShape(y.deletions, y.startPos, y.endPos);
  }

  lemma InsertionSpansAreGroupSpans(groups: seq<ChangeGroup>)
    requires forall i :: 0 <= i < |groups| ==> |groups[i].insertions| <= 1
    ensures Spans(groups, InsertionSpan) == Spans(groups, GroupSpan)
  {
    forall i | 0 <= i < |groups|
      ensures InsertionSpan(groups[i]) == GroupSpan(groups[i])
    {
      SingleInsertion(groups[i].insertions);
    }
  }

  lemma SingleInsertion(ins: seq<Edit>)
    requires |ins| <= 1
    ensures SplicedText(ins) == InsertedText(ins)
  {
    if |ins| == 1 {
      assert ins[1..] == [];
    }
  }
}
