/**
  The change-group applier of the AI suggestion workflow.

  A change group records, in the coordinates of the text it was computed
  against, the characters to delete and the text to insert. Accepting a
  suggestion applies every group, rightmost group first; inside a group all
  deletions go first, highest position first, then all insertions, highest
  position first. Each deletion removes `text.length` characters at its
  position and each insertion splices its text in at its position, both
  through `substring`, so out-of-range positions are clamped.
 */
module ChangeGroups {
  import opened Text
  import Sorting

  datatype Edit = Edit(text: Content, position: int)

  datatype ChangeGroup = ChangeGroup(startPos: int, endPos: int, deletions: seq<Edit>, insertions: seq<Edit>)

  function Position(e: Edit): int { e.position }

  function StartPos(g: ChangeGroup): int { g.startPos }

  /** `content.substring(0, position) + content.substring(position + text.length)` */
  function DeleteAt(content: Content, e: Edit): (r: Content)
    ensures 0 <= e.position && e.position + |e.text| <= |content| ==>
      r == content[..e.position] + content[e.position + |e.text|..]
    ensures |r| <= |content|
  {
    Before(content, e.position) + From(content, e.position + |e.text|)
  }

  /** `content.substring(0, position) + text + content.substring(position)` */
  function InsertAt(content: Content, e: Edit): (r: Content)
    ensures 0 <= e.position <= |content| ==>
      r == content[..e.position] + e.text + content[e.position..]
    ensures |r| == |content| + |e.text|
  {
    Before(content, e.position) + e.text + From(content, e.position)
  }

  /** One splice of the applier. */
  datatype Step = Remove(edit: Edit) | Add(edit: Edit)

  function ApplyStep(content: Content, st: Step): Content {
    match st
    case Remove(e) => DeleteAt(content, e)
    case Add(e) => InsertAt(content, e)
  }

  function Removals(es: seq<Edit>): (r: seq<Step>)
    ensures |r| == |es|
    ensures forall i :: 0 <= i < |es| ==> r[i] == Remove(es[i])
  {
    seq(|es|, i requires 0 <= i < |es| => Remove(es[i]))
  }

  function Additions(es: seq<Edit>): (r: seq<Step>)
    ensures |r| == |es|
    ensures forall i :: 0 <= i < |es| ==> r[i] == Add(es[i])
  {
    seq(|es|, i requires 0 <= i < |es| => Add(es[i]))
  }

  function StepEdits(steps: seq<Step>): (r: seq<Edit>)
    ensures |r| == |steps|
    ensures forall i :: 0 <= i < |steps| ==> r[i] == steps[i].edit
  {
    seq(|steps|, i requires 0 <= i < |steps| => steps[i].edit)
  }

  /** The splices one group performs, in the order it performs them. */
  function GroupSteps(g: ChangeGroup): seq<Step> {
    Removals(Sorting.SortDesc(g.deletions, Position)) + Additions(Sorting.SortDesc(g.insertions, Position))
  }

  /**
    Inside a group every deletion is performed before any insertion, each
    kind in non-increasing position order, and the splices are exactly the
    group's own deletions and insertions.
   */
  lemma GroupStepsOrder(g: ChangeGroup)
    ensures |GroupSteps(g)| == |g.deletions| + |g.insertions|
    ensures forall i :: 0 <= i < |g.deletions| ==> GroupSteps(g)[i].Remove?
    ensures forall i :: |g.deletions| <= i < |GroupSteps(g)| ==> GroupSteps(g)[i].Add?
    ensures forall i, j :: 0 <= i < j < |GroupSteps(g)| && GroupSteps(g)[i].Remove? == GroupSteps(g)[j].Remove? ==>
      GroupSteps(g)[i].edit.position >= GroupSteps(g)[j].edit.position
    ensures multiset(StepEdits(GroupSteps(g)[..|g.deletions|])) == multiset(g.deletions)
    ensures multiset(StepEdits(GroupSteps(g)[|g.deletions|..])) == multiset(g.insertions)
  {
    var dels := Sorting.SortDesc(g.deletions, Position);
    var ins := Sorting.SortDesc(g.insertions, Position);
    StepsOrder(dels, ins);
  }

  lemma StepsOrder(dels: seq<Edit>, ins: seq<Edit>)
    requires Sorting.NonIncreasing(dels, Position)
    requires Sorting.NonIncreasing(ins, Position)
    ensures var r := Removals(dels) + Additions(ins);
      && (forall i :: 0 <= i < |dels| ==> r[i].Remove?)
      && (forall i :: |dels| <= i < |r| ==> r[i].Add?)
      && (forall i, j :: 0 <= i < j < |r| && r[i].Remove? == r[j].Remove? ==> r[i].edit.position >= r[j].edit.position)
      && StepEdits(r[..|dels|]) == dels
      && StepEdits(r[|dels|..]) == ins
  {
    var r := Removals(dels) + Additions(ins);
    assert r[..|dels|] == Removals(dels);
    assert r[|dels|..] == Additions(ins);
    forall i, j | 0 <= i < j < |r| && r[i].Remove? == r[j].Remove?
      ensures r[i].edit.position >= r[j].edit.position
    {
      if j < |dels| {
        assert r[i].edit == dels[i] && r[j].edit == dels[j];
        assert Position(dels[i]) >= Position(dels[j]);
      } else {
        assert i >= |dels|;
        StepAfterRemovals(dels, ins, i);
        StepAfterRemovals(dels, ins, j);
        assert Position(ins[i - |dels|]) >= Position(ins[j - |dels|]);
      }
    }
  }

  /** Past the removals, the steps are the additions in their own order. */
  lemma StepAfterRemovals(dels: seq<Edit>, ins: seq<Edit>, i: int)
    requires |dels| <= i < |dels| + |ins|
    ensures (Removals(dels) + Additions(ins))[i] == Add(ins[i - |dels|])
  {
  }

  function ApplyGroup(content: Content, g: ChangeGroup): Content {
    ApplyEach(content, GroupSteps(g), ApplyStep)
  }

  /** The order in which `accept` visits the stored groups. */
  function ProcessingOrder(groups: seq<ChangeGroup>): (r: seq<ChangeGroup>)
    ensures multiset(r) == multiset(groups)
    ensures forall i, j :: 0 <= i < j < |r| ==> r[i].startPos >= r[j].startPos
  {
    var r := Sorting.SortDesc(groups, StartPos);
    assert Sorting.NonIncreasing(r, StartPos);
    r
  }

  /** The content `accept` writes back, starting from the stored content. */
  function ApplyChangeGroups(content: Content, groups: seq<ChangeGroup>): (r: Content)
    ensures |groups| == 0 ==> r == content
  {
    ApplyEach(content, ProcessingOrder(groups), ApplyGroup)
  }

  // ---------------------------------------------------------------------------
  // Position safety of a single group

  /**
    A group that only touches positions at or after `k` leaves the first `k`
    characters alone: this is what lets the lower groups, applied later, still
    find their text where it was.
   */
  lemma ApplyGroupKeepsPrefix(content: Content, g: ChangeGroup, k: nat)
    requires k <= |content|
    requires forall e :: e in g.deletions ==> e.position >= k
    requires forall e :: e in g.insertions ==> e.position >= k
    ensures k <= |ApplyGroup(content, g)|
    ensures ApplyGroup(content, g)[..k] == content[..k]
  {
    var steps := GroupSteps(g);
    StepsAtOrAfter(g, k);
    forall d: Content, i | 0 <= i < |steps| && k <= |d|
      ensures k <= |ApplyStep(d, steps[i])| && ApplyStep(d, steps[i])[..k] == d[..k]
    {
      ApplyStepKeepsPrefix(d, steps[i], k);
    }
    ApplyEachKeepsPrefix(content, steps, ApplyStep, k);
  }

  lemma StepsAtOrAfter(g: ChangeGroup, k: int)
    requires forall e :: e in g.deletions ==> e.position >= k
    requires forall e :: e in g.insertions ==> e.position >= k
    ensures forall i :: 0 <= i < |GroupSteps(g)| ==> GroupSteps(g)[i].edit.position >= k
  {
    var steps := GroupSteps(g);
    GroupStepsOrder(g);
    var n := |g.deletions|;
    forall i | 0 <= i < |steps|
      ensures steps[i].edit.position >= k
    {
      if i < n {
        assert steps[i].edit == StepEdits(steps[..n])[i];
        assert steps[i].edit in multiset(StepEdits(steps[..n]));
        assert steps[i].edit in g.deletions;
      } else {
        assert steps[i].edit == StepEdits(steps[n..])[i - n];
        assert steps[i].edit in multiset(StepEdits(steps[n..]));
        assert steps[i].edit in g.insertions;
      }
    }
  }

  lemma ApplyStepKeepsPrefix(d: Content, st: Step, k: nat)
    requires k <= |d| && st.edit.position >= k
    ensures k <= |ApplyStep(d, st)| && ApplyStep(d, st)[..k] == d[..k]
  {
    var a := SubstringIndex(st.edit.position, |d|);
    assert k <= a;
    assert Before(d, st.edit.position)[..k] == d[..k];
  }

  /**
    The deletions of a well-formed group: they cover `[from, to)` exactly,
    left to right, each one starting where the previous one ended and none
    of them empty.
   */
  predicate Tiles(dels: seq<Edit>, from: int, to: int)
    decreases |dels|
  {
    if |dels| == 0 then from == to
    else
      && dels[0].position == from
      && |dels[0].text| > 0
      && Tiles(dels[1..], from + |dels[0].text|, to)
  }

  /** The deleted text, in stored order. */
  function DeletedText(dels: seq<Edit>): Content
    decreases |dels|
  {
    if |dels| == 0 then [] else dels[0].text + DeletedText(dels[1..])
  }

  /** The inserted text, in stored order. */
  function InsertedText(ins: seq<Edit>): Content
    decreases |ins|
  {
    if |ins| == 0 then [] else ins[0].text + InsertedText(ins[1..])
  }

  /**
    The text the applier leaves in place of a group: insertions that share a
    position are spliced in one after the other at that position, so the one
    stored last ends up first.
   */
  function SplicedText(ins: seq<Edit>): Content
    decreases |ins|
  {
    if |ins| == 0 then [] else SplicedText(ins[1..]) + ins[0].text
  }

  /**
    The shape of a group that the position-safety theorem needs: the
    deletions tile `[startPos, endPos)` and every insertion sits at
    `startPos`, the point where the deleted text began.
   */
  predicate WellFormed(g: ChangeGroup) {
    && 0 <= g.startPos
    && Tiles(g.deletions, g.startPos, g.endPos)
    && (forall i :: 0 <= i < |g.insertions| ==> g.insertions[i].position == g.startPos)
  }

  /** The group as one replacement of `[startPos, endPos)` in original coordinates. */
  function GroupSpan(g: ChangeGroup): Span {
    Span(g.startPos, g.endPos, SplicedText(g.insertions))
  }

  /** Tiling deletions have strictly increasing positions inside `[from, to)`, and their text fills it. */
  lemma {:induction false} TilesShape(dels: seq<Edit>, from: int, to: int)
    requires Tiles(dels, from, to)
    ensures from <= to
    ensures |DeletedText(dels)| == to - from
    ensures forall i :: 0 <= i < |dels| ==> from <= dels[i].position && dels[i].position + |dels[i].text| <= to
    ensures forall i, j :: 0 <= i < j < |dels| ==> dels[i].position < dels[j].position
    decreases |dels|
  {
    if |dels| > 0 {
      var rest := dels[1..];
      TilesShape(rest, from + |dels[0].text|, to);
      forall i, j | 0 <= i < j < |dels|
        ensures dels[i].position < dels[j].position
      {
        assert dels[j] == rest[j - 1];
        if i > 0 {
          assert dels[i] == rest[i - 1];
        }
      }
      forall i | 0 <= i < |dels|
        ensures from <= dels[i].position && dels[i].position + |dels[i].text| <= to
      {
        if i > 0 {
          assert dels[i] == rest[i - 1];
        }
      }
    }
  }

  lemma {:induction false} RemovalsOfReverse(content: Content, dels: seq<Edit>, from: int, to: int)
    requires Tiles(dels, from, to)
    requires 0 <= from <= to <= |content|
    ensures ApplyEach(content, Removals(Sorting.Reverse(dels)), ApplyStep) == content[..from] + content[to..]
    decreases |dels|
  {
    TilesShape(dels, from, to);
    if |dels| == 0 {
      assert content == content[..from] + content[to..];
    } else {
      var mid := from + |dels[0].text|;
      var rest := dels[1..];
      RemovalsOfReverse(content, rest, mid, to);
      RemovalsOfReverseCons(dels);
      ApplyEachAppend(content, Removals(Sorting.Reverse(rest)), [Remove(dels[0])], ApplyStep);
      RemoveFirstTile(content, dels[0], from, mid, to);
    }
  }

  lemma RemovalsOfReverseCons(dels: seq<Edit>)
    requires |dels| > 0
    ensures Removals(Sorting.Reverse(dels)) == Removals(Sorting.Reverse(dels[1..])) + [Remove(dels[0])]
  {
    var rev := Sorting.Reverse(dels[1..]);
    assert Sorting.Reverse(dels) == rev + [dels[0]];
    RemovalsSnoc(rev, dels[0]);
  }

  lemma RemovalsSnoc(es: seq<Edit>, e: Edit)
    ensures Removals(es + [e]) == Removals(es) + [Remove(e)]
  {
    assert forall i :: 0 <= i < |es| ==> (es + [e])[i] == es[i];
  }

  /** Deleting the first tile from what the later tiles left is deleting the whole span. */
  lemma RemoveFirstTile(content: Content, e: Edit, from: int, mid: int, to: int)
    requires e.position == from && mid == from + |e.text|
    requires 0 <= from <= mid <= to <= |content|
    ensures ApplyEach(content[..mid] + content[to..], [Remove(e)], ApplyStep) == content[..from] + content[to..]
  {
    var shorter := content[..mid] + content[to..];
    assert ApplyEach(shorter, [Remove(e)], ApplyStep) == DeleteAt(shorter, e);
    assert shorter[..from] == content[..from];
    assert shorter[mid..] == content[to..];
  }

  lemma {:induction false} AdditionsAtOnePoint(content: Content, ins: seq<Edit>, p: int)
    requires 0 <= p <= |content|
    requires forall i :: 0 <= i < |ins| ==> ins[i].position == p
    ensures ApplyEach(content, Additions(ins), ApplyStep) == content[..p] + SplicedText(ins) + content[p..]
    decreases |ins|
  {
    if |ins| > 0 {
      var longer := InsertAt(content, ins[0]);
      assert Additions(ins)[0] == Add(ins[0]);
      assert Additions(ins)[1..] == Additions(ins[1..]);
      assert ApplyEach(content, Additions(ins), ApplyStep) == ApplyEach(longer, Additions(ins[1..]), ApplyStep);
      AdditionsAtOnePoint(longer, ins[1..], p);
      InsertAtParts(content, ins[0], p);
      assert SplicedText(ins) == SplicedText(ins[1..]) + ins[0].text;
    }
  }

  lemma InsertAtParts(content: Content, e: Edit, p: int)
    requires 0 <= p <= |content| && e.position == p
    ensures InsertAt(content, e)[..p] == content[..p]
    ensures InsertAt(content, e)[p..] == e.text + content[p..]
  {
  }

  /**
    A well-formed group inside the text replaces `[startPos, endPos)` by its
    inserted text: the insertions land where the deleted text was, even
    though they are spliced into the already-shortened string.
   */
  lemma ApplyGroupReplacesSpan(content: Content, g: ChangeGroup)
    requires WellFormed(g)
    requires g.endPos <= |content|
    ensures Fits(content, GroupSpan(g))
    ensures ApplyGroup(content, g) == Replace(content, GroupSpan(g))
  {
    TilesShape(g.deletions, g.startPos, g.endPos);
    Sorting.SortDescOfIncreasing(g.deletions, Position);
    assert Sorting.NonIncreasing(g.insertions, Position);
    Sorting.SortDescOfSorted(g.insertions, Position);
    var removals := Removals(Sorting.Reverse(g.deletions));
    var additions := Additions(g.insertions);
    assert GroupSteps(g) == removals + additions;
    ApplyEachAppend(content, removals, additions, ApplyStep);
    RemovalsOfReverse(content, g.deletions, g.startPos, g.endPos);
    var shorter := content[..g.startPos] + content[g.endPos..];
    AdditionsAtOnePoint(shorter, g.insertions, g.startPos);
    assert shorter[..g.startPos] == content[..g.startPos];
    assert shorter[g.startPos..] == content[g.endPos..];
  }

  // ---------------------------------------------------------------------------
  // Position safety of the whole accept

  /** Two groups are strictly apart: one ends before the other starts. */
  predicate Apart(a: ChangeGroup, b: ChangeGroup) {
    a.endPos < b.startPos || b.endPos < a.startPos
  }

  /**
    The claim behind processing groups from the end: when the groups are
    well formed, lie inside the content and are pairwise apart, in whatever
    order they are stored, `accept` writes exactly the content read left to
    right with every group's span replaced by its inserted text. The
    left-to-right arrangement is the unique ascending one.
   */
  lemma ApplyChangeGroupsRebuilds(content: Content, groups: seq<ChangeGroup>)
    requires forall i :: 0 <= i < |groups| ==> WellFormed(groups[i]) && groups[i].endPos <= |content|
    requires Sorting.Pairwise(groups, Apart)
    ensures var ascending := Sorting.Reverse(ProcessingOrder(groups));
      && multiset(ascending) == multiset(groups)
      && (forall i, j :: 0 <= i < j < |ascending| ==> ascending[i].endPos < ascending[j].startPos)
      && ApplyChangeGroups(content, groups) == Rebuild(content, 0, Spans(ascending, GroupSpan))
  {
    var order := ProcessingOrder(groups);
    OrderIsDescendingChain(content, groups);
    OrderedGroupsReplace(order);
    ApplyEachDescendingRebuilds(content, order, ApplyGroup, GroupSpan);
    ReverseSpans(order, GroupSpan);
    Sorting.ReverseMultiset(order);
    ReversedChainAscends(order);
  }

  /** Each well-formed group replaces exactly its span, whatever text it is applied to. */
  lemma OrderedGroupsReplace(order: seq<ChangeGroup>)
    requires forall i :: 0 <= i < |order| ==> WellFormed(order[i])
    ensures forall d: Content, i :: 0 <= i < |order| && Fits(d, GroupSpan(order[i])) ==>
              ApplyGroup(d, order[i]) == Replace(d, GroupSpan(order[i]))
  {
    forall d: Content, i | 0 <= i < |order| && Fits(d, GroupSpan(order[i]))
      ensures ApplyGroup(d, order[i]) == Replace(d, GroupSpan(order[i]))
    {
      ApplyGroupReplacesSpan(d, order[i]);
    }
  }

  lemma ReversedChainAscends(order: seq<ChangeGroup>)
    requires forall i, j :: 0 <= i < j < |order| ==> order[j].endPos < order[i].startPos
    ensures var ascending := Sorting.Reverse(order);
      forall i, j :: 0 <= i < j < |ascending| ==> ascending[i].endPos < ascending[j].startPos
  {
    var ascending := Sorting.Reverse(order);
    forall i, j | 0 <= i < j < |ascending|
      ensures ascending[i].endPos < ascending[j].startPos
    {
      assert ascending[i] == order[|order| - 1 - i] && ascending[j] == order[|order| - 1 - j];
    }
  }

  /** In processing order, the groups stay well formed and each lies before all earlier ones. */
  lemma OrderIsDescendingChain(content: Content, groups: seq<ChangeGroup>)
    requires forall i :: 0 <= i < |groups| ==> WellFormed(groups[i]) && groups[i].endPos <= |content|
    requires Sorting.Pairwise(groups, Apart)
    ensures var order := ProcessingOrder(groups);
      && (forall i :: 0 <= i < |order| ==> WellFormed(order[i]) && Fits(content, GroupSpan(order[i])))
      && (forall i, j :: 0 <= i < j < |order| ==>
            order[j].endPos < order[i].startPos && GroupSpan(order[j]).hi <= GroupSpan(order[i]).lo)
  {
    var order := ProcessingOrder(groups);
    Sorting.SortDescPairwise(groups, StartPos, Apart);
    assert Sorting.Pairwise(order, Apart);
    forall i | 0 <= i < |order|
      ensures WellFormed(order[i]) && Fits(content, GroupSpan(order[i]))
    {
      assert order[i] in multiset(groups);
      TilesShape(order[i].deletions, order[i].startPos, order[i].endPos);
    }
    forall i, j | 0 <= i < j < |order|
      ensures order[j].endPos < order[i].startPos
    {
      TilesShape(order[i].deletions, order[i].startPos, order[i].endPos);
      assert Apart(order[i], order[j]);
    }
  }

  /**
    Groups stored left to right and strictly apart, as the diff produces them:
    `accept` writes the stored content with each group's span replaced.
   */
  lemma ApplyStoredGroupsRebuilds(content: Content, groups: seq<ChangeGroup>)
    requires forall i :: 0 <= i < |groups| ==> WellFormed(groups[i]) && groups[i].endPos <= |content|
    requires forall i, j :: 0 <= i < j < |groups| ==> groups[i].endPos < groups[j].startPos
    ensures ApplyChangeGroups(content, groups) == Rebuild(content, 0, Spans(groups, GroupSpan))
  {
    StoredOrderAscends(groups);
    ApplyChangeGroupsRebuilds(content, groups);
  }

  /** Groups stored strictly left to right lie apart, and `accept` visits them in exactly reverse order. */
  lemma StoredOrderAscends(groups: seq<ChangeGroup>)
    requires forall i :: 0 <= i < |groups| ==> WellFormed(groups[i])
    requires forall i, j :: 0 <= i < j < |groups| ==> groups[i].endPos < groups[j].startPos
    ensures Sorting.Pairwise(groups, Apart)
    ensures Sorting.Reverse(ProcessingOrder(groups)) == groups
  {
    forall i, j | 0 <= i < j < |groups|
      ensures StartPos(groups[i]) < StartPos(groups[j])
    {
      TilesShape(groups[i].deletions, groups[i].startPos, groups[i].endPos);
    }
    Sorting.SortDescOfIncreasing(groups, StartPos);
    Sorting.ReverseReverse(groups);
  }
}
