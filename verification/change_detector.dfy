/**
  The change detector of the change-control editor (`detectChanges` and
  the classification in `handleSubmitChange`). It strips the longest
  common prefix of the previous and the edited text, then the longest
  common suffix that does not reach into that prefix; what remains on each
  side is the one span that changed.
 */
module ChangeDetector {
  import opened Text
  import opened Schema

  datatype Diff = Diff(startIndex: nat, oldEndIndex: nat, newEndIndex: nat, oldText: Content, newText: Content)

  /** The length of the longest common prefix of `a` and `b`. */
  function PrefixLength(a: Content, b: Content): (n: nat)
    ensures n <= |a| && n <= |b|
    ensures a[..n] == b[..n]
    ensures n == |a| || n == |b| || a[n] != b[n]
    decreases |a|
  {
    if |a| == 0 || |b| == 0 || a[0] != b[0] then 0
    else
      var m := PrefixLength(a[1..], b[1..]);
      assert a[..m + 1] == [a[0]] + a[1..][..m];
      assert b[..m + 1] == [b[0]] + b[1..][..m];
      m + 1
  }

  /**
    The length of the longest common suffix of `a` and `b` that leaves the
    first `floor` characters of both alone.
   */
  function SuffixLength(a: Content, b: Content, floor: nat): (m: nat)
    requires floor <= |a| && floor <= |b|
    ensures m <= |a| - floor && m <= |b| - floor
    ensures a[|a| - m..] == b[|b| - m..]
    ensures m == |a| - floor || m == |b| - floor || a[|a| - m - 1] != b[|b| - m - 1]
    decreases |a|
  {
    if |a| == floor || |b| == floor || a[|a| - 1] != b[|b| - 1] then 0
    else
      var m := SuffixLength(a[..|a| - 1], b[..|b| - 1], floor);
      SuffixStep(a, b, m);
      m + 1
  }

  /** A common suffix of the texts without their equal last characters extends by that character. */
  lemma SuffixStep(a: Content, b: Content, m: nat)
    requires m < |a| && m < |b| && a[|a| - 1] == b[|b| - 1]
    requires a[..|a| - 1][|a| - 1 - m..] == b[..|b| - 1][|b| - 1 - m..]
    ensures a[|a| - (m + 1)..] == b[|b| - (m + 1)..]
    ensures m + 1 < |a| ==> a[..|a| - 1][|a| - 1 - m - 1] == a[|a| - (m + 1) - 1]
    ensures m + 1 < |b| ==> b[..|b| - 1][|b| - 1 - m - 1] == b[|b| - (m + 1) - 1]
  {
    assert a[|a| - (m + 1)..] == a[..|a| - 1][|a| - 1 - m..] + [a[|a| - 1]];
    assert b[|b| - (m + 1)..] == b[..|b| - 1][|b| - 1 - m..] + [b[|b| - 1]];
  }

  /** A text is its head, its middle and its tail. */
  lemma ThreeParts(s: Content, i: int, j: int)
    requires 0 <= i <= j <= |s|
    ensures s == s[..i] + s[i..j] + s[j..]
  {
  }

  /** The diff `detectChanges` returns, as a reference definition. */
  function Detect(previous: Content, content: Content): (d: Diff)
    ensures d.startIndex <= d.oldEndIndex <= |previous| && d.startIndex <= d.newEndIndex <= |content|
    ensures previous[..d.startIndex] == content[..d.startIndex]
    ensures previous[d.oldEndIndex..] == content[d.newEndIndex..]
    ensures d.oldText == previous[d.startIndex..d.oldEndIndex] && d.newText == content[d.startIndex..d.newEndIndex]
    ensures previous == previous[..d.startIndex] + d.oldText + previous[d.oldEndIndex..]
    ensures content == content[..d.startIndex] + d.newText + content[d.newEndIndex..]
  {
    var i := PrefixLength(previous, content);
    var m := SuffixLength(previous, content, i);
    ThreeParts(previous, i, |previous| - m);
    ThreeParts(content, i, |content| - m);
    Diff(i, |previous| - m, |content| - m, previous[i..|previous| - m], content[i..|content| - m])
  }

  /** A common prefix that cannot be extended is the longest one. */
  lemma {:induction false} MaximalPrefixIsLongest(a: Content, b: Content, n: nat)
    requires n <= |a| && n <= |b| && a[..n] == b[..n]
    requires n == |a| || n == |b| || a[n] != b[n]
    ensures n == PrefixLength(a, b)
    decreases n
  {
    if n > 0 {
      assert a[0] == a[..n][0] == b[..n][0] == b[0];
      assert a[1..][..n - 1] == a[1..n] == a[..n][1..];
      assert b[1..][..n - 1] == b[1..n] == b[..n][1..];
      MaximalPrefixIsLongest(a[1..], b[1..], n - 1);
    }
  }

  /** A common suffix above `floor` that cannot be extended is the longest one. */
  lemma {:induction false} MaximalSuffixIsLongest(a: Content, b: Content, floor: nat, m: nat)
    requires floor <= |a| && floor <= |b|
    requires m <= |a| - floor && m <= |b| - floor
    requires a[|a| - m..] == b[|b| - m..]
    requires m == |a| - floor || m == |b| - floor || a[|a| - m - 1] != b[|b| - m - 1]
    ensures m == SuffixLength(a, b, floor)
    decreases m
  {
    if m > 0 {
      var a', b' := a[..|a| - 1], b[..|b| - 1];
      assert a[|a| - 1] == a[|a| - m..][m - 1] == b[|b| - m..][m - 1] == b[|b| - 1];
      assert a'[|a'| - (m - 1)..] == a[|a| - m..|a| - 1] == a[|a| - m..][..m - 1];
      assert b'[|b'| - (m - 1)..] == b[|b| - m..|b| - 1] == b[|b| - m..][..m - 1];
      MaximalSuffixIsLongest(a', b', floor, m - 1);
    }
  }

  /** The first loop of `detectChanges`: advance over the common prefix. */
  method CommonPrefix(previous: Content, content: Content) returns (i: nat)
    ensures i == PrefixLength(previous, content)
  {
    i := 0;
    while i < |previous| && i < |content| && previous[i] == content[i]
      invariant i <= |previous| && i <= |content|
      invariant previous[..i] == content[..i]
    {
      assert previous[..i + 1] == previous[..i] + [previous[i]];
      assert content[..i + 1] == content[..i] + [content[i]];
      i := i + 1;
    }
    MaximalPrefixIsLongest(previous, content, i);
  }

  /** The second loop of `detectChanges`: retreat over the common suffix, never below `start`. */
  method CommonSuffix(previous: Content, content: Content, start: nat) returns (m: nat)
    requires start <= |previous| && start <= |content|
    ensures m == SuffixLength(previous, content, start)
  {
    var oldEnd := |previous|;
    var newEnd := |content|;
    while oldEnd > start && newEnd > start && previous[oldEnd - 1] == content[newEnd - 1]
      invariant start <= oldEnd <= |previous| && start <= newEnd <= |content|
      invariant |previous| - oldEnd == |content| - newEnd
      invariant previous[oldEnd..] == content[newEnd..]
    {
      assert previous[oldEnd - 1..] == [previous[oldEnd - 1]] + previous[oldEnd..];
      assert content[newEnd - 1..] == [content[newEnd - 1]] + content[newEnd..];
      oldEnd := oldEnd - 1;
      newEnd := newEnd - 1;
    }
    m := |previous| - oldEnd;
    MaximalSuffixIsLongest(previous, content, start, m);
  }

  /**
    `detectChanges`: the two loops, then the changed span on each side. It
    computes exactly the reference diff, so everything `Detect` promises
    holds of its result.
   */
  method DetectChanges(previous: Content, content: Content) returns (d: Diff)
    ensures d == Detect(previous, content)
  {
    var i := CommonPrefix(previous, content);
    var m := CommonSuffix(previous, content, i);
    d := Diff(i, |previous| - m, |content| - m, previous[i..|previous| - m], content[i..|content| - m]);
  }

  /** The change-control request the editor submits. */
  datatype ChangeRequest = ChangeRequest(changeType: SpliceKind, startIndex: int, endIndex: int, newText: Content, oldText: Content)

  /** Insertion when nothing previous is left, deletion when nothing content is, replacement otherwise. */
  function Classify(d: Diff): SpliceKind {
    if d.oldText == [] then InsertText
    else if d.newText == [] then DeleteText
    else ReplaceText
  }

  /**
    `handleSubmitChange`: nothing is submitted when the two texts are the
    same; otherwise the request carries the changed span in the previous
    text's coordinates, ending at `oldEndIndex`.
   */
  function SubmitRequest(previous: Content, content: Content): (r: Option<ChangeRequest>)
    ensures r.None? <==> previous == content
    ensures r.Some? ==>
      var d := Detect(previous, content);
      && r.value == ChangeRequest(Classify(d), d.startIndex, d.oldEndIndex, d.newText, d.oldText)
      && (d.oldText != [] || d.newText != [])
  {
    var d := Detect(previous, content);
    if d.oldText == d.newText then None
    else Some(ChangeRequest(Classify(d), d.startIndex, d.oldEndIndex, d.newText, d.oldText))
  }

  /** The request's type says which side of the changed span is empty. */
  lemma ClassificationMeaning(previous: Content, content: Content)
    requires previous != content
    ensures var req := SubmitRequest(previous, content).value;
      && (req.changeType == InsertText <==> req.oldText == [])
      && (req.changeType == DeleteText <==> req.oldText != [] && req.newText == [])
      && (req.changeType == ReplaceText <==> req.oldText != [] && req.newText != [])
      && (req.changeType == InsertText ==> |previous| < |content| && req.endIndex == req.startIndex)
      && (req.changeType == DeleteText ==> |content| < |previous|)
  {
  }

  /**
    The round trip: the submitted splice, applied to the previous text the
    way `approveChange` applies it, yields the edited text.
   */
  lemma SubmitRoundTrip(previous: Content, content: Content)
    requires previous != content
    ensures var req := SubmitRequest(previous, content).value;
      Splice(previous, req.changeType, req.startIndex, req.endIndex, req.newText) == content
  {
    var d := Detect(previous, content);
    var req := SubmitRequest(previous, content).value;
    assert previous[..d.startIndex] == content[..d.startIndex];
    match req.changeType
    case InsertText =>
      assert d.oldEndIndex == d.startIndex;
    case DeleteText =>
      assert content == content[..d.startIndex] + content[d.newEndIndex..];
    case ReplaceText =>
  }
}
