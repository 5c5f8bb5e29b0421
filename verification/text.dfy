/**
  Text positions and the splices every editing path performs.

  Document text is a sequence of characters. Positions are JavaScript numbers,
  modelled as `int`, and the two JavaScript string cuts the handlers use are
  modelled with their index clamping:
  - `substring` (the change-group applier and the inline view) treats a
    negative index as 0 and an index past the end as the end;
  - `slice` (the suggestion and change-control splices) counts a negative
    index from the end.

  A `Span` is an edit in the coordinates of one fixed text: replace
  `[lo, hi)` by `text`. `Rebuild` is the left-to-right reading of a text
  through ascending spans; it is the reference against which the
  right-to-left appliers are proved.
 */
module Text {
  import Sorting

  type Content = seq<char>

  /** Index normalisation of `String.prototype.substring`. */
  function SubstringIndex(i: int, n: nat): (r: nat)
    ensures r <= n
    ensures 0 <= i <= n ==> r == i
  {
    if i < 0 then 0 else if i > n then n else i
  }

  /** Index normalisation of `String.prototype.slice`. */
  function SliceIndex(i: int, n: nat): (r: nat)
    ensures r <= n
    ensures 0 <= i <= n ==> r == i
    ensures i < 0 && 0 <= n + i ==> r == n + i
  {
    if i < 0 then (if n + i < 0 then 0 else n + i) else if i > n then n else i
  }

  /** `s.substring(0, i)` */
  function Before(s: Content, i: int): Content {
    s[..SubstringIndex(i, |s|)]
  }

  /** `s.substring(i)` */
  function From(s: Content, i: int): Content {
    s[SubstringIndex(i, |s|)..]
  }

  /** The text between two positions, clamped to the text; empty when `j <= i`. */
  function Between(s: Content, i: int, j: int): (r: Content)
    ensures 0 <= i <= j <= |s| ==> r == s[i..j]
    ensures j <= i ==> r == []
  {
    var a := SubstringIndex(i, |s|);
    var b := SubstringIndex(j, |s|);
    if a < b then s[a..b] else []
  }

  /** The three edit shapes shared by AI suggestions and change-control changes. */
  datatype SpliceKind = InsertText | DeleteText | ReplaceText

  /**
    `s.slice(0, start) + t + s.slice(start)` for an insertion,
    `s.slice(0, start) + s.slice(end)` for a deletion and
    `s.slice(0, start) + t + s.slice(end)` for a replacement.
   */
  function Splice(s: Content, kind: SpliceKind, start: int, end: int, t: Content): (r: Content)
    // Text before a non-negative start is never touched, whatever the other arguments.
    ensures 0 <= start <= |s| ==> |r| >= start && r[..start] == s[..start]
    // In bounds, each shape is the textbook edit of [start, end).
    ensures 0 <= start <= end <= |s| ==>
      match kind
      case InsertText => r == s[..start] + t + s[start..]
      case DeleteText => r == s[..start] + s[end..]
      case ReplaceText => r == s[..start] + t + s[end..]
    ensures 0 <= start <= end <= |s| ==>
      |r| == |s| + (if kind == DeleteText then 0 else |t|)
                 - (if kind == InsertText then 0 else end - start)
  {
    var a := SliceIndex(start, |s|);
    match kind
    case InsertText => s[..a] + t + s[a..]
    case DeleteText => s[..a] + s[SliceIndex(end, |s|)..]
    case ReplaceText => s[..a] + t + s[SliceIndex(end, |s|)..]
  }

  /** Deleting what was just inserted gives the text back. */
  lemma InsertThenDelete(s: Content, start: int, t: Content)
    requires 0 <= start <= |s|
    ensures Splice(Splice(s, InsertText, start, start, t), DeleteText, start, start + |t|, []) == s
  {
    var u := Splice(s, InsertText, start, start, t);
    assert u[..start] == s[..start];
    assert u[start + |t|..] == s[start..];
  }

  /** Replacing a span by the text it already holds changes nothing. */
  lemma ReplaceWithSameText(s: Content, start: int, end: int)
    requires 0 <= start <= end <= |s|
    ensures Splice(s, ReplaceText, start, end, s[start..end]) == s
  {
    assert s == s[..start] + s[start..end] + s[end..];
  }

  /** Replace `[lo, hi)` by `text`. */
  datatype Span = Span(lo: int, hi: int, text: Content)

  /** The span lies inside `s`. */
  predicate Fits(s: Content, sp: Span) {
    0 <= sp.lo <= sp.hi <= |s|
  }

  function Replace(s: Content, sp: Span): (r: Content)
    requires Fits(s, sp)
    ensures |r| == |s| - (sp.hi - sp.lo) + |sp.text|
  {
    s[..sp.lo] + sp.text + s[sp.hi..]
  }

  /**
    The text read left to right from `cursor`: untouched text up to each
    span, the span's text in place of `[lo, hi)`, and the rest of `s` after
    the last span.
   */
  function Rebuild(s: Content, cursor: int, spans: seq<Span>): Content
    decreases |spans|
  {
    if |spans| == 0 then Between(s, cursor, |s|)
    else Between(s, cursor, spans[0].lo) + spans[0].text + Rebuild(s, spans[0].hi, spans[1..])
  }

  /** The spans of a sequence of edits. */
  function Spans<T>(xs: seq<T>, span: T -> Span): (r: seq<Span>)
    ensures |r| == |xs|
    ensures forall i :: 0 <= i < |xs| ==> r[i] == span(xs[i])
  {
    seq(|xs|, i requires 0 <= i < |xs| => span(xs[i]))
  }

  lemma ReverseSpans<T>(xs: seq<T>, span: T -> Span)
    ensures Sorting.Reverse(Spans(xs, span)) == Spans(Sorting.Reverse(xs), span)
  {
  }

  /** Apply `step` to `s` once per element of `xs`, first element first. */
  function ApplyEach<T>(s: Content, xs: seq<T>, step: (Content, T) -> Content): Content
    decreases |xs|
  {
    if |xs| == 0 then s else ApplyEach(step(s, xs[0]), xs[1..], step)
  }

  lemma {:induction false} ApplyEachAppend<T>(s: Content, xs: seq<T>, ys: seq<T>, step: (Content, T) -> Content)
    ensures ApplyEach(s, xs + ys, step) == ApplyEach(ApplyEach(s, xs, step), ys, step)
    decreases |xs|
  {
    if |xs| > 0 {
      assert (xs + ys)[0] == xs[0];
      assert (xs + ys)[1..] == xs[1..] + ys;
      ApplyEachAppend(step(s, xs[0]), xs[1..], ys, step);
    } else {
      assert xs + ys == ys;
    }
  }

  /**
    Editing only at or after `k` keeps the first `k` characters: if every step
    keeps the prefix of length `k` of any text at least that long, so does
    the whole sequence of steps.
   */
  lemma {:induction false} ApplyEachKeepsPrefix<T>(s: Content, xs: seq<T>, step: (Content, T) -> Content, k: nat)
    requires k <= |s|
    requires forall d: Content, i :: 0 <= i < |xs| && k <= |d| ==>
               k <= |step(d, xs[i])| && step(d, xs[i])[..k] == d[..k]
    ensures k <= |ApplyEach(s, xs, step)|
    ensures ApplyEach(s, xs, step)[..k] == s[..k]
    decreases |xs|
  {
    if |xs| > 0 {
      var s1 := step(s, xs[0]);
      assert k <= |s1| && s1[..k] == s[..k];
      var rest := xs[1..];
      forall d: Content, i | 0 <= i < |rest| && k <= |d|
        ensures k <= |step(d, rest[i])| && step(d, rest[i])[..k] == d[..k]
      {
        assert rest[i] == xs[i + 1];
      }
      ApplyEachKeepsPrefix(s1, rest, step, k);
    }
  }

  /** Replacing a span leaves every rebuild that stops before it unaffected. */
  lemma {:induction false} RebuildSnoc(s: Content, cursor: int, spans: seq<Span>, last: Span)
    requires Fits(s, last)
    requires 0 <= cursor <= last.lo
    requires forall i :: 0 <= i < |spans| ==> 0 <= spans[i].hi <= last.lo && spans[i].lo <= last.lo
    ensures Rebuild(Replace(s, last), cursor, spans) == Rebuild(s, cursor, spans + [last])
    decreases |spans|
  {
    var s1 := Replace(s, last);
    assert s1[..last.lo] == s[..last.lo];
    assert last.lo <= |s1|;
    if |spans| == 0 {
      assert Between(s1, cursor, |s1|) == s1[cursor..];
      assert s1[cursor..] == s[cursor..last.lo] + last.text + s[last.hi..];
      assert Between(s, last.hi, |s|) == s[last.hi..];
    } else {
      var sp := spans[0];
      assert Between(s1, cursor, sp.lo) == Between(s, cursor, sp.lo) by {
        var a := SubstringIndex(cursor, |s|);
        var b := SubstringIndex(sp.lo, |s|);
        assert a == cursor;
        assert SubstringIndex(cursor, |s1|) == a;
        assert b <= last.lo;
        assert SubstringIndex(sp.lo, |s1|) == b;
        if a < b {
          assert s1[a..b] == s1[..last.lo][a..b] == s[..last.lo][a..b] == s[a..b];
        }
      }
      RebuildSnoc(s, sp.hi, spans[1..], last);
      assert (spans + [last])[1..] == spans[1..] + [last];
    }
  }

  /**
    The position-safety theorem of the right-to-left appliers: when every
    step is the plain replacement of its span, the spans all fit the starting
    text, and each span lies entirely before every span applied earlier, then
    applying them in order yields the left-to-right rebuild of the starting
    text through the same spans in reverse (that is, ascending) order.
   */
  lemma {:induction false} ApplyEachDescendingRebuilds<T>(s: Content, xs: seq<T>, step: (Content, T) -> Content, span: T -> Span)
    requires forall i :: 0 <= i < |xs| ==> Fits(s, span(xs[i]))
    requires forall i, j :: 0 <= i < j < |xs| ==> span(xs[j]).hi <= span(xs[i]).lo
    requires forall d: Content, i :: 0 <= i < |xs| && Fits(d, span(xs[i])) ==>
               step(d, xs[i]) == Replace(d, span(xs[i]))
    ensures ApplyEach(s, xs, step) == Rebuild(s, 0, Sorting.Reverse(Spans(xs, span)))
    decreases |xs|
  {
    if |xs| == 0 {
      assert Between(s, 0, |s|) == s;
    } else {
      var sp := span(xs[0]);
      var rest := xs[1..];
      var s1 := step(s, xs[0]);
      DescendingTail(s, xs, step, span);
      ApplyEachDescendingRebuilds(s1, rest, step, span);
      var before := Sorting.Reverse(Spans(rest, span));
      ReversedSpansSnoc(xs, span);
      RebuildSnoc(s, 0, before, sp);
    }
  }

  /** The hypotheses of the position-safety theorem pass to the later edits. */
  lemma DescendingTail<T>(s: Content, xs: seq<T>, step: (Content, T) -> Content, span: T -> Span)
    requires |xs| > 0
    requires forall i :: 0 <= i < |xs| ==> Fits(s, span(xs[i]))
    requires forall i, j :: 0 <= i < j < |xs| ==> span(xs[j]).hi <= span(xs[i]).lo
    requires forall d: Content, i :: 0 <= i < |xs| && Fits(d, span(xs[i])) ==>
               step(d, xs[i]) == Replace(d, span(xs[i]))
    ensures step(s, xs[0]) == Replace(s, span(xs[0]))
    ensures forall i :: 0 <= i < |xs| - 1 ==> Fits(step(s, xs[0]), span(xs[1..][i]))
    ensures forall i, j :: 0 <= i < j < |xs| - 1 ==> span(xs[1..][j]).hi <= span(xs[1..][i]).lo
    ensures forall d: Content, i :: 0 <= i < |xs| - 1 && Fits(d, span(xs[1..][i])) ==>
               step(d, xs[1..][i]) == Replace(d, span(xs[1..][i]))
  {
    var rest := xs[1..];
    var s1 := step(s, xs[0]);
    assert s1 == Replace(s, span(xs[0]));
    forall i | 0 <= i < |rest|
      ensures Fits(s1, span(rest[i]))
    {
      assert rest[i] == xs[i + 1];
    }
    forall d: Content, i | 0 <= i < |rest| && Fits(d, span(rest[i]))
      ensures step(d, rest[i]) == Replace(d, span(rest[i]))
    {
      assert rest[i] == xs[i + 1];
    }
    forall i, j | 0 <= i < j < |rest|
      ensures span(rest[j]).hi <= span(rest[i]).lo
    {
      assert rest[i] == xs[i + 1] && rest[j] == xs[j + 1];
    }
  }

  lemma ReversedSpansSnoc<T>(xs: seq<T>, span: T -> Span)
    requires |xs| > 0
    requires forall i :: 0 <= i < |xs| ==> 0 <= span(xs[i]).lo <= span(xs[i]).hi
    requires forall i, j :: 0 <= i < j < |xs| ==> span(xs[j]).hi <= span(xs[i]).lo
    ensures Sorting.Reverse(Spans(xs, span)) == Sorting.Reverse(Spans(xs[1..], span)) + [span(xs[0])]
    ensures forall i :: 0 <= i < |xs| - 1 ==>
      0 <= Sorting.Reverse(Spans(xs[1..], span))[i].hi <= span(xs[0]).lo
      && Sorting.Reverse(Spans(xs[1..], span))[i].lo <= span(xs[0]).lo
  {
    var before := Sorting.Reverse(Spans(xs[1..], span));
    forall i | 0 <= i < |before|
      ensures before[i] == span(xs[|xs| - 1 - i])
    {
    }
    assert Sorting.Reverse(Spans(xs, span)) == before + [span(xs[0])];
  }

  /**
    Rebuilding through spans that carry exactly the text they cover gives the
    text back from the cursor on.
   */
  lemma {:induction false} RebuildUnchanged(s: Content, cursor: int, spans: seq<Span>)
    requires 0 <= cursor <= |s|
    requires forall i :: 0 <= i < |spans| ==> Fits(s, spans[i]) && spans[i].text == s[spans[i].lo..spans[i].hi]
    requires |spans| > 0 ==> cursor <= spans[0].lo
    requires forall i :: 0 <= i < |spans| - 1 ==> spans[i].hi <= spans[i + 1].lo
    ensures Rebuild(s, cursor, spans) == s[cursor..]
    decreases |spans|
  {
    if |spans| > 0 {
      UnchangedTail(s, spans);
      RebuildUnchanged(s, spans[0].hi, spans[1..]);
      UnchangedHead(s, cursor, spans);
    }
  }

  /** A first span holding its own text, before a rest that leaves the text alone, leaves it alone too. */
  lemma UnchangedHead(s: Content, cursor: int, spans: seq<Span>)
    requires |spans| > 0 && 0 <= cursor <= spans[0].lo <= spans[0].hi <= |s|
    requires spans[0].text == s[spans[0].lo..spans[0].hi]
    requires Rebuild(s, spans[0].hi, spans[1..]) == s[spans[0].hi..]
    ensures Rebuild(s, cursor, spans) == s[cursor..]
  {
    var sp := spans[0];
    assert s[cursor..] == s[cursor..sp.lo] + s[sp.lo..sp.hi] + s[sp.hi..];
  }

  /** The hypotheses of `RebuildUnchanged` carry over from the first span's end to the rest. */
  lemma UnchangedTail(s: Content, spans: seq<Span>)
    requires |spans| > 0
    requires forall i :: 0 <= i < |spans| ==> Fits(s, spans[i]) && spans[i].text == s[spans[i].lo..spans[i].hi]
    requires forall i :: 0 <= i < |spans| - 1 ==> spans[i].hi <= spans[i + 1].lo
    ensures 0 <= spans[0].hi <= |s|
    ensures forall i :: 0 <= i < |spans[1..]| ==>
      Fits(s, spans[1..][i]) && spans[1..][i].text == s[spans[1..][i].lo..spans[1..][i].hi]
    ensures |spans[1..]| > 0 ==> spans[0].hi <= spans[1..][0].lo
    ensures forall i :: 0 <= i < |spans[1..]| - 1 ==> spans[1..][i].hi <= spans[1..][i + 1].lo
  {
    assert Fits(s, spans[0]);
    assert forall i :: 0 <= i < |spans[1..]| ==> spans[1..][i] == spans[i + 1];
  }
}
