/** The stock span problem: for every day i, the span is the number of
    consecutive days ending at i (day i included) whose quote is not above
    the quote of day i. Quotes are only ever compared with `<=`, so they are
    modelled as integers. */
module StockSpan {

  /** k is the span of day i: the k - 1 days i - k + 1 .. i - 1 before i all
      quote at most quotes[i], and the run stops either at the first day or
      at a day whose quote is strictly larger. */
  ghost predicate IsSpan(quotes: seq<int>, i: nat, k: nat)
    requires i < |quotes|
  {
    && 1 <= k <= i + 1
    && (forall m :: i - k < m < i ==> quotes[m] <= quotes[i])
    && (k == i + 1 || quotes[i - k] > quotes[i])
  }

  /** Every day i of `quotes` has span spans[i]. */
  ghost predicate AreSpans(quotes: seq<int>, spans: seq<nat>)
  {
    |spans| == |quotes| && forall i :: 0 <= i < |quotes| ==> IsSpan(quotes, i, spans[i])
  }

  /** A day has at most one span. */
  lemma SpanUnique(quotes: seq<int>, i: nat, k1: nat, k2: nat)
    requires i < |quotes|
    requires IsSpan(quotes, i, k1) && IsSpan(quotes, i, k2)
    ensures k1 == k2
  {
  }

  /** Two span lists for the same quotes are the same list. */
  lemma {:induction false} SpansUnique(quotes: seq<int>, a: seq<nat>, b: seq<nat>)
    requires AreSpans(quotes, a) && AreSpans(quotes, b)
    ensures a == b
  {
    forall i | 0 <= i < |quotes|
      ensures a[i] == b[i]
    {
      SpanUnique(quotes, i, a[i], b[i]);
    }
  }

  /** The quadratic algorithm: for every day, walk back while the earlier
      quote is not above today's. */
  method SimpleStockSpan(quotes: seq<int>) returns (spans: seq<nat>)
    ensures AreSpans(quotes, spans)
  {
    spans := [];
    for i := 0 to |quotes|
      invariant |spans| == i
      invariant forall d :: 0 <= d < i ==> IsSpan(quotes, d, spans[d])
    {
      var k := 1;
      var spanEnd := false;
      while i - k >= 0 && !spanEnd
        invariant 1 <= k <= i + 1
        invariant forall m :: i - k < m < i ==> quotes[m] <= quotes[i]
        invariant spanEnd ==> k <= i && quotes[i - k] > quotes[i]
        decreases i + 1 - k, !spanEnd
      {
        if quotes[i - k] <= quotes[i] {
          k := k + 1;
        } else {
          spanEnd := true;
        }
      }
      spans := spans + [k];
    }
  }

  /** First day of the gap below stack entry a: the day after the entry
      beneath it, or day 0 for the bottom entry. */
  function GapStart(s: seq<nat>, a: nat): nat
    requires a < |s|
  {
    if a == 0 then 0 else s[a - 1] + 1
  }

  /** The stack s holds strictly increasing days before day i whose quotes
      strictly decrease from bottom to top; every day in the gap below an
      entry quotes at most that entry. */
  ghost predicate StackInvariant(quotes: seq<int>, s: seq<nat>, i: nat)
    requires i <= |quotes|
  {
    Below(s, i) && Increasing(s) && Decreasing(quotes, s) && Gaps(quotes, s)
  }

  ghost predicate Below(s: seq<nat>, i: nat)
  {
    forall a :: 0 <= a < |s| ==> s[a] < i
  }

  ghost predicate Increasing(s: seq<nat>)
  {
    forall a, b :: 0 <= a < b < |s| ==> s[a] < s[b]
  }

  ghost predicate Decreasing(quotes: seq<int>, s: seq<nat>)
    requires forall a :: 0 <= a < |s| ==> s[a] < |quotes|
  {
    forall a, b :: 0 <= a < b < |s| ==> quotes[s[a]] > quotes[s[b]]
  }

  ghost predicate Gaps(quotes: seq<int>, s: seq<nat>)
    requires forall a :: 0 <= a < |s| ==> s[a] < |quotes|
  {
    forall a, m {:trigger GapStart(s, a), quotes[m]} :: 0 <= a < |s| && GapStart(s, a) <= m < s[a] ==> quotes[m] <= quotes[s[a]]
  }

  /** Every day from the top of s (exclusive; from day 0 if s is empty) up to
      day i (exclusive) quotes at most day i. */
  ghost predicate DominatedAbove(quotes: seq<int>, s: seq<nat>, i: nat)
    requires i < |quotes|
  {
    forall m :: (if |s| == 0 then 0 else s[|s| - 1] + 1) <= m < i ==> quotes[m] <= quotes[i]
  }

  /** Popping the top keeps the invariant, and extends the run of days
      below day i's quote down to the new top. */
  lemma PopStep(quotes: seq<int>, s: seq<nat>, i: nat)
    requires i < |quotes| && |s| >= 1
    requires StackInvariant(quotes, s, i)
    requires quotes[s[|s| - 1]] <= quotes[i]
    requires DominatedAbove(quotes, s, i)
    ensures StackInvariant(quotes, s[..|s| - 1], i)
    ensures DominatedAbove(quotes, s[..|s| - 1], i)
  {
    var t := s[|s| - 1];
    var s' := s[..|s| - 1];
    forall a | 0 <= a < |s'|
      ensures GapStart(s', a) == GapStart(s, a)
    {
    }
    forall m | (if |s'| == 0 then 0 else s'[|s'| - 1] + 1) <= m < i
      ensures quotes[m] <= quotes[i]
    {
      if m < t {
        assert GapStart(s, |s| - 1) <= m;
        assert quotes[m] <= quotes[t];
      }
    }
  }

  /** Pushing day i after the pops keeps the invariant for day i + 1. */
  lemma PushStep(quotes: seq<int>, s: seq<nat>, i: nat)
    requires i < |quotes|
    requires StackInvariant(quotes, s, i)
    requires |s| >= 1 ==> quotes[s[|s| - 1]] > quotes[i]
    requires DominatedAbove(quotes, s, i)
    ensures StackInvariant(quotes, s + [i], i + 1)
  {
    PushBelow(s, i);
    PushIncreasing(s, i);
    PushDecreasing(quotes, s, i);
    PushGaps(quotes, s, i);
  }

  lemma PushBelow(s: seq<nat>, i: nat)
    requires Below(s, i)
    ensures Below(s + [i], i + 1)
  {
    var s' := s + [i];
    forall a | 0 <= a < |s'|
      ensures s'[a] < i + 1
    {
      if a < |s| {
        assert s'[a] == s[a];
      }
    }
  }

  lemma PushIncreasing(s: seq<nat>, i: nat)
    requires Below(s, i) && Increasing(s)
    ensures Increasing(s + [i])
  {
    var s' := s + [i];
    forall a, b | 0 <= a < b < |s'|
      ensures s'[a] < s'[b]
    {
      assert s'[a] == s[a];
      if b < |s| {
        assert s'[b] == s[b];
      }
    }
  }

  lemma PushDecreasing(quotes: seq<int>, s: seq<nat>, i: nat)
    requires i < |quotes| && Below(s, i) && Decreasing(quotes, s)
    requires |s| >= 1 ==> quotes[s[|s| - 1]] > quotes[i]
    ensures Below(s + [i], i + 1) && Decreasing(quotes, s + [i])
  {
    PushBelow(s, i);
    var s' := s + [i];
    forall a, b | 0 <= a < b < |s'|
      ensures quotes[s'[a]] > quotes[s'[b]]
    {
      assert s'[a] == s[a];
      if b < |s| {
        assert s'[b] == s[b];
      } else if a < |s| - 1 {
        assert quotes[s[a]] > quotes[s[|s| - 1]];
      }
    }
  }

  lemma PushGaps(quotes: seq<int>, s: seq<nat>, i: nat)
    requires i < |quotes| && Below(s, i) && Gaps(quotes, s)
    requires DominatedAbove(quotes, s, i)
    ensures Below(s + [i], i + 1) && Gaps(quotes, s + [i])
  {
    PushBelow(s, i);
    var s' := s + [i];
    forall a, m | 0 <= a < |s'| && GapStart(s', a) <= m < s'[a]
      ensures quotes[m] <= quotes[s'[a]]
    {
      if a < |s| {
        assert s'[a] == s[a] && GapStart(s', a) == GapStart(s, a);
      }
    }
  }

  /** After the pops, the span of day i is read off the top of the stack. */
  lemma SpanFromStack(quotes: seq<int>, s: seq<nat>, i: nat)
    requires i < |quotes|
    requires StackInvariant(quotes, s, i)
    requires |s| >= 1 ==> quotes[s[|s| - 1]] > quotes[i]
    requires DominatedAbove(quotes, s, i)
    ensures IsSpan(quotes, i, if |s| == 0 then i + 1 else i - s[|s| - 1])
  {
  }

  /** The linear algorithm: pop every earlier day whose quote does not exceed
      today's; what is left on top is the nearest earlier day with a
      strictly larger quote. `pops` counts the pops over the whole run. */
  method StackStockSpan(quotes: seq<int>) returns (spans: seq<nat>, ghost pops: nat)
    ensures quotes == [] ==> spans == [1]
    ensures quotes != [] ==> AreSpans(quotes, spans) && pops < |quotes|
  {
    spans := [1];
    var s: seq<nat> := [];
    s := s + [0];
    pops := 0;
    if |quotes| == 0 {
      return;
    }
    for i := 1 to |quotes|
      invariant |spans| == i
      invariant forall d :: 0 <= d < i ==> IsSpan(quotes, d, spans[d])
      invariant |s| >= 1 && s[|s| - 1] == i - 1
      invariant StackInvariant(quotes, s, i)
      invariant pops + |s| == i
    {
      while |s| != 0 && quotes[s[|s| - 1]] <= quotes[i]
        invariant StackInvariant(quotes, s, i)
        invariant pops + |s| == i
        invariant DominatedAbove(quotes, s, i)
      {
        PopStep(quotes, s, i);
        s := s[..|s| - 1];
        pops := pops + 1;
      }
      SpanFromStack(quotes, s, i);
      if |s| == 0 {
        spans := spans + [i + 1];
      } else {
        spans := spans + [i - s[|s| - 1]];
      }
      PushStep(quotes, s, i);
      s := s + [i];
    }
  }

  /** The script's own check, as written: both algorithms give the same
      spans, except on no quotes at all, where the simple one gives no spans
      and the stack one gives `[1]`. */
  method CompareSpans(quotes: seq<int>) returns (same: bool)
    ensures same <==> quotes != []
  {
    var spansSimple := SimpleStockSpan(quotes);
    var spansStack, _ := StackStockSpan(quotes);
    if quotes != [] {
      SpansUnique(quotes, spansSimple, spansStack);
    }
    same := spansSimple == spansStack;
  }

  /** The stack algorithm with no quotes given no spans. */
  method StackStockSpanChecked(quotes: seq<int>) returns (spans: seq<nat>)
    ensures AreSpans(quotes, spans)
  {
    if quotes == [] {
      return [];
    }
    ghost var pops;
    spans, pops := StackStockSpan(quotes);
  }

  /** With that correction the two algorithms agree on every list of quotes. */
  method CompareSpansChecked(quotes: seq<int>) returns (same: bool)
    ensures same
  {
    var spansSimple := SimpleStockSpan(quotes);
    var spansStack := StackStockSpanChecked(quotes);
    SpansUnique(quotes, spansSimple, spansStack);
    same := spansSimple == spansStack;
  }
}
