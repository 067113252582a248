/** `MemoryStore.get_summary`: the budgeted transcript of a thread. */
module Transcript {
  import opened Rows
  import opened Repositories
  import opened Text

  datatype Summary = Summary(content: string, messageCount: nat, truncated: bool)

  function Line(msg: Row): string {
    (if "role" in msg.body.metadata then msg.body.metadata["role"] else "unknown") + " (-): " + msg.body.content
  }

  /** The running count of the loop: the words of the first `n` lines, line by line. */
  function Tokens(lines: seq<string>, n: nat): nat
    requires n <= |lines|
  {
    if n == 0 then 0 else Tokens(lines, n - 1) + |Split(lines[n - 1])|
  }

  /** The words of line `i` stand right behind those of the lines before it. */
  predicate WordsOfLine(words: seq<string>, lines: seq<string>, i: nat)
    requires i < |lines|
  {
    Tokens(lines, i + 1) <= |words| && words[Tokens(lines, i)..Tokens(lines, i + 1)] == Split(lines[i])
  }

  ghost predicate WordsOfLines(words: seq<string>, lines: seq<string>, n: nat)
    requires n <= |lines|
  {
    |words| == Tokens(lines, n) && forall i :: 0 <= i < n ==> WordsOfLine(words, lines, i)
  }

  /** The words of a transcript are the words of its lines in order: joining with newlines neither merges words
      nor makes, loses or moves any. */
  lemma {:induction false} JoinedWords(lines: seq<string>, n: nat)
    requires n <= |lines|
    ensures WordsOfLines(Split(JoinWith(lines[..n], '\n')), lines, n)
  {
    if n > 0 {
      JoinedWords(lines, n - 1);
      SplitLastLine(lines[..n - 1], lines[n - 1]);
      assert lines[..n] == lines[..n - 1] + [lines[n - 1]];
      MoreWords(Split(JoinWith(lines[..n - 1], '\n')), lines, n - 1);
    }
  }

  lemma SplitLastLine(front: seq<string>, last: string)
    ensures Split(JoinWith(front + [last], '\n')) == Split(JoinWith(front, '\n')) + Split(last)
  {
    if front != [] {
      JoinMore(front, last, '\n');
      SplitBeforeSpace(JoinWith(front, '\n'), "\n" + last);
      assert JoinWith(front, '\n') + "\n" + last == JoinWith(front, '\n') + ("\n" + last);
      assert ("\n" + last)[1..] == last;
    }
  }

  lemma MoreWords(words: seq<string>, lines: seq<string>, n: nat)
    requires n < |lines| && WordsOfLines(words, lines, n)
    ensures WordsOfLines(words + Split(lines[n]), lines, n + 1)
  {
    forall i | 0 <= i < n ensures WordsOfLine(words + Split(lines[n]), lines, i) {
      assert WordsOfLine(words, lines, i);
    }
  }

  lemma {:induction false} TokensGrow(lines: seq<string>, m: nat, n: nat)
    requires m <= n <= |lines|
    ensures Tokens(lines, m) <= Tokens(lines, n)
    decreases n
  {
    if m < n {
      TokensGrow(lines, m, n - 1);
    }
  }

  /** `m` lines fit and `m + 1` would not, or there are no more. */
  predicate IsCut(lines: seq<string>, budget: nat, m: nat) {
    m <= |lines| && Tokens(lines, m) <= budget && (m < |lines| ==> Tokens(lines, m + 1) > budget)
  }

  /** The cut is the longest prefix that fits, so it is the only one. */
  lemma CutIsLongest(lines: seq<string>, budget: nat, m: nat, k: nat)
    requires IsCut(lines, budget, m) && k <= |lines|
    ensures Tokens(lines, k) <= budget <==> k <= m
  {
    if k <= m {
      TokensGrow(lines, k, m);
    } else {
      TokensGrow(lines, m + 1, k);
    }
  }

  /** A larger budget only extends the transcript, and only a larger one than the whole drops nothing. */
  lemma LargerBudgetExtends(lines: seq<string>, small: nat, large: nat, m: nat, n: nat)
    requires small <= large && IsCut(lines, small, m) && IsCut(lines, large, n)
    ensures m <= n && lines[..m] <= lines[..n]
    ensures n == |lines| <==> Tokens(lines, |lines|) <= large
  {
    CutIsLongest(lines, large, n, m);
    CutIsLongest(lines, large, n, |lines|);
  }

  /** The lines the transcript is cut from: at most `LIST_CAP` newest rows, oldest first, without
      the last `exceptLast`. */
  function LinesOf(newestFirst: seq<Row>, exceptLast: nat): (lines: seq<string>)
    ensures |lines| == if exceptLast < |newestFirst| then |newestFirst| - exceptLast else 0
    ensures forall i :: 0 <= i < |lines| ==> lines[i] == Line(newestFirst[|newestFirst| - 1 - i])
  {
    var n := if exceptLast < |newestFirst| then |newestFirst| - exceptLast else 0;
    seq(n, i requires 0 <= i < n => Line(newestFirst[|newestFirst| - 1 - i]))
  }

  const SUMMARY_LIMIT := 10000

  predicate OneLine(line: string) {
    '\n' !in line
  }

  /** The first `cut` lines, joined, with the words and the lines a reader gets back by splitting them. */
  ghost predicate Summarizes(s: Summary, lines: seq<string>, budget: Option<int>, cut: nat) {
    && cut <= |lines| && s.content == JoinWith(lines[..cut], '\n')
    && s.messageCount == cut && (s.truncated <==> cut < |lines|)
    && (budget.None? ==> cut == |lines|)
    && (budget.Some? ==> budget.value >= 0 && IsCut(lines, budget.value, cut) && |Split(s.content)| <= budget.value)
    && WordsOfLines(Split(s.content), lines, cut)
    && (cut > 0 && (forall i :: 0 <= i < cut ==> OneLine(lines[i])) ==> SplitOn(s.content, '\n') == lines[..cut])
  }

  /** `lines` are those of the transcript: of the newest `LIST_CAP` rows, oldest first, without the last
      `exceptLast`, each naming who spoke and what. */
  ghost predicate LinesOfThread(lines: seq<string>, t: Table, page: seq<Id>, exceptLast: int)
    requires forall id :: id in page ==> id in t
  {
    && |lines| == (if exceptLast < |page| then |page| - exceptLast else 0) <= |page|
    && forall i :: 0 <= i < |lines| ==>
         var msg := t[page[|page| - 1 - i]].body;
         lines[i] == (if "role" in msg.metadata then msg.metadata["role"] else "unknown") + " (-): " + msg.content
  }

  lemma LinesAreOfTheThread(t: Table, page: seq<Id>, exceptLast: nat)
    requires forall id :: id in page ==> id in t
    ensures LinesOfThread(LinesOf(RowsAt(t, page), exceptLast), t, page, exceptLast)
  {
  }

  lemma PageOfThread(t: Table, scope: Scope, now: Time, order: seq<Id>)
    requires IsOrdering(t, Selected(t, scope, false, now), order)
    ensures Page(order, SUMMARY_LIMIT, 0) == Page(order, LIST_CAP, 0)
    ensures forall id :: id in Page(order, LIST_CAP, 0) ==> id in t
  {
    assert forall id :: id in Page(order, LIST_CAP, 0) ==> id in order;
  }

  /** `cut` is the number of lines kept. */
  method GetSummary(working: Repository, scope: Scope, exceptLast: int, budget: Option<int>, now: Time, order: seq<Id>)
    returns (r: Reply<Summary>, ghost lines: seq<string>, ghost cut: nat)
    requires IsOrdering(working.rows, Selected(working.rows, scope, false, now), order)
    ensures exceptLast < 0 || (budget.Some? && budget.value < 0) <==> r == Raised(BadArgument)
    ensures exceptLast >= 0 && (budget.Some? ==> budget.value >= 0) ==>
      (scope.agent == "" <==> r == Raised(MissingAgentId)) && (scope.agent != "" <==> r.Returned?)
    ensures forall id :: id in Page(order, LIST_CAP, 0) ==> id in working.rows
    ensures r.Returned? ==>
      && LinesOfThread(lines, working.rows, Page(order, LIST_CAP, 0), exceptLast)
      && Summarizes(r.value, lines, budget, cut)
  {
    lines, cut := [], 0;
    PageOfThread(working.rows, scope, now, order);
    if exceptLast < 0 {
      return Raised(BadArgument), [], 0;
    }
    if budget.Some? && budget.value < 0 {
      return Raised(BadArgument), [], 0;
    }
    var listed := working.ListAll(scope, SUMMARY_LIMIT, 0, false, now, order, Page(order, SUMMARY_LIMIT, 0));
    if listed.Raised? {
      return Raised(MissingAgentId), [], 0;
    }
    var formatted := LinesOf(listed.value, exceptLast);
    LinesAreOfTheThread(working.rows, Page(order, LIST_CAP, 0), exceptLast);
    var s;
    s, cut := Summarize(formatted, budget);
    return Returned(s), formatted, cut;
  }

  /** The part of `get_summary` behind the listing. */
  method Summarize(lines: seq<string>, budget: Option<int>) returns (s: Summary, ghost cut: nat)
    requires budget.Some? ==> budget.value >= 0
    ensures Summarizes(s, lines, budget, cut)
  {
    if lines == [] {
      assert JoinWith(lines, '\n') == "";
      return Summary("", 0, false), 0;
    }
    if budget.None? {
      KeptLines(lines, |lines|);
      assert lines[..|lines|] == lines;
      return Summary(JoinWith(lines, '\n'), |lines|, false), |lines|;
    }
    var included := IncludedLines(lines, budget.value);
    KeptLines(lines, |included|);
    return Summary(JoinWith(included, '\n'), |included|, |included| < |lines|), |included|;
  }

  lemma KeptLines(lines: seq<string>, cut: nat)
    requires cut <= |lines|
    ensures var content := JoinWith(lines[..cut], '\n');
      && WordsOfLines(Split(content), lines, cut)
      && (cut > 0 && (forall i :: 0 <= i < cut ==> OneLine(lines[i])) ==> SplitOn(content, '\n') == lines[..cut])
  {
    JoinedWords(lines, cut);
    if cut > 0 && forall i :: 0 <= i < cut ==> OneLine(lines[i]) {
      SplitOnUndoesJoin(lines[..cut], '\n');
    }
  }

  method IncludedLines(lines: seq<string>, budget: nat) returns (included: seq<string>)
    ensures IsCut(lines, budget, |included|) && included == lines[..|included|]
  {
    included := [];
    var tokensUsed := 0;
    for i := 0 to |lines|
      invariant |included| == i && included == lines[..i]
      invariant tokensUsed == Tokens(lines, i) <= budget
    {
      var lineTokens := |Split(lines[i])|;
      if tokensUsed + lineTokens > budget {
        break;
      }
      included := included + [lines[i]];
      tokensUsed := tokensUsed + lineTokens;
    }
  }

  /** The method asks for 10000 rows and gets at most 1000: of a longer thread the oldest turns are
      missing, and `truncated` stays false. */
  lemma LongThreadLosesItsBeginning(t: Table, order: seq<Id>)
    requires forall id :: id in order ==> id in t
    ensures forall id :: id in Page(order, SUMMARY_LIMIT, 0) ==> id in t
    ensures |LinesOf(RowsAt(t, Page(order, SUMMARY_LIMIT, 0)), 0)| == |order| <==> |order| <= LIST_CAP
  {
  }
}
