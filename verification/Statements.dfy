/** `_split_statements`: drop line comments, split on semicolons, trim, keep what is left. */
module Statements {
  import opened Text

  /** What remains of a line comment's text: everything from the newline on. */
  function SkipLine(s: string): (rest: string)
    ensures |rest| <= |s|
  {
    if s == "" || s[0] == '\n' then s else SkipLine(s[1..])
  }

  predicate StartsComment(s: string) {
    |s| >= 2 && s[0] == '-' && s[1] == '-'
  }

  /** `re.sub(r"--[^\n]*", "", sql)`. */
  function RemoveComments(s: string): string
    decreases |s|
  {
    if s == "" then ""
    else if StartsComment(s) then RemoveComments(SkipLine(s[2..]))
    else [s[0]] + RemoveComments(s[1..])
  }

  function Kept(parts: seq<string>): seq<string> {
    if parts == [] then []
    else (if Strip(parts[0]) != "" then [Strip(parts[0])] else []) + Kept(parts[1..])
  }

  function SplitStatements(sql: string): seq<string> {
    Kept(SplitOn(RemoveComments(sql), ';'))
  }

  predicate DashFree(s: string) {
    forall i :: 0 <= i < |s| - 1 ==> !(s[i] == '-' && s[i + 1] == '-')
  }

  /** What a statement list must look like to survive being written to a file and read back. */
  predicate Writable(stmt: string) {
    stmt != "" && Trimmed(stmt) && ';' !in stmt && DashFree(stmt)
  }

  // ---------------------------------------------------------------- the parts

  lemma {:induction false} NoCommentNoChange(s: string)
    requires DashFree(s)
    ensures RemoveComments(s) == s
  {
    if s != "" {
      assert DashFree(s[1..]) by {
        forall i | 0 <= i < |s[1..]| - 1 ensures !(s[1..][i] == '-' && s[1..][i + 1] == '-') {
          assert !(s[i + 1] == '-' && s[i + 2] == '-');
        }
      }
      NoCommentNoChange(s[1..]);
    }
  }

  /** A dash that is kept is followed by something else: comment removal leaves no "--". */
  lemma {:induction false} RemovedTextIsDashFree(s: string)
    ensures DashFree(RemoveComments(s))
    ensures s != "" && !StartsComment(s) ==> RemoveComments(s) != "" && RemoveComments(s)[0] == s[0]
    decreases |s|
  {
    if s == "" {
    } else if StartsComment(s) {
      RemovedTextIsDashFree(SkipLine(s[2..]));
    } else {
      RemovedTextIsDashFree(s[1..]);
      var rest := RemoveComments(s[1..]);
      if s[0] == '-' && rest != "" {
        assert s[1] != '-';
        assert rest[0] == s[1];
      }
      forall i | 0 <= i < |RemoveComments(s)| - 1
        ensures !(RemoveComments(s)[i] == '-' && RemoveComments(s)[i + 1] == '-') {
        if i > 0 {
          assert RemoveComments(s)[i] == rest[i - 1] && RemoveComments(s)[i + 1] == rest[i];
        }
      }
    }
  }

  lemma {:induction false} PartsAreStretches(s: string, k: nat)
    requires k < |SplitOn(s, ';')|
    ensures ';' !in SplitOn(s, ';')[k]
    ensures exists a, b :: 0 <= a <= b <= |s| && SplitOn(s, ';')[k] == s[a..b]
    decreases |s|
  {
    if s == "" {
      assert SplitOn(s, ';')[k] == s[0..0];
    } else {
      var rest := SplitOn(s[1..], ';');
      if s[0] == ';' {
        if k == 0 {
          assert SplitOn(s, ';')[k] == s[0..0];
        } else {
          PartsAreStretches(s[1..], k - 1);
          var a, b :| 0 <= a <= b <= |s[1..]| && rest[k - 1] == s[1..][a..b];
          assert SplitOn(s, ';')[k] == rest[k - 1] && s[1..][a..b] == s[a + 1..b + 1];
        }
      } else if k == 0 {
        FirstPartIsPrefix(s);
        assert SplitOn(s, ';')[0] == s[0..|SplitOn(s, ';')[0]|];
        PartsAreStretches(s[1..], 0);
      } else {
        PartsAreStretches(s[1..], k);
        var a, b :| 0 <= a <= b <= |s[1..]| && rest[k] == s[1..][a..b];
        assert SplitOn(s, ';')[k] == rest[k] && s[1..][a..b] == s[a + 1..b + 1];
      }
    }
  }

  lemma {:induction false} FirstPartIsPrefix(s: string)
    ensures SplitOn(s, ';')[0] <= s
  {
    if s != "" && s[0] != ';' {
      FirstPartIsPrefix(s[1..]);
    }
  }

  lemma DashFreeStretch(s: string, a: nat, b: nat)
    requires DashFree(s) && a <= b <= |s|
    ensures DashFree(s[a..b])
  {
    forall i | 0 <= i < |s[a..b]| - 1 ensures !(s[a..b][i] == '-' && s[a..b][i + 1] == '-') {
      assert !(s[a + i] == '-' && s[a + i + 1] == '-');
    }
  }

  lemma {:induction false} KeptAreWritable(parts: seq<string>)
    requires forall p :: p in parts ==> ';' !in p && DashFree(p)
    ensures forall k :: k in Kept(parts) ==> Writable(k)
  {
    if parts != [] {
      var p := parts[0];
      assert p in parts && forall q :: q in parts[1..] ==> q in parts;
      KeptAreWritable(parts[1..]);
      StripIsAStretch(p);
      var a, b :| 0 <= a <= b <= |p| && Strip(p) == p[a..b];
      DashFreeStretch(p, a, b);
    }
  }

  /** For any file at all, every statement handed to the database is non-empty, trimmed, and free of
      semicolons and comment markers. */
  lemma StatementsAreWritable(sql: string)
    ensures forall stmt :: stmt in SplitStatements(sql) ==> Writable(stmt)
  {
    var text := RemoveComments(sql);
    RemovedTextIsDashFree(sql);
    forall p | p in SplitOn(text, ';') ensures ';' !in p && DashFree(p) {
      var k :| 0 <= k < |SplitOn(text, ';')| && SplitOn(text, ';')[k] == p;
      PartsAreStretches(text, k);
      var a, b :| 0 <= a <= b <= |text| && p == text[a..b];
      DashFreeStretch(text, a, b);
    }
    KeptAreWritable(SplitOn(text, ';'));
  }

  // ---------------------------------------------------------------- splitting undoes joining

  lemma {:induction false} KeptWritable(stmts: seq<string>)
    requires forall x :: x in stmts ==> Writable(x)
    ensures Kept(stmts) == stmts
  {
    if stmts != [] {
      assert stmts[0] in stmts;
      StripIsAStretch(stmts[0]);
      KeptWritable(stmts[1..]);
    }
  }

  lemma {:induction false} JoinIsDashFree(stmts: seq<string>)
    requires forall x :: x in stmts ==> DashFree(x)
    ensures DashFree(JoinWith(stmts, ';'))
  {
    if |stmts| >= 1 {
      assert stmts[0] in stmts;
    }
    if |stmts| > 1 {
      var x := stmts[0];
      var rest := JoinWith(stmts[1..], ';');
      JoinIsDashFree(stmts[1..]);
      var all := JoinWith(stmts, ';');
      forall i | 0 <= i < |all| - 1 ensures !(all[i] == '-' && all[i + 1] == '-') {
        if i > |x| {
          assert all[i] == rest[i - |x| - 1] && all[i + 1] == rest[i - |x|];
        }
      }
    }
  }

  /** Splitting undoes joining. */
  lemma SplitUndoesJoin(stmts: seq<string>)
    requires forall x :: x in stmts ==> Writable(x)
    ensures SplitStatements(JoinWith(stmts, ';')) == stmts
  {
    JoinIsDashFree(stmts);
    NoCommentNoChange(JoinWith(stmts, ';'));
    if stmts != [] {
      SplitOnUndoesJoin(stmts, ';');
      KeptWritable(stmts);
    } else {
      assert SplitOn("", ';') == [""];
      assert Strip("") == "";
    }
  }

  /** Rewriting any file as its own statements changes nothing that is executed. */
  lemma SplittingIsIdempotent(sql: string)
    ensures SplitStatements(JoinWith(SplitStatements(sql), ';')) == SplitStatements(sql)
  {
    StatementsAreWritable(sql);
    SplitUndoesJoin(SplitStatements(sql));
  }

  // ---------------------------------------------------------------- comments

  /** Scanning `u` ends inside a line comment. */
  predicate InComment(u: string)
    decreases |u|
  {
    if u == "" then false
    else if StartsComment(u) then SkipLine(u[2..]) == "" || InComment(SkipLine(u[2..]))
    else InComment(u[1..])
  }

  lemma {:induction false} SkipLineAppend(a: string, b: string)
    ensures SkipLine(a + b) == if SkipLine(a) == "" then SkipLine(b) else SkipLine(a) + b
    ensures SkipLine(a) != "" ==> SkipLine(a)[0] == '\n' && |a| > 0 && SkipLine(a)[|SkipLine(a)| - 1] == a[|a| - 1]
  {
    if a == "" {
      assert a + b == b;
    } else if a[0] == '\n' {
      assert (a + b)[0] == '\n';
    } else {
      SkipLineAppend(a[1..], b);
      assert (a + b)[1..] == a[1..] + b;
    }
  }

  lemma StepInComment(u: string, w: string)
    requires StartsComment(u)
    ensures RemoveComments(u + w)
      == RemoveComments(if SkipLine(u[2..]) == "" then SkipLine(w) else SkipLine(u[2..]) + w)
  {
    SkipLineAppend(u[2..], w);
    assert (u + w)[2..] == u[2..] + w;
  }

  lemma StepInCode(u: string, w: string)
    requires u != "" && u != "-" && !StartsComment(u)
    ensures RemoveComments(u + w) == [u[0]] + RemoveComments(u[1..] + w)
  {
    assert (u + w)[1..] == u[1..] + w;
    if |u| == 1 { assert u == [u[0]]; }
  }

  lemma CommentAtStart(c: string, v: string)
    requires '\n' !in c
    ensures RemoveComments("--" + c + "\n" + v) == RemoveComments("\n" + v)
    ensures RemoveComments("-" + ("--" + c + "\n" + v)) == RemoveComments("\n" + v)
    ensures RemoveComments("-" + ("\n" + v)) == "-" + RemoveComments("\n" + v)
  {
    CommentAlone(c, v);
    CommentAfterDash(c, v);
    DashBeforeNewline(v);
  }

  lemma CommentAlone(c: string, v: string)
    requires '\n' !in c
    ensures RemoveComments("--" + c + "\n" + v) == RemoveComments("\n" + v)
  {
    CommentSkips(c, v);
    var s, rest := "--" + c + "\n" + v, c + "\n" + v;
    assert s == "--" + rest;
    CommentRemoved(s, rest);
  }

  lemma CommentAfterDash(c: string, v: string)
    requires '\n' !in c
    ensures RemoveComments("-" + ("--" + c + "\n" + v)) == RemoveComments("\n" + v)
  {
    CommentSkips(c, v);
    var s, rest := "-" + ("--" + c + "\n" + v), "-" + c + "\n" + v;
    assert s == "--" + rest;
    CommentRemoved(s, rest);
  }

  lemma CommentRemoved(s: string, rest: string)
    requires s == "--" + rest
    ensures RemoveComments(s) == RemoveComments(SkipLine(rest))
  {
    assert StartsComment(s) && s[2..] == rest;
  }

  lemma DashBeforeNewline(v: string)
    ensures RemoveComments("-" + ("\n" + v)) == "-" + RemoveComments("\n" + v)
  {
    var s := "-" + ("\n" + v);
    assert s[1] == '\n' && s[1..] == "\n" + v;
  }

  /** Inserting a line comment (whatever it holds, semicolons included) before a newline leaves the
      text after comment removal alone unless, exactly, the preceding character is a dash outside a
      comment: that dash would be taken into the comment marker. */
  lemma {:induction false} InsertedCommentIsInvisibleIff(u: string, c: string, v: string)
    requires '\n' !in c
    ensures RemoveComments(u + ("--" + c + "\n" + v)) == RemoveComments(u + ("\n" + v))
      <==> (u == "" || u[|u| - 1] != '-' || InComment(u))
    decreases |u|
  {
    var with := "--" + c + "\n" + v;
    var bare := "\n" + v;
    CommentAtStart(c, v);
    if u == "" {
      assert u + with == with && u + bare == bare;
    } else if StartsComment(u) {
      StepInComment(u, with);
      StepInComment(u, bare);
      SkipLineAppend(u[2..], "");
      if SkipLine(u[2..]) != "" {
        InsertedCommentIsInvisibleIff(SkipLine(u[2..]), c, v);
      } else {
        CommentSkips(c, v);
      }
    } else if u != "-" {
      StepInCode(u, with);
      StepInCode(u, bare);
      InsertedCommentIsInvisibleIff(u[1..], c, v);
      var x := RemoveComments(u[1..] + with);
      var y := RemoveComments(u[1..] + bare);
      assert ([u[0]] + x)[1..] == x && ([u[0]] + y)[1..] == y;
      LastOfTail(u);
    }
  }

  lemma LastOfTail(u: string)
    requires |u| >= 1 && u != "-" && !StartsComment(u)
    ensures (u == "" || u[|u| - 1] != '-' || InComment(u)) <==>
      (u[1..] == "" || u[1..][|u[1..]| - 1] != '-' || InComment(u[1..]))
  {
  }

  lemma {:induction false} CommentSkips(c: string, v: string)
    requires '\n' !in c
    ensures SkipLine(c + "\n" + v) == "\n" + v
    ensures SkipLine("-" + c + "\n" + v) == "\n" + v
    ensures SkipLine("--" + c + "\n" + v) == "\n" + v
  {
    SkipToNewline(c, v);
    SkipToNewline("-" + c, v);
    SkipToNewline("--" + c, v);
  }

  lemma {:induction false} SkipToNewline(c: string, v: string)
    requires '\n' !in c
    ensures SkipLine(c + "\n" + v) == "\n" + v
  {
    if c != "" {
      SkipToNewline(c[1..], v);
      assert (c + "\n" + v)[1..] == c[1..] + "\n" + v;
    } else {
      assert c + "\n" + v == "\n" + v;
    }
  }

  /** So the statements executed are the same with and without the comment. */
  lemma CommentsDoNotChangeStatements(u: string, c: string, v: string)
    requires '\n' !in c && (u == "" || u[|u| - 1] != '-' || InComment(u))
    ensures SplitStatements(u + ("--" + c + "\n" + v)) == SplitStatements(u + ("\n" + v))
  {
    InsertedCommentIsInvisibleIff(u, c, v);
  }
}
