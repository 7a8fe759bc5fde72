/**
 * The terminal-control-sequence filter applied to the transcription engine's
 * standard output: one left-to-right regular-expression substitution that deletes
 * every match of
 *   ESC ( Fe | '[' P* I* F )
 * where Fe is a character in '@'..'Z' or '\\'..'_', P a parameter character in
 * '0'..'?', I an intermediate character in ' '..'/', and F a final character in
 * '@'..'~' (the escape and control-sequence forms of ECMA-48).
 */
module Ansi {
  import opened Wrappers

  const Esc: char := '\U{001B}'

  /** The one-character escapes the pattern accepts. The class also admits ']', which lies in '\\'..'_'. */
  predicate IsFe(c: char) { '@' <= c <= 'Z' || '\\' <= c <= '_' }

  predicate IsParameter(c: char) { '0' <= c <= '?' }

  predicate IsIntermediate(c: char) { ' ' <= c <= '/' }

  predicate IsFinal(c: char) { '@' <= c <= '~' }

  /** `body` is a run of parameter characters followed by a run of intermediate characters: P* I*. */
  ghost predicate IsControlBody(body: string)
    decreases |body|
  {
    || (forall j :: 0 <= j < |body| ==> IsIntermediate(body[j]))
    || (body != [] && IsParameter(body[0]) && IsControlBody(body[1..]))
  }

  /** The language of the pattern: `e` is exactly one escape sequence. */
  ghost predicate IsEscapeSequence(e: string)
  {
    && |e| >= 2
    && e[0] == Esc
    && (|| (|e| == 2 && IsFe(e[1]))
        || (&& |e| >= 3
            && e[1] == '['
            && IsFinal(e[|e| - 1])
            && IsControlBody(e[2..|e| - 1])))
  }

  /** The length of the longest run of parameter characters at the start of `s`. */
  function ParameterRun(s: string): (n: nat)
    ensures n <= |s|
    ensures forall k :: 0 <= k < n ==> IsParameter(s[k])
    ensures n == |s| || !IsParameter(s[n])
  {
    if s != [] && IsParameter(s[0]) then 1 + ParameterRun(s[1..]) else 0
  }

  /** The length of the longest run of intermediate characters at the start of `s`. */
  function IntermediateRun(s: string): (n: nat)
    ensures n <= |s|
    ensures forall k :: 0 <= k < n ==> IsIntermediate(s[k])
    ensures n == |s| || !IsIntermediate(s[n])
  {
    if s != [] && IsIntermediate(s[0]) then 1 + IntermediateRun(s[1..]) else 0
  }

  /**
   * The length of the match of the pattern at the start of `s`, if there is one.
   * The character classes are disjoint, so the greedy runs are the only way the
   * regular-expression engine can succeed, and backtracking never finds another.
   */
  function MatchLength(s: string): (r: Option<nat>)
    ensures r.Some? ==> 2 <= r.value <= |s|
  {
    if |s| < 2 || s[0] != Esc then None
    else if IsFe(s[1]) then Some(2)
    else if s[1] != '[' then None
    else
      var p := ParameterRun(s[2..]);
      var q := IntermediateRun(s[2 + p..]);
      if 2 + p + q < |s| && IsFinal(s[2 + p + q]) then Some(3 + p + q) else None
  }

  /**
   * `re.sub(pattern, '', s)`: scanning left to right, a match starting at the
   * current position is deleted and the scan resumes after it; otherwise the
   * current character is kept and the scan moves one place on.
   */
  function StripAnsi(s: string): (r: string)
    ensures |r| <= |s|
    decreases |s|
  {
    if s == [] then []
    else
      match MatchLength(s)
      case Some(n) => StripAnsi(s[n..])
      case None => [s[0]] + StripAnsi(s[1..])
  }

  /** The greedy runs cover `body` exactly when `body` has the form P* I*. */
  lemma {:induction false} ControlBodyRuns(body: string)
    ensures IsControlBody(body) <==>
      ParameterRun(body) + IntermediateRun(body[ParameterRun(body)..]) == |body|
    decreases |body|
  {
    var p := ParameterRun(body);
    if body == [] {
    } else if IsParameter(body[0]) {
      ControlBodyRuns(body[1..]);
      assert body[p..] == body[1..][ParameterRun(body[1..])..];
      assert !IsIntermediate(body[0]);
    } else {
      assert body[p..] == body;
    }
  }

  /** Every match the scan finds is an escape sequence of the pattern. */
  lemma MatchSound(s: string)
    requires MatchLength(s).Some?
    ensures IsEscapeSequence(s[..MatchLength(s).value])
  {
    if !IsFe(s[1]) {
      ControlSequenceSound(s);
    }
  }

  /** A match after ESC '[' is a control sequence ESC '[' P* I* F. */
  lemma ControlSequenceSound(s: string)
    requires MatchLength(s).Some? && !IsFe(s[1])
    ensures IsEscapeSequence(s[..MatchLength(s).value])
  {
    ControlMatchFound(s);
    ControlSequenceOfRuns(s, MatchLength(s).value);
  }

  /** ESC '[', the greedy runs and a final character form a control sequence. */
  lemma ControlSequenceOfRuns(s: string, n: nat)
    requires 2 <= |s| && s[0] == Esc && s[1] == '['
    requires var p := ParameterRun(s[2..]); var q := IntermediateRun(s[2 + p..]);
      n == 3 + p + q && n <= |s| && IsFinal(s[n - 1])
    ensures IsEscapeSequence(s[..n])
  {
    assert s[2 + ParameterRun(s[2..])..] == s[2..][ParameterRun(s[2..])..];
    assert s[2..][n - 3] == s[n - 1];
    BodyOfRuns(s[2..], n - 3);
    EscapeOfPrefix(s, n);
  }

  /** A control body between ESC '[' and a final character makes the prefix a control sequence. */
  lemma EscapeOfPrefix(s: string, n: nat)
    requires 3 <= n <= |s| && s[0] == Esc && s[1] == '[' && IsFinal(s[n - 1])
    requires IsControlBody(s[2..][..n - 3])
    ensures IsEscapeSequence(s[..n])
  {
    var e := s[..n];
    assert e[2..n - 1] == s[2..][..n - 3];
    assert e[0] == Esc && e[1] == '[' && e[n - 1] == s[n - 1];
  }

  /** A match that is not a two-character sequence is ESC '[', the greedy runs and a final character. */
  lemma ControlMatchFound(s: string)
    requires MatchLength(s).Some? && !IsFe(s[1])
    ensures s[0] == Esc && s[1] == '['
    ensures var p := ParameterRun(s[2..]); var q := IntermediateRun(s[2 + p..]);
      2 + p + q < |s| && IsFinal(s[2 + p + q]) && MatchLength(s).value == 3 + p + q
  {
  }

  /** The greedy runs followed by a final character delimit a control body. */
  lemma BodyOfRuns(t: string, m: nat)
    requires m < |t| && IsFinal(t[m])
    requires var p := ParameterRun(t); p + IntermediateRun(t[p..]) == m
    ensures IsControlBody(t[..m])
  {
    ControlBodyRuns(t[..m]);
    RunsOfPrefix(t, m);
  }

  lemma ParameterRunPrefix(s: string, m: nat)
    requires m < |s| && !IsParameter(s[m])
    ensures ParameterRun(s[..m]) == ParameterRun(s)
  {
    var p, p' := ParameterRun(s), ParameterRun(s[..m]);
    assert p <= m;
    assert forall j :: 0 <= j < m ==> s[..m][j] == s[j];
  }

  lemma IntermediateRunPrefix(s: string, m: nat)
    requires m < |s| && !IsIntermediate(s[m])
    ensures IntermediateRun(s[..m]) == IntermediateRun(s)
  {
    var q, q' := IntermediateRun(s), IntermediateRun(s[..m]);
    assert q <= m;
    assert forall j :: 0 <= j < m ==> s[..m][j] == s[j];
  }

  /**
   * The greedy runs of `s` and of its prefix of length `m` agree when the
   * character at `m` can continue neither run.
   */
  lemma RunsOfPrefix(s: string, m: nat)
    requires m < |s| && !IsParameter(s[m]) && !IsIntermediate(s[m])
    ensures ParameterRun(s[..m]) == ParameterRun(s)
    ensures IntermediateRun(s[..m][ParameterRun(s)..]) == IntermediateRun(s[ParameterRun(s)..])
  {
    ParameterRunPrefix(s, m);
    var p := ParameterRun(s);
    assert s[..m][p..] == s[p..][..m - p];
    assert s[p..][m - p] == s[m];
    IntermediateRunPrefix(s[p..], m - p);
  }

  /** Every escape sequence at the start of `s` is the match the scan finds there. */
  lemma MatchComplete(s: string, n: nat)
    requires n <= |s| && IsEscapeSequence(s[..n])
    ensures MatchLength(s) == Some(n)
  {
    var e := s[..n];
    if n != 2 || !IsFe(s[1]) {
      assert e[1] == s[1] && e[n - 1] == s[n - 1];
      assert e[2..n - 1] == s[2..n - 1];
      ControlSequenceComplete(s, n);
    }
  }

  /** A control sequence ESC '[' P* I* F at the start of `s` is the match found there. */
  lemma ControlSequenceComplete(s: string, n: nat)
    requires 3 <= n <= |s| && s[0] == Esc && s[1] == '['
    requires IsFinal(s[n - 1]) && IsControlBody(s[2..n - 1])
    ensures MatchLength(s) == Some(n)
  {
    var t := s[2..];
    assert s[2..n - 1] == t[..n - 3];
    assert t[n - 3] == s[n - 1];
    RunsCoverBody(t, n - 3);
    var p := ParameterRun(t);
    assert s[2 + p..] == t[p..];
    ControlMatch(s);
  }

  /** The greedy runs stop exactly at the final character that closes a control body. */
  lemma RunsCoverBody(t: string, m: nat)
    requires m < |t| && IsFinal(t[m]) && IsControlBody(t[..m])
    ensures var p := ParameterRun(t); p + IntermediateRun(t[p..]) == m
  {
    ControlBodyRuns(t[..m]);
    RunsOfPrefix(t, m);
  }

  /** After ESC '[', the scan matches when a final character follows the greedy runs. */
  lemma ControlMatch(s: string)
    requires 2 <= |s| && s[0] == Esc && s[1] == '['
    ensures var p := ParameterRun(s[2..]); var q := IntermediateRun(s[2 + p..]);
      2 + p + q < |s| && IsFinal(s[2 + p + q]) ==> MatchLength(s) == Some(3 + p + q)
  {
    assert !IsFe(s[1]);
  }

  /** An escape sequence at the front is deleted whole, whatever follows it. */
  lemma RemovesSequence(e: string, rest: string)
    requires IsEscapeSequence(e)
    ensures StripAnsi(e + rest) == StripAnsi(rest)
  {
    assert (e + rest)[..|e|] == e;
    MatchComplete(e + rest, |e|);
    assert (e + rest)[|e|..] == rest;
  }

  /**
   * A character at which no escape sequence starts is kept: in particular an ESC
   * followed by a character that begins no sequence, or by '[' with no final
   * character after its parameters and intermediates.
   */
  lemma KeepsUnmatched(s: string)
    requires s != []
    requires forall n :: 0 <= n <= |s| ==> !IsEscapeSequence(s[..n])
    ensures StripAnsi(s) == [s[0]] + StripAnsi(s[1..])
  {
    if MatchLength(s).Some? {
      MatchSound(s);
      assert false;
    }
  }

  /** Text free of ESC passes through unchanged and shields what follows it. */
  lemma {:induction false} KeepsPlainPrefix(a: string, b: string)
    requires Esc !in a
    ensures StripAnsi(a + b) == a + StripAnsi(b)
    decreases |a|
  {
    if a != [] {
      var s := a + b;
      assert s[0] == a[0] != Esc;
      assert MatchLength(s) == None;
      assert s[1..] == a[1..] + b;
      KeepsPlainPrefix(a[1..], b);
    } else {
      assert a + b == b;
    }
  }

  /**
   * Text without ESC is returned unchanged: bracketed timestamps such as
   * "[00:00:01.000 --> 00:00:02.000]" survive.
   */
  lemma UnchangedWithoutEsc(s: string)
    requires Esc !in s
    ensures StripAnsi(s) == s
  {
    KeepsPlainPrefix(s, []);
    assert s + [] == s;
  }

  /** Text in which no escape sequence starts anywhere is returned unchanged. */
  lemma {:induction false} UnchangedWithoutSequences(s: string)
    requires forall i, n :: 0 <= i <= n <= |s| ==> !IsEscapeSequence(s[i..n])
    ensures StripAnsi(s) == s
    decreases |s|
  {
    if s != [] {
      forall n | 0 <= n <= |s| ensures !IsEscapeSequence(s[..n]) {
        assert s[..n] == s[0..n];
      }
      KeepsUnmatched(s);
      forall i, n | 0 <= i <= n <= |s| - 1 ensures !IsEscapeSequence(s[1..][i..n]) {
        assert s[1..][i..n] == s[i + 1..n + 1];
      }
      UnchangedWithoutSequences(s[1..]);
    }
  }

  /** An escape sequence anywhere in the text makes the filter delete something. */
  lemma {:induction false} ShrinksWithSequence(s: string, i: nat, n: nat)
    requires i <= n <= |s| && IsEscapeSequence(s[i..n])
    ensures |StripAnsi(s)| < |s|
    decreases |s|
  {
    if i == 0 {
      assert s[..n] == s[i..n];
      MatchComplete(s, n);
    } else if MatchLength(s).None? {
      assert s[1..][i - 1..n - 1] == s[i..n];
      ShrinksWithSequence(s[1..], i - 1, n - 1);
    }
  }

  /** The filter leaves a text unchanged exactly when no escape sequence starts anywhere in it. */
  lemma FixedPoints(s: string)
    ensures StripAnsi(s) == s <==> forall i, n :: 0 <= i <= n <= |s| ==> !IsEscapeSequence(s[i..n])
  {
    if forall i, n :: 0 <= i <= n <= |s| ==> !IsEscapeSequence(s[i..n]) {
      UnchangedWithoutSequences(s);
    } else {
      var i, n :| 0 <= i <= n <= |s| && IsEscapeSequence(s[i..n]);
      ShrinksWithSequence(s, i, n);
    }
  }

  /** The greedy runs of `t` are not extended by text that starts with ESC. */
  lemma RunsBeforeEsc(t: string, x: string)
    requires x == [] || x[0] == Esc
    ensures ParameterRun(t + x) == ParameterRun(t)
    ensures IntermediateRun(t + x) == IntermediateRun(t)
  {
    var p, p' := ParameterRun(t), ParameterRun(t + x);
    assert forall k :: 0 <= k < |t| ==> (t + x)[k] == t[k];
    assert p < |t + x| ==> (t + x)[p] == if p < |t| then t[p] else Esc;
    var q, q' := IntermediateRun(t), IntermediateRun(t + x);
    assert q < |t + x| ==> (t + x)[q] == if q < |t| then t[q] else Esc;
  }

  /**
   * After ESC '[', the runs and the character that follows them are the same in
   * `a` and in `a + x` when `x` starts with ESC: no match reaches into `x`.
   */
  lemma ControlPartBeforeEsc(a: string, x: string)
    requires 2 <= |a| && (x == [] || x[0] == Esc)
    ensures var s := a + x;
      var p := ParameterRun(s[2..]); var q := IntermediateRun(s[2 + p..]);
      && p == ParameterRun(a[2..]) && q == IntermediateRun(a[2 + p..])
      && (2 + p + q < |s| && IsFinal(s[2 + p + q]) <==> 2 + p + q < |a| && IsFinal(a[2 + p + q]))
  {
    var s := a + x;
    assert s[2..] == a[2..] + x;
    RunsBeforeEsc(a[2..], x);
    var p := ParameterRun(a[2..]);
    assert s[2 + p..] == a[2 + p..] + x;
    RunsBeforeEsc(a[2 + p..], x);
    var q := IntermediateRun(a[2 + p..]);
    assert 2 + p + q < |s| ==> s[2 + p + q] == if 2 + p + q < |a| then a[2 + p + q] else Esc;
  }

  /** The match at the front of a non-empty `a` is the same when text starting with ESC follows. */
  lemma MatchBeforeEsc(a: string, x: string)
    requires a != [] && (x == [] || x[0] == Esc)
    ensures MatchLength(a + x) == MatchLength(a)
  {
    var s := a + x;
    if |a| == 1 {
      assert |s| >= 2 ==> s[1] == Esc;
    } else {
      assert s[..2] == a[..2];
      ControlPartBeforeEsc(a, x);
      SameMatch(s, a);
    }
  }

  /** Two texts agree on their match when they agree on the first two characters and on the control part. */
  lemma SameMatch(s: string, a: string)
    requires 2 <= |a| <= |s| && s[..2] == a[..2]
    requires var p := ParameterRun(s[2..]); var q := IntermediateRun(s[2 + p..]);
      && p == ParameterRun(a[2..]) && q == IntermediateRun(a[2 + p..])
      && (2 + p + q < |s| && IsFinal(s[2 + p + q]) <==> 2 + p + q < |a| && IsFinal(a[2 + p + q]))
    ensures MatchLength(s) == MatchLength(a)
  {
    assert s[0] == s[..2][0] && s[1] == s[..2][1];
    assert a[0] == a[..2][0] && a[1] == a[..2][1];
  }

  /** The scan never runs across an ESC that starts the second part: it filters both parts on their own. */
  lemma {:induction false} SplitAtEsc(a: string, x: string)
    requires x == [] || x[0] == Esc
    ensures StripAnsi(a + x) == StripAnsi(a) + StripAnsi(x)
    decreases |a|
  {
    if a == [] {
      assert a + x == x;
    } else {
      MatchBeforeEsc(a, x);
      var m := MatchLength(a);
      var n := if m.Some? then m.value else 1;
      assert (a + x)[n..] == a[n..] + x;
      SplitAtEsc(a[n..], x);
      ScanStep(a, x, m);
    }
  }

  /** One step of the scan over `a` and over `a + x` when both find the same match at the front. */
  lemma ScanStep(a: string, x: string, m: Option<nat>)
    requires a != [] && MatchLength(a + x) == m && MatchLength(a) == m
    ensures var n := if m.Some? then m.value else 1;
      n <= |a| &&
      (StripAnsi((a + x)[n..]) == StripAnsi(a[n..]) + StripAnsi(x) ==> StripAnsi(a + x) == StripAnsi(a) + StripAnsi(x))
  {
    assert (a + x)[0] == a[0];
  }

  /** An escape sequence is deleted whole wherever it stands, whatever surrounds it. */
  lemma RemovedAnywhere(a: string, e: string, b: string)
    requires IsEscapeSequence(e)
    ensures StripAnsi(a + e + b) == StripAnsi(a) + StripAnsi(b)
  {
    assert a + e + b == a + (e + b) && (e + b)[0] == Esc;
    SplitAtEsc(a, e + b);
    RemovesSequence(e, b);
  }

  /** `a` is a subsequence of `b`: `b` with some characters deleted. */
  ghost predicate IsSubsequence(a: string, b: string)
    decreases |b|
  {
    if a == [] then true
    else if b == [] then false
    else (a[0] == b[0] && IsSubsequence(a[1..], b[1..])) || IsSubsequence(a, b[1..])
  }

  lemma {:induction false} SubsequenceOfLonger(a: string, x: string, b: string)
    requires IsSubsequence(a, b)
    ensures IsSubsequence(a, x + b)
    decreases |x|
  {
    if x == [] {
      assert x + b == b;
    } else if a != [] {
      assert (x + b)[1..] == x[1..] + b;
      SubsequenceOfLonger(a, x[1..], b);
    }
  }

  /** The filter only deletes: its output is a subsequence of its input. */
  lemma {:induction false} StripAnsiSubsequence(s: string)
    ensures IsSubsequence(StripAnsi(s), s)
    decreases |s|
  {
    if s != [] {
      match MatchLength(s)
      case Some(n) =>
        StripAnsiSubsequence(s[n..]);
        SubsequenceOfLonger(StripAnsi(s[n..]), s[..n], s[n..]);
        assert s[..n] + s[n..] == s;
      case None =>
        StripAnsiSubsequence(s[1..]);
        var r := StripAnsi(s);
        assert r[0] == s[0] && r[1..] == StripAnsi(s[1..]);
    }
  }

  /** Select Graphic Rendition: bold on, and all attributes off. */
  const Bold: string := [Esc] + "[1m"
  const Reset: string := [Esc] + "[0m"

  /** Bold and reset are control sequences of the pattern. */
  lemma StyleSequences()
    ensures IsEscapeSequence(Bold) && IsEscapeSequence(Reset)
  {
    assert IsControlBody(Bold[2..3][1..]);
    assert IsControlBody(Reset[2..3][1..]);
  }

  /** Bold text between ESC-free text comes out plain: both sequences go, all else stays. */
  lemma StripStyled(a: string, t: string, b: string)
    requires Esc !in a && Esc !in t && Esc !in b
    ensures StripAnsi(a + Bold + t + Reset + b) == a + t + b
  {
    StyleSequences();
    assert a + Bold + t + Reset + b == a + Bold + (t + Reset + b);
    RemovedAnywhere(a, Bold, t + Reset + b);
    RemovedAnywhere(t, Reset, b);
    UnchangedWithoutEsc(a);
    UnchangedWithoutEsc(t);
    UnchangedWithoutEsc(b);
  }

  /** The styled word "\x1B[1mHello\x1B[0m" comes out as "Hello". */
  lemma StyledWord()
    ensures StripAnsi(Bold + "Hello" + Reset) == "Hello"
  {
    StyleSequences();
    assert Bold + "Hello" + Reset == Bold + ("Hello" + Reset);
    RemovesSequence(Bold, "Hello" + Reset);
    KeepsPlainPrefix("Hello", Reset);
    assert Reset == Reset + [];
    RemovesSequence(Reset, []);
  }

  /**
   * The filter is not idempotent: deleting one sequence can bring an earlier,
   * unmatched ESC next to a character that completes a new one.
   */
  lemma NotIdempotent()
    ensures var s := [Esc, Esc, 'A', 'B'];
      StripAnsi(s) == [Esc, 'B'] && StripAnsi(StripAnsi(s)) == []
  {
    var s := [Esc, Esc, 'A', 'B'];
    assert MatchLength(s) == None;
    assert s[1..] == [Esc, 'A'] + ['B'];
    assert IsEscapeSequence([Esc, 'A']);
    RemovesSequence([Esc, 'A'], ['B']);
    assert StripAnsi(['B']) == ['B'];
    assert [Esc, 'B'] == [Esc, 'B'] + [];
    RemovesSequence([Esc, 'B'], []);
  }
}
