/** `cleanText` of the policy service: the normalisation applied to text
    extracted from an uploaded policy before it is sent to the LLM
    (backend/internal/service/service.go, cleanText).

    The function runs four stages:
      1. replace every "\r\n" by "\n";
      2. split into '\n'-separated lines, trim each line, join again;
      3. replace every run of two or more '\n' by exactly two;
      4. replace every run of two or more ' ' by exactly one.
    Stages 3 and 4 are regular-expression replacements; `RegexCollapse`
    models the regex engine's leftmost, greedy, non-overlapping matching
    and `CapRuns` is an equivalent run-length view used in the proofs. */
module CleanText {
  import opened Text

  // ---------------------------------------------------------------------
  // Stage 1: "\r\n" -> "\n"

  /** `strings.ReplaceAll(s, "\r\n", "\n")`, scanning left to right. */
  function ReplaceCrlf(s: Str): (r: Str)
    ensures |r| <= |s|
  {
    if |s| >= 2 && s[0] == '\r' && s[1] == '\n' then ['\n'] + ReplaceCrlf(s[2..])
    else if |s| == 0 then []
    else [s[0]] + ReplaceCrlf(s[1..])
  }

  /** No '\r' is immediately followed by '\n'. */
  predicate NoCrlf(s: Str) {
    forall i :: 0 <= i < |s| - 1 ==> !(s[i] == '\r' && s[i + 1] == '\n')
  }

  lemma {:induction false} ReplaceCrlfIdentity(s: Str)
    requires NoCrlf(s)
    ensures ReplaceCrlf(s) == s
  {
    if |s| >= 1 {
      assert !(|s| >= 2 && s[0] == '\r' && s[1] == '\n');
      assert NoCrlf(s[1..]) by {
        forall i | 0 <= i < |s[1..]| - 1 ensures !(s[1..][i] == '\r' && s[1..][i + 1] == '\n') {
          assert s[1..][i] == s[i + 1] && s[1..][i + 1] == s[i + 2];
        }
      }
      ReplaceCrlfIdentity(s[1..]);
      assert [s[0]] + s[1..] == s;
    }
  }

  // ---------------------------------------------------------------------
  // Stage 2: trim every line

  /** `strings.TrimSpace` applied to every element. */
  function TrimAll(ls: seq<Str>): (r: seq<Str>)
    ensures |r| == |ls|
    ensures forall i :: 0 <= i < |ls| ==> r[i] == GoTrimSpace(ls[i])
  {
    seq(|ls|, i requires 0 <= i < |ls| => GoTrimSpace(ls[i]))
  }

  function TrimLines(s: Str): Str {
    Join(TrimAll(Split(s, '\n')), '\n')
  }

  lemma {:induction false} JoinTrimAllNeverLonger(ls: seq<Str>)
    ensures |Join(TrimAll(ls), '\n')| <= |Join(ls, '\n')|
  {
    if |ls| >= 2 {
      JoinTrimAllNeverLonger(ls[1..]);
      assert TrimAll(ls)[1..] == TrimAll(ls[1..]);
    }
  }

  // ---------------------------------------------------------------------
  // Stages 3 and 4: collapsing runs of one character

  /** `Repeat(c, n)` is `n` copies of `c`. */
  function Repeat(c: char, n: nat): (r: Str)
    ensures |r| == n
    ensures forall i :: 0 <= i < n ==> r[i] == c
  {
    if n == 0 then [] else [c] + Repeat(c, n - 1)
  }

  /** The length of the run of `c` that `s` starts with. */
  function LeadingRun(s: Str, c: char): (n: nat)
    ensures n <= |s|
    ensures forall i :: 0 <= i < n ==> s[i] == c
    ensures n < |s| ==> s[n] != c
  {
    if |s| > 0 && s[0] == c then 1 + LeadingRun(s[1..], c) else 0
  }

  /** `regexp.MustCompile(c{m,}).ReplaceAllString(s, rep)`: the engine finds
      the leftmost match, takes it greedily (the whole run of `c`),
      substitutes `rep` and resumes after the match; a position where no
      match starts is copied. */
  function RegexCollapse(s: Str, c: char, m: nat, rep: Str): (r: Str)
    requires m >= 1
    ensures |rep| <= m ==> |r| <= |s|
    decreases |s|
  {
    if |s| == 0 then []
    else
      var n := LeadingRun(s, c);
      if n >= m then rep + RegexCollapse(s[n..], c, m, rep)
      else [s[0]] + RegexCollapse(s[1..], c, m, rep)
  }

  /** Keeps at most `k` characters of every run of `c`; `run` is how many
      `c` the output already ends with in the current run. */
  function CapRuns(s: Str, c: char, k: nat, run: nat): (r: Str)
    ensures |r| <= |s|
  {
    if |s| == 0 then []
    else if s[0] == c then
      if run < k then [c] + CapRuns(s[1..], c, k, run + 1) else CapRuns(s[1..], c, k, run)
    else [s[0]] + CapRuns(s[1..], c, k, 0)
  }

  /** Peeling one `c` off a run followed by `t`. */
  lemma RepeatAppendHead(c: char, n: nat, t: Str)
    requires n > 0
    ensures |Repeat(c, n) + t| > 0 && (Repeat(c, n) + t)[0] == c
    ensures (Repeat(c, n) + t)[1..] == Repeat(c, n - 1) + t
  {
    assert Repeat(c, n) == [c] + Repeat(c, n - 1);
  }

  /** CapRuns on a leading `c`: kept while the run is below the cap. */
  lemma CapRunsOnC(s: Str, c: char, k: nat, run: nat)
    requires |s| > 0 && s[0] == c
    ensures run < k ==> CapRuns(s, c, k, run) == [c] + CapRuns(s[1..], c, k, run + 1)
    ensures run >= k ==> CapRuns(s, c, k, run) == CapRuns(s[1..], c, k, run)
  {
  }

  /** A run of `n` copies of `c` passes through CapRuns as `min(n, k - run)`
      copies. */
  lemma {:induction false} CapRunsOverRun(n: nat, t: Str, c: char, k: nat, run: nat)
    requires run <= k
    ensures CapRuns(Repeat(c, n) + t, c, k, run)
         == Repeat(c, Min(n, k - run)) + CapRuns(t, c, k, Min(run + n, k))
    decreases n, 1
  {
    if n == 0 {
      assert Repeat(c, n) + t == t;
    } else if run < k {
      CapRunsOverRunKept(n, t, c, k, run);
    } else {
      var s := Repeat(c, n) + t;
      RepeatAppendHead(c, n, t);
      CapRunsOnC(s, c, k, run);
      CapRunsOverRun(n - 1, t, c, k, run);
      assert Repeat(c, Min(n, k - run)) == [];
    }
  }

  /** The step of CapRunsOverRun where the run is still below the cap. */
  lemma {:induction false} CapRunsOverRunKept(n: nat, t: Str, c: char, k: nat, run: nat)
    requires 0 < n && run < k
    ensures CapRuns(Repeat(c, n) + t, c, k, run)
         == Repeat(c, Min(n, k - run)) + CapRuns(t, c, k, Min(run + n, k))
    decreases n, 0
  {
    var s := Repeat(c, n) + t;
    var a := Repeat(c, Min(n - 1, k - run - 1));
    var b := CapRuns(t, c, k, Min(run + n, k));
    calc {
      CapRuns(s, c, k, run);
    == { RepeatAppendHead(c, n, t); CapRunsOnC(s, c, k, run); }
      [c] + CapRuns(Repeat(c, n - 1) + t, c, k, run + 1);
    == { CapRunsOverRun(n - 1, t, c, k, run + 1); }
      [c] + (a + b);
    == { SeqAssoc([c], a, b); }
      ([c] + a) + b;
    }
    assert Repeat(c, Min(n, k - run)) == [c] + a;
  }

  lemma SeqAssoc(x: Str, y: Str, z: Str)
    ensures x + (y + z) == (x + y) + z
  {
  }

  function Min(a: int, b: int): int { if a <= b then a else b }

  /** Past the end of a run the counter no longer matters. */
  lemma CapRunsReset(t: Str, c: char, k: nat, run: nat)
    requires |t| == 0 || t[0] != c
    ensures CapRuns(t, c, k, run) == CapRuns(t, c, k, 0)
  {
  }

  /** The regular-expression replacement of `c{2,}` by `k` copies of `c`
      (k is 2 for newlines and 1 for spaces) keeps `min(n, k)` characters of
      every run of `n` — it is CapRuns. */
  lemma {:induction false} RegexCollapseIsCapRuns(s: Str, c: char, k: nat)
    requires k == 1 || k == 2
    ensures RegexCollapse(s, c, 2, Repeat(c, k)) == CapRuns(s, c, k, 0)
    decreases |s|
  {
    if |s| > 0 {
      var n := LeadingRun(s, c);
      if n >= 2 {
        assert s == Repeat(c, n) + s[n..];
        CapRunsOverRun(n, s[n..], c, k, 0);
        CapRunsReset(s[n..], c, k, k);
        RegexCollapseIsCapRuns(s[n..], c, k);
      } else {
        RegexCollapseIsCapRuns(s[1..], c, k);
        if s[0] == c {
          CapRunsReset(s[1..], c, k, 1);
        }
      }
    }
  }

  // ---------------------------------------------------------------------
  // Adjacency properties

  /** Every two adjacent characters of `t` satisfy `ok`. */
  predicate AllAdjacent(t: Str, ok: (char, char) -> bool) {
    forall i :: 0 <= i < |t| - 1 ==> ok(t[i], t[i + 1])
  }

  lemma AdjacentCons(x: char, t: Str, ok: (char, char) -> bool)
    ensures AllAdjacent([x] + t, ok) <==> (|t| == 0 || ok(x, t[0])) && AllAdjacent(t, ok)
  {
    var s := [x] + t;
    assert forall i :: 0 <= i < |t| ==> s[i + 1] == t[i];
    if AllAdjacent(s, ok) {
      forall i | 0 <= i < |t| - 1 ensures ok(t[i], t[i + 1]) {
        assert ok(s[i + 1], s[i + 2]);
      }
      if |t| > 0 {
        assert ok(s[0], s[1]);
      }
    }
    if (|t| == 0 || ok(x, t[0])) && AllAdjacent(t, ok) {
      forall i | 0 <= i < |s| - 1 ensures ok(s[i], s[i + 1]) {
        if i > 0 {
          assert ok(t[i - 1], t[i]);
        }
      }
    }
  }

  /** Splitting an adjacency property at a shared middle character. */
  lemma AdjacentSplit(a: Str, m: char, b: Str, ok: (char, char) -> bool)
    ensures AllAdjacent(a + [m] + b, ok) <==> AllAdjacent(a + [m], ok) && AllAdjacent([m] + b, ok)
  {
    var t := a + [m] + b;
    assert forall i :: 0 <= i < |a| + 1 ==> t[i] == (a + [m])[i];
    assert forall i :: 0 <= i < |b| + 1 ==> t[|a| + i] == ([m] + b)[i];
    if AllAdjacent(a + [m], ok) && AllAdjacent([m] + b, ok) {
      forall i | 0 <= i < |t| - 1 ensures ok(t[i], t[i + 1]) {
        if i < |a| {
          assert ok((a + [m])[i], (a + [m])[i + 1]);
        } else {
          assert ok(([m] + b)[i - |a|], ([m] + b)[i - |a| + 1]);
        }
      }
    }
  }

  /** A run of `c` longer than `k` is never kept: CapRuns keeps every pair
      of adjacent characters that the input had. */
  lemma {:induction false} CapRunsKeepsAdjacent(s: Str, c: char, k: nat, run: nat, prev: char, tail: Str,
                                                 ok: (char, char) -> bool)
    requires k >= 1
    requires run > 0 ==> prev == c
    requires AllAdjacent([prev] + s + tail, ok)
    ensures AllAdjacent([prev] + CapRuns(s, c, k, run) + tail, ok)
    decreases |s|
  {
    if |s| > 0 {
      var u := s[1..] + tail;
      assert [prev] + s + tail == [prev] + ([s[0]] + u) by {
        assert s == [s[0]] + s[1..];
      }
      AdjacentCons(prev, [s[0]] + u, ok);
      assert [s[0]] + s[1..] + tail == [s[0]] + u;
      if s[0] == c && run >= k {
        assert [prev] + s[1..] + tail == [s[0]] + u;
        CapRunsKeepsAdjacent(s[1..], c, k, run, prev, tail, ok);
        assert CapRuns(s, c, k, run) == CapRuns(s[1..], c, k, run);
      } else {
        var run' := if s[0] == c then run + 1 else 0;
        CapRunsKeepsAdjacent(s[1..], c, k, run', s[0], tail, ok);
        var rest := CapRuns(s[1..], c, k, run');
        var v := rest + tail;
        assert [s[0]] + rest + tail == [s[0]] + v;
        AdjacentCons(prev, [s[0]] + v, ok);
        assert [prev] + CapRuns(s, c, k, run) + tail == [prev] + ([s[0]] + v) by {
          assert CapRuns(s, c, k, run) == [s[0]] + rest;
        }
      }
    }
  }

  // ---------------------------------------------------------------------
  // The properties of the cleaned text

  /** Whitespace that is not a line break. */
  predicate InLineSpace(c: char) { GoIsSpace(c) && c != '\n' }

  /** A line break is never next to in-line whitespace. */
  predicate BreakPairOk(a: char, b: char) {
    !(a == '\n' && InLineSpace(b)) && !(InLineSpace(a) && b == '\n')
  }

  /** No '\n'-separated line of `t` starts or ends with whitespace: with a
      line break imagined before and after `t`, no line break touches
      in-line whitespace. */
  predicate LinesTrimmed(t: Str) {
    AllAdjacent(['\n'] + t + ['\n'], BreakPairOk)
  }

  predicate NoTwoSpaces(a: char, b: char) { !(a == ' ' && b == ' ') }

  /** No two consecutive ' '. */
  predicate NoDoubleSpace(t: Str) { AllAdjacent(t, NoTwoSpaces) }

  predicate NewlineTripleAt(t: Str, i: int)
    requires 0 <= i < |t| - 2
  {
    t[i] == '\n' && t[i + 1] == '\n' && t[i + 2] == '\n'
  }

  /** No run of three or more '\n'. */
  predicate NoNewlineTriple(t: Str) {
    forall i :: 0 <= i < |t| - 2 ==> !NewlineTripleAt(t, i)
  }

  /** The shape of every output of CleanText. */
  predicate IsClean(t: Str) {
    LinesTrimmed(t) && NoNewlineTriple(t) && NoDoubleSpace(t)
  }

  lemma TripleCons(x: char, t: Str)
    ensures NoNewlineTriple([x] + t)
        <==> (|t| < 2 || !(x == '\n' && t[0] == '\n' && t[1] == '\n')) && NoNewlineTriple(t)
  {
    var s := [x] + t;
    assert forall i :: 0 <= i < |t| ==> s[i + 1] == t[i];
    if NoNewlineTriple(s) {
      forall i | 0 <= i < |t| - 2 ensures !NewlineTripleAt(t, i) {
        assert !NewlineTripleAt(s, i + 1);
      }
      if |t| >= 2 {
        assert !NewlineTripleAt(s, 0);
      }
    }
    if (|t| < 2 || !(x == '\n' && t[0] == '\n' && t[1] == '\n')) && NoNewlineTriple(t) {
      forall i | 0 <= i < |s| - 2 ensures !NewlineTripleAt(s, i) {
        if i > 0 {
          assert !NewlineTripleAt(t, i - 1);
        }
      }
    }
  }

  /** The newline counter of CapRuns agrees with the two characters
      already emitted. */
  predicate NewlineRunAgrees(p1: char, p2: char, run: nat) {
    && run <= 2
    && (run == 0 ==> p2 != '\n')
    && (run == 1 ==> p2 == '\n' && p1 != '\n')
    && (run == 2 ==> p1 == '\n' && p2 == '\n')
  }

  /** Capping newline runs at two leaves no three newlines in a row. */
  lemma {:induction false} CapNewlinesNoTriple(s: Str, run: nat, p1: char, p2: char)
    requires NewlineRunAgrees(p1, p2, run)
    ensures NoNewlineTriple([p1, p2] + CapRuns(s, '\n', 2, run))
    decreases |s|
  {
    var r := CapRuns(s, '\n', 2, run);
    if |s| == 0 {
      assert [p1, p2] + r == [p1, p2];
    } else if s[0] == '\n' && run >= 2 {
      CapNewlinesNoTriple(s[1..], run, p1, p2);
    } else {
      var run' := if s[0] == '\n' then run + 1 else 0;
      var rest := CapRuns(s[1..], '\n', 2, run');
      CapNewlinesNoTriple(s[1..], run', p2, s[0]);
      assert [p1, p2] + r == [p1] + ([p2, s[0]] + rest);
      TripleCons(p1, [p2, s[0]] + rest);
    }
  }

  /** An input without three newlines in a row passes unchanged. */
  lemma {:induction false} CapNewlinesIdentity(s: Str, run: nat, p1: char, p2: char)
    requires NewlineRunAgrees(p1, p2, run)
    requires NoNewlineTriple([p1, p2] + s)
    ensures CapRuns(s, '\n', 2, run) == s
    decreases |s|
  {
    if |s| > 0 {
      assert [p1, p2] + s == [p1] + ([p2] + s);
      TripleCons(p1, [p2] + s);
      assert [p2] + s == [p2, s[0]] + s[1..];
      TripleCons(p2, s);
      var run' := if s[0] == '\n' then run + 1 else 0;
      assert [p2, s[0]] + s[1..] == [p2] + s;
      CapNewlinesIdentity(s[1..], run', p2, s[0]);
      assert [s[0]] + s[1..] == s;
    }
  }

  /** Capping space runs at one leaves no two spaces in a row. */
  lemma {:induction false} CapSpacesNoDouble(s: Str, run: nat, p: char)
    requires run <= 1
    requires run == 0 <==> p != ' '
    ensures AllAdjacent([p] + CapRuns(s, ' ', 1, run), NoTwoSpaces)
    decreases |s|
  {
    if |s| > 0 {
      if s[0] == ' ' && run >= 1 {
        CapSpacesNoDouble(s[1..], run, p);
      } else {
        var run' := if s[0] == ' ' then 1 else 0;
        var rest := CapRuns(s[1..], ' ', 1, run');
        CapSpacesNoDouble(s[1..], run', s[0]);
        AdjacentCons(p, [s[0]] + rest, NoTwoSpaces);
      }
    }
  }

  /** An input without two spaces in a row passes unchanged. */
  lemma {:induction false} CapSpacesIdentity(s: Str, run: nat, p: char)
    requires run <= 1
    requires run == 0 <==> p != ' '
    requires AllAdjacent([p] + s, NoTwoSpaces)
    ensures CapRuns(s, ' ', 1, run) == s
    decreases |s|
  {
    if |s| > 0 {
      AdjacentCons(p, s, NoTwoSpaces);
      assert [s[0]] + s[1..] == s;
      AdjacentCons(s[0], s[1..], NoTwoSpaces);
      CapSpacesIdentity(s[1..], if s[0] == ' ' then 1 else 0, s[0]);
    }
  }

  /** Deleting spaces never brings three newlines together. */
  lemma {:induction false} CapSpacesKeepsNoTriple(s: Str, run: nat, p1: char, p2: char)
    requires run > 0 ==> p2 == ' '
    requires NoNewlineTriple([p1, p2] + s)
    ensures NoNewlineTriple([p1, p2] + CapRuns(s, ' ', 1, run))
    decreases |s|
  {
    var r := CapRuns(s, ' ', 1, run);
    assert [p1, p2] + s == [p1] + ([p2] + s);
    TripleCons(p1, [p2] + s);
    if |s| == 0 {
      assert [p1, p2] + r == [p1, p2];
    } else if s[0] == ' ' && run >= 1 {
      TripleCons(p2, s);
      assert [p1, p2] + s[1..] == [p1] + ([' '] + s[1..]);
      assert [' '] + s[1..] == s;
      TripleCons(p1, [' '] + s[1..]);
      CapSpacesKeepsNoTriple(s[1..], run, p1, p2);
    } else {
      var run' := if s[0] == ' ' then 1 else 0;
      var rest := CapRuns(s[1..], ' ', 1, run');
      assert [p2, s[0]] + s[1..] == [p2] + s;
      CapSpacesKeepsNoTriple(s[1..], run', p2, s[0]);
      assert [p1, p2] + r == [p1] + ([p2, s[0]] + rest);
      TripleCons(p1, [p2, s[0]] + rest);
    }
  }

  // ---------------------------------------------------------------------
  // Lines

  lemma LinesTrimmedNoCrlf(t: Str)
    requires LinesTrimmed(t)
    ensures NoCrlf(t)
  {
    var u := ['\n'] + t + ['\n'];
    forall i | 0 <= i < |t| - 1 ensures !(t[i] == '\r' && t[i + 1] == '\n') {
      assert u[i + 1] == t[i] && u[i + 2] == t[i + 1];
      assert BreakPairOk(u[i + 1], u[i + 2]);
    }
  }

  /** For a single line, LinesTrimmed is exactly "trimmed". */
  lemma LineTrimmedIffTrimmed(l: Str)
    requires '\n' !in l
    ensures LinesTrimmed(l) <==> TrimmedBy(l, GoIsSpace)
  {
    var u := ['\n'] + l + ['\n'];
    if |l| > 0 {
      assert u[1] == l[0] && u[|l|] == l[|l| - 1];
      if TrimmedBy(l, GoIsSpace) {
        forall i | 0 <= i < |u| - 1 ensures BreakPairOk(u[i], u[i + 1]) {
          if 0 < i < |l| {
            assert u[i] == l[i - 1] && u[i + 1] == l[i];
          }
        }
      } else {
        assert !BreakPairOk(u[0], u[1]) || !BreakPairOk(u[|l|], u[|l| + 1]);
      }
    }
  }

  /** Joining with a line break: both sides trimmed iff the whole is. */
  lemma LinesTrimmedJoinTwo(a: Str, b: Str)
    ensures LinesTrimmed(a + ['\n'] + b) <==> LinesTrimmed(a) && LinesTrimmed(b)
  {
    var x := ['\n'] + a;
    var y := b + ['\n'];
    assert ['\n'] + (a + ['\n'] + b) + ['\n'] == x + ['\n'] + y;
    AdjacentSplit(x, '\n', y, BreakPairOk);
    assert x + ['\n'] == ['\n'] + a + ['\n'];
    assert ['\n'] + y == ['\n'] + b + ['\n'];
  }

  lemma {:induction false} LinesTrimmedJoin(ls: seq<Str>)
    requires |ls| >= 1
    ensures LinesTrimmed(Join(ls, '\n')) <==> forall i :: 0 <= i < |ls| ==> LinesTrimmed(ls[i])
  {
    if |ls| >= 2 {
      LinesTrimmedJoin(ls[1..]);
      LinesTrimmedJoinTwo(ls[0], Join(ls[1..], '\n'));
      assert forall i :: 1 <= i < |ls| ==> ls[i] == ls[1..][i - 1];
    }
  }

  /** Stage 2 output has trimmed lines. */
  lemma TrimLinesTrimmed(s: Str)
    ensures LinesTrimmed(TrimLines(s))
  {
    var ls := Split(s, '\n');
    var ts := TrimAll(ls);
    forall i | 0 <= i < |ts| ensures LinesTrimmed(ts[i]) {
      TrimKeepsAbsent(ls[i], GoIsSpace, '\n');
      LineTrimmedIffTrimmed(ts[i]);
    }
    LinesTrimmedJoin(ts);
  }

  /** Every line of a LinesTrimmed text is its own trim. */
  lemma LinesOfTrimmed(t: Str)
    requires LinesTrimmed(t)
    ensures forall i :: 0 <= i < |Split(t, '\n')| ==> GoTrimSpace(Split(t, '\n')[i]) == Split(t, '\n')[i]
  {
    var ls := Split(t, '\n');
    LinesTrimmedJoin(ls);
    forall i | 0 <= i < |ls| ensures GoTrimSpace(ls[i]) == ls[i] {
      LineTrimmedIffTrimmed(ls[i]);
      TrimOfTrimmed(ls[i], GoIsSpace);
    }
  }

  /** Stage 2 leaves a text with trimmed lines alone. */
  lemma TrimLinesIdentity(t: Str)
    requires LinesTrimmed(t)
    ensures TrimLines(t) == t
  {
    var ls := Split(t, '\n');
    LinesOfTrimmed(t);
    assert TrimAll(ls) == ls;
  }

  // ---------------------------------------------------------------------
  // The whole function

  /** `cleanText(raw)`; never longer than its input. */
  function CleanText(raw: Str): (r: Str)
    ensures |r| <= |raw|
  {
    var text := ReplaceCrlf(raw);
    var joined := TrimLines(text);
    JoinTrimAllNeverLonger(Split(text, '\n'));
    var collapsed := RegexCollapse(joined, '\n', 2, "\n\n");
    RegexCollapse(collapsed, ' ', 2, " ")
  }

  /** CleanText in terms of CapRuns. */
  lemma CleanTextAsCapRuns(raw: Str)
    ensures CleanText(raw)
         == CapRuns(CapRuns(TrimLines(ReplaceCrlf(raw)), '\n', 2, 0), ' ', 1, 0)
  {
    var joined := TrimLines(ReplaceCrlf(raw));
    assert Repeat('\n', 2) == "\n\n";
    assert Repeat(' ', 1) == " ";
    RegexCollapseIsCapRuns(joined, '\n', 2);
    RegexCollapseIsCapRuns(CapRuns(joined, '\n', 2, 0), ' ', 1);
  }

  /** `['a', 'a'] + t` has a newline triple exactly where `t` has one. */
  lemma NoTripleAfterLetters(t: Str)
    ensures NoNewlineTriple(['a', 'a'] + t) <==> NoNewlineTriple(t)
  {
    assert ['a', 'a'] + t == ['a'] + (['a'] + t);
    TripleCons('a', ['a'] + t);
    TripleCons('a', t);
  }

  /** Collapsing newlines, then spaces, over a text with trimmed lines. */
  lemma CollapseIsClean(joined: Str)
    requires LinesTrimmed(joined)
    ensures IsClean(CapRuns(CapRuns(joined, '\n', 2, 0), ' ', 1, 0))
  {
    var collapsed := CapRuns(joined, '\n', 2, 0);
    var cleaned := CapRuns(collapsed, ' ', 1, 0);
    CapRunsKeepsAdjacent(joined, '\n', 2, 0, '\n', ['\n'], BreakPairOk);
    CapRunsKeepsAdjacent(collapsed, ' ', 1, 0, '\n', ['\n'], BreakPairOk);
    CapNewlinesNoTriple(joined, 0, 'a', 'a');
    CapSpacesKeepsNoTriple(collapsed, 0, 'a', 'a');
    NoTripleAfterLetters(cleaned);
    CapSpacesNoDouble(collapsed, 0, 'a');
    AdjacentCons('a', cleaned, NoTwoSpaces);
  }

  /** The output's lines are trimmed, it has no run of three newlines and no
      two spaces in a row. */
  lemma CleanTextIsClean(raw: Str)
    ensures IsClean(CleanText(raw))
  {
    CleanTextAsCapRuns(raw);
    TrimLinesTrimmed(ReplaceCrlf(raw));
    CollapseIsClean(TrimLines(ReplaceCrlf(raw)));
  }

  /** A clean text is a fixed point of CleanText. */
  lemma CleanTextFixesClean(t: Str)
    requires IsClean(t)
    ensures CleanText(t) == t
  {
    LinesTrimmedNoCrlf(t);
    ReplaceCrlfIdentity(t);
    TrimLinesIdentity(t);
    CleanTextAsCapRuns(t);
    NoTripleAfterLetters(t);
    CapNewlinesIdentity(t, 0, 'a', 'a');
    AdjacentCons('a', t, NoTwoSpaces);
    CapSpacesIdentity(t, 0, 'a');
  }

  /** CleanText is idempotent. */
  lemma CleanTextIdempotent(raw: Str)
    ensures CleanText(CleanText(raw)) == CleanText(raw)
  {
    CleanTextIsClean(raw);
    CleanTextFixesClean(CleanText(raw));
  }

  /** Every line of the output is its own `strings.TrimSpace`, and no
      "\r\n" survives. */
  lemma CleanTextLines(raw: Str)
    ensures forall i :: 0 <= i < |Split(CleanText(raw), '\n')| ==>
      GoTrimSpace(Split(CleanText(raw), '\n')[i]) == Split(CleanText(raw), '\n')[i]
    ensures NoCrlf(CleanText(raw))
  {
    CleanTextIsClean(raw);
    LinesOfTrimmed(CleanText(raw));
    LinesTrimmedNoCrlf(CleanText(raw));
  }
}
