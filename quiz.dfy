/**
 * The quiz game: problems loaded from CSV rows, presented in order, each
 * answered by one line of standard input, scored by comparing the trimmed
 * line with the stored answer, until a single countdown fires.
 *
 * The race between the countdown and the goroutine reading each answer is
 * replaced by a cutoff `k`: the number of answers that arrive before the
 * timer fires. Standard input is the sequence of raw lines it delivers.
 */
module Quiz {
  import opened Wrappers
  import opened Strings

  /** One quiz item, taken from one CSV row. */
  datatype Problem = Problem(question: string, answer: string)

  /** The error `os.Open` or `(*csv.Reader).ReadAll` returns. */
  datatype LoadError = LoadError(message: string)

  /**
   * How `main` ends: `log.Fatal` on a load error, a run-time panic when a
   * loaded row has fewer than two fields, or the printed summary.
   */
  datatype Outcome = Fatal(message: string) | Crash | Finished(numCorrect: nat, total: nat)

  /** The message `main` passes to `log.Fatal` when the problems cannot be loaded. */
  const LoadFailureMessage: string := "Problem getting input from file"

  function Min(a: nat, b: nat): nat {
    if a < b then a else b
  }

  /** Every CSV row has a question field and an answer field. */
  predicate HasTwoFields(rows: seq<seq<string>>) {
    forall i :: 0 <= i < |rows| ==> |rows[i]| >= 2
  }

  /**
   * `getProblemsFrom`: if the file cannot be opened, or ReadAll fails, the
   * error and no problems; otherwise one problem per row, in row order,
   * with field 0 as the question and field 1 as the answer (further fields
   * are ignored). A row of fewer than two fields makes the Go code index
   * out of range, which this method's precondition rules out.
   */
  method GetProblemsFrom(openError: Option<LoadError>, readAll: Result<seq<seq<string>>, LoadError>)
    returns (r: Result<seq<Problem>, LoadError>)
    requires openError.None? && readAll.Success? ==> HasTwoFields(readAll.value)
    ensures openError.Some? ==> r == Failure(openError.value)
    ensures openError.None? && readAll.Failure? ==> r == Failure(readAll.error)
    ensures openError.None? && readAll.Success? ==>
              && r.Success?
              && |r.value| == |readAll.value|
              && forall i :: 0 <= i < |r.value| ==>
                   r.value[i].question == readAll.value[i][0] && r.value[i].answer == readAll.value[i][1]
  {
    if openError.Some? {
      return Failure(openError.value);
    }
    if readAll.Failure? {
      return Failure(readAll.error);
    }
    var inputData := readAll.value;
    var problems := new Problem[|inputData|];
    for index := 0 to |inputData|
      invariant forall i :: 0 <= i < index ==>
                  problems[i] == Problem(inputData[i][0], inputData[i][1])
    {
      var problem := inputData[index];
      problems[index] := Problem(problem[0], problem[1]);
    }
    return Success(problems[..]);
  }

  /**
   * The raw line the `i`-th `reader.ReadString('\n')` returns: the `i`-th
   * supplied line, or "" once standard input is exhausted (the read error
   * is discarded, so the answer is the empty string).
   */
  function InputLine(lines: seq<string>, i: nat): string {
    if i < |lines| then lines[i] else ""
  }

  /** An answer is correct when the trimmed input line equals the stored answer exactly. */
  predicate IsCorrect(line: string, problem: Problem) {
    TrimSpace(line) == problem.answer
  }

  /** The number of correct answers among the first `n` problems. */
  function Score(p: seq<Problem>, lines: seq<string>, n: nat): (s: nat)
    requires n <= |p|
    ensures s <= n
  {
    if n == 0 then 0
    else Score(p, lines, n - 1) + (if IsCorrect(InputLine(lines, n - 1), p[n - 1]) then 1 else 0)
  }

  /** The indices of the correctly answered problems among the first `n`. */
  function CorrectIndices(p: seq<Problem>, lines: seq<string>, n: nat): set<nat>
    requires n <= |p|
  {
    set i: nat | i < n && IsCorrect(InputLine(lines, i), p[i])
  }

  /** The score is the number of indices whose trimmed line equals the problem's answer. */
  lemma {:induction false} ScoreCountsCorrectIndices(p: seq<Problem>, lines: seq<string>, n: nat)
    requires n <= |p|
    ensures Score(p, lines, n) == |CorrectIndices(p, lines, n)|
  {
    if n > 0 {
      ScoreCountsCorrectIndices(p, lines, n - 1);
      var before := CorrectIndices(p, lines, n - 1);
      assert n - 1 !in before;
      if IsCorrect(InputLine(lines, n - 1), p[n - 1]) {
        assert CorrectIndices(p, lines, n) == before + {n - 1};
      } else {
        assert CorrectIndices(p, lines, n) == before;
      }
    }
  }

  /** The counter never decreases, and grows by at most one per problem. */
  lemma {:induction false} ScoreMonotone(p: seq<Problem>, lines: seq<string>, m: nat, n: nat)
    requires m <= n <= |p|
    ensures Score(p, lines, m) <= Score(p, lines, n) <= Score(p, lines, m) + (n - m)
  {
    if m < n {
      ScoreMonotone(p, lines, m, n - 1);
    }
  }

  /**
   * Only the first `n` problems and answers matter: problems and lines at
   * index `n` or later contribute nothing.
   */
  lemma {:induction false} ScoreDependsOnlyOnPrefix(p: seq<Problem>, lines: seq<string>,
                                                    p': seq<Problem>, lines': seq<string>, n: nat)
    requires n <= |p| && n <= |p'|
    requires p[..n] == p'[..n]
    requires forall i :: 0 <= i < n ==> InputLine(lines, i) == InputLine(lines', i)
    ensures Score(p, lines, n) == Score(p', lines', n)
  {
    if n > 0 {
      assert p[..n - 1] == p[..n][..n - 1] && p'[..n - 1] == p'[..n][..n - 1];
      assert p[n - 1] == p[..n][n - 1] && p'[n - 1] == p'[..n][n - 1];
      ScoreDependsOnlyOnPrefix(p, lines, p', lines', n - 1);
    }
  }

  /** An answer with extra surrounding whitespace (a trailing "\n" or "\r\n", say) scores the same. */
  lemma PaddedAnswerScoresSame(a: string, line: string, b: string, problem: Problem)
    requires AllSpace(a) && AllSpace(b)
    ensures IsCorrect(a + line + b, problem) == IsCorrect(line, problem)
  {
    TrimSpaceIgnoresPadding(a, line, b);
  }

  /** A stored answer that starts or ends with whitespace can never be matched. */
  lemma UntrimmedAnswerNeverMatches(line: string, problem: Problem)
    requires !Trimmed(problem.answer)
    ensures !IsCorrect(line, problem)
  {
    TrimSpaceTrimmed(line);
  }

  /**
   * The scoring loop of `main`. Problem `i` is presented, and if its answer
   * arrives before the timer (that is, `i < k`) the trimmed line is compared
   * with the stored answer and `numCorrect` is incremented on a match;
   * otherwise the loop breaks. The reported total is always `len(p)`.
   */
  method RunQuiz(p: seq<Problem>, lines: seq<string>, k: nat) returns (numCorrect: nat, total: nat)
    ensures total == |p|
    ensures numCorrect == Score(p, lines, Min(k, |p|))
    ensures numCorrect <= k && numCorrect <= |p|
    ensures k >= |p| ==> numCorrect == |CorrectIndices(p, lines, |p|)|
  {
    numCorrect := 0;
    var i := 0;
    label problemLoop:
    while i < |p|
      invariant i <= |p| && i <= k
      invariant numCorrect == Score(p, lines, i)
    {
      if i == k {
        // the timer fired before answer i arrived
        break problemLoop;
      }
      var userAnswer := TrimSpace(InputLine(lines, i));
      if userAnswer == p[i].answer {
        numCorrect := numCorrect + 1;
      }
      i := i + 1;
    }
    total := |p|;
    if k >= |p| {
      ScoreCountsCorrectIndices(p, lines, |p|);
    }
  }

  /**
   * `main` after flag parsing: load the problems, aborting through
   * `log.Fatal` before any question if loading fails. A row of fewer than
   * two fields makes `getProblemsFrom` index out of range, so the program
   * panics, also before any question. Otherwise it runs the quiz and reports
   * `numCorrect` out of the number of rows.
   */
  method Play(openError: Option<LoadError>, readAll: Result<seq<seq<string>>, LoadError>,
              lines: seq<string>, k: nat) returns (outcome: Outcome)
    ensures outcome.Fatal? <==> openError.Some? || readAll.Failure?
    ensures outcome.Fatal? ==> outcome.message == LoadFailureMessage
    ensures outcome.Crash? <==> openError.None? && readAll.Success? && !HasTwoFields(readAll.value)
    ensures outcome.Finished? ==>
              && readAll.Success?
              && outcome.total == |readAll.value|
              && outcome.numCorrect ==
                   |set i: nat | i < Min(k, |readAll.value|)
                                 && TrimSpace(InputLine(lines, i)) == readAll.value[i][1]|
  {
    if openError.None? && readAll.Success? && !HasTwoFields(readAll.value) {
      return Crash;
    }
    var loaded := GetProblemsFrom(openError, readAll);
    if loaded.Failure? {
      return Fatal(LoadFailureMessage);
    }
    var p := loaded.value;
    var numCorrect, total := RunQuiz(p, lines, k);
    var n := Min(k, |p|);
    ScoreCountsCorrectIndices(p, lines, n);
    assert CorrectIndices(p, lines, n) ==
           set i: nat | i < n && TrimSpace(InputLine(lines, i)) == readAll.value[i][1];
    return Finished(numCorrect, total);
  }
}
