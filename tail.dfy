/** `LogHandler`: the cursor that follows the sensor's append-only event log.
    Each call reads from the stored offset to the end of the file, one line at a
    time; every line is stripped and decoded, undecodable lines are skipped,
    decoded events are analyzed and the results saved in file order; at the
    end the offset becomes the end of the file. The file is a sequence of
    characters and an offset counts characters. */
module Tail {
  import opened Wrappers
  import opened Json
  import opened Text
  import opened Classifier
  import opened Qualifier

  // ---------------------------------------------------------------- lines

  /** The length of the first line of `s`: up to and including the first
      newline, or all of `s` when it holds none. */
  function LineEnd(s: string): (n: nat)
    requires |s| > 0
    ensures 0 < n <= |s|
    ensures forall j :: 0 <= j < n - 1 ==> s[j] != '\n'
    ensures s[n - 1] == '\n' || n == |s|
  {
    if s[0] == '\n' || |s| == 1 then 1 else 1 + LineEnd(s[1..])
  }

  /** The lines `for line in log_file` yields: each ends at a newline, and an
      unterminated tail is yielded as a last line of its own. */
  function Lines(s: string): seq<string>
    decreases |s|
  {
    if |s| == 0 then [] else [s[..LineEnd(s)]] + Lines(s[LineEnd(s)..])
  }

  function Concat(lines: seq<string>): string {
    if |lines| == 0 then [] else lines[0] + Concat(lines[1..])
  }

  /** The first-line bounds determine the first line. */
  lemma {:induction false} LineEndUnique(s: string, n: nat)
    requires 0 < n <= |s|
    requires forall j :: 0 <= j < n - 1 ==> s[j] != '\n'
    requires s[n - 1] == '\n' || n == |s|
    ensures LineEnd(s) == n
  {
    if s[0] == '\n' || |s| == 1 {
    } else {
      LineEndUnique(s[1..], n - 1);
    }
  }

  /** Every character after the offset is read: the lines put together give
      back the text, an unterminated last line included. */
  lemma {:induction false} LinesCover(s: string)
    ensures Concat(Lines(s)) == s
    decreases |s|
  {
    if |s| > 0 {
      var n := LineEnd(s);
      LinesCover(s[n..]);
      assert Lines(s)[1..] == Lines(s[n..]);
      assert s == s[..n] + s[n..];
    }
  }

  /** Each line is non-empty, holds a newline only at its end, and every line
      but the last ends in one. */
  lemma {:induction false} LinesShape(s: string)
    ensures forall i :: 0 <= i < |Lines(s)| ==>
      && |Lines(s)[i]| > 0
      && (forall j :: 0 <= j < |Lines(s)[i]| - 1 ==> Lines(s)[i][j] != '\n')
      && (i < |Lines(s)| - 1 ==> Lines(s)[i][|Lines(s)[i]| - 1] == '\n')
    decreases |s|
  {
    if |s| > 0 {
      var n := LineEnd(s);
      LinesShape(s[n..]);
      assert Lines(s)[1..] == Lines(s[n..]);
      forall i | 0 <= i < |Lines(s)|
        ensures && |Lines(s)[i]| > 0
                && (forall j :: 0 <= j < |Lines(s)[i]| - 1 ==> Lines(s)[i][j] != '\n')
                && (i < |Lines(s)| - 1 ==> Lines(s)[i][|Lines(s)[i]| - 1] == '\n')
      {
        if i == 0 {
          if 0 < |Lines(s)| - 1 {
            assert |s[n..]| > 0;
          }
        } else {
          assert Lines(s)[i] == Lines(s[n..])[i - 1];
        }
      }
    }
  }

  /** Text that ends at a line boundary splits into lines independently of
      what follows it. */
  lemma {:induction false} LinesAppend(p: string, q: string)
    requires |p| == 0 || p[|p| - 1] == '\n'
    ensures Lines(p + q) == Lines(p) + Lines(q)
    decreases |p|
  {
    if |p| == 0 {
      assert p + q == q;
    } else {
      var n := LineEnd(p);
      var s := p + q;
      assert s[..n] == p[..n];
      LineEndUnique(s, n);
      assert s[n..] == p[n..] + q;
      LinesAppend(p[n..], q);
    }
  }

  /** A text without a newline before its end is a single line. */
  lemma SingleLine(line: string)
    requires |line| > 0
    requires forall j :: 0 <= j < |line| - 1 ==> line[j] != '\n'
    ensures Lines(line) == [line]
  {
    LineEndUnique(line, |line|);
    assert line[..|line|] == line;
    assert Lines(line[|line|..]) == [];
  }

  /** Lines are not held back: a line written in two parts, with a read in
      between, comes out as two fragments instead of one line. */
  lemma PartialLineSplit()
    ensures Lines("ab") + Lines("c\n") == ["ab", "c\n"]
    ensures Lines("abc\n") == ["abc\n"]
  {
    SingleLine("ab");
    SingleLine("c\n");
    SingleLine("abc\n");
  }

  // ---------------------------------------------------------------- one line

  /** The collaborators a call depends on: JSON decoding (`None` for a
      `JSONDecodeError`), the analysis request, and the IPv6 half of the
      address library. */
  datatype Collaborators = Collaborators(
    decode: string -> Option<JsonValue>,
    dispatch: NormalizedEvent -> Option<string>,
    v6: Ipv6Oracle)

  /** What becomes of one line: skipped as undecodable, dropped (it did not
      qualify or the analysis failed), saved, or raising out of the loop,
      which a decoded value that is no JSON object does at `event.get`. */
  datatype LineOutcome = Skipped | Dropped | Saved(result: AnalysisResult) | Raised

  function HandleLine(line: string, c: Collaborators): LineOutcome {
    match c.decode(Strip(line))
    case None => Skipped
    case Some(JObject(event)) =>
      (match AnalyzeEvent(event, c.v6, c.dispatch)
       case None => Dropped
       case Some(r) => Saved(r))
    case Some(_) => Raised
  }

  /** A line of blanks strips to the empty text, which does not decode. */
  lemma BlankLineSkipped(line: string, c: Collaborators)
    requires c.decode("") == None
    requires forall j :: 0 <= j < |line| ==> IsSpace(line[j])
    ensures HandleLine(line, c) == Skipped
  {
    BlankStrips(line);
  }

  /** Which lines raise, which are skipped and which are saved, in terms of
      what the line decodes to: only `JSONDecodeError` is caught, so a line
      that decodes to anything but an object raises. */
  lemma HandleLineOutcomes(line: string, c: Collaborators)
    ensures HandleLine(line, c).Skipped? <==> c.decode(Strip(line)).None?
    ensures HandleLine(line, c).Raised? <==>
      c.decode(Strip(line)).Some? && !c.decode(Strip(line)).value.JObject?
    ensures HandleLine(line, c).Saved? <==>
      c.decode(Strip(line)).Some? && c.decode(Strip(line)).value.JObject? &&
      AnalyzeEvent(c.decode(Strip(line)).value.fields, c.v6, c.dispatch).Some?
  {
  }

  // ---------------------------------------------------------------- the loop

  /** What a pass over some lines saved, and whether it ran to the end. */
  datatype Pass = Pass(saved: seq<AnalysisResult>, completed: bool)

  /** What `HandleLine` makes of each line, as one value. */
  function Handler(c: Collaborators): string -> LineOutcome {
    line => HandleLine(line, c)
  }

  /** The `for` loop of `process_new_events` over the given lines, where
      `handle` tells what becomes of each line (in the analyzer, `Handler(c)`). */
  function Run(lines: seq<string>, handle: string -> LineOutcome): Pass {
    if |lines| == 0 then Pass([], true)
    else Continue(handle(lines[0]), Run(lines[1..], handle))
  }

  /** The pass after a line with outcome `o`, given the pass over the lines
      after it (which a raise never reaches). */
  function Continue(o: LineOutcome, rest: Pass): Pass {
    match o
    case Raised => Pass([], false)
    case Saved(r) => Pass([r] + rest.saved, rest.completed)
    case _ => rest
  }

  /** A pass over two stretches is the pass over the first, continued over the
      second only if the first completed. */
  lemma {:induction false} RunAppend(xs: seq<string>, ys: seq<string>, handle: string -> LineOutcome)
    ensures Run(xs + ys, handle) ==
      if Run(xs, handle).completed then Pass(Run(xs, handle).saved + Run(ys, handle).saved, Run(ys, handle).completed)
      else Run(xs, handle)
  {
    if |xs| == 0 {
      assert xs + ys == ys;
    } else {
      assert (xs + ys)[0] == xs[0];
      assert (xs + ys)[1..] == xs[1..] + ys;
      RunAppend(xs[1..], ys, handle);
      var o := handle(xs[0]);
      if o.Saved? {
        assert [o.result] + Run(xs[1..], handle).saved + Run(ys, handle).saved
            == [o.result] + (Run(xs[1..], handle).saved + Run(ys, handle).saved);
      }
    }
  }

  /** A pass completes exactly when no line raises. */
  lemma {:induction false} CompletedIffNoRaise(lines: seq<string>, handle: string -> LineOutcome)
    ensures Run(lines, handle).completed <==> forall i :: 0 <= i < |lines| ==> !handle(lines[i]).Raised?
  {
    if |lines| > 0 {
      CompletedIffNoRaise(lines[1..], handle);
      assert forall i :: 1 <= i < |lines| ==> lines[i] == lines[1..][i - 1];
    }
  }

  /** A line that decodes to a JSON value other than an object. */
  predicate DecodesToNonObject(line: string, c: Collaborators) {
    c.decode(Strip(line)).Some? && !c.decode(Strip(line)).value.JObject?
  }

  lemma RaisesIffNonObject(line: string, c: Collaborators)
    ensures Handler(c)(line).Raised? <==> DecodesToNonObject(line, c)
  {
    assert Handler(c)(line) == HandleLine(line, c);
    HandleLineOutcomes(line, c);
  }

  /** In the analyzer's own terms: a pass completes exactly when none of its
      lines decodes to a JSON value other than an object. */
  lemma CompletesIffObjectsOnly(lines: seq<string>, c: Collaborators)
    ensures Run(lines, Handler(c)).completed <==>
      forall i :: 0 <= i < |lines| ==> !DecodesToNonObject(lines[i], c)
  {
    CompletedIffNoRaise(lines, Handler(c));
    forall i | 0 <= i < |lines|
      ensures Handler(c)(lines[i]).Raised? <==> DecodesToNonObject(lines[i], c)
    {
      RaisesIffNonObject(lines[i], c);
    }
  }

  /** An undecodable line changes nothing: the lines after it are processed
      and saved exactly as if it were absent. */
  lemma SkippedLineInvisible(xs: seq<string>, line: string, ys: seq<string>, handle: string -> LineOutcome)
    requires handle(line) == Skipped
    ensures Run(xs + [line] + ys, handle) == Run(xs + ys, handle)
  {
    RunAppend(xs, [line] + ys, handle);
    RunAppend(xs, ys, handle);
    assert xs + [line] + ys == xs + ([line] + ys);
    assert ([line] + ys)[1..] == ys;
  }

  /** The first line that raises ends the pass: what the lines before it saved
      stays saved, nothing after it is looked at. */
  lemma RaiseStops(xs: seq<string>, line: string, ys: seq<string>, handle: string -> LineOutcome)
    requires Run(xs, handle).completed && handle(line) == Raised
    ensures Run(xs + [line] + ys, handle) == Pass(Run(xs, handle).saved, false)
  {
    RunAppend(xs, [line] + ys, handle);
    assert xs + [line] + ys == xs + ([line] + ys);
    assert Run(xs, handle).saved + [] == Run(xs, handle).saved;
  }

  /** The positions, counted from `base`, of the lines a pass saves a result
      for: every line with a result, up to the first line that raises. */
  function SavedAt(lines: seq<string>, handle: string -> LineOutcome, base: nat): seq<nat> {
    if |lines| == 0 then []
    else match handle(lines[0])
      case Raised => []
      case Saved(_) => [base] + SavedAt(lines[1..], handle, base + 1)
      case _ => SavedAt(lines[1..], handle, base + 1)
  }

  /** The results are saved in file order, one per line that produced one:
      the k-th saved result comes from the line at position `SavedAt(..)[k]`,
      those positions strictly increase, and a pass that completed saved a
      result for every line that produced one. */
  lemma SavedFromLines(lines: seq<string>, handle: string -> LineOutcome, base: nat)
    ensures |Run(lines, handle).saved| == |SavedAt(lines, handle, base)| <= |lines|
    ensures forall k :: 0 <= k < |SavedAt(lines, handle, base)| ==>
      && base <= SavedAt(lines, handle, base)[k] < base + |lines|
      && handle(lines[SavedAt(lines, handle, base)[k] - base]) == Saved(Run(lines, handle).saved[k])
    ensures forall k, l :: 0 <= k < l < |SavedAt(lines, handle, base)| ==>
      SavedAt(lines, handle, base)[k] < SavedAt(lines, handle, base)[l]
    ensures Run(lines, handle).completed ==>
      forall i :: 0 <= i < |lines| && handle(lines[i]).Saved? ==> base + i in SavedAt(lines, handle, base)
  {
    SavedSources(lines, handle, base);
    SavedOrdered(lines, handle, base);
    SavedComplete(lines, handle, base);
  }

  /** One step of `SavedAt` and of what `Run` saves. */
  lemma SavedStep(lines: seq<string>, handle: string -> LineOutcome, base: nat)
    requires |lines| > 0 && !handle(lines[0]).Raised?
    ensures SavedAt(lines, handle, base) ==
      (if handle(lines[0]).Saved? then [base] else []) + SavedAt(lines[1..], handle, base + 1)
    ensures Run(lines, handle).saved ==
      (if handle(lines[0]).Saved? then [handle(lines[0]).result] else []) + Run(lines[1..], handle).saved
    ensures Run(lines, handle).completed == Run(lines[1..], handle).completed
  {
    if !handle(lines[0]).Saved? {
      assert [] + SavedAt(lines[1..], handle, base + 1) == SavedAt(lines[1..], handle, base + 1);
      assert [] + Run(lines[1..], handle).saved == Run(lines[1..], handle).saved;
    }
  }

  /** The k-th of `saved` comes from the line at position `at[k]`, counted from `base`. */
  predicate TracedTo(lines: seq<string>, handle: string -> LineOutcome, base: nat,
                     at: seq<nat>, saved: seq<AnalysisResult>)
  {
    && |at| == |saved|
    && forall k :: 0 <= k < |at| ==>
      && base <= at[k] < base + |lines|
      && handle(lines[at[k] - base]) == Saved(saved[k])
  }

  lemma TracedSaved(lines: seq<string>, handle: string -> LineOutcome, base: nat,
                    rest: seq<nat>, restSaved: seq<AnalysisResult>)
    requires |lines| > 0 && handle(lines[0]).Saved?
    requires TracedTo(lines[1..], handle, base + 1, rest, restSaved)
    ensures TracedTo(lines, handle, base, [base] + rest, [handle(lines[0]).result] + restSaved)
  {
    var at, saved := [base] + rest, [handle(lines[0]).result] + restSaved;
    forall k | 1 <= k < |at|
      ensures base <= at[k] < base + |lines| && handle(lines[at[k] - base]) == Saved(saved[k])
    {
      assert at[k] == rest[k - 1] && saved[k] == restSaved[k - 1];
      assert lines[rest[k - 1] - base] == lines[1..][rest[k - 1] - (base + 1)];
    }
  }

  lemma TracedOther(lines: seq<string>, handle: string -> LineOutcome, base: nat,
                    rest: seq<nat>, restSaved: seq<AnalysisResult>)
    requires |lines| > 0
    requires TracedTo(lines[1..], handle, base + 1, rest, restSaved)
    ensures TracedTo(lines, handle, base, rest, restSaved)
  {
    forall k | 0 <= k < |rest|
      ensures base <= rest[k] < base + |lines| && handle(lines[rest[k] - base]) == Saved(restSaved[k])
    {
      assert lines[rest[k] - base] == lines[1..][rest[k] - (base + 1)];
    }
  }

  lemma {:induction false} SavedSources(lines: seq<string>, handle: string -> LineOutcome, base: nat)
    ensures |SavedAt(lines, handle, base)| <= |lines|
    ensures TracedTo(lines, handle, base, SavedAt(lines, handle, base), Run(lines, handle).saved)
  {
    if |lines| > 0 && !handle(lines[0]).Raised? {
      var rest := SavedAt(lines[1..], handle, base + 1);
      var restSaved := Run(lines[1..], handle).saved;
      SavedSources(lines[1..], handle, base + 1);
      SavedStep(lines, handle, base);
      if handle(lines[0]).Saved? {
        TracedSaved(lines, handle, base, rest, restSaved);
      } else {
        assert SavedAt(lines, handle, base) == rest && Run(lines, handle).saved == restSaved;
        TracedOther(lines, handle, base, rest, restSaved);
      }
    }
  }

  /** Every position is at least `b`. */
  predicate AtLeast(s: seq<nat>, b: nat) {
    forall k :: 0 <= k < |s| ==> b <= s[k]
  }

  /** Positions strictly increase. */
  predicate Increasing(s: seq<nat>) {
    forall k, l :: 0 <= k < l < |s| ==> s[k] < s[l]
  }

  lemma PrependIncreasing(b: nat, rest: seq<nat>)
    requires AtLeast(rest, b + 1) && Increasing(rest)
    ensures AtLeast([b] + rest, b) && Increasing([b] + rest)
  {
    var s := [b] + rest;
    forall k, l | 0 <= k < l < |s| ensures s[k] < s[l] {
      assert s[l] == rest[l - 1];
      if k > 0 {
        assert s[k] == rest[k - 1];
      }
    }
  }

  lemma {:induction false} SavedOrdered(lines: seq<string>, handle: string -> LineOutcome, base: nat)
    ensures AtLeast(SavedAt(lines, handle, base), base)
    ensures Increasing(SavedAt(lines, handle, base))
  {
    if |lines| > 0 && !handle(lines[0]).Raised? {
      var rest := SavedAt(lines[1..], handle, base + 1);
      SavedOrdered(lines[1..], handle, base + 1);
      SavedStep(lines, handle, base);
      if handle(lines[0]).Saved? {
        PrependIncreasing(base, rest);
      } else {
        assert SavedAt(lines, handle, base) == rest;
      }
    }
  }

  lemma {:induction false} SavedComplete(lines: seq<string>, handle: string -> LineOutcome, base: nat)
    ensures Run(lines, handle).completed ==>
      forall i :: 0 <= i < |lines| && handle(lines[i]).Saved? ==> base + i in SavedAt(lines, handle, base)
  {
    if |lines| > 0 && Run(lines, handle).completed {
      assert !handle(lines[0]).Raised?;
      var rest := SavedAt(lines[1..], handle, base + 1);
      SavedComplete(lines[1..], handle, base + 1);
      SavedStep(lines, handle, base);
      forall i | 0 <= i < |lines| && handle(lines[i]).Saved?
        ensures base + i in SavedAt(lines, handle, base)
      {
        if i > 0 {
          assert lines[1..][i - 1] == lines[i];
          assert (base + 1) + (i - 1) in rest;
        }
      }
    }
  }

  /** What one call of `process_new_events` does, given the offset before it:
      past the end of the file nothing is read and the offset stays; otherwise
      the lines from the offset on are run, and the offset moves to the end of
      the file only if the run completed. */
  predicate CallOutcome(file: string, handle: string -> LineOutcome, start: nat, before: seq<AnalysisResult>,
                        completed: bool, after: nat, savedAfter: seq<AnalysisResult>)
  {
    if start > |file| then completed && after == start && savedAfter == before
    else
      var pass := Run(Lines(file[start..]), handle);
      && completed == pass.completed
      && savedAfter == before + pass.saved
      && after == (if completed then |file| else start)
  }

  /** The offset never moves back, and a call that completes ends it at the
      end of the file (or leaves an offset past the end where it was). */
  lemma CallAdvances(file: string, handle: string -> LineOutcome, start: nat, before: seq<AnalysisResult>,
                     completed: bool, after: nat, savedAfter: seq<AnalysisResult>)
    requires CallOutcome(file, handle, start, before, completed, after, savedAfter)
    ensures start <= after
    ensures completed ==> after == if start <= |file| then |file| else start
    ensures !completed ==> after == start && start <= |file|
    ensures before <= savedAfter
  {
  }

  /** Two calls on a file that only grew, where the first stopped at a line
      boundary, read between them exactly the lines one call would have read:
      no character is read twice and none is missed. */
  lemma ChainedCalls(f1: string, f2: string, start: nat, handle: string -> LineOutcome)
    requires f1 <= f2 && start <= |f1|
    requires |f1| == start || f1[|f1| - 1] == '\n'
    ensures Lines(f2[start..]) == Lines(f1[start..]) + Lines(f2[|f1|..])
    ensures Run(Lines(f2[start..]), handle) ==
      if Run(Lines(f1[start..]), handle).completed
      then Pass(Run(Lines(f1[start..]), handle).saved + Run(Lines(f2[|f1|..]), handle).saved,
                Run(Lines(f2[|f1|..]), handle).completed)
      else Run(Lines(f1[start..]), handle)
  {
    assert f2[start..] == f1[start..] + f2[|f1|..];
    LinesAppend(f1[start..], f2[|f1|..]);
    RunAppend(Lines(f1[start..]), Lines(f2[|f1|..]), handle);
  }

  /** Where the line starting at `pos` ends, scanning forward as the file
      iterator does. */
  method FindLineEnd(file: string, pos: nat) returns (next: nat)
    requires pos < |file|
    ensures pos < next <= |file|
    ensures forall j :: pos <= j < next - 1 ==> file[j] != '\n'
    ensures file[next - 1] == '\n' || next == |file|
    ensures next == pos + LineEnd(file[pos..])
  {
    next := pos;
    while next < |file| && file[next] != '\n'
      invariant pos <= next <= |file|
      invariant forall j :: pos <= j < next ==> file[j] != '\n'
    {
      next := next + 1;
    }
    if next < |file| {
      next := next + 1;
    }
    LineEndUnique(file[pos..], next - pos);
  }

  /** One step of the loop: the lines up to `next` are those up to `pos` and
      the line from `pos` to `next`. */
  lemma StepLines(file: string, start: nat, pos: nat, next: nat)
    requires start <= pos < next <= |file|
    requires pos == start || file[pos - 1] == '\n'
    requires forall j :: pos <= j < next - 1 ==> file[j] != '\n'
    ensures Lines(file[start..next]) == Lines(file[start..pos]) + [file[pos..next]]
  {
    assert file[start..next] == file[start..pos] + file[pos..next];
    LinesAppend(file[start..pos], file[pos..next]);
    SingleLine(file[pos..next]);
  }

  /** The lines from `start` on are the lines up to a boundary `next` and the
      lines after it. */
  lemma RestLines(file: string, start: nat, next: nat)
    requires start <= next <= |file|
    requires next == start || next == |file| || file[next - 1] == '\n'
    ensures Lines(file[start..]) == Lines(file[start..next]) + Lines(file[next..])
  {
    assert file[start..] == file[start..next] + file[next..];
    if next == |file| {
      assert file[start..] == file[start..next];
      assert |file[next..]| == 0;
      assert Lines(file[next..]) == [];
      assert Lines(file[start..next]) + [] == Lines(file[start..next]);
    } else {
      LinesAppend(file[start..next], file[next..]);
    }
  }

  /** The pass over the lines up to the end of the line from `pos` to `next`:
      a raise there ends the whole pass, anything else extends it. */
  lemma AdvanceRun(file: string, start: nat, pos: nat, next: nat,
                                      handle: string -> LineOutcome, before: seq<AnalysisResult>)
    requires start <= pos < next <= |file|
    requires pos == start || file[pos - 1] == '\n'
    requires forall j :: pos <= j < next - 1 ==> file[j] != '\n'
    requires file[next - 1] == '\n' || next == |file|
    requires Run(Lines(file[start..pos]), handle).completed
    ensures !handle(file[pos..next]).Raised? ==> Run(Lines(file[start..next]), handle).completed
    ensures handle(file[pos..next]).Saved? ==>
      before + Run(Lines(file[start..pos]), handle).saved + [handle(file[pos..next]).result]
        == before + Run(Lines(file[start..next]), handle).saved
    ensures handle(file[pos..next]).Skipped? || handle(file[pos..next]).Dropped? ==>
      before + Run(Lines(file[start..pos]), handle).saved == before + Run(Lines(file[start..next]), handle).saved
  {
    var line := file[pos..next];
    var done := Run(Lines(file[start..pos]), handle);
    StepLines(file, start, pos, next);
    RunAppend(Lines(file[start..pos]), [line], handle);
    assert Run([line], handle) == Continue(handle(line), Pass([], true));
    if handle(line).Saved? {
      AppendAssoc(before, done.saved, [handle(line).result]);
    }
  }

  /** A line that raises ends the call: the offset stays where it was and the
      results saved before it remain. */
  lemma AdvanceRunRaised(file: string, start: nat, pos: nat, next: nat,
                                            handle: string -> LineOutcome, before: seq<AnalysisResult>)
    requires start <= pos < next <= |file|
    requires pos == start || file[pos - 1] == '\n'
    requires forall j :: pos <= j < next - 1 ==> file[j] != '\n'
    requires file[next - 1] == '\n' || next == |file|
    requires Run(Lines(file[start..pos]), handle).completed
    requires handle(file[pos..next]).Raised?
    ensures CallOutcome(file, handle, start, before, false, start, before + Run(Lines(file[start..pos]), handle).saved)
  {
    var line := file[pos..next];
    StepLines(file, start, pos, next);
    RunAppend(Lines(file[start..pos]), [line], handle);
    assert Run([line], handle) == Pass([], false);
    RestLines(file, start, next);
    RunAppend(Lines(file[start..next]), Lines(file[next..]), handle);
  }

  /** A loop that ran to the end of the file completes the call. */
  lemma Finish(file: string, handle: string -> LineOutcome, start: nat, pos: nat,
               before: seq<AnalysisResult>, saved: seq<AnalysisResult>)
    requires start <= pos == |file|
    requires Run(Lines(file[start..pos]), handle).completed
    requires saved == before + Run(Lines(file[start..pos]), handle).saved
    ensures CallOutcome(file, handle, start, before, true, |file|, saved)
  {
    assert file[start..pos] == file[start..];
  }

  class LogHandler {
    /** `EVE_JSON_LOG_PATH`, the file this handler follows. */
    const logPath: string
    /** `last_position`. */
    var lastPosition: nat
    /** The results written to the output file so far, in order. */
    var saved: seq<AnalysisResult>

    constructor (logPath: string)
      ensures this.logPath == logPath && lastPosition == 0 && saved == []
    {
      this.logPath := logPath;
      lastPosition := 0;
      saved := [];
    }

    /** `process_new_events` on the current contents of the log. `completed`
        is false when a line raised out of the loop. */
    method ProcessNewEvents(file: string, c: Collaborators) returns (completed: bool)
      modifies this
      ensures CallOutcome(file, Handler(c), old(lastPosition), old(saved), completed, lastPosition, saved)
    {
      completed := Consume(file, Handler(c));
    }

    /** The body of `process_new_events`: from the stored offset, each line in
        turn, with `handle` telling what becomes of it; a line that raises ends
        the call before the offset is stored. */
    method Consume(file: string, handle: string -> LineOutcome) returns (completed: bool)
      modifies this
      ensures CallOutcome(file, handle, old(lastPosition), old(saved), completed, lastPosition, saved)
    {
      var start := lastPosition;
      if start > |file| {
        return true;
      }
      var pos := start;
      while pos < |file|
        invariant start <= pos <= |file|
        invariant pos == start || pos == |file| || file[pos - 1] == '\n'
        invariant Run(Lines(file[start..pos]), handle).completed
        invariant saved == old(saved) + Run(Lines(file[start..pos]), handle).saved
        invariant lastPosition == start
      {
        var next := FindLineEnd(file, pos);
        var line := file[pos..next];
        AdvanceRun(file, start, pos, next, handle, old(saved));
        var outcome := handle(line);
        if outcome.Raised? {
          AdvanceRunRaised(file, start, pos, next, handle, old(saved));
          return false;
        }
        if outcome.Saved? {
          saved := saved + [outcome.result];
        }
        pos := next;
      }
      Finish(file, handle, start, pos, old(saved), saved);
      lastPosition := |file|;
      return true;
    }

    /** `on_modified`: only a change to the followed file triggers a read. */
    method OnModified(srcPath: string, file: string, c: Collaborators) returns (completed: bool)
      modifies this
      ensures srcPath != logPath ==> completed && lastPosition == old(lastPosition) && saved == old(saved)
      ensures srcPath == logPath ==>
        CallOutcome(file, Handler(c), old(lastPosition), old(saved), completed, lastPosition, saved)
    {
      completed := true;
      if srcPath == logPath {
        completed := ProcessNewEvents(file, c);
      }
    }
  }

  /** Two calls on a file that only grew in between, each with the
      collaborators of its own moment (the analysis request may answer a record
      differently, or fail, on another call). The offset never decreases, and a
      pair of completed calls ends at the end of the file. A first call that
      completed hands the second one exactly the text appended since; a first
      call that raised hands it the whole text from the old offset again. When
      both calls answer every line alike and the first ended on a line
      boundary, the two saved what a single call over both would have. */
  lemma TwoCalls(f1: string, f2: string, h1: string -> LineOutcome, h2: string -> LineOutcome,
                                    start: nat, before: seq<AnalysisResult>, first: bool, mid: nat,
                                    saved1: seq<AnalysisResult>, second: bool, end: nat,
                                    saved2: seq<AnalysisResult>)
    requires f1 <= f2 && start <= |f1|
    requires CallOutcome(f1, h1, start, before, first, mid, saved1)
    requires CallOutcome(f2, h2, mid, saved1, second, end, saved2)
    ensures start <= mid <= end <= |f2|
    ensures first && second ==> end == |f2|
    ensures first ==> (mid == |f1| &&
      saved2 == before + Run(Lines(f1[start..]), h1).saved + Run(Lines(f2[|f1|..]), h2).saved)
    ensures !first ==> mid == start && saved2 == saved1 + Run(Lines(f2[start..]), h2).saved
    ensures first && second && h1 == h2 && (start == |f1| || f1[|f1| - 1] == '\n') ==>
      saved2 == before + Run(Lines(f2[start..]), h1).saved
  {
    if first && second && h1 == h2 && (start == |f1| || f1[|f1| - 1] == '\n') {
      var r1 := Run(Lines(f1[start..]), h1);
      var r2 := Run(Lines(f2[|f1|..]), h1);
      assert mid == |f1| && saved1 == before + r1.saved;
      assert saved2 == saved1 + r2.saved;
      ChainedCalls(f1, f2, start, h1);
      assert Run(Lines(f2[start..]), h1).saved == r1.saved + r2.saved;
      AppendAssoc(before, r1.saved, r2.saved);
    }
  }

  /** A line that raises stalls the cursor: every later call on the same text
      reads again from the same offset, so whatever the lines before the bad
      one saved is saved once more, and the call raises again. */
  lemma StalledCallRepeats(file: string, handle: string -> LineOutcome, start: nat,
                                              before: seq<AnalysisResult>, first: bool, mid: nat,
                                              saved1: seq<AnalysisResult>, second: bool, end: nat,
                                              saved2: seq<AnalysisResult>)
    requires CallOutcome(file, handle, start, before, first, mid, saved1)
    requires CallOutcome(file, handle, mid, saved1, second, end, saved2)
    requires !first
    ensures !second && mid == end == start
    ensures saved2 == before + Run(Lines(file[start..]), handle).saved + Run(Lines(file[start..]), handle).saved
  {
  }

  lemma AppendAssoc(a: seq<AnalysisResult>, b: seq<AnalysisResult>, c: seq<AnalysisResult>)
    ensures a + b + c == a + (b + c)
  {
  }

  /** Two notifications for the followed file, which only grew in between;
      each call has the collaborators of its own moment. */
  method FollowGrowth(h: LogHandler, f1: string, f2: string, c1: Collaborators, c2: Collaborators)
    returns (first: bool, second: bool)
    requires f1 <= f2 && h.lastPosition <= |f1|
    modifies h
    ensures old(h.lastPosition) <= h.lastPosition <= |f2|
    ensures first && second ==> h.lastPosition == |f2|
    ensures first ==> (h.saved ==
      old(h.saved) + Run(Lines(f1[old(h.lastPosition)..]), Handler(c1)).saved + Run(Lines(f2[|f1|..]), Handler(c2)).saved)
    ensures !first ==> (h.saved ==
      old(h.saved) + Run(Lines(f1[old(h.lastPosition)..]), Handler(c1)).saved
        + Run(Lines(f2[old(h.lastPosition)..]), Handler(c2)).saved)
    ensures first && second && c1 == c2 && (old(h.lastPosition) == |f1| || f1[|f1| - 1] == '\n') ==>
      h.saved == old(h.saved) + Run(Lines(f2[old(h.lastPosition)..]), Handler(c1)).saved
  {
    var start, before := h.lastPosition, h.saved;
    first := h.ProcessNewEvents(f1, c1);
    var mid, saved1 := h.lastPosition, h.saved;
    second := h.ProcessNewEvents(f2, c2);
    TwoCalls(f1, f2, Handler(c1), Handler(c2), start, before, first, mid, saved1, second, h.lastPosition, h.saved);
  }
}
