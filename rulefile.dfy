/**
 * Reading one rule file (`DepTab.lines`, `DepTab.setoption` and the line parsing of
 * `DepTab.read` in schema/util/genmain.py). The file arrives as the list of its physical
 * lines, each with its line terminator, as `readlines` returns them.
 */
module RuleFile {
  import opened Wrappers
  import opened Text
  import opened Names

  /** A logical line: the number of its last physical line and its text. */
  datatype Record = Record(line: nat, text: string)

  /** A backslash immediately before the newline continues the line. */
  const Continuation: string := "\\\n"

  /** Empty lines (which `readlines` never yields) and comment lines are dropped. */
  predicate Kept(line: string) {
    |line| > 0 && line[0] != '#'
  }

  /** One iteration of `lines`: a kept line is joined to the previous record when that
      record ends with a continuation, otherwise it starts a record of its own. */
  function JoinStep(acc: seq<Record>, ln: nat, line: string): seq<Record> {
    if !Kept(line) then acc
    else if |acc| > 0 && EndsWith(acc[|acc| - 1].text, Continuation) then
      var last := acc[|acc| - 1].text;
      acc[..|acc| - 1] + [Record(ln, last[..|last| - 2] + " " + line)]
    else acc + [Record(ln, line)]
  }

  /** The records `lines` produces for the physical lines `raw` (numbered from 1). */
  function Joined(raw: seq<string>): seq<Record> {
    if raw == [] then [] else JoinStep(Joined(raw[..|raw| - 1]), |raw|, raw[|raw| - 1])
  }

  /** `lines(fp)`: drops comment lines and joins continued lines. */
  method Lines(raw: seq<string>) returns (lines: seq<Record>)
    ensures lines == Joined(raw)
  {
    var ln := 0;
    lines := [];
    while ln < |raw|
      invariant 0 <= ln <= |raw|
      invariant lines == Joined(raw[..ln])
    {
      var line := raw[ln];
      assert raw[..ln + 1][..ln] == raw[..ln];
      ln := ln + 1;
      if |line| == 0 {
        continue;
      }
      if line[0] == '#' {
        continue;
      }
      if |lines| > 0 && EndsWith(lines[|lines| - 1].text, Continuation) {
        var last := lines[|lines| - 1].text;
        lines := lines[..|lines| - 1];
        last := last[..|last| - 2];
        var joined := last + " " + line;
        lines := lines + [Record(ln, joined)];
      } else {
        lines := lines + [Record(ln, line)];
      }
    }
    assert raw[..|raw|] == raw;
  }

  /** The record is numbered by a kept physical line, and it ends with a continuation
      exactly when that line does. */
  predicate RecordOk(raw: seq<string>, rec: Record) {
    1 <= rec.line <= |raw| && Kept(raw[rec.line - 1]) &&
    (EndsWith(rec.text, Continuation) <==> EndsWith(raw[rec.line - 1], Continuation))
  }

  /** Every record is numbered by a kept physical line and the numbers increase strictly,
      so records keep the input order. */
  predicate Numbered(raw: seq<string>, recs: seq<Record>) {
    (forall i :: 0 <= i < |recs| ==> RecordOk(raw, recs[i])) &&
    (forall i, j :: 0 <= i < j < |recs| ==> recs[i].line < recs[j].line)
  }

  /** No record but the last ends with a continuation. */
  predicate OnlyLastContinues(recs: seq<Record>) {
    forall i :: 0 <= i < |recs| - 1 ==> !EndsWith(recs[i].text, Continuation)
  }

  lemma NumberedWiden(raw: seq<string>, recs: seq<Record>)
    requires raw != [] && Numbered(raw[..|raw| - 1], recs)
    ensures Numbered(raw, recs)
    ensures forall i :: 0 <= i < |recs| ==> recs[i].line < |raw|
  {
    forall i | 0 <= i < |recs| ensures RecordOk(raw, recs[i]) && recs[i].line < |raw| {
      assert RecordOk(raw[..|raw| - 1], recs[i]);
      assert raw[recs[i].line - 1] == raw[..|raw| - 1][recs[i].line - 1];
    }
  }

  lemma JoinedLineEnds(last: string, line: string)
    requires |last| >= 2 && |line| >= 1
    ensures EndsWith(last[..|last| - 2] + " " + line, Continuation) <==> EndsWith(line, Continuation)
  {
    var joined := last[..|last| - 2] + " " + line;
    if |line| >= 2 {
      assert joined[|joined| - 2..] == line[|line| - 2..];
    } else {
      assert joined[|joined| - 2..] == [' ', line[0]];
    }
  }

  lemma NumberedPrefix(raw: seq<string>, recs: seq<Record>, n: nat)
    requires Numbered(raw, recs) && n <= |recs|
    ensures Numbered(raw, recs[..n])
  {
    assert forall i :: 0 <= i < n ==> recs[..n][i] == recs[i];
  }

  lemma NumberedPush(raw: seq<string>, recs: seq<Record>, rec: Record)
    requires Numbered(raw, recs) && RecordOk(raw, rec)
    requires forall i :: 0 <= i < |recs| ==> recs[i].line < rec.line
    ensures Numbered(raw, recs + [rec])
  {
    var r := recs + [rec];
    forall i | 0 <= i < |r| ensures RecordOk(raw, r[i]) {
      if i < |recs| {
        assert r[i] == recs[i];
      }
    }
    forall i, j | 0 <= i < j < |r| ensures r[i].line < r[j].line {
      assert r[i] == recs[i];
      if j < |recs| {
        assert r[j] == recs[j];
      }
    }
  }

  /** Appending keeps only the last record continued when no record so far continues. */
  lemma OnlyLastPush(recs: seq<Record>, rec: Record)
    requires forall i :: 0 <= i < |recs| ==> !EndsWith(recs[i].text, Continuation)
    ensures OnlyLastContinues(recs + [rec])
  {
    assert forall i :: 0 <= i < |recs| ==> (recs + [rec])[i] == recs[i];
  }

  /** Unfolds `JoinStep` for a kept line after a continued record, so that
      `JoinStepJoins` can use that case without unfolding the function itself. */
  lemma JoinStepContinued(acc: seq<Record>, ln: nat, line: string)
    requires Kept(line) && |acc| > 0 && EndsWith(acc[|acc| - 1].text, Continuation)
    ensures var last := acc[|acc| - 1].text;
      JoinStep(acc, ln, line) == acc[..|acc| - 1] + [Record(ln, last[..|last| - 2] + " " + line)]
  {
  }

  /** A continued record joined with the next kept line is a well-formed record. */
  lemma JoinedRecordOk(raw: seq<string>, last: string)
    requires raw != [] && Kept(raw[|raw| - 1])
    requires EndsWith(last, Continuation)
    ensures RecordOk(raw, Record(|raw|, last[..|last| - 2] + " " + raw[|raw| - 1]))
  {
    JoinedLineEnds(last, raw[|raw| - 1]);
  }

  lemma PrefixBelow(recs: seq<Record>, n: nat, bound: nat)
    requires n <= |recs|
    requires forall i :: 0 <= i < |recs| ==> recs[i].line < bound
    ensures forall i :: 0 <= i < n ==> recs[..n][i].line < bound
  {
  }

  lemma PrefixPlain(recs: seq<Record>, pre: seq<Record>)
    requires recs != [] && OnlyLastContinues(recs) && pre == recs[..|recs| - 1]
    ensures forall i :: 0 <= i < |pre| ==> !EndsWith(pre[i].text, Continuation)
  {
  }

  lemma JoinStepJoins(raw: seq<string>, acc: seq<Record>)
    requires raw != [] && Kept(raw[|raw| - 1])
    requires Numbered(raw, acc) && OnlyLastContinues(acc)
    requires forall i :: 0 <= i < |acc| ==> acc[i].line < |raw|
    requires |acc| > 0 && EndsWith(acc[|acc| - 1].text, Continuation)
    ensures Numbered(raw, JoinStep(acc, |raw|, raw[|raw| - 1]))
    ensures OnlyLastContinues(JoinStep(acc, |raw|, raw[|raw| - 1]))
  {
    var line := raw[|raw| - 1];
    var last := acc[|acc| - 1].text;
    var rec := Record(|raw|, last[..|last| - 2] + " " + line);
    JoinedRecordOk(raw, last);
    var pre := acc[..|acc| - 1];
    JoinStepContinued(acc, |raw|, line);
    NumberedPrefix(raw, acc, |acc| - 1);
    PrefixBelow(acc, |acc| - 1, |raw|);
    NumberedPush(raw, pre, rec);
    PrefixPlain(acc, pre);
    OnlyLastPush(pre, rec);
  }

  lemma JoinStepAppends(raw: seq<string>, acc: seq<Record>)
    requires raw != [] && Kept(raw[|raw| - 1])
    requires Numbered(raw, acc) && OnlyLastContinues(acc)
    requires forall i :: 0 <= i < |acc| ==> acc[i].line < |raw|
    requires !(|acc| > 0 && EndsWith(acc[|acc| - 1].text, Continuation))
    ensures Numbered(raw, JoinStep(acc, |raw|, raw[|raw| - 1]))
    ensures OnlyLastContinues(JoinStep(acc, |raw|, raw[|raw| - 1]))
  {
    var line := raw[|raw| - 1];
    NumberedPush(raw, acc, Record(|raw|, line));
    OnlyLastPush(acc, Record(|raw|, line));
  }

  /** Each record is numbered by its last kept physical line, in strictly increasing order,
      and no record but the last ends with a continuation. */
  lemma {:induction false} JoinedNumbered(raw: seq<string>)
    ensures Numbered(raw, Joined(raw))
    ensures OnlyLastContinues(Joined(raw))
  {
    if raw != [] {
      var pre := raw[..|raw| - 1];
      JoinedNumbered(pre);
      var acc := Joined(pre);
      NumberedWiden(raw, acc);
      var line := raw[|raw| - 1];
      if !Kept(line) {
      } else if |acc| > 0 && EndsWith(acc[|acc| - 1].text, Continuation) {
        JoinStepJoins(raw, acc);
      } else {
        JoinStepAppends(raw, acc);
      }
    }
  }

  /** The kept physical lines, each as a record with its own number. */
  function KeptRecords(raw: seq<string>): seq<Record> {
    if raw == [] then []
    else KeptRecords(raw[..|raw| - 1]) + (if Kept(raw[|raw| - 1]) then [Record(|raw|, raw[|raw| - 1])] else [])
  }

  /** Without continuation markers, `lines` keeps every non-comment line as it is. */
  lemma {:induction false} JoinedWithoutContinuations(raw: seq<string>)
    requires forall i :: 0 <= i < |raw| && Kept(raw[i]) ==> !EndsWith(raw[i], Continuation)
    ensures Joined(raw) == KeptRecords(raw)
  {
    if raw != [] {
      var pre := raw[..|raw| - 1];
      JoinedWithoutContinuations(pre);
      JoinedNumbered(pre);
    }
  }

  /** All records are kept lines. */
  predicate AllKept(ks: seq<Record>) {
    forall i :: 0 <= i < |ks| ==> Kept(ks[i].text)
  }

  /** `lines` over records that are already filtered: the same join, record by record. */
  function JoinRecords(ks: seq<Record>): (r: seq<Record>)
    ensures ks != [] && AllKept(ks) ==> r != []
  {
    if ks == [] then [] else JoinStep(JoinRecords(ks[..|ks| - 1]), ks[|ks| - 1].line, ks[|ks| - 1].text)
  }

  /** `s[:-2]`: the text without its last two characters. */
  function Cut(s: string): string {
    if |s| >= 2 then s[..|s| - 2] else []
  }

  /** `' '.join(ts)`. */
  function Spaced(ts: seq<string>): string
    requires ts != []
  {
    if |ts| == 1 then ts[0] else Spaced(ts[..|ts| - 1]) + " " + ts[|ts| - 1]
  }

  /** The texts of a run of lines, every one but the last cut by two characters. */
  function RunPieces(run: seq<Record>): (r: seq<string>)
    ensures |r| == |run|
  {
    seq(|run|, i requires 0 <= i < |run| => if i < |run| - 1 then Cut(run[i].text) else run[i].text)
  }

  /** The text of a joined run: its lines, each but the last cut by two characters, joined by one space. */
  function RunText(run: seq<Record>): string
    requires run != []
  {
    Spaced(RunPieces(run))
  }

  /** The length of the maximal run at the front of `ks`: it ends at the first line that does
      not end with a continuation, or at the end of the input. */
  function RunEnd(ks: seq<Record>): (n: nat)
    requires ks != []
    ensures 1 <= n <= |ks|
    ensures forall i :: 0 <= i < n - 1 ==> EndsWith(ks[i].text, Continuation)
    ensures n < |ks| ==> !EndsWith(ks[n - 1].text, Continuation)
  {
    if |ks| == 1 || !EndsWith(ks[0].text, Continuation) then 1 else 1 + RunEnd(ks[1..])
  }

  /** The kept lines grouped into maximal runs, each run becoming one record numbered by its
      last line. */
  function Runs(ks: seq<Record>): seq<Record>
    decreases |ks|
  {
    if ks == [] then []
    else
      var n := RunEnd(ks);
      [Record(ks[n - 1].line, RunText(ks[..n]))] + Runs(ks[n..])
  }

  /** Every record of `lines` comes from one maximal run of kept lines in which every line but
      the last ends with a continuation; its text is those lines, each but the last cut by two
      characters, joined by single spaces, and its number is that of the run's last line. */
  lemma JoinedRuns(raw: seq<string>)
    ensures Joined(raw) == Runs(KeptRecords(raw))
  {
    JoinedKept(raw);
    KeptAll(raw);
    JoinRecordsRuns(KeptRecords(raw));
  }

  lemma {:induction false} KeptAll(raw: seq<string>)
    ensures AllKept(KeptRecords(raw))
  {
    if raw != [] {
      KeptAll(raw[..|raw| - 1]);
    }
  }

  lemma {:induction false} JoinedKept(raw: seq<string>)
    ensures Joined(raw) == JoinRecords(KeptRecords(raw))
  {
    if raw != [] {
      var pre := raw[..|raw| - 1];
      JoinedKept(pre);
      var ks := KeptRecords(pre);
      var x := Record(|raw|, raw[|raw| - 1]);
      if Kept(x.text) {
        var kx := ks + [x];
        assert KeptRecords(raw) == kx;
        assert kx[..|kx| - 1] == ks && kx[|kx| - 1] == x;
        assert JoinRecords(kx) == JoinStep(JoinRecords(ks), x.line, x.text);
      } else {
        assert KeptRecords(raw) == ks + [] == ks;
      }
    }
  }

  /** A join that ends on a line without continuation is not affected by the lines after it. */
  lemma {:induction false} JoinRecordsAppend(a: seq<Record>, b: seq<Record>)
    requires AllKept(a) && AllKept(b)
    requires b == [] || JoinRecords(a) == [] || !EndsWith(JoinRecords(a)[|JoinRecords(a)| - 1].text, Continuation)
    decreases |b|
    ensures JoinRecords(a + b) == JoinRecords(a) + JoinRecords(b)
  {
    if b == [] {
      assert a + b == a;
    } else {
      var b', x := b[..|b| - 1], b[|b| - 1];
      assert (a + b)[..|a + b| - 1] == a + b' && (a + b)[|a + b| - 1] == x;
      assert AllKept(b') && Kept(x.text);
      JoinRecordsAppend(a, b');
      if b' == [] {
        assert a + b' == a;
        assert JoinRecords(b) == [x];
      } else {
        JoinStepShift(JoinRecords(a), JoinRecords(b'), x);
      }
    }
  }

  lemma JoinStepShift(p: seq<Record>, q: seq<Record>, x: Record)
    requires q != []
    ensures JoinStep(p + q, x.line, x.text) == p + JoinStep(q, x.line, x.text)
  {
    assert (p + q)[|p + q| - 1] == q[|q| - 1];
    assert (p + q)[..|p + q| - 1] == p + q[..|q| - 1];
  }

  /** Joining a run gives one record: the run's text, numbered by its last line. */
  lemma {:induction false} JoinRecordsRun(run: seq<Record>)
    requires run != [] && AllKept(run)
    requires forall i :: 0 <= i < |run| - 1 ==> EndsWith(run[i].text, Continuation)
    ensures JoinRecords(run) == [Record(run[|run| - 1].line, RunText(run))]
  {
    var pre, x := run[..|run| - 1], run[|run| - 1];
    if pre == [] {
      assert RunPieces(run) == [x.text];
    } else {
      RunPrefix(run);
      JoinRecordsRun(pre);
      RunTextEnds(pre);
      JoinOneContinued(pre[|pre| - 1].line, RunText(pre), x);
      RunTextStep(run);
    }
  }

  /** The run without its last line is a run too, and the line before the last continues. */
  lemma RunPrefix(run: seq<Record>)
    requires |run| >= 2 && AllKept(run)
    requires forall i :: 0 <= i < |run| - 1 ==> EndsWith(run[i].text, Continuation)
    ensures var pre := run[..|run| - 1];
      AllKept(pre) && Kept(run[|run| - 1].text) && EndsWith(pre[|pre| - 1].text, Continuation) &&
      forall i :: 0 <= i < |pre| - 1 ==> EndsWith(pre[i].text, Continuation)
  {
  }

  /** A single continued record absorbs the next kept line. */
  lemma JoinOneContinued(ln: nat, t: string, x: Record)
    requires Kept(x.text) && EndsWith(t, Continuation)
    ensures JoinStep([Record(ln, t)], x.line, x.text) == [Record(x.line, Cut(t) + " " + x.text)]
  {
  }

  /** A run's text ends the way its last line does. */
  lemma RunTextEnds(run: seq<Record>)
    requires run != [] && |run[|run| - 1].text| >= 1
    ensures EndsWith(RunText(run), Continuation) <==> EndsWith(run[|run| - 1].text, Continuation)
  {
    var ps := RunPieces(run);
    var y := run[|run| - 1].text;
    if |run| > 1 {
      assert ps[..|ps| - 1] + [y] == ps;
      SpacedEnds(Spaced(ps[..|ps| - 1]), y);
    }
  }

  lemma SpacedEnds(x: string, y: string)
    requires |y| >= 1
    ensures EndsWith(x + " " + y, Continuation) <==> EndsWith(y, Continuation)
  {
    var j := x + " " + y;
    if |y| >= 2 {
      assert j[|j| - 2..] == y[|y| - 2..];
    } else {
      assert j[|j| - 2..] == [' ', y[0]];
    }
  }

  /** Joining the next line to a continued run: cutting the run's text cuts its last line. */
  lemma RunTextStep(run: seq<Record>)
    requires |run| >= 2
    requires EndsWith(run[|run| - 2].text, Continuation)
    ensures RunText(run) == Cut(RunText(run[..|run| - 1])) + " " + run[|run| - 1].text
  {
    var pre := run[..|run| - 1];
    var ps, qs := RunPieces(run), RunPieces(pre);
    var cuts := ps[..|ps| - 1];
    assert cuts == qs[..|qs| - 1] + [Cut(pre[|pre| - 1].text)];
    assert ps[..|ps| - 1] == cuts;
    assert Spaced(ps) == Spaced(cuts) + " " + run[|run| - 1].text;
    if |pre| == 1 {
      assert qs == [pre[0].text];
      assert cuts == [Cut(pre[0].text)];
    } else {
      var y := pre[|pre| - 1].text;
      assert qs[..|qs| - 1] + [y] == qs;
      assert Spaced(qs) == Spaced(qs[..|qs| - 1]) + " " + y;
      CutSpaced(Spaced(qs[..|qs| - 1]), y);
      assert cuts[..|cuts| - 1] == qs[..|qs| - 1];
    }
  }

  lemma CutSpaced(x: string, y: string)
    requires |y| >= 2
    ensures Cut(x + " " + y) == x + " " + Cut(y)
  {
    assert (x + " " + y)[..|x + " " + y| - 2] == x + " " + y[..|y| - 2];
  }

  /** Grouping the records into maximal runs is what joining them does. */
  lemma {:induction false} JoinRecordsRuns(ks: seq<Record>)
    requires AllKept(ks)
    decreases |ks|
    ensures JoinRecords(ks) == Runs(ks)
  {
    if ks != [] {
      var n := RunEnd(ks);
      var run, rest := ks[..n], ks[n..];
      assert ks == run + rest;
      assert AllKept(run) && AllKept(rest);
      JoinRecordsRun(run);
      RunTextEnds(run);
      JoinRecordsAppend(run, rest);
      JoinRecordsRuns(rest);
    }
  }

  /** `Values(text)` with `.` replaced by the file's namespace, as `setoption` stores it. */
  function Substituted(ns: string, values: seq<string>): (r: seq<string>)
    ensures |r| == |values|
    ensures forall i :: 0 <= i < |r| ==> r[i] == if values[i] == "." then ns else values[i]
  {
    if values == [] then [] else Substituted(ns, values[..|values| - 1]) + [if values[|values| - 1] == "." then ns else values[|values| - 1]]
  }

  /**
   * The decision of `setoption(ns, line)`: the line is a `path` option when it holds an `=`
   * and the text before the first `=`, trimmed, is `path`; the new search path is the value
   * list with `.` replaced by `ns`. A line whose key is anything else is not an option.
   */
  function PathOption(ns: string, line: string): (r: Option<seq<string>>)
    ensures r.Some? <==> SplitOnce(line, "=").Some? && Strip(SplitOnce(line, "=").value.0) == "path"
    ensures r.Some? ==> |r.value| >= 1
    ensures r.Some? ==> r.value == Substituted(ns, Values(SplitOnce(line, "=").value.1))
  {
    match SplitOnce(line, "=")
    case None => None
    case Some((tag, value)) =>
      if Strip(tag) == "path" then Some(Substituted(ns, Values(value))) else None
  }

  /** A search path never keeps the `.` placeholder, unless the namespace itself is `.`. */
  lemma PathOptionResolvesDot(ns: string, line: string)
    requires PathOption(ns, line).Some? && ns != "."
    ensures "." !in PathOption(ns, line).value
  {
  }

  /** The groups declared by the dependency tokens: one group per non-empty token,
      qualified against the current search path. */
  function DepGroups(path: seq<string>, tokens: seq<string>): (r: seq<Group>)
    ensures |r| <= |tokens|
  {
    if tokens == [] then []
    else
      var dep := Strip(tokens[|tokens| - 1]);
      DepGroups(path, tokens[..|tokens| - 1]) + (if |dep| > 0 then [Qualify(Many(path), dep)] else [])
  }

  /** One token yields its qualified group when it is non-empty after trimming, and nothing otherwise. */
  lemma DepGroupsOne(path: seq<string>, token: string)
    ensures DepGroups(path, [token]) == if |Strip(token)| > 0 then [Qualify(Many(path), Strip(token))] else []
  {
    assert [token][..0] == [];
  }

  /** The groups of consecutive token lists follow each other, so the groups are those of the
      single tokens, in token order. */
  lemma {:induction false} DepGroupsAppend(path: seq<string>, a: seq<string>, b: seq<string>)
    decreases |b|
    ensures DepGroups(path, a + b) == DepGroups(path, a) + DepGroups(path, b)
  {
    if b == [] {
      assert a + b == a;
    } else {
      var b' := b[..|b| - 1];
      assert (a + b)[..|a + b| - 1] == a + b' && (a + b)[|a + b| - 1] == b[|b| - 1];
      DepGroupsAppend(path, a, b');
    }
  }

  /** A parsed rule line `subject :: dependencies`. */
  datatype Rule = Rule(line: nat, subject: string, deps: seq<Group>)

  /** The rule of a record that is not an option: none without `::`; otherwise the trimmed
      subject and one group per dependency token, backslashes removed first. */
  function ParseRule(path: seq<string>, rec: Record): (r: Option<Rule>)
    ensures r.Some? <==> SplitOnce(rec.text, "::").Some?
    ensures r.Some? ==> r.value.line == rec.line && r.value.subject == Strip(SplitOnce(rec.text, "::").value.0)
    ensures r.Some? ==> r.value.deps == DepGroups(path, Values(RemoveAll(SplitOnce(rec.text, "::").value.1, '\\')))
  {
    match SplitOnce(rec.text, "::")
    case None => None
    case Some((subject, rest)) =>
      Some(Rule(rec.line, Strip(subject), DepGroups(path, Values(RemoveAll(rest, '\\')))))
  }

  /** The search path and the rules after the loop of `read` has seen some records. */
  datatype ReadState = ReadState(path: seq<string>, rules: seq<Rule>)

  /** The loop of `read` over the records of one file: the search path starts as the file's
      own namespace; an option line replaces it; any other line may declare a rule. */
  function ReadSteps(ns: string, recs: seq<Record>): (s: ReadState)
    ensures |s.path| >= 1
  {
    if recs == [] then ReadState([ns], [])
    else
      var s := ReadSteps(ns, recs[..|recs| - 1]);
      var rec := recs[|recs| - 1];
      match PathOption(ns, rec.text)
      case Some(p) => s.(path := p)
      case None =>
        match ParseRule(s.path, rec)
        case None => s
        case Some(rule) => s.(rules := s.rules + [rule])
  }

  /** The last record: a path option replaces the search path, otherwise a rule line adds
      its rule. An unfolding of `ReadSteps` that `PathStep`, `LastRecordRules` and the
      table's read lemmas use so that they need not unfold it themselves. */
  lemma ReadStepsLast(ns: string, recs: seq<Record>)
    requires recs != []
    ensures var s := ReadSteps(ns, recs[..|recs| - 1]); var rec := recs[|recs| - 1];
      ReadSteps(ns, recs) ==
        if PathOption(ns, rec.text).Some? then s.(path := PathOption(ns, rec.text).value)
        else if ParseRule(s.path, rec).None? then s
        else s.(rules := s.rules + [ParseRule(s.path, rec).value])
  {
  }

  /** The search path in force after some records: the file's own namespace while no path
      option has been seen, and after that the value of the last path option. */
  lemma ReadStepsPath(ns: string, recs: seq<Record>)
    ensures (forall k :: 0 <= k < |recs| ==> PathOption(ns, recs[k].text).None?) ==> ReadSteps(ns, recs).path == [ns]
    ensures forall k ::
              0 <= k < |recs| && PathOption(ns, recs[k].text).Some? &&
              (forall j :: k < j < |recs| ==> PathOption(ns, recs[j].text).None?) ==>
                ReadSteps(ns, recs).path == PathOption(ns, recs[k].text).value
  {
    PathWithoutOptions(ns, recs);
    forall k | 0 <= k < |recs| && PathOption(ns, recs[k].text).Some? &&
               (forall j :: k < j < |recs| ==> PathOption(ns, recs[j].text).None?)
      ensures ReadSteps(ns, recs).path == PathOption(ns, recs[k].text).value
    {
      PathAfterOption(ns, recs, k);
    }
  }

  /** With no path option among the records, the search path is the file's own namespace. */
  lemma {:induction false} PathWithoutOptions(ns: string, recs: seq<Record>)
    ensures (forall k :: 0 <= k < |recs| ==> PathOption(ns, recs[k].text).None?) ==> ReadSteps(ns, recs).path == [ns]
  {
    if recs != [] && forall k :: 0 <= k < |recs| ==> PathOption(ns, recs[k].text).None? {
      var pre := recs[..|recs| - 1];
      assert forall k :: 0 <= k < |pre| ==> pre[k] == recs[k];
      PathWithoutOptions(ns, pre);
      PathStep(ns, recs);
    }
  }

  /** The path option at `k`, with none after it, sets the search path. */
  lemma {:induction false} PathAfterOption(ns: string, recs: seq<Record>, k: nat)
    requires k < |recs| && PathOption(ns, recs[k].text).Some?
    requires forall j :: k < j < |recs| ==> PathOption(ns, recs[j].text).None?
    decreases |recs|
    ensures ReadSteps(ns, recs).path == PathOption(ns, recs[k].text).value
  {
    PathStep(ns, recs);
    if k < |recs| - 1 {
      var pre := recs[..|recs| - 1];
      assert forall j :: 0 <= j < |pre| ==> pre[j] == recs[j];
      PathAfterOption(ns, pre, k);
    }
  }

  /** The last record changes the search path only when it is a path option. */
  lemma PathStep(ns: string, recs: seq<Record>)
    requires recs != []
    ensures ReadSteps(ns, recs).path ==
      match PathOption(ns, recs[|recs| - 1].text)
      case Some(p) => p
      case None => ReadSteps(ns, recs[..|recs| - 1]).path
  {
    ReadStepsLast(ns, recs);
  }

  /** A record declares a rule when it is not a path option and holds `::`. */
  predicate DeclaresRule(ns: string, rec: Record) {
    PathOption(ns, rec.text).None? && SplitOnce(rec.text, "::").Some?
  }

  /** The positions of the records that declare rules, in order. */
  function RuleSites(ns: string, recs: seq<Record>): (r: seq<nat>)
    ensures forall i :: 0 <= i < |r| ==> r[i] < |recs| && DeclaresRule(ns, recs[r[i]])
    ensures forall i, j :: 0 <= i < j < |r| ==> r[i] < r[j]
    ensures forall k :: 0 <= k < |recs| && DeclaresRule(ns, recs[k]) ==> k in r
  {
    if recs == [] then []
    else
      var sites := RuleSites(ns, recs[..|recs| - 1]);
      SitesExtend(ns, recs, sites);
      sites + (if DeclaresRule(ns, recs[|recs| - 1]) then [|recs| - 1] else [])
  }

  /** The sites of all records but the last, followed by the last record's position when it
      declares a rule, are the sites of all records. */
  lemma SitesExtend(ns: string, recs: seq<Record>, sites: seq<nat>)
    requires recs != []
    requires forall i :: 0 <= i < |sites| ==> sites[i] < |recs| - 1 && DeclaresRule(ns, recs[..|recs| - 1][sites[i]])
    requires forall i, j :: 0 <= i < j < |sites| ==> sites[i] < sites[j]
    requires forall k :: 0 <= k < |recs| - 1 && DeclaresRule(ns, recs[..|recs| - 1][k]) ==> k in sites
    ensures var r := sites + (if DeclaresRule(ns, recs[|recs| - 1]) then [|recs| - 1] else []);
      (forall i :: 0 <= i < |r| ==> r[i] < |recs| && DeclaresRule(ns, recs[r[i]])) &&
      (forall i, j :: 0 <= i < j < |r| ==> r[i] < r[j]) &&
      (forall k :: 0 <= k < |recs| && DeclaresRule(ns, recs[k]) ==> k in r)
  {
    assert forall k :: 0 <= k < |recs| - 1 ==> recs[..|recs| - 1][k] == recs[k];
  }

  /** Each rule is what the record at its site parses to, under the search path in force
      before that record. */
  predicate Matched(ns: string, recs: seq<Record>, rules: seq<Rule>, sites: seq<nat>) {
    |rules| == |sites| &&
    forall i :: 0 <= i < |sites| ==>
      sites[i] < |recs| && ParseRule(ReadSteps(ns, recs[..sites[i]]).path, recs[sites[i]]) == Some(rules[i])
  }

  /** Exactly the records that are not options and hold `::` produce a rule, in order, and each
      rule is what its record parses to under the search path in force before it. */
  lemma {:induction false} RulesMatchRecords(ns: string, recs: seq<Record>)
    ensures Matched(ns, recs, ReadSteps(ns, recs).rules, RuleSites(ns, recs))
  {
    if recs != [] {
      var pre, rec := recs[..|recs| - 1], recs[|recs| - 1];
      RulesMatchRecords(ns, pre);
      var s := ReadSteps(ns, pre);
      MatchedWiden(ns, recs, s.rules, RuleSites(ns, pre));
      LastRecordRules(ns, recs);
      if DeclaresRule(ns, rec) {
        MatchedPush(ns, recs, s.rules, RuleSites(ns, pre), ParseRule(s.path, rec).value);
      }
    }
  }

  /** A match against all records but the last is a match against all of them. */
  lemma MatchedWiden(ns: string, recs: seq<Record>, rules: seq<Rule>, sites: seq<nat>)
    requires recs != [] && Matched(ns, recs[..|recs| - 1], rules, sites)
    ensures Matched(ns, recs, rules, sites)
  {
    var pre := recs[..|recs| - 1];
    forall i | 0 <= i < |sites|
      ensures sites[i] < |recs| && ParseRule(ReadSteps(ns, recs[..sites[i]]).path, recs[sites[i]]) == Some(rules[i])
    {
      var k := sites[i];
      assert recs[..k] == pre[..k] && recs[k] == pre[k];
    }
  }

  /** The last record's rule, parsed under the path the other records leave, extends a match. */
  lemma MatchedPush(ns: string, recs: seq<Record>, rules: seq<Rule>, sites: seq<nat>, rule: Rule)
    requires recs != [] && Matched(ns, recs, rules, sites)
    requires ParseRule(ReadSteps(ns, recs[..|recs| - 1]).path, recs[|recs| - 1]) == Some(rule)
    ensures Matched(ns, recs, rules + [rule], sites + [|recs| - 1])
  {
    var rules', sites' := rules + [rule], sites + [|recs| - 1];
    forall i | 0 <= i < |sites'|
      ensures sites'[i] < |recs| && ParseRule(ReadSteps(ns, recs[..sites'[i]]).path, recs[sites'[i]]) == Some(rules'[i])
    {
      if i < |sites| {
        assert sites'[i] == sites[i] && rules'[i] == rules[i];
      }
    }
  }

  /** The last record adds one rule and one site when it declares a rule, and neither otherwise. */
  lemma LastRecordRules(ns: string, recs: seq<Record>)
    requires recs != []
    ensures var pre, rec := recs[..|recs| - 1], recs[|recs| - 1]; var s := ReadSteps(ns, pre);
      if DeclaresRule(ns, rec) then
        ReadSteps(ns, recs).rules == s.rules + [ParseRule(s.path, rec).value] &&
        RuleSites(ns, recs) == RuleSites(ns, pre) + [|recs| - 1]
      else ReadSteps(ns, recs).rules == s.rules && RuleSites(ns, recs) == RuleSites(ns, pre)
  {
    ReadStepsLast(ns, recs);
  }

  lemma {:induction false} DepGroupsNonEmpty(path: seq<string>, tokens: seq<string>)
    requires |path| >= 1
    ensures forall i :: 0 <= i < |DepGroups(path, tokens)| ==> DepGroups(path, tokens)[i] != []
  {
    if tokens != [] {
      DepGroupsNonEmpty(path, tokens[..|tokens| - 1]);
    }
  }

  /** Every declared dependency group holds at least one candidate key. */
  lemma {:induction false} DeclaredGroupsNonEmpty(ns: string, recs: seq<Record>)
    ensures forall i, j :: 0 <= i < |ReadSteps(ns, recs).rules| && 0 <= j < |ReadSteps(ns, recs).rules[i].deps| ==>
      ReadSteps(ns, recs).rules[i].deps[j] != []
  {
    if recs != [] {
      DeclaredGroupsNonEmpty(ns, recs[..|recs| - 1]);
      var s := ReadSteps(ns, recs[..|recs| - 1]);
      var rec := recs[|recs| - 1];
      if PathOption(ns, rec.text).None? && ParseRule(s.path, rec).Some? {
        var rest := SplitOnce(rec.text, "::").value.1;
        DepGroupsNonEmpty(s.path, Values(RemoveAll(rest, '\\')));
      }
    }
  }
}
