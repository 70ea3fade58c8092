/** The result-extraction parser of the worker (`ProcessRecord` and
    `ProcessOutput` in main.go). The raw resolver output is given as the
    sequence of its lines; the result file as the text written to it. */
module Parser {
  import opened GoStrings

  /** Number of lines after a query line in which a NOERROR line is accepted. */
  const AnswerLineNum: nat := 3
  const NxDomain := "NXDOMAIN"
  const NoError := "NOERROR"

  // ---------------------------------------------------------------------
  // ProcessRecord
  // ---------------------------------------------------------------------

  /** The domain of a record line: the text before the first space (the whole
      line when it has none), without one trailing dot, lower-cased. */
  function ProcessRecord(line: string): (domain: string)
    ensures |domain| <= |line|
    ensures ' ' !in domain
  {
    var field := TrimDot(PrefixBefore(line, ' '));
    ToLowerKeepsOthers(field, ' ');
    ToLower(field)
  }

  /** The domain is the lower-casing of a prefix of the line; it holds no
      space and no upper-case letter. */
  lemma RecordIsLoweredPrefix(line: string)
    ensures var domain := ProcessRecord(line);
      && |domain| <= |line| && domain == ToLower(line[..|domain|])
      && ' ' !in domain
      && forall i :: 0 <= i < |domain| ==> !IsUpper(domain[i])
  {
    var trimmed := TrimDot(PrefixBefore(line, ' '));
    assert trimmed == line[..|trimmed|];
    ToLowerKeepsOthers(trimmed, ' ');
  }

  /** A fully qualified name written as the first field of a record comes back
      without its root dot and lower-cased; a single dot is removed, and
      only a space ends the field. */
  lemma RecordOfQualifiedName(name: string, rest: string)
    requires ' ' !in name
    ensures ProcessRecord(name + ". " + rest) == ToLower(name)
  {
    var field := name + ".";
    assert PrefixBefore(name + ". " + rest, ' ') == field by {
      assert name + ". " + rest == field + [' '] + rest;
      PrefixBeforeSeparator(field, ' ', rest);
    }
    assert TrimDot(field) == name by {
      assert field[..|field| - 1] == name;
    }
  }

  /** A line without a space is used whole: only a space ends the field, not a
      tab or other white space. */
  lemma WholeLineWithoutSpace(line: string)
    requires ' ' !in line
    ensures ProcessRecord(line) == ToLower(TrimDot(line))
  {
  }

  /** The text before the first `sep` of `field + [sep] + rest` is `field`
      when `field` has no `sep`. */
  lemma {:induction false} PrefixBeforeSeparator(field: string, sep: char, rest: string)
    requires sep !in field
    ensures PrefixBefore(field + [sep] + rest, sep) == field
  {
    if field != [] {
      assert (field + [sep] + rest)[1..] == field[1..] + [sep] + rest;
      PrefixBeforeSeparator(field[1..], sep, rest);
    }
  }

  // ---------------------------------------------------------------------
  // The line state machine of ProcessOutput
  // ---------------------------------------------------------------------

  /** The counter the window check sees: a line containing NXDOMAIN first
      resets the counter to 0. */
  function CheckedCounter(lineNum: nat, line: string): nat {
    if Contains(line, NxDomain) then 0 else lineNum
  }

  /** Whether `line` is written out when the counter stands at `lineNum`. */
  predicate Emits(lineNum: nat, line: string) {
    var checked := CheckedCounter(lineNum, line);
    0 < checked <= AnswerLineNum && Contains(line, NoError)
  }

  /** The counter after `lines` have been scanned (it is incremented after every line). */
  function CounterAfter(lines: seq<string>): nat {
    if lines == [] then 0
    else CheckedCounter(CounterAfter(lines[..|lines| - 1]), lines[|lines| - 1]) + 1
  }

  /** The domains written, in order, for the scanned `lines`. */
  function Results(lines: seq<string>): (r: seq<string>)
    ensures |lines| > 0 ==> |r| < |lines|
  {
    if lines == [] then []
    else
      var init, line := lines[..|lines| - 1], lines[|lines| - 1];
      Results(init) + (if Emits(CounterAfter(init), line) then [ProcessRecord(line)] else [])
  }

  // ---------------------------------------------------------------------
  // The answer window stated without the counter
  // ---------------------------------------------------------------------

  /** No line in positions lo..hi-1 contains NXDOMAIN. */
  ghost predicate NoResetIn(lines: seq<string>, lo: int, hi: int)
    requires 0 <= lo <= hi <= |lines|
  {
    forall m :: lo <= m < hi ==> !Contains(lines[m], NxDomain)
  }

  /** Position `k` lies 1 to AnswerLineNum lines after the most recent
      NXDOMAIN line before it, or, when no line before it has one, at
      position 1 to AnswerLineNum of the input. */
  ghost predicate InAnswerWindow(lines: seq<string>, k: int)
    requires 0 <= k < |lines|
  {
    if NoResetIn(lines, 0, k) then 1 <= k <= AnswerLineNum
    else exists j :: 0 <= j < k && Contains(lines[j], NxDomain) && NoResetIn(lines, j + 1, k) && k - j <= AnswerLineNum
  }

  /** The line at position `k` is one whose domain belongs in the result. */
  ghost predicate Qualifies(lines: seq<string>, k: int)
    requires 0 <= k < |lines|
  {
    Contains(lines[k], NoError) && !Contains(lines[k], NxDomain) && InAnswerWindow(lines, k)
  }

  /** The position of the last NXDOMAIN line before position `k`, or -1. */
  function LastReset(lines: seq<string>, k: int): (j: int)
    requires 0 <= k <= |lines|
    ensures -1 <= j < k
    ensures j >= 0 ==> Contains(lines[j], NxDomain)
    ensures NoResetIn(lines, j + 1, k)
  {
    if k == 0 then -1
    else if Contains(lines[k - 1], NxDomain) then k - 1
    else LastReset(lines, k - 1)
  }

  /** Without an NXDOMAIN line, the counter counts the lines. */
  lemma {:induction false} CounterWithoutReset(p: seq<string>)
    requires NoResetIn(p, 0, |p|)
    ensures CounterAfter(p) == |p|
  {
    if p != [] {
      var init := p[..|p| - 1];
      assert NoResetIn(init, 0, |init|) by {
        forall m | 0 <= m < |init| ensures !Contains(init[m], NxDomain) {
          assert init[m] == p[m];
        }
      }
      CounterWithoutReset(init);
    }
  }

  /** After an NXDOMAIN line at position `j` and no later one, the counter is
      the distance from that line. */
  lemma {:induction false} CounterAfterReset(p: seq<string>, j: int)
    requires 0 <= j < |p| && Contains(p[j], NxDomain) && NoResetIn(p, j + 1, |p|)
    ensures CounterAfter(p) == |p| - j
  {
    var init := p[..|p| - 1];
    if j < |p| - 1 {
      assert init[j] == p[j];
      assert NoResetIn(init, j + 1, |init|) by {
        forall m | j + 1 <= m < |init| ensures !Contains(init[m], NxDomain) {
          assert init[m] == p[m];
        }
      }
      CounterAfterReset(init, j);
    }
  }

  /** The counter machine emits at position `k` exactly when that line
      qualifies by the counter-free description. */
  lemma EmitsIffQualifies(lines: seq<string>, k: int)
    requires 0 <= k < |lines|
    ensures Emits(CounterAfter(lines[..k]), lines[k]) <==> Qualifies(lines, k)
  {
    var p := lines[..k];
    var j := LastReset(lines, k);
    if j < 0 {
      assert NoResetIn(p, 0, |p|) by {
        forall m | 0 <= m < |p| ensures !Contains(p[m], NxDomain) {
          assert p[m] == lines[m];
        }
      }
      CounterWithoutReset(p);
    } else {
      assert p[j] == lines[j];
      assert NoResetIn(p, j + 1, |p|) by {
        forall m | j + 1 <= m < |p| ensures !Contains(p[m], NxDomain) {
          assert p[m] == lines[m];
        }
      }
      CounterAfterReset(p, j);
      assert !NoResetIn(lines, 0, k);
      forall j' | 0 <= j' < k && Contains(lines[j'], NxDomain) && NoResetIn(lines, j' + 1, k)
        ensures j' == j
      {
      }
    }
  }

  /** The counter machine writes the line at position `k`. */
  predicate EmittedAt(lines: seq<string>, k: int)
    requires 0 <= k < |lines|
  {
    Emits(CounterAfter(lines[..k]), lines[k])
  }

  /** The positions of the written lines among the first `n`, in input order:
      strictly increasing, never position 0, and all of them. */
  function EmittedPositions(lines: seq<string>, n: int): (ps: seq<int>)
    requires 0 <= n <= |lines|
    ensures forall i :: 0 <= i < |ps| ==> 0 < ps[i] < n && EmittedAt(lines, ps[i])
    ensures forall i, i' :: 0 <= i < i' < |ps| ==> ps[i] < ps[i']
    ensures forall k :: 0 <= k < n && EmittedAt(lines, k) ==> k in ps
  {
    if n == 0 then []
    else
      assert lines[..0] == [];
      EmittedPositions(lines, n - 1) + (if EmittedAt(lines, n - 1) then [n - 1] else [])
  }

  /** The written positions are exactly the qualifying ones. */
  lemma EmittedPositionsQualify(lines: seq<string>, k: int)
    requires 0 <= k < |lines|
    ensures k in EmittedPositions(lines, |lines|) <==> Qualifies(lines, k)
  {
    EmitsIffQualifies(lines, k);
  }

  /** Output follows input order: the result is the record of each written
      line, in order. */
  lemma {:induction false} ResultsAreEmittedRecords(lines: seq<string>, n: int)
    requires 0 <= n <= |lines|
    ensures var ps := EmittedPositions(lines, n);
      && |Results(lines[..n])| == |ps|
      && forall i :: 0 <= i < |ps| ==> Results(lines[..n])[i] == ProcessRecord(lines[ps[i]])
  {
    if n > 0 {
      ResultsAreEmittedRecords(lines, n - 1);
      ResultsStep(lines, n - 1);
      if EmittedAt(lines, n - 1) {
        AppendRecord(lines, Results(lines[..n - 1]), EmittedPositions(lines, n - 1), n - 1);
      }
    }
  }

  /** Appending the record of line `k` and the position `k` keeps the two
      sequences in step. */
  lemma AppendRecord(lines: seq<string>, rs: seq<string>, ps: seq<int>, k: int)
    requires 0 <= k < |lines| && |rs| == |ps|
    requires forall i :: 0 <= i < |ps| ==> 0 <= ps[i] < |lines| && rs[i] == ProcessRecord(lines[ps[i]])
    ensures var rs', ps' := rs + [ProcessRecord(lines[k])], ps + [k];
      forall i :: 0 <= i < |ps'| ==> 0 <= ps'[i] < |lines| && rs'[i] == ProcessRecord(lines[ps'[i]])
  {
  }

  /** One more scanned line adds at most its own record to the result. */
  lemma ResultsStep(lines: seq<string>, n: int)
    requires 0 <= n < |lines|
    ensures CounterAfter(lines[..n + 1]) == CheckedCounter(CounterAfter(lines[..n]), lines[n]) + 1
    ensures Results(lines[..n + 1])
      == Results(lines[..n]) + (if Emits(CounterAfter(lines[..n]), lines[n]) then [ProcessRecord(lines[n])] else [])
  {
    assert lines[..n + 1][..n] == lines[..n];
  }

  /** Every written domain is the record of a NOERROR line without NXDOMAIN
      that lies in its answer window and is not the first line. */
  lemma ResultsSound(lines: seq<string>, i: int)
    requires 0 <= i < |Results(lines)|
    ensures exists k :: 0 < k < |lines| && Qualifies(lines, k) && Results(lines)[i] == ProcessRecord(lines[k])
  {
    var ps := EmittedPositions(lines, |lines|);
    ResultsAreEmittedRecords(lines, |lines|);
    assert lines[..|lines|] == lines;
    EmittedPositionsQualify(lines, ps[i]);
    assert Results(lines)[i] == ProcessRecord(lines[ps[i]]);
  }

  /** Every NOERROR line without NXDOMAIN in its answer window is written. */
  lemma ResultsComplete(lines: seq<string>, k: int)
    requires 0 <= k < |lines| && Qualifies(lines, k)
    ensures ProcessRecord(lines[k]) in Results(lines)
  {
    var ps := EmittedPositions(lines, |lines|);
    EmittedPositionsQualify(lines, k);
    ResultsAreEmittedRecords(lines, |lines|);
    assert lines[..|lines|] == lines;
    var i :| 0 <= i < |ps| && ps[i] == k;
    assert Results(lines)[i] == ProcessRecord(lines[k]);
  }

  /** A line carrying both markers is never written, and neither is the first line. */
  lemma NeverEmitted(lines: seq<string>, k: int)
    requires 0 <= k < |lines|
    requires k == 0 || (Contains(lines[k], NxDomain) && Contains(lines[k], NoError))
    ensures !Emits(CounterAfter(lines[..k]), lines[k])
  {
    EmitsIffQualifies(lines, k);
  }

  /** An NXDOMAIN line opens a new answer window: a NOERROR line 1 to
      AnswerLineNum lines after it, with no NXDOMAIN in between, is written. */
  lemma ResetReopensWindow(lines: seq<string>, j: int, d: int)
    requires 0 <= j && 1 <= d <= AnswerLineNum && j + d < |lines|
    requires Contains(lines[j], NxDomain) && NoResetIn(lines, j + 1, j + d + 1)
    requires Contains(lines[j + d], NoError)
    ensures Emits(CounterAfter(lines[..j + d]), lines[j + d])
  {
    EmitsIffQualifies(lines, j + d);
    assert !NoResetIn(lines, 0, j + d);
    assert NoResetIn(lines, j + 1, j + d);
  }

  /** Number of lines that contain NXDOMAIN. */
  function ResetCount(lines: seq<string>): nat {
    if lines == [] then 0
    else ResetCount(lines[..|lines| - 1]) + (if Contains(lines[|lines| - 1], NxDomain) then 1 else 0)
  }

  /** Window slots already used after the counter reached `lineNum`. */
  function SlotsUsed(lineNum: nat): nat {
    if lineNum == 0 then 0 else if lineNum - 1 < AnswerLineNum then lineNum - 1 else AnswerLineNum
  }

  /** Each window (the start of the input, and each NXDOMAIN line) yields at
      most AnswerLineNum domains, and there are never more domains than lines. */
  lemma {:induction false} ResultsBound(lines: seq<string>)
    ensures |Results(lines)| <= |lines|
    ensures |Results(lines)| <= AnswerLineNum * ResetCount(lines) + SlotsUsed(CounterAfter(lines))
    ensures |Results(lines)| <= AnswerLineNum * (ResetCount(lines) + 1)
  {
    if lines != [] {
      ResultsBound(lines[..|lines| - 1]);
    }
  }

  // ---------------------------------------------------------------------
  // The result file
  // ---------------------------------------------------------------------

  /** The text of the result file: each domain followed by a line break. */
  function Render(entries: seq<string>): string {
    if entries == [] then [] else entries[0] + "\n" + Render(entries[1..])
  }

  lemma {:induction false} RenderAppend(entries: seq<string>, e: string)
    ensures Render(entries + [e]) == Render(entries) + e + "\n"
  {
    if entries == [] {
      assert [e][1..] == [];
    } else {
      assert (entries + [e])[1..] == entries[1..] + [e];
      RenderAppend(entries[1..], e);
    }
  }

  /** Reads a text back as its line-break-terminated lines (a final line
      without a break still counts). */
  function SplitLines(text: string): seq<string>
    decreases |text|
  {
    if text == [] then []
    else
      var line := PrefixBefore(text, '\n');
      [line] + (if |line| < |text| then SplitLines(text[|line| + 1..]) else [])
  }

  /** Reading the result file back gives exactly the written domains when no
      domain holds a line break. */
  lemma {:induction false} SplitRender(entries: seq<string>)
    requires forall i :: 0 <= i < |entries| ==> '\n' !in entries[i]
    ensures SplitLines(Render(entries)) == entries
  {
    if entries != [] {
      var text := Render(entries);
      var rest := Render(entries[1..]);
      assert text == entries[0] + "\n" + rest;
      PrefixBeforeSeparator(entries[0], '\n', rest);
      assert text == entries[0] + ['\n'] + rest;
      var line := PrefixBefore(text, '\n');
      assert text[|line| + 1..] == rest;
      SplitRender(entries[1..]);
    }
  }

  /** The result file read back line by line is the result sequence, because
      scanned lines hold no line break and ProcessRecord introduces none. */
  lemma ResultFileReadsBack(lines: seq<string>)
    requires forall k :: 0 <= k < |lines| ==> '\n' !in lines[k]
    ensures SplitLines(Render(Results(lines))) == Results(lines)
  {
    forall i | 0 <= i < |Results(lines)|
      ensures '\n' !in Results(lines)[i]
    {
      ResultsSound(lines, i);
      var k :| 0 < k < |lines| && Qualifies(lines, k) && Results(lines)[i] == ProcessRecord(lines[k]);
      var d := ProcessRecord(lines[k]);
      RecordIsLoweredPrefix(lines[k]);
      ToLowerKeepsOthers(lines[k][..|d|], '\n');
    }
    SplitRender(Results(lines));
  }

  // ---------------------------------------------------------------------
  // ProcessOutput
  // ---------------------------------------------------------------------

  /** Scans the resolver output line by line and returns the text written to
      the result file. */
  method ProcessOutput(lines: seq<string>) returns (written: string)
    ensures written == Render(Results(lines))
  {
    var lineNum: nat := 0;
    written := [];
    var i := 0;
    while i < |lines|
      invariant 0 <= i <= |lines|
      invariant lineNum == CounterAfter(lines[..i])
      invariant written == Render(Results(lines[..i]))
    {
      var line := lines[i];
      ResultsStep(lines, i);
      if Contains(line, NxDomain) {
        lineNum := 0;
      }
      assert lineNum == CheckedCounter(CounterAfter(lines[..i]), line);
      if lineNum > 0 && lineNum <= AnswerLineNum {
        if Contains(line, NoError) {
          var domain := ProcessRecord(line);
          assert Emits(CounterAfter(lines[..i]), line);
          RenderAppend(Results(lines[..i]), domain);
          written := written + domain + "\n";
          assert written == Render(Results(lines[..i + 1]));
        } else {
          assert Results(lines[..i + 1]) == Results(lines[..i]);
        }
      } else {
        assert Results(lines[..i + 1]) == Results(lines[..i]);
      }
      lineNum := lineNum + 1;
      i := i + 1;
    }
    assert lines[..i] == lines;
  }
}
