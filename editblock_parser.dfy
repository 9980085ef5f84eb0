/**
  The fence state machine of CodeAutoMergeEditBlock.parse_whole_text: it cuts a model's reply into
  (path, content) entries, one per fenced block whose first inner line is a "##File:" header.
  The reply is split on "\n"; two counters say whether a block is open (`started`) and how many
  fences are nested inside it (`nested`); the lines of the open block are collected in `block`.
 */
module EditBlockParser {
  import opened Results
  import opened Strings
  import opened Seqs

  const FileHeader := "##File:"
  const DefaultFence := "```"

  datatype PathAndCode = PathAndCode(path: string, content: string)

  /** A block taken off the loop when its closing fence is read: its first line and the lines after it. */
  datatype ClosedBlock = ClosedBlock(header: string, body: seq<string>)

  /**
    The loop variables of parse_whole_text: start_marker_count, inline_start_marker_count and block;
    the output list is kept as the closed blocks, each of which EntryOf turns into an entry.
   */
  datatype ParseState = ParseState(started: int, nested: int, block: seq<string>, closed: seq<ClosedBlock>)

  const Initial := ParseState(0, 0, [], [])

  /** A fence that opens a block: it starts with fence0 and the next line exists and is a "##File:" header. */
  predicate StartMarker(fence0: string, lines: seq<string>, i: nat)
    requires i < |lines|
  {
    StartsWith(lines[i], fence0) && i + 1 < |lines| && StartsWith(lines[i + 1], FileHeader)
  }

  /** A fence with trailing text, such as "```python". */
  predicate InlineStartMarker(fence0: string, line: string)
  {
    StartsWith(line, fence0) && Trim(line) != fence0
  }

  /** A bare closing fence. */
  predicate EndMarker(fence1: string, line: string)
  {
    StartsWith(line, fence1) && Trim(line) == fence1
  }

  /** A line of the reply together with the three marker tests the loop makes on it. */
  datatype MarkedLine = MarkedLine(text: string, start: bool, inlineStart: bool, end: bool)

  function MarkAt(fence0: string, fence1: string, lines: seq<string>, i: nat): MarkedLine
    requires i < |lines|
  {
    MarkedLine(lines[i], StartMarker(fence0, lines, i), InlineStartMarker(fence0, lines[i]), EndMarker(fence1, lines[i]))
  }

  /** Every line of the reply, marked. */
  function Mark(fence0: string, fence1: string, lines: seq<string>): seq<MarkedLine>
  {
    seq(|lines|, i requires 0 <= i < |lines| => MarkAt(fence0, fence1, lines, i))
  }

  function Texts(ms: seq<MarkedLine>): seq<string>
  {
    seq(|ms|, k requires 0 <= k < |ms| => ms[k].text)
  }

  /** `s.split(":", 1)[1]`: the text after the first ':', or None where Python would raise IndexError. */
  function AfterFirstColon(s: string): (r: Option<string>)
    ensures r.Some? <==> ':' in s
  {
    if |s| == 0 then None
    else if s[0] == ':' then Some(s[1..])
    else AfterFirstColon(s[1..])
  }

  /** The text after the first ':' is what follows position k when k holds the first ':'. */
  lemma {:induction false} AfterColonAt(s: string, k: nat)
    requires k < |s| && s[k] == ':' && ':' !in s[..k]
    ensures AfterFirstColon(s) == Some(s[k + 1..])
  {
    if k > 0 {
      assert s[1..][..k - 1] == s[..k][1..];
      AfterColonAt(s[1..], k - 1);
    }
  }

  /** The first ':' of a header line is the one that ends "##File:". */
  lemma HeaderColon(s: string)
    requires StartsWith(s, FileHeader)
    ensures AfterFirstColon(s) == Some(s[|FileHeader|..])
  {
    assert s[..6] == FileHeader[..6];
    AfterColonAt(s, 6);
  }

  /**
    The entry emitted when a block closes: the stripped text after the first ':' of the first
    line, and the other lines joined with "\n". A first line without ':' would make Python raise
    IndexError; BlockStartsWithHeader shows that a collected block always starts with its header,
    so the None case below is never taken.
   */
  function EntryOf(b: ClosedBlock): (e: PathAndCode)
    ensures StartsWith(b.header, FileHeader) ==> e.path == Trim(b.header[|FileHeader|..])
  {
    var path := match AfterFirstColon(b.header) case Some(rest) => Trim(rest) case None => "";
    assert StartsWith(b.header, FileHeader) ==> path == Trim(b.header[|FileHeader|..]) by {
      if StartsWith(b.header, FileHeader) {
        HeaderColon(b.header);
      }
    }
    PathAndCode(path, Join(b.body, '\n'))
  }

  function Entries(bs: seq<ClosedBlock>): (r: seq<PathAndCode>)
    ensures |r| == |bs| && forall k :: 0 <= k < |bs| ==> r[k] == EntryOf(bs[k])
  {
    Map(EntryOf, bs)
  }

  /** One iteration of the loop of parse_whole_text, branch for branch. */
  function Step(m: MarkedLine, st: ParseState): ParseState
  {
    if m.start && st.started == 0 then
      st.(started := st.started + 1)
    else if (m.start || m.inlineStart) && st.started > 0 then
      st.(nested := st.nested + 1, block := st.block + [m.text])
    else if m.end && st.started == 1 && st.nested == 0 then
      if st.block != [] then
        st.(started := st.started - 1, block := [], closed := st.closed + [ClosedBlock(st.block[0], st.block[1..])])
      else
        st.(started := st.started - 1)
    else if m.end && st.nested > 0 then
      st.(nested := st.nested - 1, block := st.block + [m.text])
    else if st.started > 0 then
      st.(block := st.block + [m.text])
    else
      st
  }

  /** The marked lines fed through the loop in order, starting from st. */
  function Run(ms: seq<MarkedLine>, st: ParseState): ParseState
    decreases |ms|
  {
    if ms == [] then st else Step(ms[|ms| - 1], Run(ms[..|ms| - 1], st))
  }

  /** Step, branch by branch, as the loop of parse_whole_text takes its branches. */
  lemma StepCases(m: MarkedLine, st: ParseState)
    ensures var r := Step(m, st);
      var b1, b2, b3, b4 := m.start && st.started == 0, (m.start || m.inlineStart) && st.started > 0,
                            m.end && st.started == 1 && st.nested == 0, m.end && st.nested > 0;
      && (b1 ==> r == st.(started := st.started + 1))
      && (!b1 && b2 ==> r == st.(nested := st.nested + 1, block := st.block + [m.text]))
      && (!b1 && !b2 && b3 && st.block != [] ==>
            r == st.(started := st.started - 1, block := [], closed := st.closed + [ClosedBlock(st.block[0], st.block[1..])]))
      && (!b1 && !b2 && b3 && st.block == [] ==> r == st.(started := st.started - 1))
      && (!b1 && !b2 && !b3 && b4 ==> r == st.(nested := st.nested - 1, block := st.block + [m.text]))
      && (!b1 && !b2 && !b3 && !b4 && st.started > 0 ==> r == st.(block := st.block + [m.text]))
      && (!b1 && !b2 && !b3 && !b4 && st.started <= 0 ==> r == st)
  {
  }

  /** Reading one more line is one more step. */
  lemma RunLast(ms: seq<MarkedLine>, i: nat, st: ParseState)
    requires i < |ms|
    ensures Run(ms[..i + 1], st) == Step(ms[i], Run(ms[..i], st))
  {
    assert ms[..i + 1][..i] == ms[..i];
  }

  lemma RunOne(m: MarkedLine, st: ParseState)
    ensures Run([m], st) == Step(m, st)
  {
    assert [m][..0] == [];
  }

  lemma EntriesAppend(bs: seq<ClosedBlock>, b: ClosedBlock)
    ensures Entries(bs + [b]) == Entries(bs) + [EntryOf(b)]
  {
    MapAppend(EntryOf, bs, [b]);
  }

  /** parse_whole_text as a function of the reply. */
  function Parse(fence0: string, fence1: string, text: string): seq<PathAndCode>
  {
    Entries(Run(Mark(fence0, fence1, Split(text, '\n')), Initial).closed)
  }

  /** A start marker is always followed by a header line: that is what makes it a start marker. */
  ghost predicate HeaderFollowsStart(ms: seq<MarkedLine>)
  {
    forall i :: 0 <= i < |ms| && ms[i].start ==> i + 1 < |ms| && StartsWith(ms[i + 1].text, FileHeader)
  }

  lemma MarkFacts(fence0: string, fence1: string, lines: seq<string>)
    ensures HeaderFollowsStart(Mark(fence0, fence1, lines))
    ensures Texts(Mark(fence0, fence1, lines)) == lines
  {
    var ms := Mark(fence0, fence1, lines);
    forall i | 0 <= i < |ms| && ms[i].start
      ensures i + 1 < |ms| && StartsWith(ms[i + 1].text, FileHeader)
    {
      MarkedLineAt(fence0, fence1, lines, ms, i);
      MarkedLineAt(fence0, fence1, lines, ms, i + 1);
    }
    forall k | 0 <= k < |lines| ensures Texts(ms)[k] == lines[k] {
      MarkedLineAt(fence0, fence1, lines, ms, k);
    }
  }

  lemma MarkedLineAt(fence0: string, fence1: string, lines: seq<string>, ms: seq<MarkedLine>, i: nat)
    requires ms == Mark(fence0, fence1, lines) && i < |lines|
    ensures |ms| == |lines| && ms[i].text == lines[i] && ms[i].start == StartMarker(fence0, lines, i)
  {
    assert ms[i] == MarkAt(fence0, fence1, lines, i);
  }

  /**
    What holds of the loop variables before line i is read: start_marker_count is 0 or 1,
    inline_start_marker_count is never negative and is positive only inside a block, nothing is
    collected outside a block, and a collected block starts with its "##File:" header
    (just after the opening fence, the header is the next line to read).
   */
  ghost predicate Good(ms: seq<MarkedLine>, i: nat, st: ParseState)
  {
    && i <= |ms|
    && (st.started == 0 || st.started == 1)
    && st.nested >= 0
    && (st.nested > 0 ==> st.started == 1)
    && (st.started == 0 ==> st.block == [] && st.nested == 0)
    && (st.block != [] ==> StartsWith(st.block[0], FileHeader))
    && (st.started == 1 && st.block == [] ==> st.nested == 0 && i < |ms| && StartsWith(ms[i].text, FileHeader))
  }

  /** One iteration keeps the counters in range and a collected block headed by its "##File:" line. */
  lemma StepKeepsGood(ms: seq<MarkedLine>, i: nat, st: ParseState)
    requires HeaderFollowsStart(ms) && i < |ms| && Good(ms, i, st)
    ensures Good(ms, i + 1, Step(ms[i], st))
  {
  }

  /**
    Throughout the loop, start_marker_count is 0 or 1, inline_start_marker_count is never negative
    and is positive only while start_marker_count is 1, and an open block starts with its header.
   */
  lemma {:induction false} RunKeepsGood(ms: seq<MarkedLine>, i: nat)
    requires HeaderFollowsStart(ms) && i <= |ms|
    ensures Good(ms, i, Run(ms[..i], Initial))
  {
    if i > 0 {
      RunKeepsGood(ms, i - 1);
      assert ms[..i][..i - 1] == ms[..i - 1];
      StepKeepsGood(ms, i - 1, Run(ms[..i - 1], Initial));
    }
  }

  /** A collected block starts with its "##File:" line, so the text after the first ':' always exists. */
  lemma BlockStartsWithHeader(ms: seq<MarkedLine>, i: nat)
    requires HeaderFollowsStart(ms) && i <= |ms|
    ensures var st := Run(ms[..i], Initial);
      st.block != [] ==> StartsWith(st.block[0], FileHeader) && AfterFirstColon(st.block[0]).Some?
  {
    RunKeepsGood(ms, i);
    var st := Run(ms[..i], Initial);
    if st.block != [] {
      HeaderColon(st.block[0]);
    }
  }

  /** parse_whole_text: one pass over the lines, updating the two counters and the block. */
  method ParseWholeText(fence0: string, fence1: string, text: string) returns (pathAndCodeList: seq<PathAndCode>)
    ensures pathAndCodeList == Parse(fence0, fence1, text)
  {
    var lines := Split(text, '\n');
    ghost var marked := Mark(fence0, fence1, lines);
    MarkFacts(fence0, fence1, lines);
    var linesLen := |lines|;
    var startMarkerCount := 0;
    var inlineStartMarkerCount := 0;
    var block: seq<string> := [];
    pathAndCodeList := [];
    var index := 0;
    while index < linesLen
      invariant index <= linesLen
      invariant Tracks(Run(marked[..index], Initial), startMarkerCount, inlineStartMarkerCount, block, pathAndCodeList)
    {
      startMarkerCount, inlineStartMarkerCount, block, pathAndCodeList :=
        ReadLine(fence0, fence1, lines, index, startMarkerCount, inlineStartMarkerCount, block, pathAndCodeList);
      index := index + 1;
    }
    assert marked[..index] == marked;
  }

  /** The loop variables of parse_whole_text hold the state `st`. */
  predicate Tracks(st: ParseState, startMarkerCount: int, inlineStartMarkerCount: int, block: seq<string>, pathAndCodeList: seq<PathAndCode>)
  {
    st.started == startMarkerCount && st.nested == inlineStartMarkerCount && st.block == block
    && pathAndCodeList == Entries(st.closed)
  }

  /**
    The body of the loop of parse_whole_text: reading line `index` takes the loop variables from
    the state after the lines before it to the state after this line.
   */
  method ReadLine(fence0: string, fence1: string, lines: seq<string>, index: nat,
                  startMarkerCount: int, inlineStartMarkerCount: int, block: seq<string>, pathAndCodeList: seq<PathAndCode>)
    returns (startMarkerCount': int, inlineStartMarkerCount': int, block': seq<string>, pathAndCodeList': seq<PathAndCode>)
    requires index < |lines|
    requires Tracks(Run(Mark(fence0, fence1, lines)[..index], Initial), startMarkerCount, inlineStartMarkerCount, block, pathAndCodeList)
    ensures Tracks(Run(Mark(fence0, fence1, lines)[..index + 1], Initial), startMarkerCount', inlineStartMarkerCount', block', pathAndCodeList')
  {
    ghost var marked := Mark(fence0, fence1, lines);
    ghost var st := Run(marked[..index], Initial);
    startMarkerCount', inlineStartMarkerCount', block', pathAndCodeList' := startMarkerCount, inlineStartMarkerCount, block, pathAndCodeList;
    var line := lines[index];
    var isStart := StartMarker(fence0, lines, index);
    var isInlineStart := InlineStartMarker(fence0, line);
    var isEnd := EndMarker(fence1, line);
    ghost var m := MarkedLine(line, isStart, isInlineStart, isEnd);
    assert Run(marked[..index + 1], Initial) == Step(m, st) by {
      assert marked[index] == m;
      RunLast(marked, index, Initial);
    }
    ghost var next := Step(m, st);
    if isStart && startMarkerCount == 0 {
      assert next == st.(started := st.started + 1) by { StepCases(m, st); }
      startMarkerCount' := startMarkerCount + 1;
    } else if (isStart || isInlineStart) && startMarkerCount > 0 {
      assert next == st.(nested := st.nested + 1, block := st.block + [line]) by { StepCases(m, st); }
      inlineStartMarkerCount' := inlineStartMarkerCount + 1;
      block' := block + [line];
    } else if isEnd && startMarkerCount == 1 && inlineStartMarkerCount == 0 {
      startMarkerCount' := startMarkerCount - 1;
      if block != [] {
        var closedBlock := ClosedBlock(block[0], block[1..]);
        assert next == st.(started := st.started - 1, block := [], closed := st.closed + [closedBlock]) by { StepCases(m, st); }
        assert AfterFirstColon(block[0]).Some? by {
          MarkFacts(fence0, fence1, lines);
          BlockStartsWithHeader(marked, index);
        }
        var path := Trim(AfterFirstColon(block[0]).value);
        var content := Join(block[1..], '\n');
        assert Entries(next.closed) == pathAndCodeList + [PathAndCode(path, content)] by {
          EntriesAppend(st.closed, closedBlock);
        }
        block' := [];
        pathAndCodeList' := pathAndCodeList + [PathAndCode(path, content)];
      } else {
        assert next == st.(started := st.started - 1) by { StepCases(m, st); }
      }
    } else if isEnd && inlineStartMarkerCount > 0 {
      assert next == st.(nested := st.nested - 1, block := st.block + [line]) by { StepCases(m, st); }
      inlineStartMarkerCount' := inlineStartMarkerCount - 1;
      block' := block + [line];
    } else if startMarkerCount > 0 {
      assert next == st.(block := st.block + [line]) by { StepCases(m, st); }
      block' := block + [line];
    } else {
      assert next == st by { StepCases(m, st); }
    }
  }

  /** Reading x and then y is reading x + y. */
  lemma {:induction false} RunConcat(x: seq<MarkedLine>, y: seq<MarkedLine>, st: ParseState)
    ensures Run(x + y, st) == Run(y, Run(x, st))
    decreases |y|
  {
    if y == [] {
      assert x + y == x;
    } else {
      RunConcat(x, y[..|y| - 1], st);
      assert (x + y)[..|x + y| - 1] == x + y[..|y| - 1];
    }
  }

  /** Blocks are emitted in the order their closing fences are read: the list is only appended to. */
  lemma {:induction false} EntriesOnlyGrow(ms: seq<MarkedLine>, st: ParseState)
    ensures var r := Run(ms, st);
      |st.closed| <= |r.closed| && r.closed[..|st.closed|] == st.closed
    decreases |ms|
  {
    if ms != [] {
      EntriesOnlyGrow(ms[..|ms| - 1], st);
    }
  }

  /** No block open, nothing nested, nothing collected. */
  predicate Closed(st: ParseState)
  {
    st.started == 0 && st.nested == 0 && st.block == []
  }

  /** Outside a block nothing is collected or emitted, and a block opens exactly on a start marker. */
  lemma StepOutsideBlock(m: MarkedLine, st: ParseState)
    requires Closed(st)
    ensures var r := Step(m, st);
      && r.block == [] && r.nested == 0 && r.closed == st.closed
      && (r.started == 1 <==> m.start)
  {
  }

  /** A line that passes none of the three marker tests. */
  predicate Unmarked(m: MarkedLine)
  {
    !m.start && !m.inlineStart && !m.end
  }

  /** Inside a block, unmarked lines are collected verbatim. */
  lemma {:induction false} RunUnmarked(ms: seq<MarkedLine>, st: ParseState)
    requires st.started > 0
    requires forall k :: 0 <= k < |ms| ==> Unmarked(ms[k])
    ensures Run(ms, st) == st.(block := st.block + Texts(ms))
    decreases |ms|
  {
    if ms != [] {
      var init := ms[..|ms| - 1];
      RunUnmarked(init, st);
      assert Texts(ms) == Texts(init) + [ms[|ms| - 1].text];
    }
  }

  /** Inside a block, a fence with trailing text, unmarked lines and a bare closing fence are kept verbatim. */
  lemma NestedMarksKept(open: MarkedLine, middle: seq<MarkedLine>, close: MarkedLine, st: ParseState)
    requires st.started == 1 && st.nested >= 0
    requires open.inlineStart
    requires forall k :: 0 <= k < |middle| ==> Unmarked(middle[k])
    requires close.end && !close.start && !close.inlineStart
    ensures Run([open] + middle + [close], st) == st.(block := st.block + [open.text] + Texts(middle) + [close.text])
  {
    RunOne(open, st);
    var s1 := Run([open], st);
    RunConcat([open], middle, st);
    RunUnmarked(middle, s1);
    RunConcat([open] + middle, [close], st);
    RunOne(close, Run([open] + middle, st));
  }

  /** A line that is no fence of either kind. */
  predicate Plain(fence0: string, fence1: string, line: string)
  {
    !StartsWith(line, fence0) && !StartsWith(line, fence1)
  }

  lemma SliceEnds<T>(s: seq<T>, i: nat, j: nat)
    requires i < j < |s|
    ensures s[i..j + 1] == [s[i]] + s[i + 1..j] + [s[j]]
  {
  }

  lemma TextsSlice(ms: seq<MarkedLine>, a: nat, b: nat)
    requires a <= b <= |ms|
    ensures Texts(ms[a..b]) == Texts(ms)[a..b]
  {
  }

  /** NestedMarksKept, for lines i to j of a marked reply. */
  lemma NestedSliceKept(ms: seq<MarkedLine>, i: nat, j: nat, st: ParseState)
    requires i < j < |ms| && st.started == 1 && st.nested >= 0
    requires ms[i].inlineStart
    requires forall k :: i < k < j ==> Unmarked(ms[k])
    requires ms[j].end && !ms[j].start && !ms[j].inlineStart
    ensures Run(ms[i..j + 1], st) == st.(block := st.block + Texts(ms)[i..j + 1])
  {
    SliceEnds(ms, i, j);
    var middle := ms[i + 1..j];
    forall k | 0 <= k < |middle| ensures Unmarked(middle[k]) {
      assert middle[k] == ms[i + 1 + k];
    }
    NestedMarksKept(ms[i], middle, ms[j], st);
    TextsSlice(ms, i + 1, j);
    SliceEnds(Texts(ms), i, j);
  }

  /** How the lines of a nested fence are marked. */
  lemma NestedMarks(fence0: string, fence1: string, lines: seq<string>, i: nat, j: nat)
    requires i < j < |lines|
    requires InlineStartMarker(fence0, lines[i])
    requires forall k :: i < k < j ==> Plain(fence0, fence1, lines[k])
    requires EndMarker(fence1, lines[j]) && !StartMarker(fence0, lines, j) && !InlineStartMarker(fence0, lines[j])
    ensures var ms := Mark(fence0, fence1, lines);
      && ms[i].inlineStart
      && (forall k :: i < k < j ==> Unmarked(ms[k]))
      && ms[j].end && !ms[j].start && !ms[j].inlineStart
  {
  }

  /**
    Inside an open block, a fence with trailing text (such as "```python"), plain lines and then a
    bare closing fence are all kept verbatim, and the block stays open with its nesting depth as before.
   */
  lemma NestedFenceKept(fence0: string, fence1: string, lines: seq<string>, i: nat, j: nat, st: ParseState)
    requires i < j < |lines| && st.started == 1 && st.nested >= 0
    requires InlineStartMarker(fence0, lines[i])
    requires forall k :: i < k < j ==> Plain(fence0, fence1, lines[k])
    requires EndMarker(fence1, lines[j]) && !StartMarker(fence0, lines, j) && !InlineStartMarker(fence0, lines[j])
    ensures Run(Mark(fence0, fence1, lines)[i..j + 1], st) == st.(block := st.block + lines[i..j + 1])
  {
    NestedMarks(fence0, fence1, lines, i, j);
    MarkFacts(fence0, fence1, lines);
    NestedSliceKept(Mark(fence0, fence1, lines), i, j, st);
  }

  /** Without a bare closing fence, no entry is emitted; a block still open at the end emits nothing. */
  lemma {:induction false} NoCloseNoEntry(ms: seq<MarkedLine>, st: ParseState)
    requires forall k :: 0 <= k < |ms| ==> !ms[k].end
    ensures Run(ms, st).closed == st.closed
    decreases |ms|
  {
    if ms != [] {
      NoCloseNoEntry(ms[..|ms| - 1], st);
    }
  }

  /**
    A block still open when the lines run out emits nothing, whatever nested fence pairs it
    holds: while start_marker_count stays 1, no step appends to path_and_code_list.
   */
  lemma {:induction false} OpenBlockNoEntry(ms: seq<MarkedLine>, st: ParseState)
    requires forall k :: 0 <= k <= |ms| ==> Run(ms[..k], st).started == 1
    ensures Run(ms, st).closed == st.closed
    decreases |ms|
  {
    if ms != [] {
      var init := ms[..|ms| - 1];
      forall k | 0 <= k <= |init|
        ensures Run(init[..k], st).started == 1
      {
        assert init[..k] == ms[..k];
      }
      OpenBlockNoEntry(init, st);
      assert ms[..|ms|] == ms;
      StepCases(ms[|ms| - 1], Run(init, st));
    }
  }

  /** The path of an entry is the stripped text after "##File:" on a header line h of the reply. */
  ghost predicate FromHeader(lines: seq<string>, e: PathAndCode)
  {
    exists h :: h in lines && StartsWith(h, FileHeader) && e.path == Trim(h[|FileHeader|..])
  }

  /** Every closed block and the open block start with a "##File:" line of the reply. */
  lemma {:induction false} HeadersComeFromReply(ms: seq<MarkedLine>, i: nat)
    requires HeaderFollowsStart(ms) && i <= |ms|
    ensures var r := Run(ms[..i], Initial);
      && (r.block != [] ==> r.block[0] in Texts(ms))
      && forall b :: b in r.closed ==> b.header in Texts(ms) && StartsWith(b.header, FileHeader)
  {
    if 0 < i {
      HeadersComeFromReply(ms, i - 1);
      RunKeepsGood(ms, i - 1);
      assert ms[..i][..i - 1] == ms[..i - 1];
      assert Texts(ms)[i - 1] == ms[i - 1].text;
    }
  }

  lemma EntriesFromHeaders(lines: seq<string>, bs: seq<ClosedBlock>)
    requires forall b :: b in bs ==> b.header in lines && StartsWith(b.header, FileHeader)
    ensures forall e :: e in Entries(bs) ==> FromHeader(lines, e)
  {
    forall e | e in Entries(bs) ensures FromHeader(lines, e) {
      var k :| 0 <= k < |bs| && Entries(bs)[k] == e;
      assert bs[k] in bs;
    }
  }

  /** Every path parse_whole_text returns is the stripped text after "##File:" on some line of the reply. */
  lemma ParsedPathsFromHeaders(fence0: string, fence1: string, text: string)
    ensures forall e :: e in Parse(fence0, fence1, text) ==> FromHeader(Split(text, '\n'), e)
  {
    var lines := Split(text, '\n');
    var ms := Mark(fence0, fence1, lines);
    MarkFacts(fence0, fence1, lines);
    HeadersComeFromReply(ms, |ms|);
    assert ms[..|ms|] == ms;
    EntriesFromHeaders(lines, Run(ms, Initial).closed);
  }

  /** The lines a well-formed entry is written as, between default fences. */
  function BlockLines(e: PathAndCode): seq<string>
  {
    [DefaultFence, FileHeader + " " + e.path] + Split(e.content, '\n') + [DefaultFence]
  }

  function ReplyLines(es: seq<PathAndCode>): seq<string>
  {
    if es == [] then [] else BlockLines(es[0]) + ReplyLines(es[1..])
  }

  /** A reply that carries the given entries, one fenced block each. */
  function Reply(es: seq<PathAndCode>): string
  {
    Join(ReplyLines(es), '\n')
  }

  /** An entry that survives being written out: a stripped one-line path, no content line that looks like a fence. */
  predicate Writable(e: PathAndCode)
  {
    && Trimmed(e.path)
    && '\n' !in e.path
    && forall line :: line in Split(e.content, '\n') ==> !StartsWith(line, DefaultFence)
  }

  lemma DefaultFenceFacts()
    ensures Trim(DefaultFence) == DefaultFence
    ensures !StartsWith(DefaultFence, FileHeader)
  {
    assert TrimStart(DefaultFence) == DefaultFence;
    assert TrimEnd(DefaultFence) == DefaultFence;
    assert DefaultFence[0] != FileHeader[0];
  }

  function UnmarkedLines(lines: seq<string>): seq<MarkedLine>
  {
    seq(|lines|, k requires 0 <= k < |lines| => MarkedLine(lines[k], false, false, false))
  }

  /** How the lines of a written block are marked. */
  function BlockMarks(e: PathAndCode): seq<MarkedLine>
  {
    [MarkedLine(DefaultFence, true, false, true), MarkedLine(FileHeader + " " + e.path, false, false, false)]
    + UnmarkedLines(Split(e.content, '\n'))
    + [MarkedLine(DefaultFence, false, false, true)]
  }

  function ReplyMarks(es: seq<PathAndCode>): seq<MarkedLine>
  {
    if es == [] then [] else BlockMarks(es[0]) + ReplyMarks(es[1..])
  }

  /** Marking is line by line, except that a start marker looks at the next line. */
  lemma MarkConcat(fence0: string, fence1: string, x: seq<string>, y: seq<string>)
    requires y == [] || !StartsWith(y[0], FileHeader)
    ensures Mark(fence0, fence1, x + y) == Mark(fence0, fence1, x) + Mark(fence0, fence1, y)
  {
    var xy := x + y;
    forall k | 0 <= k < |xy|
      ensures Mark(fence0, fence1, xy)[k] == (Mark(fence0, fence1, x) + Mark(fence0, fence1, y))[k]
    {
      if k < |x| {
        assert xy[k] == x[k];
        if k + 1 < |x| {
          assert xy[k + 1] == x[k + 1];
        } else if k + 1 < |xy| {
          assert xy[k + 1] == y[0];
        }
      } else {
        assert xy[k] == y[k - |x|];
        if k + 1 < |xy| {
          assert xy[k + 1] == y[k - |x| + 1];
        }
      }
    }
  }

  /** A bare default fence is an end marker and no inline start; it opens a block when a header follows. */
  lemma MarkOfFence(lines: seq<string>, k: nat)
    requires k < |lines| && lines[k] == DefaultFence
    ensures Mark(DefaultFence, DefaultFence, lines)[k]
         == MarkedLine(DefaultFence, k + 1 < |lines| && StartsWith(lines[k + 1], FileHeader), false, true)
  {
    DefaultFenceFacts();
    assert DefaultFence[..|DefaultFence|] == DefaultFence;
    assert Mark(DefaultFence, DefaultFence, lines)[k] == MarkAt(DefaultFence, DefaultFence, lines, k);
  }

  /** A line that does not start with the default fence is no marker of any kind. */
  lemma MarkOfPlain(lines: seq<string>, k: nat)
    requires k < |lines| && !StartsWith(lines[k], DefaultFence)
    ensures Mark(DefaultFence, DefaultFence, lines)[k] == MarkedLine(lines[k], false, false, false)
  {
    assert Mark(DefaultFence, DefaultFence, lines)[k] == MarkAt(DefaultFence, DefaultFence, lines, k);
  }

  /** Line k of a fenced block with the given header and body lines, marked. */
  lemma BlockLineMark(header: string, body: seq<string>, k: nat)
    requires StartsWith(header, FileHeader) && !StartsWith(header, DefaultFence)
    requires forall line :: line in body ==> !StartsWith(line, DefaultFence)
    requires k < |body| + 3
    ensures var lines := [DefaultFence, header] + body + [DefaultFence];
      Mark(DefaultFence, DefaultFence, lines)[k]
      == ([MarkedLine(DefaultFence, true, false, true), MarkedLine(header, false, false, false)]
          + UnmarkedLines(body) + [MarkedLine(DefaultFence, false, false, true)])[k]
  {
    var lines := [DefaultFence, header] + body + [DefaultFence];
    if k == 0 {
      assert lines[0] == DefaultFence && lines[1] == header;
      MarkOfFence(lines, 0);
    } else if k == 1 {
      assert lines[1] == header;
      MarkOfPlain(lines, 1);
    } else if k < |lines| - 1 {
      assert lines[k] == body[k - 2];
      assert body[k - 2] in body;
      MarkOfPlain(lines, k);
    } else {
      assert lines[k] == DefaultFence;
      MarkOfFence(lines, k);
    }
  }

  lemma MarkBlock(e: PathAndCode)
    requires Writable(e)
    ensures Mark(DefaultFence, DefaultFence, BlockLines(e)) == BlockMarks(e)
  {
    var header := FileHeader + " " + e.path;
    var body := Split(e.content, '\n');
    assert StartsWith(header, FileHeader) by {
      assert header[..|FileHeader|] == FileHeader;
    }
    assert !StartsWith(header, DefaultFence) by {
      assert header[0] != DefaultFence[0];
    }
    forall k | 0 <= k < |BlockLines(e)|
      ensures Mark(DefaultFence, DefaultFence, BlockLines(e))[k] == BlockMarks(e)[k]
    {
      BlockLineMark(header, body, k);
    }
  }

  lemma {:induction false} MarkReply(es: seq<PathAndCode>)
    requires forall k :: 0 <= k < |es| ==> Writable(es[k])
    ensures Mark(DefaultFence, DefaultFence, ReplyLines(es)) == ReplyMarks(es)
  {
    if es != [] {
      MarkReply(es[1..]);
      MarkBlock(es[0]);
      var rest := ReplyLines(es[1..]);
      if rest != [] {
        assert rest[0] == DefaultFence;
        DefaultFenceFacts();
      }
      MarkConcat(DefaultFence, DefaultFence, BlockLines(es[0]), rest);
    }
  }

  /** The header and content lines of a writable entry make that entry again. */
  lemma EntryOfWritten(e: PathAndCode)
    requires Writable(e)
    ensures StartsWith(FileHeader + " " + e.path, FileHeader)
    ensures EntryOf(Written(e)) == e
  {
    var header := FileHeader + " " + e.path;
    assert header[|FileHeader|..] == " " + e.path;
    TrimSpaceThen(e.path);
    JoinSplit(e.content, '\n');
  }

  /** The block a writable entry is read back as. */
  function Written(e: PathAndCode): ClosedBlock
  {
    ClosedBlock(FileHeader + " " + e.path, Split(e.content, '\n'))
  }

  /** One written block, read from a closed state, closes exactly one block and leaves the state closed. */
  lemma RunBlock(e: PathAndCode, st: ParseState)
    requires Closed(st)
    ensures Run(BlockMarks(e), st) == st.(closed := st.closed + [Written(e)])
  {
    var open := MarkedLine(DefaultFence, true, false, true);
    var head := MarkedLine(FileHeader + " " + e.path, false, false, false);
    var close := MarkedLine(DefaultFence, false, false, true);
    var body := UnmarkedLines(Split(e.content, '\n'));
    RunOne(open, st);
    RunConcat([open], [head], st);
    RunOne(head, Run([open], st));
    assert [open] + [head] == [open, head];
    var s2 := Run([open, head], st);
    RunConcat([open, head], body, st);
    RunUnmarked(body, s2);
    assert Texts(body) == Split(e.content, '\n');
    RunConcat([open, head] + body, [close], st);
    RunOne(close, Run([open, head] + body, st));
    assert BlockMarks(e) == [open, head] + body + [close];
  }

  function WrittenAll(es: seq<PathAndCode>): (r: seq<ClosedBlock>)
    ensures |r| == |es| && forall k :: 0 <= k < |es| ==> r[k] == Written(es[k])
  {
    Map(Written, es)
  }

  /** A written reply, read from a closed state, closes one block per entry, in order. */
  lemma {:induction false} RunReply(es: seq<PathAndCode>, st: ParseState)
    requires Closed(st)
    ensures Run(ReplyMarks(es), st) == st.(closed := st.closed + WrittenAll(es))
  {
    if es == [] {
      assert st.closed + WrittenAll(es) == st.closed;
    } else {
      var mid := st.(closed := st.closed + [Written(es[0])]);
      RunBlock(es[0], st);
      RunReply(es[1..], mid);
      WrittenCons(es, st.closed);
      RunThrough(BlockMarks(es[0]), ReplyMarks(es[1..]), ReplyMarks(es), st, mid,
                 st.(closed := st.closed + WrittenAll(es)));
    }
  }

  lemma WrittenCons(es: seq<PathAndCode>, closed: seq<ClosedBlock>)
    requires es != []
    ensures closed + [Written(es[0])] + WrittenAll(es[1..]) == closed + WrittenAll(es)
  {
    assert es == [es[0]] + es[1..];
    MapAppend(Written, [es[0]], es[1..]);
  }

  /** Running two stretches of lines one after the other, with the intermediate state named. */
  lemma RunThrough(x: seq<MarkedLine>, y: seq<MarkedLine>, xy: seq<MarkedLine>, st: ParseState, mid: ParseState, fin: ParseState)
    requires xy == x + y && Run(x, st) == mid && Run(y, mid) == fin
    ensures Run(xy, st) == fin
  {
    RunConcat(x, y, st);
  }

  lemma {:induction false} ReplyLinesHaveNoNewline(es: seq<PathAndCode>)
    requires forall k :: 0 <= k < |es| ==> Writable(es[k])
    ensures forall k :: 0 <= k < |ReplyLines(es)| ==> '\n' !in ReplyLines(es)[k]
  {
    if es != [] {
      ReplyLinesHaveNoNewline(es[1..]);
      var blk := BlockLines(es[0]);
      assert '\n' !in FileHeader + " " + es[0].path;
      forall k | 0 <= k < |ReplyLines(es)| ensures '\n' !in ReplyLines(es)[k] {
        if k >= |blk| {
          assert ReplyLines(es)[k] == ReplyLines(es[1..])[k - |blk|];
        } else {
          assert ReplyLines(es)[k] == blk[k];
        }
      }
    }
  }

  lemma EntriesWritten(es: seq<PathAndCode>)
    requires forall k :: 0 <= k < |es| ==> Writable(es[k])
    ensures Entries(WrittenAll(es)) == es
  {
    forall k | 0 <= k < |es| ensures Entries(WrittenAll(es))[k] == es[k] {
      EntryOfWritten(es[k]);
    }
  }

  /** An empty reply has one empty line, which is outside any block. */
  lemma ParseEmpty()
    ensures Parse(DefaultFence, DefaultFence, "") == []
  {
    var lines := Split("", '\n');
    assert lines == [""];
    var ms := Mark(DefaultFence, DefaultFence, lines);
    assert ms[0] == MarkedLine("", false, false, false);
    RunLast(ms, 0, Initial);
    assert ms[..1] == ms;
  }

  /** Parsing a reply written from well-formed entries gives back exactly those entries, in order. */
  lemma ParseReply(es: seq<PathAndCode>)
    requires forall k :: 0 <= k < |es| ==> Writable(es[k])
    ensures Parse(DefaultFence, DefaultFence, Reply(es)) == es
  {
    if es == [] {
      ParseEmpty();
    } else {
      ReplyLinesHaveNoNewline(es);
      SplitJoin(ReplyLines(es), '\n');
      MarkReply(es);
      RunReply(es, Initial);
      EntriesWritten(es);
      assert Initial.closed + WrittenAll(es) == WrittenAll(es);
      ParseChain(Reply(es), ReplyLines(es), ReplyMarks(es), Initial.(closed := Initial.closed + WrittenAll(es)), es);
    }
  }

  lemma ParseChain(text: string, lines: seq<string>, ms: seq<MarkedLine>, st: ParseState, es: seq<PathAndCode>)
    requires Split(text, '\n') == lines && Mark(DefaultFence, DefaultFence, lines) == ms
    requires Run(ms, Initial) == st && Entries(st.closed) == es
    ensures Parse(DefaultFence, DefaultFence, text) == es
  {
  }
}
