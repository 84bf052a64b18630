/** The zebra-crossing simulation: a scan down the centre column of a grey edge image
    that counts the dark stripes it crosses and marks the column in a colour copy of the
    image (dark rows green, stripes of at least twenty rows red, bright rows blue). */
module StripeDetector {
  import opened Wrappers
  import opened Bytes

  /** The scanned column, 640 // 2. */
  const CentreCol: nat := 640 / 2
  /** A grey level at or below this is dark. */
  const DarkLimit: nat := 5
  /** A grey level at or above this is bright. */
  const BrightLimit: nat := 100
  /** The fewest consecutive dark rows that make a stripe. */
  const MinStripeLength: nat := 20

  predicate IsDark(v: uint8)
  {
    v as nat <= DarkLimit
  }

  predicate IsBright(v: uint8)
  {
    v as nat >= BrightLimit
  }

  /** One pixel of the colour image, in OpenCV's blue, green, red order. */
  datatype Bgr = Bgr(b: uint8, g: uint8, r: uint8)

  const Green := Bgr(0, 255, 0)
  const Red := Bgr(0, 0, 255)
  const Blue := Bgr(255, 0, 0)

  /** A grey image: rows of one common width that reaches past the centre column. */
  predicate IsImage(grey: seq<seq<uint8>>, width: nat)
  {
    CentreCol < width && forall r :: 0 <= r < |grey| ==> |grey[r]| == width
  }

  /** The grey levels down the centre column. */
  function Column(grey: seq<seq<uint8>>, width: nat): (col: seq<uint8>)
    requires IsImage(grey, width)
    ensures |col| == |grey| && forall r :: 0 <= r < |grey| ==> col[r] == grey[r][CentreCol]
  {
    seq(|grey|, r requires 0 <= r < |grey| => grey[r][CentreCol])
  }

  // ---------------------------------------------------------------------------------
  // Dark runs of the column

  /** The first row of the dark run that row i closes or continues: walk up while the
      row above is dark. */
  function RunStart(col: seq<uint8>, i: nat): (s: nat)
    requires i < |col|
    ensures s <= i
    decreases i
  {
    if i > 0 && IsDark(col[i - 1]) then RunStart(col, i - 1) else i
  }

  /** The first row at or after i that is not dark (|col| when there is none). */
  function RunEnd(col: seq<uint8>, i: nat): (e: nat)
    requires i <= |col|
    ensures i <= e <= |col|
    ensures i < |col| && IsDark(col[i]) ==> i < e
    decreases |col| - i
  {
    if i < |col| && IsDark(col[i]) then RunEnd(col, i + 1) else i
  }

  /** The length of the maximal dark run through row r. */
  function RunLength(col: seq<uint8>, r: nat): nat
    requires r < |col|
  {
    RunEnd(col, r) - RunStart(col, r)
  }

  /** The rows lo .. hi - 1 are all dark. */
  predicate AllDark(col: seq<uint8>, lo: nat, hi: nat)
    requires lo <= hi <= |col|
  {
    forall k :: lo <= k < hi ==> IsDark(col[k])
  }

  /** Row i starts a run: it is the first row, or the row above is not dark. */
  predicate RunBoundary(col: seq<uint8>, i: nat)
    requires i <= |col|
  {
    i == 0 || !IsDark(col[i - 1])
  }

  /** RunStart finds the top of the run: every row from it down to i is dark (when row i
      is), and the row above it is not. */
  lemma {:induction false} RunStartFacts(col: seq<uint8>, i: nat)
    requires i < |col| && IsDark(col[i])
    ensures AllDark(col, RunStart(col, i), i + 1)
    ensures RunBoundary(col, RunStart(col, i))
    decreases i
  {
    if i > 0 && IsDark(col[i - 1]) {
      RunStartFacts(col, i - 1);
    }
  }

  /** RunEnd finds the bottom of the run: every row from i is dark up to it, and it is
      the last row or not dark. */
  lemma {:induction false} RunEndFacts(col: seq<uint8>, i: nat)
    requires i <= |col|
    ensures AllDark(col, i, RunEnd(col, i))
    ensures RunEnd(col, i) == |col| || !IsDark(col[RunEnd(col, i)])
    decreases |col| - i
  {
    if i < |col| && IsDark(col[i]) {
      RunEndFacts(col, i + 1);
    }
  }

  /** Inside a run that starts at s, every row has s as its run start. */
  lemma {:induction false} RunStartWithin(col: seq<uint8>, s: nat, j: nat)
    requires s <= j < |col| && RunBoundary(col, s) && AllDark(col, s, j + 1)
    ensures RunStart(col, j) == s
    decreases j
  {
    if j > s {
      RunStartWithin(col, s, j - 1);
    }
  }

  /** Inside a run that stops at e, every row has e as its run end. */
  lemma {:induction false} RunEndWithin(col: seq<uint8>, j: nat, e: nat)
    requires j <= e <= |col| && AllDark(col, j, e) && (e == |col| || !IsDark(col[e]))
    ensures RunEnd(col, j) == e
    decreases e - j
  {
    if j < e {
      RunEndWithin(col, j + 1, e);
    }
  }

  // ---------------------------------------------------------------------------------
  // Counting stripes

  /** Row i closes a stripe: it is not dark, and the dark run just above it has at least
      MinStripeLength rows. This is the test the scan applies on a non-dark row. */
  predicate ClosesStripe(col: seq<uint8>, i: nat)
    requires i < |col|
  {
    && !IsDark(col[i])
    && i > 0 && IsDark(col[i - 1])
    && i - RunStart(col, i - 1) >= MinStripeLength
  }

  /** How many of the rows 0 .. n - 1 close a stripe. */
  function StripesClosed(col: seq<uint8>, n: nat): nat
    requires n <= |col|
  {
    if n == 0 then 0 else StripesClosed(col, n - 1) + (if ClosesStripe(col, n - 1) then 1 else 0)
  }

  /** A maximal dark run: rows start .. end - 1. */
  datatype Run = Run(start: nat, end: nat)

  /** The maximal dark runs from row i on, top to bottom. */
  function RunsFrom(col: seq<uint8>, i: nat): seq<Run>
    requires i <= |col|
    decreases |col| - i
  {
    if i == |col| then []
    else if !IsDark(col[i]) then RunsFrom(col, i + 1)
    else [Run(i, RunEnd(col, i))] + RunsFrom(col, RunEnd(col, i))
  }

  /** How many runs are stripes that a non-dark row ends before row n. */
  function CountStripes(runs: seq<Run>, n: nat): nat
  {
    if runs == [] then 0
    else
      var counted := runs[0].end < n && runs[0].end - runs[0].start >= MinStripeLength;
      (if counted then 1 else 0) + CountStripes(runs[1..], n)
  }

  /** The number of stripes in the column: maximal dark runs of at least MinStripeLength
      rows that a non-dark row follows. */
  function NumStripes(col: seq<uint8>): nat
  {
    CountStripes(RunsFrom(col, 0), |col|)
  }

  /** The runs from a boundary row are maximal dark runs, in order, below that row. */
  lemma {:induction false} RunsMaximal(col: seq<uint8>, i: nat)
    requires i <= |col| && RunBoundary(col, i)
    ensures forall k :: 0 <= k < |RunsFrom(col, i)| ==>
      var run := RunsFrom(col, i)[k];
      && i <= run.start < run.end <= |col|
      && RunBoundary(col, run.start) && AllDark(col, run.start, run.end)
      && (run.end == |col| || !IsDark(col[run.end]))
    ensures forall k :: 0 <= k < |RunsFrom(col, i)| - 1 ==> RunsFrom(col, i)[k].end < RunsFrom(col, i)[k + 1].start
    decreases |col| - i
  {
    if i < |col| {
      if !IsDark(col[i]) {
        RunsMaximal(col, i + 1);
      } else {
        var e := RunEnd(col, i);
        RunEndFacts(col, i);
        assert RunsFrom(col, i)[1..] == RunsFrom(col, e);
        if e < |col| {
          RunsMaximal(col, e + 1);
          assert RunsFrom(col, e) == RunsFrom(col, e + 1);
        }
      }
    }
  }

  /** Every dark row lies in one of the runs from a boundary row above it. */
  lemma {:induction false} RunsCover(col: seq<uint8>, i: nat, r: nat)
    requires i <= r < |col| && RunBoundary(col, i) && IsDark(col[r])
    ensures exists k :: 0 <= k < |RunsFrom(col, i)| && RunsFrom(col, i)[k].start <= r < RunsFrom(col, i)[k].end
    decreases |col| - i
  {
    if !IsDark(col[i]) {
      RunsCover(col, i + 1, r);
      assert RunsFrom(col, i) == RunsFrom(col, i + 1);
    } else {
      var e := RunEnd(col, i);
      if r >= e {
        RunEndFacts(col, i);
        assert r > e;
        RunsCover(col, e + 1, r);
        assert RunsFrom(col, e) == RunsFrom(col, e + 1);
        var k :| 0 <= k < |RunsFrom(col, e)| && RunsFrom(col, e)[k].start <= r < RunsFrom(col, e)[k].end;
        assert RunsFrom(col, i)[k + 1] == RunsFrom(col, e)[k];
      } else {
        assert RunsFrom(col, i)[0] == Run(i, e);
      }
    }
  }

  /** No row of a dark run closes a stripe. */
  lemma {:induction false} NoCloseInRun(col: seq<uint8>, i: nat, j: nat)
    requires i <= j <= |col| && AllDark(col, i, j)
    ensures StripesClosed(col, j) == StripesClosed(col, i)
    decreases j - i
  {
    if j > i {
      NoCloseInRun(col, i, j - 1);
    }
  }

  /** From a boundary row i on, the rows that close a stripe are exactly the ends of
      the stripe runs from i. */
  lemma {:induction false} ClosedFrom(col: seq<uint8>, i: nat)
    requires i <= |col| && RunBoundary(col, i)
    ensures StripesClosed(col, |col|) == StripesClosed(col, i) + CountStripes(RunsFrom(col, i), |col|)
    decreases |col| - i
  {
    if i < |col| {
      if !IsDark(col[i]) {
        ClosedFrom(col, i + 1);
      } else {
        var e := RunEnd(col, i);
        RunEndFacts(col, i);
        NoCloseInRun(col, i, e);
        var runs := RunsFrom(col, i);
        assert runs[0] == Run(i, e) && runs[1..] == RunsFrom(col, e);
        if e < |col| {
          RunStartWithin(col, i, e - 1);
          assert ClosesStripe(col, e) <==> e - i >= MinStripeLength;
          ClosedFrom(col, e + 1);
          assert RunsFrom(col, e) == RunsFrom(col, e + 1);
        } else {
          assert RunsFrom(col, e) == [];
        }
      }
    }
  }

  /** The scan's count equals the number of stripes: maximal dark runs of at least
      MinStripeLength rows followed by a non-dark row. */
  lemma StripeCountAgrees(col: seq<uint8>)
    ensures StripesClosed(col, |col|) == NumStripes(col)
  {
    ClosedFrom(col, 0);
  }

  /** Closing is decided by the rows above: rows appended below change nothing before. */
  lemma {:induction false} ClosedPrefix(col: seq<uint8>, more: seq<uint8>, n: nat)
    requires n <= |col|
    ensures StripesClosed(col + more, n) == StripesClosed(col, n)
  {
    if n > 0 {
      ClosedPrefix(col, more, n - 1);
      if n - 1 > 0 {
        RunStartPrefix(col, more, n - 2);
      }
    }
  }

  lemma {:induction false} RunStartPrefix(col: seq<uint8>, more: seq<uint8>, i: nat)
    requires i < |col|
    ensures RunStart(col + more, i) == RunStart(col, i)
  {
    if i > 0 {
      RunStartPrefix(col, more, i - 1);
    }
  }

  /** A dark run that reaches the last row is not counted, however long: only a
      non-dark row below it would count it. */
  lemma BottomRunNotCounted(col: seq<uint8>, below: uint8)
    requires |col| > 0 && IsDark(col[|col| - 1]) && !IsDark(below)
    requires |col| - RunStart(col, |col| - 1) >= MinStripeLength
    ensures StripesClosed(col + [below], |col| + 1) == StripesClosed(col, |col|) + 1
  {
    var longer := col + [below];
    ClosedPrefix(col, [below], |col|);
    RunStartPrefix(col, [below], |col| - 1);
    assert ClosesStripe(longer, |col|);
  }

  /** The run that RunsFrom lists around a dark row is the one RunStart and RunEnd find:
      RunLength is the length of the maximal run through the row. */
  lemma RunOfRow(col: seq<uint8>, r: nat)
    requires r < |col| && IsDark(col[r])
    ensures exists k :: 0 <= k < |RunsFrom(col, 0)| && RunsFrom(col, 0)[k] == Run(RunStart(col, r), RunEnd(col, r))
  {
    RunsCover(col, 0, r);
    RunsMaximal(col, 0);
    var k :| 0 <= k < |RunsFrom(col, 0)| && RunsFrom(col, 0)[k].start <= r < RunsFrom(col, 0)[k].end;
    var run := RunsFrom(col, 0)[k];
    RunStartWithin(col, run.start, r);
    RunEndWithin(col, r, run.end);
  }

  // ---------------------------------------------------------------------------------
  // Colours of the centre column

  /** The colour a row of the centre column ends with: a dark row red when its run has at
      least MinStripeLength rows (whether or not a non-dark row closes it) and green
      otherwise, a bright row blue, and any other row the colour it had. */
  function FinalColour(col: seq<uint8>, r: nat, before: Bgr): Bgr
    requires r < |col|
  {
    if IsDark(col[r]) then (if RunLength(col, r) >= MinStripeLength then Red else Green)
    else if IsBright(col[r]) then Blue
    else before
  }

  function FinalColumn(col: seq<uint8>, before: seq<Bgr>): (after: seq<Bgr>)
    requires |before| == |col|
    ensures |after| == |col|
  {
    seq(|col|, r requires 0 <= r < |col| => FinalColour(col, r, before[r]))
  }

  /** The colour of row r < n once the scan has passed n rows: a dark row is red only when
      its run has been closed above row n. */
  function InterimColour(col: seq<uint8>, n: nat, r: nat, before: Bgr): Bgr
    requires r < n <= |col|
  {
    if IsDark(col[r]) then (if RunEnd(col, r) < n && RunLength(col, r) >= MinStripeLength then Red else Green)
    else if IsBright(col[r]) then Blue
    else before
  }

  function InterimColumn(col: seq<uint8>, n: nat, before: seq<Bgr>): (mid: seq<Bgr>)
    requires n <= |col| == |before|
    ensures |mid| == |col|
  {
    seq(|col|, r requires 0 <= r < |col| => if r < n then InterimColour(col, n, r, before[r]) else before[r])
  }

  /** s with the rows from .. to - 1 set to px. */
  function Paint(s: seq<Bgr>, from: nat, to: nat, px: Bgr): (t: seq<Bgr>)
    ensures |t| == |s|
  {
    seq(|s|, i requires 0 <= i < |s| => if from <= i < to then px else s[i])
  }

  /** The scan's variable black_streak_start after n rows: set exactly when row n - 1 is
      dark, and then the first row of its run. */
  predicate OpenStreak(col: seq<uint8>, n: nat, streak: Option<nat>)
    requires n <= |col|
  {
    && (streak.Some? <==> n > 0 && IsDark(col[n - 1]))
    && (streak.Some? ==> streak.value == RunStart(col, n - 1))
  }

  /** A dark row turns green and changes nothing above it. */
  lemma DarkStep(col: seq<uint8>, i: nat, before: seq<Bgr>)
    requires i < |col| == |before| && IsDark(col[i])
    ensures InterimColumn(col, i + 1, before) == InterimColumn(col, i, before)[i := Green]
  {
    var next, prev := InterimColumn(col, i + 1, before), InterimColumn(col, i, before);
    forall r | 0 <= r < i
      ensures next[r] == prev[r]
    {
      RunEndFacts(col, r);
    }
    assert next[i] == Green;
  }

  /** The streak stays open through a dark row, and opens at it when the row above is
      not dark. */
  lemma StreakDark(col: seq<uint8>, i: nat, streak: Option<nat>)
    requires i < |col| && IsDark(col[i]) && OpenStreak(col, i, streak)
    ensures OpenStreak(col, i + 1, if streak.None? then Some(i) else streak)
  {
  }

  /** A non-dark row closes the streak: the run above it turns red when it is a stripe,
      and the row itself turns blue when it is bright. painted is the column after the
      first of these. */
  lemma CloseStep(col: seq<uint8>, i: nat, before: seq<Bgr>, painted: seq<Bgr>)
    requires i < |col| == |before| && !IsDark(col[i])
    requires painted == if ClosesStripe(col, i)
      then Paint(InterimColumn(col, i, before), RunStart(col, i - 1), i, Red)
      else InterimColumn(col, i, before)
    ensures painted[i] == before[i]
    ensures InterimColumn(col, i + 1, before) == painted[i := if IsBright(col[i]) then Blue else painted[i]]
  {
    var next, prev := InterimColumn(col, i + 1, before), InterimColumn(col, i, before);
    var s := if i > 0 && IsDark(col[i - 1]) then RunStart(col, i - 1) else i;
    if i > 0 && IsDark(col[i - 1]) {
      RunStartFacts(col, i - 1);
    }
    forall r | 0 <= r < i
      ensures next[r] == painted[r]
    {
      RunEndFacts(col, r);
      if IsDark(col[r]) {
        if s <= r {
          RunStartWithin(col, s, r);
          RunEndWithin(col, r, i);
        } else {
          assert RunEnd(col, r) < i;
        }
      }
    }
  }

  /** After the last row the streak, if still open, closes with no row below it. */
  lemma FinalStep(col: seq<uint8>, before: seq<Bgr>, painted: seq<Bgr>)
    requires |col| == |before|
    requires painted == if |col| > 0 && IsDark(col[|col| - 1]) && |col| - RunStart(col, |col| - 1) >= MinStripeLength
      then Paint(InterimColumn(col, |col|, before), RunStart(col, |col| - 1), |col|, Red)
      else InterimColumn(col, |col|, before)
    ensures FinalColumn(col, before) == painted
  {
    var n := |col|;
    var s := if n > 0 && IsDark(col[n - 1]) then RunStart(col, n - 1) else n;
    if n > 0 && IsDark(col[n - 1]) {
      RunStartFacts(col, n - 1);
    }
    forall r | 0 <= r < n
      ensures FinalColumn(col, before)[r] == painted[r]
    {
      RunEndFacts(col, r);
      if IsDark(col[r]) && s <= r {
        RunStartWithin(col, s, r);
        RunEndWithin(col, r, n);
      } else if IsDark(col[r]) {
        assert RunEnd(col, r) < n;
      }
    }
  }

  // ---------------------------------------------------------------------------------
  // The scan

  /** The colours down the centre column of the colour image. */
  ghost function CentreColours(color: array2<Bgr>): (cs: seq<Bgr>)
    requires CentreCol < color.Length1
    reads color
    ensures |cs| == color.Length0
  {
    seq(color.Length0, r requires 0 <= r < color.Length0 reads color => color[r, CentreCol])
  }

  /** color_img[i, center_col] = [0, 0, 255] for every row from .. to - 1. */
  method PaintRed(color: array2<Bgr>, from: nat, to: nat)
    requires CentreCol < color.Length1 && from <= to <= color.Length0
    modifies color
    ensures CentreColours(color) == Paint(old(CentreColours(color)), from, to, Red)
    ensures forall r, c :: 0 <= r < color.Length0 && 0 <= c < color.Length1 && c != CentreCol ==>
      color[r, c] == old(color[r, c])
  {
    for i := from to to
      invariant CentreColours(color) == Paint(old(CentreColours(color)), from, i, Red)
      invariant forall r, c :: 0 <= r < color.Length0 && 0 <= c < color.Length1 && c != CentreCol ==>
        color[r, c] == old(color[r, c])
    {
      ghost var prev := CentreColours(color);
      color[i, CentreCol] := Red;
      assert CentreColours(color) == prev[i := Red];
    }
  }

  /** The scan down the centre column: dark rows green, every run of at least
      MinStripeLength dark rows red (a run that reaches the bottom too), bright rows blue,
      nothing outside the centre column touched; the result is the number of stripes,
      which counts only runs that a non-dark row closes. */
  method MarkCentreColumn(grey: seq<seq<uint8>>, width: nat, color: array2<Bgr>) returns (numStripes: nat)
    requires IsImage(grey, width) && color.Length0 == |grey| && color.Length1 == width
    modifies color
    ensures numStripes == NumStripes(Column(grey, width))
    ensures CentreColours(color) == FinalColumn(Column(grey, width), old(CentreColours(color)))
    ensures forall r, c :: 0 <= r < color.Length0 && 0 <= c < color.Length1 && c != CentreCol ==>
      color[r, c] == old(color[r, c])
  {
    ghost var col := Column(grey, width);
    ghost var before := CentreColours(color);
    numStripes := 0;
    var streakStart: Option<nat> := None;
    for rowIdx := 0 to |grey|
      invariant numStripes == StripesClosed(col, rowIdx)
      invariant OpenStreak(col, rowIdx, streakStart)
      invariant CentreColours(color) == InterimColumn(col, rowIdx, before)
      invariant forall r, c :: 0 <= r < color.Length0 && 0 <= c < color.Length1 && c != CentreCol ==>
        color[r, c] == old(color[r, c])
    {
      var pixel := grey[rowIdx][CentreCol];
      if pixel <= DarkLimit as uint8 {
        if streakStart.None? {
          streakStart := Some(rowIdx);
        }
        color[rowIdx, CentreCol] := Green;
        DarkStep(col, rowIdx, before);
      } else {
        ghost var mid := CentreColours(color);
        if streakStart.Some? {
          var length := rowIdx - streakStart.value;
          if length >= MinStripeLength {
            PaintRed(color, streakStart.value, rowIdx);
            numStripes := numStripes + 1;
          }
          streakStart := None;
        }
        ghost var painted := CentreColours(color);
        CloseStep(col, rowIdx, before, painted);
        if pixel >= BrightLimit as uint8 {
          color[rowIdx, CentreCol] := Blue;
        } else {
          assert CentreColours(color) == painted[rowIdx := painted[rowIdx]];
        }
      }
    }
    if streakStart.Some? {
      var length := |grey| - streakStart.value;
      if length >= MinStripeLength {
        PaintRed(color, streakStart.value, |grey|);
      }
    }
    FinalStep(col, before, CentreColours(color));
    StripeCountAgrees(col);
  }

  /** cv2.cvtColor(img, cv2.COLOR_GRAY2BGR): every grey level v becomes (v, v, v). */
  function GreyBgr(v: uint8): Bgr
  {
    Bgr(v, v, v)
  }

  method GreyToBgr(grey: seq<seq<uint8>>, width: nat) returns (color: array2<Bgr>)
    requires IsImage(grey, width)
    ensures fresh(color) && color.Length0 == |grey| && color.Length1 == width
    ensures forall r, c :: 0 <= r < |grey| && 0 <= c < width ==> color[r, c] == GreyBgr(grey[r][c])
  {
    color := new Bgr[|grey|, width]((r, c) requires 0 <= r < |grey| && 0 <= c < width => GreyBgr(grey[r][c]));
  }

  /** The simulation without the file and the window: the colour copy of the image with
      its centre column marked, and the number of stripes found. */
  method ZebraCrossingSim(grey: seq<seq<uint8>>, width: nat) returns (color: array2<Bgr>, numStripes: nat)
    requires IsImage(grey, width)
    ensures fresh(color) && color.Length0 == |grey| && color.Length1 == width
    ensures numStripes == NumStripes(Column(grey, width))
    ensures forall r :: 0 <= r < |grey| ==>
      color[r, CentreCol] == FinalColour(Column(grey, width), r, GreyBgr(grey[r][CentreCol]))
    ensures forall r, c :: 0 <= r < |grey| && 0 <= c < width && c != CentreCol ==>
      color[r, c] == GreyBgr(grey[r][c])
  {
    color := GreyToBgr(grey, width);
    ghost var before := CentreColours(color);
    numStripes := MarkCentreColumn(grey, width, color);
    forall r | 0 <= r < |grey|
      ensures color[r, CentreCol] == FinalColour(Column(grey, width), r, GreyBgr(grey[r][CentreCol]))
    {
      assert color[r, CentreCol] == CentreColours(color)[r];
      assert before[r] == GreyBgr(grey[r][CentreCol]);
    }
  }
}
