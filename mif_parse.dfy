/** The line-by-line reading of a MIF file shared by the grey and the RGB readers, as a
    state machine over the lines of the file. Each raw line is stripped, then tested in a
    fixed order: a WIDTH header, a DEPTH header, the start of the content, its end, and
    last a data line "ADDR:VALUE;" that is only taken once inside the content. The two
    readers differ in how they recognise the start and the end of the content and in
    what a data field that is not hexadecimal does. */
module MifParse {
  import opened Wrappers
  import opened Strings
  import opened Radix

  /** mif_to_grayscale_image or mif_to_rgb_image. */
  datatype Variant = Grey | Rgb

  /** The exceptions a reader lets escape: a WIDTH or DEPTH line without a decimal number
      (the regular-expression search finds nothing), or, in the RGB reader only, a data
      field that int(_, 16) refuses. */
  datatype ParseError = HeaderWithoutNumber | BadHexField

  datatype Result<T> = Ok(value: T) | Err(error: ParseError)

  /** The reader's variables while it walks the file. */
  datatype ParserState = ParserState(width: Option<nat>, depth: Option<nat>, inContent: bool, pixels: map<nat, nat>)

  const Start := ParserState(None, None, false, map[])

  /** What a stripped line containing ':' holds once the ';' are removed and it is split
      at ':'. */
  datatype DataField = Word(addr: nat, value: nat) | NotPair | BadHex

  function ParseDataLine(line: string): DataField
  {
    var parts := Split(RemoveChar(line, ';'), ':');
    if |parts| != 2 then NotPair
    else
      match (ParseHex(Strip(parts[0])), ParseHex(Strip(parts[1])))
      case (Some(a), Some(v)) => Word(a, v)
      case _ => BadHex
  }

  /** A data line holds a word exactly when, with every ';' removed, it is two fields
      joined by one ':' that both read as hexadecimal once stripped, and the word is
      those two numbers; it is no pair exactly when it is not one ':' between two
      ':'-free fields. */
  lemma DataLineAccepts(line: string)
    ensures ParseDataLine(line).Word? <==>
      exists p0, p1 :: SplitsInTwo(RemoveChar(line, ';'), ':', p0, p1)
        && IsHexString(Strip(p0)) && IsHexString(Strip(p1))
    ensures forall p0, p1 :: SplitsInTwo(RemoveChar(line, ';'), ':', p0, p1) ==>
      ParseDataLine(line) == match (ParseHex(Strip(p0)), ParseHex(Strip(p1)))
        case (Some(a), Some(v)) => Word(a, v)
        case _ => BadHex
    ensures ParseDataLine(line).NotPair? <==>
      !exists p0, p1 :: SplitsInTwo(RemoveChar(line, ';'), ':', p0, p1)
  {
    SplitInTwo(RemoveChar(line, ';'), ':');
  }

  /** The grey reader enters the content on any line holding "BEGIN"; the RGB reader on a
      line starting with "CONTENT BEGIN". */
  predicate EntersContent(v: Variant, line: string)
  {
    match v
    case Grey => Contains(line, "BEGIN")
    case Rgb => StartsWith(line, "CONTENT BEGIN")
  }

  /** Both readers stop at a line starting with "END" (the grey reader's extra test for
      a line equal to "END;" adds nothing). */
  predicate EndsContent(v: Variant, line: string)
  {
    match v
    case Grey => StartsWith(line, "END") || line == "END;"
    case Rgb => StartsWith(line, "END")
  }

  /** What a line is to a reader, from the tests applied to the stripped line in the
      reader's order: the first test that holds decides. A WIDTH or DEPTH line and a data
      line (anything holding ':') keep the stripped text for the step to read. */
  datatype LineKind =
    | WidthLine(text: string)
    | DepthLine(text: string)
    | BeginLine
    | EndLine
    | DataLine(text: string)
    | OtherLine

  function Classify(v: Variant, raw: string): LineKind
  {
    KindOf(v, Strip(raw))
  }

  /** The tests on an already stripped line. */
  function KindOf(v: Variant, line: string): LineKind
  {
    if StartsWith(line, "WIDTH") then WidthLine(line)
    else if StartsWith(line, "DEPTH") then DepthLine(line)
    else if EntersContent(v, line) then BeginLine
    else if EndsContent(v, line) then EndLine
    else if ':' in line then DataLine(line)
    else OtherLine
  }

  /** The effect of one line: go on in a new state, stop reading, or fail. */
  datatype Step = Next(state: ParserState) | Stop | Fail(error: ParseError)

  /** One pass of the reading loop. A header line sets its field to the first number in
      it; data lines only count inside the content. */
  function StepLine(v: Variant, s: ParserState, k: LineKind): Step
  {
    match k
    case WidthLine(t) =>
      var n := FirstNumber(t);
      if n.None? then Fail(HeaderWithoutNumber) else Next(s.(width := n))
    case DepthLine(t) =>
      var n := FirstNumber(t);
      if n.None? then Fail(HeaderWithoutNumber) else Next(s.(depth := n))
    case BeginLine => Next(s.(inContent := true))
    case EndLine => Stop
    case DataLine(t) =>
      if !s.inContent then Next(s)
      else (
        match ParseDataLine(t)
        case Word(a, x) => Next(s.(pixels := s.pixels[a := x]))
        case NotPair => Next(s)
        case BadHex => if v == Grey then Next(s) else Fail(BadHexField))
    case OtherLine => Next(s)
  }

  /** The kinds of a run of lines, line by line. */
  function Kinds(v: Variant, lines: seq<string>): (ks: seq<LineKind>)
    ensures |ks| == |lines|
  {
    MapSeq(raw => Classify(v, raw), lines)
  }

  /** f applied to every element of s, in order. */
  function MapSeq<A, B>(f: A -> B, s: seq<A>): (r: seq<B>)
    ensures |r| == |s| && forall i :: 0 <= i < |s| ==> r[i] == f(s[i])
  {
    seq(|s|, i requires 0 <= i < |s| => f(s[i]))
  }

  lemma MapAppend<A, B>(f: A -> B, a: seq<A>, b: seq<A>)
    ensures MapSeq(f, a + b) == MapSeq(f, a) + MapSeq(f, b)
  {
  }

  lemma KindsAppend(v: Variant, a: seq<string>, b: seq<string>)
    ensures Kinds(v, a + b) == Kinds(v, a) + Kinds(v, b)
  {
    MapAppend(raw => Classify(v, raw), a, b);
  }

  /** The kinds of a single line. */
  lemma KindsOne(v: Variant, line: string)
    ensures Kinds(v, [line]) == [Classify(v, line)]
  {
    MapOne(raw => Classify(v, raw), line);
  }

  lemma MapOne<A, B>(f: A -> B, x: A)
    ensures MapSeq(f, [x]) == [f(x)]
  {
    assert MapSeq(f, [x])[0] == f(x);
  }

  /** Where reading a run of lines ends: the state reached, and whether an END line was met. */
  datatype Scan = Scan(state: ParserState, stopped: bool)

  function Run(v: Variant, s: ParserState, ks: seq<LineKind>): Result<Scan>
    decreases |ks|
  {
    if ks == [] then Ok(Scan(s, false))
    else
      match StepLine(v, s, ks[0])
      case Next(t) => Run(v, t, ks[1..])
      case Stop => Ok(Scan(s, true))
      case Fail(e) => Err(e)
  }

  /** A single line that goes on to t ends the reading in t. */
  lemma RunOne(v: Variant, s: ParserState, k: LineKind, t: ParserState)
    requires StepLine(v, s, k) == Next(t)
    ensures Run(v, s, [k]) == Ok(Scan(t, false))
  {
    assert [k][1..] == [];
  }

  /** Inside the content, a data line holding the word x for address a stores it. */
  lemma StepDataWord(v: Variant, s: ParserState, line: string, a: nat, x: nat)
    requires s.inContent && ParseDataLine(line) == Word(a, x)
    ensures StepLine(v, s, DataLine(line)) == Next(s.(pixels := s.pixels[a := x]))
  {
  }

  /** Reading from position i: the step of line i decides how the rest is read. */
  lemma RunFrom(v: Variant, s: ParserState, ks: seq<LineKind>, i: nat)
    requires i < |ks|
    ensures StepLine(v, s, ks[i]).Next? ==> Run(v, s, ks[i..]) == Run(v, StepLine(v, s, ks[i]).state, ks[i + 1..])
    ensures StepLine(v, s, ks[i]).Stop? ==> Run(v, s, ks[i..]) == Ok(Scan(s, true))
    ensures StepLine(v, s, ks[i]).Fail? ==> Run(v, s, ks[i..]) == Err(StepLine(v, s, ks[i]).error)
  {
    assert ks[i..][0] == ks[i] && ks[i..][1..] == ks[i + 1..];
  }

  /** What a reader has after the file: the WIDTH and DEPTH it saw (None if absent) and
      the address-to-value map of the data lines. */
  datatype MifData = MifData(width: Option<nat>, depth: Option<nat>, pixels: map<nat, nat>)

  function Parse(v: Variant, lines: seq<string>): Result<MifData>
  {
    match Run(v, Start, Kinds(v, lines))
    case Ok(sc) => Ok(MifData(sc.state.width, sc.state.depth, sc.state.pixels))
    case Err(e) => Err(e)
  }

  /** Going on with b after the reading r of earlier lines: a failure or a stop is final. */
  function Continue(v: Variant, r: Result<Scan>, b: seq<LineKind>): Result<Scan>
  {
    if r.Err? || r.value.stopped then r else Run(v, r.value.state, b)
  }

  /** Reading a + b is reading a, then (unless a failed or stopped) reading b from there. */
  lemma {:induction false} RunAppend(v: Variant, s: ParserState, a: seq<LineKind>, b: seq<LineKind>)
    ensures Run(v, s, a + b) == Continue(v, Run(v, s, a), b)
    decreases |a|
  {
    if a == [] {
      assert a + b == b;
    } else {
      assert (a + b)[0] == a[0] && (a + b)[1..] == a[1..] + b;
      match StepLine(v, s, a[0])
      case Next(t) => RunAppend(v, t, a[1..], b);
      case Stop =>
      case Fail(e) =>
    }
  }

  /** Reading pre + [k] + post: read pre, then k, then post. */
  lemma RunSplit(v: Variant, pre: seq<LineKind>, k: LineKind, post: seq<LineKind>)
    ensures Run(v, Start, pre + [k] + post) == Continue(v, Run(v, Start, pre), [k] + post)
    ensures Run(v, Start, pre + post) == Continue(v, Run(v, Start, pre), post)
  {
    assert pre + [k] + post == pre + ([k] + post);
    RunAppend(v, Start, pre, [k] + post);
    RunAppend(v, Start, pre, post);
  }

  /** A line between pre and post, seen through Kinds. */
  lemma KindsSplit(v: Variant, pre: seq<string>, line: string, post: seq<string>)
    ensures Kinds(v, pre + [line] + post) == Kinds(v, pre) + [Classify(v, line)] + Kinds(v, post)
    ensures Kinds(v, pre + post) == Kinds(v, pre) + Kinds(v, post)
  {
    KindsAppend(v, pre + [line], post);
    KindsAppend(v, pre, [line]);
    KindsAppend(v, pre, post);
  }

  /** Nothing after an END line is read: the lines after it may be anything. */
  lemma EndTruncates(v: Variant, pre: seq<string>, end: string, post: seq<string>)
    requires Classify(v, end) == EndLine
    ensures Parse(v, pre + [end] + post) == Parse(v, pre)
  {
    KindsSplit(v, pre, end, post);
    RunSplit(v, Kinds(v, pre), EndLine, Kinds(v, post));
  }

  /** "END;" is an END line for both readers. */
  lemma EndLineKind(v: Variant)
    ensures Classify(v, "END;") == EndLine
  {
    StripUnchanged("END;");
    KindOfEnd(v);
  }

  lemma KindOfEnd(v: Variant)
    ensures KindOf(v, "END;") == EndLine
  {
    NotContains("END;", "BEGIN", 'B');
    assert StartsWith("END;", "END");
  }

  /** A line that leaves every state as it is: no header, no start or end of the content,
      and no data line the reader stores (it has no ':', does not split into two fields,
      or, for the grey reader, has a field that is not hexadecimal). */
  predicate IsNoise(v: Variant, k: LineKind)
  {
    || k == OtherLine
    || (k.DataLine? && ParseDataLine(k.text).NotPair?)
    || (v == Grey && k.DataLine? && ParseDataLine(k.text).BadHex?)
  }

  /** Noise lines can be deleted anywhere without changing what is read. */
  lemma SkipNoise(v: Variant, pre: seq<string>, noise: string, post: seq<string>)
    requires IsNoise(v, Classify(v, noise))
    ensures Parse(v, pre + [noise] + post) == Parse(v, pre + post)
  {
    KindsSplit(v, pre, noise, post);
    RunSkipsNoise(v, Kinds(v, pre), Classify(v, noise), Kinds(v, post));
  }

  lemma RunSkipsNoise(v: Variant, pre: seq<LineKind>, k: LineKind, post: seq<LineKind>)
    requires IsNoise(v, k)
    ensures Run(v, Start, pre + [k] + post) == Run(v, Start, pre + post)
  {
    RunSplit(v, pre, k, post);
    var r := Run(v, Start, pre);
    if r.Ok? && !r.value.stopped {
      assert StepLine(v, r.value.state, k) == Next(r.value.state);
      assert ([k] + post)[0] == k && ([k] + post)[1..] == post;
    }
  }

  /** Before the content starts, lines that never enter it store nothing (the reader may
      still fail on a header without a number). */
  lemma {:induction false} NoContentNoPixels(v: Variant, s: ParserState, ks: seq<LineKind>)
    requires !s.inContent
    requires forall i :: 0 <= i < |ks| ==> ks[i] != BeginLine
    ensures Run(v, s, ks).Ok? ==> Run(v, s, ks).value.state.pixels == s.pixels
    ensures Run(v, s, ks).Ok? ==> !Run(v, s, ks).value.state.inContent
    decreases |ks|
  {
    if ks != [] {
      assert ks[0] != BeginLine;
      match StepLine(v, s, ks[0])
      case Next(t) =>
        assert forall i :: 0 <= i < |ks[1..]| ==> ks[1..][i] == ks[i + 1];
        NoContentNoPixels(v, t, ks[1..]);
      case Stop =>
      case Fail(e) =>
    }
  }

  /** A file none of whose lines enters the content yields no pixels. */
  lemma NoBeginNoPixels(v: Variant, lines: seq<string>)
    requires forall i :: 0 <= i < |lines| ==> Classify(v, lines[i]) != BeginLine
    ensures Parse(v, lines).Ok? ==> Parse(v, lines).value.pixels == map[]
  {
    NoContentNoPixels(v, Start, Kinds(v, lines));
  }

  /** A data line before the first line that enters the content is ignored: deleting it
      changes nothing that is read. */
  lemma DataBeforeBegin(v: Variant, pre: seq<string>, line: string, post: seq<string>)
    requires forall i :: 0 <= i < |pre| ==> Classify(v, pre[i]) != BeginLine
    requires Classify(v, line).DataLine?
    ensures Parse(v, pre + [line] + post) == Parse(v, pre + post)
  {
    var k := Classify(v, line);
    KindsSplit(v, pre, line, post);
    assert forall i :: 0 <= i < |pre| ==> Kinds(v, pre)[i] == Classify(v, pre[i]);
    NoContentNoPixels(v, Start, Kinds(v, pre));
    RunSplit(v, Kinds(v, pre), k, Kinds(v, post));
    var r := Run(v, Start, Kinds(v, pre));
    if r.Ok? && !r.value.stopped {
      assert StepLine(v, r.value.state, k) == Next(r.value.state);
      assert ([k] + Kinds(v, post))[0] == k && ([k] + Kinds(v, post))[1..] == Kinds(v, post);
    }
  }

  /** The header fields do not influence the pixels: two states that agree on the content
      flag and the pixels read the same pixels from the same lines, stop at the same line
      and fail alike. */
  lemma {:induction false} RunIgnoresHeader(v: Variant, s: ParserState, t: ParserState, ks: seq<LineKind>)
    requires s.inContent == t.inContent && s.pixels == t.pixels
    ensures Run(v, s, ks).Ok? <==> Run(v, t, ks).Ok?
    ensures Run(v, s, ks).Ok? ==>
      && Run(v, s, ks).value.state.pixels == Run(v, t, ks).value.state.pixels
      && Run(v, s, ks).value.state.inContent == Run(v, t, ks).value.state.inContent
      && Run(v, s, ks).value.stopped == Run(v, t, ks).value.stopped
    decreases |ks|
  {
    if ks != [] {
      StepIgnoresHeader(v, s, t, ks[0]);
      match StepLine(v, s, ks[0])
      case Next(s1) =>
        var t1 := StepLine(v, t, ks[0]).state;
        RunIgnoresHeader(v, s1, t1, ks[1..]);
      case Stop =>
      case Fail(e) =>
    }
  }

  /** One line read from two states that agree on the content flag and the pixels: the
      same kind of step, to states that still agree. */
  lemma StepIgnoresHeader(v: Variant, s: ParserState, t: ParserState, k: LineKind)
    requires s.inContent == t.inContent && s.pixels == t.pixels
    ensures StepLine(v, s, k).Next? <==> StepLine(v, t, k).Next?
    ensures StepLine(v, s, k).Stop? <==> StepLine(v, t, k).Stop?
    ensures StepLine(v, s, k).Next? ==>
      && StepLine(v, s, k).state.inContent == StepLine(v, t, k).state.inContent
      && StepLine(v, s, k).state.pixels == StepLine(v, t, k).state.pixels
  {
  }

  /** A WIDTH or DEPTH line with a number never counts as data, not even inside the
      content: inserting one anywhere leaves the pixels as they were. */
  lemma HeaderLineNeverData(v: Variant, pre: seq<string>, header: string, post: seq<string>)
    requires Classify(v, header).WidthLine? || Classify(v, header).DepthLine?
    requires FirstNumber(Classify(v, header).text).Some?
    ensures Parse(v, pre + [header] + post).Ok? <==> Parse(v, pre + post).Ok?
    ensures Parse(v, pre + [header] + post).Ok? ==>
      Parse(v, pre + [header] + post).value.pixels == Parse(v, pre + post).value.pixels
  {
    KindsSplit(v, pre, header, post);
    var k := Classify(v, header);
    RunSplit(v, Kinds(v, pre), k, Kinds(v, post));
    match Run(v, Start, Kinds(v, pre))
    case Ok(sc) =>
      if !sc.stopped {
        assert ([k] + Kinds(v, post))[1..] == Kinds(v, post);
        var t := StepLine(v, sc.state, k).state;
        RunIgnoresHeader(v, t, sc.state, Kinds(v, post));
      }
    case Err(e) =>
  }

  /** Whether a line kind is a data line for address a. */
  predicate WritesTo(k: LineKind, a: nat)
  {
    k.DataLine? && ParseDataLine(k.text).Word? && ParseDataLine(k.text).addr == a
  }

  /** Lines that never write address a keep what the state holds for a. */
  lemma {:induction false} RunKeeps(v: Variant, s: ParserState, ks: seq<LineKind>, a: nat)
    requires a in s.pixels
    requires forall i :: 0 <= i < |ks| ==> !WritesTo(ks[i], a)
    ensures Run(v, s, ks).Ok? ==>
      a in Run(v, s, ks).value.state.pixels && Run(v, s, ks).value.state.pixels[a] == s.pixels[a]
    decreases |ks|
  {
    if ks != [] {
      assert !WritesTo(ks[0], a);
      match StepLine(v, s, ks[0])
      case Next(t) =>
        assert forall i :: 0 <= i < |ks[1..]| ==> ks[1..][i] == ks[i + 1];
        RunKeeps(v, t, ks[1..], a);
      case Stop =>
      case Fail(e) =>
    }
  }

  /** Inside the content, a data line for address a decides the value read for a unless a
      later line writes a again: the last write wins. */
  lemma LastWriteWins(v: Variant, pre: seq<string>, line: string, post: seq<string>, a: nat, x: nat)
    requires Run(v, Start, Kinds(v, pre)).Ok?
    requires Run(v, Start, Kinds(v, pre)).value.state.inContent && !Run(v, Start, Kinds(v, pre)).value.stopped
    requires Classify(v, line).DataLine? && ParseDataLine(Classify(v, line).text) == Word(a, x)
    requires forall i :: 0 <= i < |post| ==> !WritesTo(Classify(v, post[i]), a)
    ensures Parse(v, pre + [line] + post).Ok? ==>
      a in Parse(v, pre + [line] + post).value.pixels && Parse(v, pre + [line] + post).value.pixels[a] == x
  {
    KindsSplit(v, pre, line, post);
    assert forall i :: 0 <= i < |Kinds(v, post)| ==> !WritesTo(Kinds(v, post)[i], a);
    RunLastWrite(v, Kinds(v, pre), Classify(v, line), Kinds(v, post), a, x);
  }

  lemma RunLastWrite(v: Variant, pre: seq<LineKind>, k: LineKind, post: seq<LineKind>, a: nat, x: nat)
    requires Run(v, Start, pre).Ok? && Run(v, Start, pre).value.state.inContent && !Run(v, Start, pre).value.stopped
    requires k.DataLine? && ParseDataLine(k.text) == Word(a, x)
    requires forall i :: 0 <= i < |post| ==> !WritesTo(post[i], a)
    ensures Run(v, Start, pre + [k] + post).Ok? ==>
      a in Run(v, Start, pre + [k] + post).value.state.pixels && Run(v, Start, pre + [k] + post).value.state.pixels[a] == x
  {
    RunSplit(v, pre, k, post);
    var s := Run(v, Start, pre).value.state;
    var s1 := s.(pixels := s.pixels[a := x]);
    assert StepLine(v, s, k) == Next(s1);
    var rest := [k] + post;
    assert rest[0] == k && rest[1..] == post;
    RunKeeps(v, s1, post, a);
  }

  /** Inside the content, a data line with a field that is not hexadecimal ends the RGB
      reader with an error, whatever follows it. (The grey reader skips such a line, as
      SkipNoise states.) */
  lemma RgbBadFieldFails(pre: seq<string>, line: string, post: seq<string>)
    requires Run(Rgb, Start, Kinds(Rgb, pre)).Ok?
    requires Run(Rgb, Start, Kinds(Rgb, pre)).value.state.inContent && !Run(Rgb, Start, Kinds(Rgb, pre)).value.stopped
    requires Classify(Rgb, line).DataLine? && ParseDataLine(Classify(Rgb, line).text) == BadHex
    ensures Parse(Rgb, pre + [line] + post) == Err(BadHexField)
  {
    var k := Classify(Rgb, line);
    KindsSplit(Rgb, pre, line, post);
    RunSplit(Rgb, Kinds(Rgb, pre), k, Kinds(Rgb, post));
    assert ([k] + Kinds(Rgb, post))[0] == k;
  }

  /** The grey reader's test for the start of the content is the wider one: a line the
      RGB reader takes as the start is one for the grey reader too. */
  lemma BeginTests(line: string)
    requires EntersContent(Rgb, line)
    ensures EntersContent(Grey, line)
  {
    assert line[8..][..5] == line[..13][8..];
    ContainsAt(line, "BEGIN", 8);
  }
}
