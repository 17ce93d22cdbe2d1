/** The last lines of a log file, found by reading it backwards in chunks (`syseba_log_tail`, src/log.c). */
module LogTail {

  function Newlines(s: string): (n: nat)
    ensures n <= |s|
  {
    if s == [] then 0 else Newlines(s[1..]) + if s[0] == '\n' then 1 else 0
  }

  lemma {:induction false} NewlinesAppend(a: string, b: string)
    ensures Newlines(a + b) == Newlines(a) + Newlines(b)
  {
    if a == [] {
      assert a + b == b;
    } else {
      assert (a + b)[1..] == a[1..] + b;
      NewlinesAppend(a[1..], b);
    }
  }

  /** Just after the (lines + 1)-th newline from the end, or the start of the file. */
  ghost predicate IsStart(data: string, lines: nat, start: nat) {
    && start <= |data| && Newlines(data[start..]) <= lines
    && (start == 0 || (data[start - 1] == '\n' && Newlines(data[start..]) == lines))
  }

  lemma StartIsUnique(data: string, lines: nat, a: nat, b: nat)
    requires IsStart(data, lines, a) && IsStart(data, lines, b)
    ensures a == b
  {
    if a < b {
      StartsDiffer(data, lines, a, b);
    } else if b < a {
      StartsDiffer(data, lines, b, a);
    }
  }

  lemma StartsDiffer(data: string, lines: nat, a: nat, b: nat)
    requires a < b && IsStart(data, lines, b)
    ensures !IsStart(data, lines, a)
  {
    assert data[a..] == data[a..b] + data[b..];
    NewlinesAppend(data[a..b], data[b..]);
    assert data[a..b] == data[a..b - 1] + [data[b - 1]];
    NewlinesAppend(data[a..b - 1], [data[b - 1]]);
    assert Newlines([data[b - 1]]) == 1;
  }

  lemma OneMore(data: string, i: nat)
    requires i < |data|
    ensures Newlines(data[i..]) == Newlines(data[i + 1..]) + if data[i] == '\n' then 1 else 0
  {
    assert data[i..][1..] == data[i + 1..];
  }

  /** The backward scan, for any size of chunk. */
  method FindStart(data: string, lines: nat, chunkSize: nat) returns (position: nat)
    requires chunkSize > 0
    ensures IsStart(data, lines, position)
  {
    position := |data|;
    var count := 0;
    while position > 0 && count <= lines
      invariant position <= |data| && count == Newlines(data[position..]) <= lines
      decreases position
    {
      var chunk := if position > chunkSize then chunkSize else position;
      position := position - chunk;
      var buffer := data[position..position + chunk];
      var index := chunk;
      while index > 0
        invariant 0 <= index <= chunk
        invariant count == Newlines(data[position + index..]) <= lines
      {
        index := index - 1;
        OneMore(data, position + index);
        if buffer[index] == '\n' {
          count := count + 1;
          if count > lines {
            position := position + index + 1;
            return;
          }
        }
      }
      assert data[position + 0..] == data[position..];
    }
  }

  // ---------------------------------------------------------------------------
  // The segments
  // ---------------------------------------------------------------------------

  /** The text between newlines; the last segment is what follows the last newline. */
  function Segments(s: string): (r: seq<string>)
    decreases |s|
  {
    var k := LineEnd(s);
    if k == |s| then [s] else [s[..k]] + Segments(s[k + 1..])
  }

  function LineEnd(s: string): (k: nat)
    ensures k <= |s| && (k < |s| ==> s[k] == '\n') && forall i :: 0 <= i < k ==> s[i] != '\n'
  {
    if s == [] || s[0] == '\n' then 0 else 1 + LineEnd(s[1..])
  }

  function NonEmpty(segments: seq<string>): (r: seq<string>)
    ensures |r| <= |segments|
  {
    if segments == [] then []
    else (if segments[0] == [] then [] else [segments[0]]) + NonEmpty(segments[1..])
  }

  lemma {:induction false} NonEmptyCount(segments: seq<string>)
    ensures |NonEmpty(segments)| == |segments| <==> forall i :: 0 <= i < |segments| ==> segments[i] != []
  {
    if segments != [] {
      NonEmptyCount(segments[1..]);
      assert forall i :: 0 < i < |segments| ==> segments[i] == segments[1..][i - 1];
    }
  }

  /** `syseba_line_array_push` cuts carriage returns and newlines off the end. */
  function Chomp(s: string): string {
    if s != [] && (s[|s| - 1] == '\r' || s[|s| - 1] == '\n') then Chomp(s[..|s| - 1]) else s
  }

  function ChompAll(segments: seq<string>): (r: seq<string>)
    ensures |r| == |segments|
  {
    if segments == [] then [] else [Chomp(segments[0])] + ChompAll(segments[1..])
  }

  /** What the tail of a file is: the non-empty segments from the start on, without their line ends. */
  function TailOf(data: string, start: nat): seq<string>
    requires start <= |data|
  {
    LinesOf(data[start..])
  }

  method ChompLine(s: string) returns (r: string)
    ensures r == Chomp(s)
  {
    var length := |s|;
    assert s[..length] == s;
    while length > 0 && (s[length - 1] == '\r' || s[length - 1] == '\n')
      invariant 0 <= length <= |s| && Chomp(s[..length]) == Chomp(s)
    {
      assert s[..length][..length - 1] == s[..length - 1];
      length := length - 1;
    }
    return s[..length];
  }

  function LinesOf(text: string): seq<string> {
    ChompAll(NonEmpty(Segments(text)))
  }

  lemma ConsLine(line: string, rest: seq<string>)
    ensures ChompAll(NonEmpty([line] + rest)) == ThisLine(line) + ChompAll(NonEmpty(rest))
  {
    assert ([line] + rest)[1..] == rest;
    if line != [] {
      assert NonEmpty([line] + rest) == [line] + NonEmpty(rest);
      assert ([line] + NonEmpty(rest))[1..] == NonEmpty(rest);
    } else {
      assert [] + NonEmpty(rest) == NonEmpty(rest);
    }
  }

  function ThisLine(line: string): seq<string> {
    if line == [] then [] else [Chomp(line)]
  }

  lemma LastLine(s: string)
    requires LineEnd(s) == |s|
    ensures LinesOf(s) == ThisLine(s)
  {
    assert Segments(s) == [s];
    ConsLine(s, []);
    assert [s] + [] == [s];
  }

  lemma TakeLine(s: string, k: nat)
    requires k == LineEnd(s) < |s|
    ensures LinesOf(s) == ThisLine(s[..k]) + LinesOf(s[k + 1..])
  {
    FirstSegment(s, k);
    ConsLine(s[..k], Segments(s[k + 1..]));
  }

  lemma FirstSegment(s: string, k: nat)
    requires k == LineEnd(s) < |s|
    ensures Segments(s) == [s[..k]] + Segments(s[k + 1..])
  {
  }

  /** The loop that cuts the text into lines. */
  method CollectLines(text: string) returns (result: seq<string>)
    ensures result == LinesOf(text)
  {
    result := [];
    var rest := text;
    LastLine([]);
    while rest != []
      invariant result + LinesOf(rest) == LinesOf(text)
      decreases |rest|
    {
      var length := LineEnd(rest);
      var line := ThisLineOf(rest[..length]);
      if length == |rest| {
        AtLastLine(result, rest);
        result := result + line;
        rest := [];
      } else {
        BeforeMoreLines(result, rest, length);
        result := result + line;
        rest := rest[length + 1..];
      }
    }
  }

  lemma Regroup(a: seq<string>, b: seq<string>, c: seq<string>)
    ensures (a + b) + c == a + (b + c)
  {
  }

  lemma AtLastLine(result: seq<string>, rest: string)
    requires LineEnd(rest) == |rest|
    ensures result + ThisLine(rest[..|rest|]) + LinesOf([]) == result + LinesOf(rest)
  {
    assert rest[..|rest|] == rest;
    LastLine(rest);
    LastLine([]);
    Regroup(result, ThisLine(rest), []);
  }

  lemma BeforeMoreLines(result: seq<string>, rest: string, k: nat)
    requires k == LineEnd(rest) < |rest|
    ensures result + ThisLine(rest[..k]) + LinesOf(rest[k + 1..]) == result + LinesOf(rest)
  {
    TakeLine(rest, k);
    Regroup(result, ThisLine(rest[..k]), LinesOf(rest[k + 1..]));
  }

  /** An empty line is left out. */
  method ThisLineOf(line: string) returns (r: seq<string>)
    ensures r == ThisLine(line)
  {
    if line == [] {
      return [];
    }
    var chomped := ChompLine(line);
    return [chomped];
  }

  /** `syseba_log_tail`, with chunks of any size: 8192 in the code. */
  method Tail(data: string, lines: nat, chunkSize: nat) returns (result: seq<string>)
    requires chunkSize > 0
    ensures forall start: nat :: IsStart(data, lines, start) ==> result == TailOf(data, start)
  {
    var position := FindStart(data, lines, chunkSize);
    forall start: nat | IsStart(data, lines, start) ensures start == position {
      StartIsUnique(data, lines, start, position);
    }
    result := CollectLines(data[position..]);
  }

  // ---------------------------------------------------------------------------
  // How many lines
  // ---------------------------------------------------------------------------

  /** One newline more than in what follows the first line. */
  lemma {:induction false} NewlinesOfLines(s: string, k: nat)
    requires k == LineEnd(s)
    ensures Newlines(s) == if k < |s| then 1 + Newlines(s[k + 1..]) else 0
  {
    if s != [] && s[0] != '\n' {
      NewlinesOfLines(s[1..], k - 1);
      assert k < |s| ==> s[1..][k..] == s[k + 1..];
    }
  }

  lemma {:induction false} SegmentsCount(s: string)
    ensures |Segments(s)| == Newlines(s) + 1
    decreases |s|
  {
    var k := LineEnd(s);
    NewlinesOfLines(s, k);
    if k < |s| {
      SegmentsCount(s[k + 1..]);
    }
  }

  lemma {:induction false} LastSegmentEmpty(s: string)
    requires s == [] || s[|s| - 1] == '\n'
    ensures Segments(s)[|Segments(s)| - 1] == []
    decreases |s|
  {
    var k := LineEnd(s);
    if k < |s| {
      var rest := s[k + 1..];
      assert rest != [] ==> rest[|rest| - 1] == s[|s| - 1];
      LastSegmentEmpty(rest);
    }
  }

  /** A file that ends in a newline gives no more lines than asked for; another one at most one more. */
  lemma TailLength(data: string, lines: nat, start: nat)
    requires IsStart(data, lines, start)
    ensures |TailOf(data, start)| <= lines + 1
    ensures data == [] || data[|data| - 1] == '\n' ==> |TailOf(data, start)| <= lines
  {
    var text := data[start..];
    SegmentsCount(text);
    if data == [] || data[|data| - 1] == '\n' {
      assert text != [] ==> text[|text| - 1] == data[|data| - 1];
      LastSegmentEmpty(text);
      NonEmptyCount(Segments(text));
    }
  }

  /** The one more does occur, exactly when the file does not end in a newline, has that many
      newlines, and none of the segments is empty. */
  lemma OneLineTooMany(data: string, lines: nat, start: nat)
    requires IsStart(data, lines, start)
    ensures |TailOf(data, start)| == lines + 1 <==>
              Newlines(data[start..]) == lines && forall s :: s in Segments(data[start..]) ==> s != []
  {
    SegmentsCount(data[start..]);
    var segments := Segments(data[start..]);
    NonEmptyCount(segments);
    if forall s :: s in segments ==> s != [] {
      assert forall i :: 0 <= i < |segments| ==> segments[i] in segments;
    }
  }

  lemma OneLineTooManyExample()
    ensures IsStart("a\nb", 1, 0) && TailOf("a\nb", 0) == ["a", "b"]
  {
    var s := "a\nb";
    assert s[0..] == s && s[1..] == "\nb" && s[2..] == "b";
    assert LineEnd(s) == 1 && s[..1] == "a" && LineEnd("b") == 1;
    assert Segments(s) == ["a"] + Segments("b");
    assert Segments("b") == ["b"];
  }

  // ---------------------------------------------------------------------------
  // What the pieces mean
  // ---------------------------------------------------------------------------

  /** The segments with newlines between them. */
  function Joined(segments: seq<string>): string
    requires segments != []
  {
    if |segments| == 1 then segments[0] else segments[0] + "\n" + Joined(segments[1..])
  }

  /** The segments are the text between newlines: put together they are the text, and none has a newline inside. */
  lemma {:induction false} SegmentsAreTheText(s: string)
    ensures Segments(s) != [] && Joined(Segments(s)) == s
    ensures forall segment :: segment in Segments(s) ==> '\n' !in segment
    decreases |s|
  {
    var k := LineEnd(s);
    if k < |s| {
      SegmentsAreTheText(s[k + 1..]);
      assert Segments(s)[1..] == Segments(s[k + 1..]);
      assert s == s[..k] + "\n" + s[k + 1..];
    } else {
      assert s[..k] == s;
    }
  }

  /** Exactly the carriage returns and newlines at the end are cut off. */
  lemma {:induction false} ChompCuts(s: string)
    ensures Chomp(s) <= s && forall i :: |Chomp(s)| <= i < |s| ==> s[i] as int == 13 || s[i] as int == 10
    ensures Chomp(s) != [] ==> s[|Chomp(s)| - 1] as int != 13 && s[|Chomp(s)| - 1] as int != 10
  {
    if s != [] && (s[|s| - 1] == '\r' || s[|s| - 1] == '\n') {
      ChompCuts(s[..|s| - 1]);
    }
  }

  /** Exactly the empty segments are left out, and the others stay in their order. */
  lemma {:induction false} NonEmptyInParts(a: seq<string>, b: seq<string>, x: string)
    ensures NonEmpty(a + b) == NonEmpty(a) + NonEmpty(b)
    ensures NonEmpty([x]) == (if x == "" then [] else [x]) && NonEmpty([]) == []
  {
    assert [x][1..] == [];
    if a == [] {
      assert a + b == b;
    } else {
      assert (a + b)[1..] == a[1..] + b;
      NonEmptyInParts(a[1..], b, x);
    }
  }

  /** Every line that is kept is chomped, one by one. */
  lemma {:induction false} ChompEach(segments: seq<string>, i: nat)
    requires i < |segments|
    ensures ChompAll(segments)[i] == Chomp(segments[i])
  {
    if i > 0 {
      ChompEach(segments[1..], i - 1);
    }
  }

  /** If the file has more newlines than lines are asked for, exactly that many lines, and what follows the last
      newline, are looked at. */
  lemma ExactlyTheLastLines(data: string, lines: nat, start: nat)
    requires IsStart(data, lines, start) && Newlines(data) > lines
    ensures start > 0 && |Segments(data[start..])| == lines + 1
  {
    assert data[0..] == data;
    SegmentsCount(data[start..]);
  }
}
