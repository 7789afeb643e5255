/** Reading newline-delimited events from a child whose output arrives in
    arbitrary chunks (app/src-tauri/src/main.rs, read_bounded_line). */
module BoundedLine {
  import Sequences
  import opened Wrappers

  type Byte = bv8

  const NEWLINE: Byte := 10

  /** The first line of a stream, without its newline. */
  function TakeLine(s: seq<Byte>): (r: seq<Byte>)
    ensures |r| <= |s|
  {
    if s == [] || s[0] == NEWLINE then [] else [s[0]] + TakeLine(s[1..])
  }

  /** What follows the first line and its newline. */
  function DropLine(s: seq<Byte>): seq<Byte> {
    var n := |TakeLine(s)|;
    if n < |s| then s[n + 1..] else []
  }

  /** The lines of a stream; an unterminated last line counts when it is not empty. */
  function Split(s: seq<Byte>): seq<seq<Byte>>
    decreases |s|
  {
    if s == [] then [] else [TakeLine(s)] + Split(DropLine(s))
  }

  /** Every line followed by a newline. */
  function Join(lines: seq<seq<Byte>>): seq<Byte> {
    if lines == [] then [] else lines[0] + [NEWLINE] + Join(lines[1..])
  }

  /** What a reader bounded by `max` reports for a line. */
  function Bounded(line: seq<Byte>, max: nat): (bool, seq<Byte>) {
    if |line| <= max then (true, line) else (false, [])
  }

  function BoundedAll(lines: seq<seq<Byte>>, max: nat): seq<(bool, seq<Byte>)> {
    if lines == [] then [] else [Bounded(lines[0], max)] + BoundedAll(lines[1..], max)
  }

  function Flatten(chunks: seq<seq<Byte>>): seq<Byte> {
    if chunks == [] then [] else chunks[0] + Flatten(chunks[1..])
  }

  /** The line that begins with newline-free text `c`. */
  lemma {:induction false} TakeLineAfter(c: seq<Byte>, s: seq<Byte>)
    requires NEWLINE !in c
    ensures TakeLine(c + s) == c + TakeLine(s)
    ensures DropLine(c + s) == DropLine(s)
  {
    if c == [] {
      assert c + s == s;
    } else {
      assert (c + s)[1..] == c[1..] + s;
      TakeLineAfter(c[1..], s);
      assert [c[0]] + (c[1..] + TakeLine(s)) == c + TakeLine(s);
      var n := |TakeLine(s)|;
      if n < |s| {
        assert (c + s)[|c| + n + 1..] == s[n + 1..];
      }
    }
  }

  /** Splitting undoes joining, for every sequence of newline-free lines. */
  lemma {:induction false} SplitJoin(lines: seq<seq<Byte>>)
    requires forall i :: 0 <= i < |lines| ==> NEWLINE !in lines[i]
    ensures Split(Join(lines)) == lines
  {
    if lines != [] {
      LineFound(Join(lines), lines[0], Join(lines[1..]));
      SplitJoin(lines[1..]);
    }
  }

  /** The stream is the newline-free line, then a newline and the rest unless the line ends it. */
  predicate FirstOf(s: seq<Byte>, line: seq<Byte>, rest: seq<Byte>) {
    10 !in line && (s == line + [10] + rest || (s == line && rest == []))
  }

  /** A stream is its first line and the rest. */
  lemma {:induction false} FirstLine(s: seq<Byte>)
    ensures FirstOf(s, TakeLine(s), DropLine(s))
  {
    if s != [] && s[0] != NEWLINE {
      FirstLine(s[1..]);
      ConsLine(s[0], s[1..], TakeLine(s[1..]), DropLine(s[1..]));
    }
  }

  lemma ConsLine(b: Byte, s: seq<Byte>, line: seq<Byte>, rest: seq<Byte>)
    ensures s == line + [NEWLINE] + rest ==>
      [b] + s == [b] + line + [NEWLINE] + rest && ([b] + s)[|[b] + line| + 1..] == rest
  {
  }

  lemma SplitFirst(s: seq<Byte>)
    requires s != []
    ensures Split(s) == [TakeLine(s)] + Split(DropLine(s))
    ensures Join(Split(s)) == TakeLine(s) + [NEWLINE] + Join(Split(DropLine(s)))
  {
    assert ([TakeLine(s)] + Split(DropLine(s)))[1..] == Split(DropLine(s));
  }

  /** The stream with the newline that its last line may lack. */
  function Terminated(s: seq<Byte>): seq<Byte> {
    if s == [] || s[|s| - 1] == NEWLINE then s else s + [NEWLINE]
  }

  /** Joining undoes splitting, up to the newline that a last line may lack. */
  lemma {:induction false} JoinSplit(s: seq<Byte>)
    ensures Join(Split(s)) == Terminated(s)
    decreases |s|
  {
    if s != [] {
      var line, rest := TakeLine(s), DropLine(s);
      FirstLine(s);
      SplitFirst(s);
      if |line| < |s| {
        JoinSplit(rest);
        TerminatedRest(line, rest);
      } else {
        TerminatedLast(s);
      }
    }
  }

  lemma TerminatedRest(line: seq<Byte>, rest: seq<Byte>)
    ensures Terminated(line + [NEWLINE] + rest) == line + [NEWLINE] + Terminated(rest)
  {
    var s := line + [NEWLINE] + rest;
    if rest == [] {
      assert s == line + [NEWLINE];
    } else {
      assert s[|s| - 1] == rest[|rest| - 1];
      assert s + [NEWLINE] == line + [NEWLINE] + (rest + [NEWLINE]);
    }
  }

  lemma TerminatedLast(s: seq<Byte>)
    requires s != [] && NEWLINE !in s
    ensures Terminated(s) == s + [NEWLINE] + []
  {
    assert s[|s| - 1] in s;
  }

  /** The lines after a complete line do not depend on that line, which is reported as it is
      when it fits and as refused when it does not. */
  lemma OversizeLineIsIsolated(line: seq<Byte>, s: seq<Byte>, max: nat)
    requires 10 !in line
    ensures BoundedAll(Split(line + [10] + s), max) ==
      [if |line| <= max then (true, line) else (false, [])] + BoundedAll(Split(s), max)
  {
    LineFound(line + [NEWLINE] + s, line, s);
    BoundedFirst(line, Split(s), max);
  }

  /** A buffered reader: the bytes already read and the chunks the pipe will deliver.
      An empty read means end of file, so chunks are not empty. */
  class BufReader {
    var buffer: seq<Byte>
    var source: seq<seq<Byte>>

    ghost predicate Valid()
      reads this
    {
      forall i :: 0 <= i < |source| ==> source[i] != []
    }

    ghost function Remaining(): seq<Byte>
      reads this
    {
      buffer + Flatten(source)
    }

    constructor (chunks: seq<seq<Byte>>)
      requires forall i :: 0 <= i < |chunks| ==> chunks[i] != []
      ensures Valid() && Remaining() == Flatten(chunks)
    {
      buffer := [];
      source := chunks;
    }

    method FillBuf() returns (chunk: seq<Byte>)
      requires Valid()
      modifies this
      ensures Valid() && Remaining() == old(Remaining())
      ensures chunk == buffer && chunk <= Remaining() && (chunk == [] ==> Remaining() == [])
    {
      if buffer == [] && source != [] {
        buffer := source[0];
        source := source[1..];
      }
      chunk := buffer;
    }

    method Consume(n: nat)
      requires Valid() && n <= |buffer|
      modifies this`buffer
      ensures Valid() && buffer == old(buffer)[n..]
      ensures Remaining() == old(Remaining())[n..]
    {
      buffer := buffer[n..];
    }
  }

  /** The index of the first newline. */
  function Position(s: seq<Byte>): (r: Option<nat>)
    ensures r.Some? ==> r.value < |s| && s[r.value] == NEWLINE && NEWLINE !in s[..r.value]
    ensures r.None? ==> NEWLINE !in s
  {
    if s == [] then None
    else if s[0] == NEWLINE then Some(0)
    else match Position(s[1..])
      case None => None
      case Some(n) =>
        assert s[..n + 1] == [s[0]] + s[1..][..n];
        Some(n + 1)
  }

  /** None at the end of the stream; otherwise whether the line was accepted, which it is
      exactly when the first line of the stream has at most `max` bytes. The contract speaks
      of the remaining stream only: the chunking does not matter. */
  method ReadBoundedLine(reader: BufReader, max: nat) returns (result: Option<bool>, line: seq<Byte>)
    requires reader.Valid()
    modifies reader
    ensures reader.Valid()
    ensures result.None? <==> old(reader.Remaining()) == []
    ensures result.None? ==> line == [] && reader.Remaining() == []
    ensures result.Some? ==>
      var first := TakeLine(old(reader.Remaining()));
      && FirstOf(old(reader.Remaining()), first, reader.Remaining())
      && (result.value <==> |first| <= max)
      && line == (if result.value then first else [])
      && reader.Remaining() == DropLine(old(reader.Remaining()))
  {
    FirstLine(reader.Remaining());
    line := [];
    var accepted := true;
    ghost var whole := reader.Remaining();
    ghost var passed: seq<Byte> := [];
    while true
      invariant reader.Valid()
      invariant NEWLINE !in passed && whole == passed + reader.Remaining()
      invariant (accepted, line) == Bounded(passed, max)
      decreases |reader.Remaining()|
    {
      var chunk := reader.FillBuf();
      if chunk == [] {
        WholeLine(whole, passed);
        if line == [] && accepted {
          return None, line;
        }
        return Some(accepted), line;
      }
      var newline := Position(chunk);
      var contentLen := if newline.Some? then newline.value else |chunk|;
      var consumed := if newline.Some? then newline.value + 1 else |chunk|;
      ghost var before, piece := reader.Remaining(), chunk[..contentLen];
      assert chunk <= before;
      assert piece == before[..contentLen];
      GrowLine(accepted, line, passed, piece, max);
      if accepted {
        var remaining := if max >= |line| then max - |line| else 0;
        if contentLen <= remaining {
          line := line + chunk[..contentLen];
        } else {
          line := [];
          accepted := false;
        }
      }
      reader.Consume(consumed);
      if newline.Some? {
        LineEnds(whole, passed, before, piece, contentLen);
        return Some(accepted), line;
      }
      Advance(whole, passed, before, |chunk|);
      passed := passed + piece;
    }
  }

  /** Accepting a piece, or refusing it, leaves the bounded form of the longer line. */
  lemma GrowLine(accepted: bool, line: seq<Byte>, passed: seq<Byte>, piece: seq<Byte>, max: nat)
    requires (accepted, line) == Bounded(passed, max)
    ensures Bounded(passed + piece, max) ==
      if accepted && |piece| <= (if max >= |line| then max - |line| else 0) then (true, line + piece) else (false, [])
  {
  }

  lemma Advance(whole: seq<Byte>, passed: seq<Byte>, before: seq<Byte>, n: nat)
    requires n <= |before| && whole == passed + before
    ensures whole == passed + before[..n] + before[n..]
  {
    assert before == before[..n] + before[n..];
  }

  lemma LineEnds(whole: seq<Byte>, passed: seq<Byte>, before: seq<Byte>, piece: seq<Byte>, n: nat)
    requires n < |before| && whole == passed + before && before[n] == NEWLINE && piece == before[..n]
    requires NEWLINE !in passed && NEWLINE !in piece
    ensures TakeLine(whole) == passed + piece && DropLine(whole) == before[n + 1..]
  {
    assert before == piece + [NEWLINE] + before[n + 1..];
    assert whole == passed + piece + [NEWLINE] + before[n + 1..];
    LineFound(whole, passed + piece, before[n + 1..]);
  }

  lemma WholeLine(s: seq<Byte>, line: seq<Byte>)
    requires NEWLINE !in line && s == line + []
    ensures s == line && TakeLine(s) == line && DropLine(s) == []
  {
    TakeLineAfter(line, []);
  }

  lemma LineFound(whole: seq<Byte>, line: seq<Byte>, rest: seq<Byte>)
    requires NEWLINE !in line && whole == line + [NEWLINE] + rest
    ensures TakeLine(whole) == line && DropLine(whole) == rest
  {
    var tail := [NEWLINE] + rest;
    assert whole == line + tail;
    TakeLineAfter(line, tail);
    assert tail[1..] == rest;
  }

  lemma BoundedFirst(line: seq<Byte>, lines: seq<seq<Byte>>, max: nat)
    ensures BoundedAll([line] + lines, max) == [Bounded(line, max)] + BoundedAll(lines, max)
  {
    assert ([line] + lines)[1..] == lines;
  }

  /** One more report. */
  lemma ReportFirst(reports: seq<(bool, seq<Byte>)>, s: seq<Byte>, max: nat)
    requires s != []
    ensures reports + BoundedAll(Split(s), max)
         == reports + [Bounded(TakeLine(s), max)] + BoundedAll(Split(DropLine(s)), max)
  {
    SplitFirst(s);
    BoundedFirst(TakeLine(s), Split(DropLine(s)), max);
    Sequences.Regroup(reports, Bounded(TakeLine(s), max), BoundedAll(Split(DropLine(s)), max));
  }

  lemma {:induction false} BoundedAt(lines: seq<seq<Byte>>, max: nat)
    ensures |BoundedAll(lines, max)| == |lines|
    ensures forall i :: 0 <= i < |lines| ==>
      BoundedAll(lines, max)[i] == if |lines[i]| <= max then (true, lines[i]) else (false, [])
  {
    if lines != [] {
      BoundedAt(lines[1..], max);
    }
  }

  /** The reading loop of stream_pipeline and stream_setup: whatever the chunks, the reports
      are those of splitting the whole output, a line being accepted exactly when it has at
      most `max` bytes. */
  method ReadAll(reader: BufReader, max: nat) returns (reports: seq<(bool, seq<Byte>)>)
    requires reader.Valid()
    modifies reader
    ensures var lines := Split(old(reader.Remaining()));
      && |reports| == |lines|
      && forall i :: 0 <= i < |lines| ==>
          reports[i] == if |lines[i]| <= max then (true, lines[i]) else (false, [])
  {
    BoundedAt(Split(reader.Remaining()), max);
    reports := [];
    ghost var whole := reader.Remaining();
    ghost var rest := whole;
    var result, line := ReadBoundedLine(reader, max);
    while result.Some?
      invariant reader.Valid()
      invariant result.None? <==> rest == []
      invariant result.Some? ==>
        (result.value, line) == Bounded(TakeLine(rest), max) && reader.Remaining() == DropLine(rest)
      invariant reports + BoundedAll(Split(rest), max) == BoundedAll(Split(whole), max)
      decreases |rest|
    {
      ReportFirst(reports, rest, max);
      reports := reports + [(result.value, line)];
      rest := reader.Remaining();
      result, line := ReadBoundedLine(reader, max);
    }
    assert Split(rest) == [];
  }
}
