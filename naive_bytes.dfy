/**
 * The `NaiveBytes` pipeline: the file comes in blocks, each block is put
 * after the bytes the last one left over, everything up to the last `\n`
 * goes to `ParseBuffer`, and `ParseBuffer` turns each line it holds into a
 * reading for a `ByteResult`. What the methods compute is stated with the
 * functions of `NaiveLines`.
 */
module NaiveBytes {
  import opened Bytes
  import opened StationReading
  import opened Stations
  import opened ByteResults
  import opened NaiveLines

  /**
   * `ParseBuffer`: every `\n` ends a line that starts after the one before;
   * a `\r` just before the `\n` is dropped, an empty line is skipped, and
   * each other line is added as a reading. Bytes after the last `\n` are
   * not read.
   */
  method ParseBuffer(buf: seq<byte>, result: ByteResult)
    requires Parsable(Lines(buf))
    modifies result
    ensures result.inputs == old(result.inputs) + |Lines(buf)|
    ensures result.stations == AbsorbAll(old(result.stations), Readings(Lines(buf)))
    ensures old(result.Valid()) ==> result.Valid()
  {
    ghost var i0, s0, v0 := result.inputs, result.stations, result.Valid();
    var lineStart := 0;
    assert buf[..0] == [];
    for i := 0 to |buf|
      invariant Scanned(buf, i, lineStart, result.inputs - i0, result.stations, s0)
      invariant v0 ==> result.Valid()
    {
      if buf[i] == NEWLINE {
        EndOfLine(buf, i, lineStart, result, i0, s0);
        lineStart := i + 1;
      } else {
        ExtendLine(buf, i, lineStart, result.inputs - i0, result.stations, s0);
      }
    }
    assert buf[..|buf|] == buf;
  }

  /** The `\n` at `i` ends the line from `lineStart`: a `\r` before it is dropped, and the line is added unless it is empty. */
  method EndOfLine(buf: seq<byte>, i: nat, lineStart: nat, result: ByteResult, ghost i0: int, ghost s0: map<int, ByteStation>)
    requires i < |buf| && buf[i] == NEWLINE && Parsable(Lines(buf))
    requires Scanned(buf, i, lineStart, result.inputs - i0, result.stations, s0)
    modifies result
    ensures Scanned(buf, i + 1, i + 1, result.inputs - i0, result.stations, s0)
    ensures old(result.Valid()) ==> result.Valid()
  {
    EndLine(buf, i, lineStart, result.inputs - i0, result.stations, s0);
    var lineEnd := i;
    if lineEnd > lineStart && buf[lineEnd - 1] == RETURN {
      lineEnd := lineEnd - 1;
    }
    var line := buf[lineStart..lineEnd];
    TrimReturn(buf, lineStart, i, lineEnd);
    if |line| > 0 {
      var reading := FromBytes(line);
      result.Add(reading);
    }
  }

  /**
   * The cut `NaiveBytes` makes in the leftover followed by a new read: up
   * to and including the last `\n` is parsed now, the rest is carried
   * over; with no `\n` nothing is parsed and everything is carried over.
   */
  method CutAtLastNewline(leftover: seq<byte>, chunk: seq<byte>) returns (parse: seq<byte>, rest: seq<byte>)
    ensures parse + rest == leftover + chunk
    ensures NEWLINE !in rest
    ensures parse == [] || parse[|parse| - 1] == NEWLINE
    ensures |parse| == CutPoint(leftover + chunk)
  {
    var combined := leftover + chunk;
    var lastNewline := -1;
    var i := |combined| - 1;
    while i >= 0
      invariant -1 <= i < |combined| && lastNewline == -1
      invariant NEWLINE !in combined[i + 1..]
    {
      if combined[i] == NEWLINE {
        lastNewline := i;
        break;
      }
      assert combined[i..] == [combined[i]] + combined[i + 1..];
      i := i - 1;
    }
    if lastNewline == -1 {
      parse, rest := [], combined;
    } else {
      rest := [];
      if lastNewline + 1 < |combined| {
        rest := combined[lastNewline + 1..];
      }
      parse := combined[..lastNewline + 1];
    }
    CutAt(parse, rest);
  }

  /**
   * The read loop of `NaiveBytes`, with `file.Read`'s results given as
   * `blocks` and each `ParseBuffer` run as soon as its cut is made: the
   * table ends up with every line of the file, and the last line is read
   * even without a `\n`.
   */
  method NaiveBytes(blocks: seq<seq<byte>>, result: ByteResult)
    requires Parsable(AllLines(Concat(blocks)))
    modifies result
    ensures result.inputs == old(result.inputs) + |AllLines(Concat(blocks))|
    ensures result.stations == AbsorbAll(old(result.stations), Readings(AllLines(Concat(blocks))))
    ensures old(result.Valid()) ==> result.Valid()
  {
    ghost var file := Concat(blocks);
    ghost var i0, s0, v0 := result.inputs, result.stations, result.Valid();
    var leftover: seq<byte> := [];
    assert blocks[..0] == [];
    for k := 0 to |blocks|
      invariant leftover == Pending(Concat(blocks[..k]))
      invariant Parsable(Lines(Concat(blocks[..k])))
      invariant result.inputs == i0 + |Lines(Concat(blocks[..k]))|
      invariant result.stations == AbsorbAll(s0, Readings(Lines(Concat(blocks[..k]))))
      invariant v0 ==> result.Valid()
    {
      var parse, rest := CutAtLastNewline(leftover, blocks[k]);
      BlockStep(blocks, k, parse, rest, s0);
      ParseBuffer(parse, result);
      leftover := rest;
    }
    assert blocks[..|blocks|] == blocks;
    Finish(file, s0);
    if |leftover| > 0 {
      var reading := FromBytes(leftover);
      result.Add(reading);
    }
  }
}
