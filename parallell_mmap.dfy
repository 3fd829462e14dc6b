/**
 * `splitFile` of the `ParallellMmap` pipeline: the file is cut into
 * `chunks` pieces of about the same size, each cut moved forward to just
 * after the next `\n`, so that every line lies whole in one piece.
 */
module ParallellMmap {
  import opened Bytes
  import opened NaiveLines

  /** Where scanning forward from `p` stops: just after the first `\n` at or after `p`, or at the end of the file. */
  function NextLineStart(file: seq<byte>, p: nat): (r: nat)
    requires p <= |file|
    ensures p <= r <= |file|
    ensures r == p <==> p == |file|
    ensures r > p ==> NEWLINE !in file[p..r - 1]
    ensures r > p ==> file[r - 1] == NEWLINE || r == |file|
    decreases |file| - p
  {
    if p == |file| then p
    else if file[p] == NEWLINE then p + 1
    else
      var r := NextLineStart(file, p + 1);
      assert r > p + 1 ==> file[p..r - 1] == [file[p]] + file[p + 1..r - 1];
      r
  }

  /** Scanning from later never stops earlier. */
  lemma {:induction false} NextMonotone(file: seq<byte>, p: nat, q: nat)
    requires p <= q <= |file|
    ensures NextLineStart(file, p) <= NextLineStart(file, q)
    decreases q - p
  {
    if p < q && file[p] != NEWLINE {
      NextMonotone(file, p + 1, q);
    }
  }

  /** `s` is where a line starts: at the start or the end of the file, or just after a `\n`. */
  predicate AtLineStart(file: seq<byte>, s: nat)
  {
    s == 0 || s == |file| || (s < |file| && file[s - 1] == NEWLINE)
  }

  /** The `i`-th share of the file, `i * (size / chunks)`, lies inside the file. */
  lemma Scaled(size: nat, chunks: nat, i: nat)
    requires 0 < chunks && i <= chunks
    ensures 0 <= i * (size / chunks) <= size
  {
    var q := size / chunks;
    assert chunks * q <= size;
    assert i * q <= chunks * q by {
      MulLeft(i, chunks, q);
    }
  }

  lemma {:induction false} MulLeft(a: nat, b: nat, q: nat)
    requires a <= b
    ensures a * q <= b * q
    decreases b - a
  {
    if a < b {
      MulLeft(a + 1, b, q);
      assert (a + 1) * q == a * q + q;
    }
  }

  /**
   * Where piece `i` starts: the first at 0, the one past the last at the
   * end of the file, every other just after the first `\n` at or after
   * its share `i * (size / chunks)`.
   */
  function ChunkStart(file: seq<byte>, chunks: nat, i: nat): (s: nat)
    requires 0 < chunks && i <= chunks
    ensures s <= |file| && AtLineStart(file, s)
    ensures i == 0 ==> s == 0
    ensures i == chunks ==> s == |file|
    ensures 0 < i < chunks ==> i * (|file| / chunks) <= s
  {
    if i == 0 then 0
    else if i == chunks then |file|
    else
      Scaled(|file|, chunks, i);
      NextLineStart(file, i * (|file| / chunks))
  }

  /** The pieces follow each other: no piece starts before the one before it. */
  lemma StartsMonotone(file: seq<byte>, chunks: nat, i: nat)
    requires 0 < chunks && i < chunks
    ensures ChunkStart(file, chunks, i) <= ChunkStart(file, chunks, i + 1)
  {
    if 0 < i && i + 1 < chunks {
      var size, q := |file|, |file| / chunks;
      Scaled(size, chunks, i);
      Scaled(size, chunks, i + 1);
      assert i * q <= (i + 1) * q by {
        MulLeft(i, i + 1, q);
      }
      NextMonotone(file, i * q, (i + 1) * q);
    }
  }

  /** Piece `i` of the file: it is empty, ends with a `\n`, or runs to the end of the file. */
  function Piece(file: seq<byte>, chunks: nat, i: nat): (p: seq<byte>)
    requires 0 < chunks && i < chunks
    ensures |p| == ChunkStart(file, chunks, i + 1) - ChunkStart(file, chunks, i)
    ensures p == [] || p[|p| - 1] == NEWLINE || ChunkStart(file, chunks, i + 1) == |file|
  {
    StartsMonotone(file, chunks, i);
    file[ChunkStart(file, chunks, i)..ChunkStart(file, chunks, i + 1)]
  }

  /** The lines of each piece read one after another, as `ParseBuffer` reads them. */
  function LinesOf(pieces: seq<seq<byte>>): seq<seq<byte>>
  {
    if pieces == [] then [] else LinesOf(pieces[..|pieces| - 1]) + Lines(pieces[|pieces| - 1])
  }

  /**
   * `splitFile`, with the mapped file given as `file`: the starts are
   * found with one byte read at a time, then each piece is read out
   * between its start and the next. The pieces make up the file, and
   * reading the lines of each piece reads the lines of the file.
   */
  method SplitFile(file: seq<byte>, chunks: int) returns (result: seq<seq<byte>>)
    requires chunks > 0
    ensures |result| == chunks
    ensures forall i :: 0 <= i < chunks ==> result[i] == Piece(file, chunks, i)
    ensures Concat(result) == file
    ensures LinesOf(result) == Lines(file)
  {
    var size := |file|;
    var chunkSize := size / chunks;
    var chunkStarts := new int[chunks + 1];
    chunkStarts[0] := 0;
    chunkStarts[chunks] := size;
    for i := 1 to chunks
      invariant chunkStarts[0] == 0 && chunkStarts[chunks] == size
      invariant forall j :: 0 < j < i ==> chunkStarts[j] == ChunkStart(file, chunks, j)
    {
      Scaled(size, chunks, i);
      var pos := i * chunkSize;
      ghost var target := NextLineStart(file, pos);
      while pos < size
        invariant i * chunkSize <= pos <= size
        invariant NextLineStart(file, pos) == target
      {
        if file[pos] == NEWLINE {
          pos := pos + 1;
          assert pos == target;
          break;
        }
        pos := pos + 1;
      }
      chunkStarts[i] := pos;
    }
    var pieces := new seq<byte>[chunks];
    for i := 0 to chunks
      invariant forall j :: 0 <= j <= chunks ==> chunkStarts[j] == ChunkStart(file, chunks, j)
      invariant forall j :: 0 <= j < i ==> pieces[j] == Piece(file, chunks, j)
    {
      var start := chunkStarts[i];
      var end := chunkStarts[i + 1];
      StartsMonotone(file, chunks, i);
      var length := end - start;
      pieces[i] := file[start..start + length];
    }
    result := pieces[..];
    PiecesJoin(file, chunks, result, chunks);
    assert result[..chunks] == result && file[..size] == file;
  }

  /**
   * The first `k` pieces make up the file up to where piece `k` starts,
   * and their lines are the lines of that part of the file.
   */
  lemma {:induction false} PiecesJoin(file: seq<byte>, chunks: nat, pieces: seq<seq<byte>>, k: nat)
    requires 0 < chunks && k <= chunks == |pieces|
    requires forall i :: 0 <= i < chunks ==> pieces[i] == Piece(file, chunks, i)
    ensures Concat(pieces[..k]) == file[..ChunkStart(file, chunks, k)]
    ensures LinesOf(pieces[..k]) == Lines(file[..ChunkStart(file, chunks, k)])
  {
    if k == 0 {
      assert pieces[..0] == [];
    } else {
      PiecesJoin(file, chunks, pieces, k - 1);
      StartsMonotone(file, chunks, k - 1);
      PieceStep(file, pieces, k, ChunkStart(file, chunks, k - 1), ChunkStart(file, chunks, k));
    }
  }

  /** One piece more, starting where a line starts, extends the bytes and the lines read so far. */
  lemma PieceStep(file: seq<byte>, pieces: seq<seq<byte>>, k: nat, a: nat, b: nat)
    requires 0 < k <= |pieces| && a <= b <= |file| && AtLineStart(file, a)
    requires pieces[k - 1] == file[a..b]
    requires Concat(pieces[..k - 1]) == file[..a] && LinesOf(pieces[..k - 1]) == Lines(file[..a])
    ensures Concat(pieces[..k]) == file[..b] && LinesOf(pieces[..k]) == Lines(file[..b])
  {
    assert pieces[..k][..k - 1] == pieces[..k - 1];
    assert file[..b] == file[..a] + file[a..b];
    LinesAfterLineStart(file, a, b);
  }

  /** Cutting the file where a line starts splits its lines between the two parts. */
  lemma LinesAfterLineStart(file: seq<byte>, a: nat, b: nat)
    requires a <= b <= |file| && AtLineStart(file, a)
    ensures Lines(file[..a] + file[a..b]) == Lines(file[..a]) + Lines(file[a..b])
  {
    var before, piece := file[..a], file[a..b];
    if a == |file| {
      assert piece == [] && before + piece == before;
      assert Lines(piece) == [];
      assert Lines(before) + [] == Lines(before);
    } else {
      assert before == [] || before[|before| - 1] == NEWLINE;
      SegmentsAppend(before, piece);
      KeptAppend(Segments(before), Segments(piece));
    }
  }
}
