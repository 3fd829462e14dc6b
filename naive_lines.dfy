/**
 * The lines of a byte buffer as the `NaiveBytes` pipeline reads them: cut
 * at each `\n`, a `\r` before it dropped, empty lines skipped; and how
 * reading a file in cuts reads the same lines as reading it in one go.
 */
module NaiveLines {
  import opened Bytes
  import opened StationReading
  import opened Stations
  import opened ByteResults

  /** The bytes after the last `\n` of `buf`, or all of `buf` when it has none: the line still open. */
  function Pending(buf: seq<byte>): (p: seq<byte>)
    ensures NEWLINE !in p
  {
    if buf == [] then []
    else if buf[|buf| - 1] == NEWLINE then []
    else Pending(buf[..|buf| - 1]) + [buf[|buf| - 1]]
  }

  /** The lines of `buf` that a `\n` ends, in order, each without its `\n`. */
  function Segments(buf: seq<byte>): seq<seq<byte>>
  {
    if buf == [] then []
    else if buf[|buf| - 1] == NEWLINE then Segments(buf[..|buf| - 1]) + [Pending(buf[..|buf| - 1])]
    else Segments(buf[..|buf| - 1])
  }

  /** Lines written out, each followed by its `\n`. */
  function Join(segs: seq<seq<byte>>): (j: seq<byte>)
    ensures j == [] || j[|j| - 1] == NEWLINE
  {
    if segs == [] then [] else Join(segs[..|segs| - 1]) + segs[|segs| - 1] + [NEWLINE]
  }

  /** A line with the `\r` of a Windows line ending dropped. */
  function Line(seg: seq<byte>): (l: seq<byte>)
    ensures l + [RETURN] == seg <==> seg != [] && seg[|seg| - 1] == RETURN
    ensures l == seg || l + [RETURN] == seg
  {
    if seg != [] && seg[|seg| - 1] == RETURN then seg[..|seg| - 1] else seg
  }

  /** The lines that are not empty once their `\r` is dropped. */
  function Kept(segs: seq<seq<byte>>): (r: seq<seq<byte>>)
    ensures |r| <= |segs|
    ensures forall i :: 0 <= i < |r| ==> r[i] != []
  {
    if segs == [] then []
    else
      var l := Line(segs[|segs| - 1]);
      Kept(segs[..|segs| - 1]) + (if l == [] then [] else [l])
  }

  /** The lines `ParseBuffer` reads from `buf`. */
  function Lines(buf: seq<byte>): seq<seq<byte>>
  {
    Kept(Segments(buf))
  }

  /** Every line has a `;` that is not its last byte; otherwise reading it panics. */
  predicate Parsable(lines: seq<seq<byte>>)
  {
    forall i :: 0 <= i < |lines| ==> Splittable(lines[i])
  }

  /** The readings the lines decode to, in order. */
  function Readings(lines: seq<seq<byte>>): (rs: seq<ByteStationReading>)
    requires Parsable(lines)
    ensures |rs| == |lines|
  {
    if lines == [] then []
    else Readings(lines[..|lines| - 1]) + [Decode(lines[|lines| - 1])]
  }

  /** Cutting `buf` at its `\n`s and writing the lines out again gives `buf` back. */
  lemma {:induction false} SegmentsJoin(buf: seq<byte>)
    ensures Join(Segments(buf)) + Pending(buf) == buf
    ensures forall i :: 0 <= i < |Segments(buf)| ==> NEWLINE !in Segments(buf)[i]
  {
    if buf != [] {
      var init := buf[..|buf| - 1];
      SegmentsJoin(init);
      if buf[|buf| - 1] == NEWLINE {
        var segs := Segments(buf);
        assert segs[..|segs| - 1] == Segments(init);
      }
    }
  }

  /** Bytes with no `\n` after `buf` end no line: they only extend the open one. */
  lemma {:induction false} TailIgnored(buf: seq<byte>, t: seq<byte>)
    requires NEWLINE !in t
    ensures Segments(buf + t) == Segments(buf)
    ensures Pending(buf + t) == Pending(buf) + t
    decreases |t|
  {
    if t == [] {
      assert buf + t == buf;
    } else {
      var u := t[..|t| - 1];
      assert (buf + t)[..|buf + t| - 1] == buf + u;
      assert t[|t| - 1] in t;
      TailIgnored(buf, u);
      assert u + [t[|t| - 1]] == t;
    }
  }

  /** After a `\n` (or at the start) the lines of what follows are read on their own. */
  lemma {:induction false} SegmentsAppend(a: seq<byte>, b: seq<byte>)
    requires a == [] || a[|a| - 1] == NEWLINE
    ensures Segments(a + b) == Segments(a) + Segments(b)
    ensures Pending(a + b) == Pending(b)
    decreases |b|
  {
    if b == [] {
      assert a + b == a;
    } else {
      var u := b[..|b| - 1];
      assert (a + b)[..|a + b| - 1] == a + u;
      SegmentsAppend(a, u);
      if b[|b| - 1] == NEWLINE {
        assert Segments(b)[..|Segments(b)| - 1] == Segments(u);
      }
    }
  }

  /** The other direction of `SegmentsJoin`: lines without `\n` written out are cut back into the same lines. */
  lemma {:induction false} JoinSegments(segs: seq<seq<byte>>, t: seq<byte>)
    requires forall i :: 0 <= i < |segs| ==> NEWLINE !in segs[i]
    requires NEWLINE !in t
    ensures Segments(Join(segs) + t) == segs && Pending(Join(segs) + t) == t
    decreases |segs|
  {
    if segs == [] {
      TailIgnored([], t);
      assert [] + t == t;
    } else {
      var init, s := segs[..|segs| - 1], segs[|segs| - 1];
      var j := Join(segs);
      assert Segments(j) == segs && Pending(j) == [] by {
        JoinSegments(init, []);
        assert Join(init) + [] == Join(init);
        TailIgnored(Join(init), s);
        assert [] + s == s;
        assert Pending(Join(init) + s) == s;
        assert Segments(Join(init) + s) == init;
        assert j[..|j| - 1] == Join(init) + s;
        assert Segments(j) == init + [s];
        assert segs == init + [s];
      }
      TailIgnored(j, t);
    }
  }

  lemma {:induction false} KeptAppend(a: seq<seq<byte>>, b: seq<seq<byte>>)
    ensures Kept(a + b) == Kept(a) + Kept(b)
    decreases |b|
  {
    if b == [] {
      assert a + b == a;
    } else {
      assert (a + b)[..|a + b| - 1] == a + b[..|b| - 1];
      KeptAppend(a, b[..|b| - 1]);
    }
  }

  lemma {:induction false} ReadingsAppend(a: seq<seq<byte>>, b: seq<seq<byte>>)
    requires Parsable(a) && Parsable(b)
    ensures Parsable(a + b) && Readings(a + b) == Readings(a) + Readings(b)
    decreases |b|
  {
    if b == [] {
      assert a + b == a;
    } else {
      var u := b[..|b| - 1];
      assert (a + b)[..|a + b| - 1] == a + u;
      ReadingsAppend(a, u);
    }
  }

  lemma {:induction false} AbsorbAllAppend(m: map<int, ByteStation>, a: seq<ByteStationReading>, b: seq<ByteStationReading>)
    ensures AbsorbAll(m, a + b) == AbsorbAll(AbsorbAll(m, a), b)
    decreases |b|
  {
    if b == [] {
      assert a + b == a;
    } else {
      assert (a + b)[..|a + b| - 1] == a + b[..|b| - 1];
      AbsorbAllAppend(m, a, b[..|b| - 1]);
    }
  }

  /** One byte more: a `\n` ends the open line, and the line is read if it is not empty. */
  lemma LinesSnoc(p: seq<byte>, b: byte)
    ensures Pending(p + [b]) == if b == NEWLINE then [] else Pending(p) + [b]
    ensures Lines(p + [b])
      == Lines(p) + if b == NEWLINE && Line(Pending(p)) != [] then [Line(Pending(p))] else []
  {
    assert (p + [b])[..|p|] == p;
    if b == NEWLINE {
      var segs := Segments(p + [b]);
      assert segs[..|segs| - 1] == Segments(p);
    }
  }

  /** The lines of a prefix of `buf` are the first lines of `buf`. */
  lemma {:induction false} LinesPrefix(buf: seq<byte>, j: nat)
    requires j <= |buf|
    ensures Lines(buf[..j]) <= Lines(buf)
    decreases |buf| - j
  {
    if j == |buf| {
      assert buf[..j] == buf;
    } else {
      LinesPrefix(buf, j + 1);
      assert buf[..j + 1] == buf[..j] + [buf[j]];
      LinesSnoc(buf[..j], buf[j]);
    }
  }

  lemma ParsablePrefix(buf: seq<byte>, j: nat)
    requires j <= |buf| && Parsable(Lines(buf))
    ensures Parsable(Lines(buf[..j]))
  {
    LinesPrefix(buf, j);
    var short := Lines(buf[..j]);
    forall i | 0 <= i < |short|
      ensures Splittable(short[i])
    {
      assert short[i] == Lines(buf)[i];
    }
  }

  /**
   * The loop of `ParseBuffer` after the first `i` bytes: the open line
   * starts at `lineStart`, and `n` readings, those of the lines ended so
   * far, have been added to `s0` to give `m`.
   */
  ghost predicate Scanned(buf: seq<byte>, i: nat, lineStart: nat, n: int, m: map<int, ByteStation>, s0: map<int, ByteStation>)
  {
    lineStart <= i <= |buf| && buf[lineStart..i] == Pending(buf[..i])
    && Parsable(Lines(buf[..i]))
    && n == |Lines(buf[..i])|
    && m == AbsorbAll(s0, Readings(Lines(buf[..i])))
  }

  /** A byte other than `\n` extends the open line and ends none. */
  lemma ExtendLine(buf: seq<byte>, i: nat, lineStart: nat, n: int, m: map<int, ByteStation>, s0: map<int, ByteStation>)
    requires i < |buf| && buf[i] != NEWLINE && Scanned(buf, i, lineStart, n, m, s0)
    ensures Scanned(buf, i + 1, lineStart, n, m, s0)
  {
    var p, q := buf[..i], buf[..i + 1];
    assert q == p + [buf[i]];
    assert Lines(q) == Lines(p) && Pending(q) == Pending(p) + [buf[i]] by {
      LinesSnoc(p, buf[i]);
    }
    assert buf[lineStart..i + 1] == buf[lineStart..i] + [buf[i]];
  }

  /** A `\n` ends the open line, which is read next unless it is empty once its `\r` is dropped. */
  lemma EndLine(buf: seq<byte>, i: nat, lineStart: nat, n: int, m: map<int, ByteStation>, s0: map<int, ByteStation>)
    requires i < |buf| && buf[i] == NEWLINE && Parsable(Lines(buf))
    requires Scanned(buf, i, lineStart, n, m, s0)
    ensures var line := Line(buf[lineStart..i]);
      (line == [] ==> Scanned(buf, i + 1, i + 1, n, m, s0))
      && (line != [] ==>
            Splittable(line)
            && Scanned(buf, i + 1, i + 1, n + 1, Absorb(m, SimpleHash(Decode(line).stationId), Decode(line)), s0))
  {
    var line, before, after := Line(buf[lineStart..i]), Lines(buf[..i]), Lines(buf[..i + 1]);
    NextLines(buf, i, lineStart);
    if line == [] {
      assert after == before by {
        assert before + [] == before;
      }
    } else {
      assert Splittable(line) by {
        assert after[|before|] == line;
      }
      AbsorbLine(before, line, s0);
      assert Readings(after) == Readings(before + [line]);
    }
  }

  /** The lines after a `\n`: those before it, then the line it ends unless that is empty. */
  lemma NextLines(buf: seq<byte>, i: nat, lineStart: nat)
    requires lineStart <= i < |buf| && buf[i] == NEWLINE && Parsable(Lines(buf))
    requires buf[lineStart..i] == Pending(buf[..i])
    ensures var line := Line(buf[lineStart..i]);
      buf[i + 1..i + 1] == Pending(buf[..i + 1]) && Parsable(Lines(buf[..i + 1]))
      && Lines(buf[..i + 1]) == Lines(buf[..i]) + (if line == [] then [] else [line])
  {
    var p, q := buf[..i], buf[..i + 1];
    assert q == p + [buf[i]];
    assert Pending(q) == [] && Lines(q) == Lines(p) + (if Line(Pending(p)) == [] then [] else [Line(Pending(p))]) by {
      LinesSnoc(p, buf[i]);
    }
    ParsablePrefix(buf, i + 1);
  }

  /** The line `ParseBuffer` cuts out: up to the `\n` at `i`, or up to a `\r` just before it. */
  lemma TrimReturn(buf: seq<byte>, lineStart: nat, i: nat, lineEnd: nat)
    requires lineStart <= i <= |buf|
    requires lineEnd == if i > lineStart && buf[i - 1] == RETURN then i - 1 else i
    ensures Line(buf[lineStart..i]) == buf[lineStart..lineEnd]
  {
    if i > lineStart && buf[i - 1] == RETURN {
      assert buf[lineStart..i][..i - 1 - lineStart] == buf[lineStart..i - 1];
    }
  }

  /** One line more is one reading more, added to the table as `Add` does. */
  lemma AbsorbLine(before: seq<seq<byte>>, line: seq<byte>, m: map<int, ByteStation>)
    requires Parsable(before) && Splittable(line)
    ensures Parsable(before + [line])
    ensures AbsorbAll(m, Readings(before + [line]))
      == Absorb(AbsorbAll(m, Readings(before)), SimpleHash(Decode(line).stationId), Decode(line))
  {
    var after := before + [line];
    assert Parsable(after) by {
      forall i | 0 <= i < |after|
        ensures Splittable(after[i])
      {
        if i < |before| {
          assert after[i] == before[i];
        }
      }
    }
    assert after[..|after| - 1] == before;
    var rs := Readings(after);
    assert rs[..|rs| - 1] == Readings(before);
  }

  /** Where the cut goes: just after the last `\n`, or at the start when there is none. */
  function CutPoint(s: seq<byte>): (n: nat)
    ensures n <= |s|
  {
    if s == [] then 0
    else if s[|s| - 1] == NEWLINE then |s|
    else CutPoint(s[..|s| - 1])
  }

  /** Any split into a part ending in `\n` (or empty) and a part without `\n` is the cut at `CutPoint`. */
  lemma {:induction false} CutAt(p: seq<byte>, r: seq<byte>)
    requires NEWLINE !in r
    requires p == [] || p[|p| - 1] == NEWLINE
    ensures CutPoint(p + r) == |p|
    decreases |r|
  {
    if r == [] {
      assert p + r == p;
    } else {
      var u := r[..|r| - 1];
      assert (p + r)[..|p + r| - 1] == p + u;
      assert r[|r| - 1] in r;
      CutAt(p, u);
    }
  }

  /** There is one cut with those properties. */
  lemma CutUnique(p1: seq<byte>, r1: seq<byte>, p2: seq<byte>, r2: seq<byte>)
    requires p1 + r1 == p2 + r2
    requires NEWLINE !in r1 && NEWLINE !in r2
    requires p1 == [] || p1[|p1| - 1] == NEWLINE
    requires p2 == [] || p2[|p2| - 1] == NEWLINE
    ensures p1 == p2 && r1 == r2
  {
    CutAt(p1, r1);
    CutAt(p2, r2);
    assert p1 == (p1 + r1)[..|p1|] && p2 == (p2 + r2)[..|p2|];
  }

  /**
   * Parsing in cuts reads the same lines as reading the bytes in one go:
   * the parsed part holds exactly the lines the new read completes, and the
   * part carried over is the line still open.
   */
  lemma Advance(consumed: seq<byte>, chunk: seq<byte>, parse: seq<byte>, rest: seq<byte>)
    requires parse + rest == Pending(consumed) + chunk
    requires NEWLINE !in rest
    requires parse == [] || parse[|parse| - 1] == NEWLINE
    ensures Lines(consumed + chunk) == Lines(consumed) + Lines(parse)
    ensures Pending(consumed + chunk) == rest
  {
    var segs := Segments(consumed);
    var x := Join(segs);
    assert Segments(x) == segs && Pending(x) == [] && consumed == x + Pending(consumed) by {
      SegmentsJoin(consumed);
      JoinSegments(segs, []);
      assert x + [] == x;
    }
    assert consumed + chunk == (x + parse) + rest by {
      assert consumed + chunk == x + (Pending(consumed) + chunk);
    }
    assert Segments(x + parse) == segs + Segments(parse) && Pending(x + parse) == Pending(parse) by {
      SegmentsAppend(x, parse);
    }
    TailIgnored(x + parse, rest);
    KeptAppend(segs, Segments(parse));
  }

  /** The readings of a whole file: its lines, then the bytes after its last `\n` as one more line. */
  function AllLines(file: seq<byte>): seq<seq<byte>>
  {
    Lines(file) + if Pending(file) == [] then [] else [Pending(file)]
  }

  /**
   * One block read and cut: the lines `ParseBuffer` reads from the cut are
   * the ones the block completes, so the table holds the lines read so far.
   */
  lemma BlockStep(blocks: seq<seq<byte>>, k: nat, parse: seq<byte>, rest: seq<byte>, m: map<int, ByteStation>)
    requires k < |blocks| && Parsable(AllLines(Concat(blocks)))
    requires parse + rest == Pending(Concat(blocks[..k])) + blocks[k]
    requires NEWLINE !in rest
    requires parse == [] || parse[|parse| - 1] == NEWLINE
    ensures var consumed, next := Lines(Concat(blocks[..k])), Lines(Concat(blocks[..k + 1]));
      Parsable(consumed) && Parsable(Lines(parse)) && Parsable(next)
      && Pending(Concat(blocks[..k + 1])) == rest
      && |next| == |consumed| + |Lines(parse)|
      && AbsorbAll(AbsorbAll(m, Readings(consumed)), Readings(Lines(parse))) == AbsorbAll(m, Readings(next))
  {
    var file := Concat(blocks);
    var before, after := Concat(blocks[..k]), Concat(blocks[..k + 1]);
    ReadStep(blocks, k);
    Advance(before, blocks[k], parse, rest);
    assert Parsable(Lines(after)) by {
      FileLines(file);
      ReadPrefix(blocks, k + 1);
      assert file[..|after|] == after;
      ParsablePrefix(file, |after|);
    }
    ParsableSuffix(Lines(before), Lines(parse));
    ReadingsAppend(Lines(before), Lines(parse));
    AbsorbAllAppend(m, Readings(Lines(before)), Readings(Lines(parse)));
  }

  /** After the last block: the bytes after the last `\n`, if any, are read as one more line. */
  lemma Finish(file: seq<byte>, m: map<int, ByteStation>)
    requires Parsable(AllLines(file))
    ensures Parsable(Lines(file))
    ensures Pending(file) == [] ==> AllLines(file) == Lines(file)
    ensures var p := Pending(file);
      p != [] ==>
        Splittable(p) && |AllLines(file)| == |Lines(file)| + 1
        && AbsorbAll(m, Readings(AllLines(file)))
           == Absorb(AbsorbAll(m, Readings(Lines(file))), SimpleHash(Decode(p).stationId), Decode(p))
  {
    FileLines(file);
    var p, all := Pending(file), AllLines(file);
    if p != [] {
      assert all[..|all| - 1] == Lines(file);
      var rs := Readings(all);
      assert rs[..|rs| - 1] == Readings(Lines(file));
    }
  }

  /** The lines of the whole file are parsable when all of its lines are. */
  lemma FileLines(file: seq<byte>)
    requires Parsable(AllLines(file))
    ensures Parsable(Lines(file))
    ensures Pending(file) != [] ==> Splittable(Pending(file))
  {
    var all := AllLines(file);
    forall i | 0 <= i < |Lines(file)|
      ensures Splittable(Lines(file)[i])
    {
      assert Lines(file)[i] == all[i];
    }
    if Pending(file) != [] {
      assert all[|Lines(file)|] == Pending(file);
    }
  }

  /** One block more: its bytes follow the ones consumed so far. */
  lemma ReadStep(blocks: seq<seq<byte>>, k: nat)
    requires k < |blocks|
    ensures Concat(blocks[..k + 1]) == Concat(blocks[..k]) + blocks[k]
  {
    assert blocks[..k + 1][..k] == blocks[..k];
  }

  /** The blocks read so far are the start of the file. */
  lemma ReadPrefix(blocks: seq<seq<byte>>, k: nat)
    requires k <= |blocks|
    ensures Concat(blocks[..k]) <= Concat(blocks)
  {
    assert blocks == blocks[..k] + blocks[k..];
    ConcatAppend(blocks[..k], blocks[k..]);
  }

  lemma ParsableSuffix(a: seq<seq<byte>>, b: seq<seq<byte>>)
    requires Parsable(a + b)
    ensures Parsable(a) && Parsable(b)
  {
    forall i | 0 <= i < |b|
      ensures Splittable(b[i])
    {
      assert b[i] == (a + b)[|a| + i];
    }
    forall i | 0 <= i < |a|
      ensures Splittable(a[i])
    {
      assert a[i] == (a + b)[i];
    }
  }
}
