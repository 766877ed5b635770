/**
 * The I/O path of mbdev.c: mbdev_queue_rq (request based) and
 * mbdev_submit_bio (bio based). Both walk the request's segments in order,
 * starting at sector * 512 in the device buffer; a segment whose end passes
 * the capacity ends the request with an I/O error, and the segments copied
 * before it stay copied.
 *
 * A segment is the caller's page memory, modelled as a byte array of the
 * segment's length.
 */
module Io {
  import opened Machine
  import opened SectorMath
  import opened Registry

  /** blk_status_t values the driver returns. */
  datatype BlkStatus = StsOk | StsIoErr

  /** req_op(rq): the two data operations, or anything else. */
  datatype ReqOp = OpRead | OpWrite | OpOther(code: nat)

  // ---- specification on values ----

  /** The bytes of the segments, back to back. */
  function Concat(vs: seq<seq<Byte>>): seq<Byte>
  {
    if vs == [] then [] else Concat(vs[..|vs| - 1]) + vs[|vs| - 1]
  }

  lemma ConcatStep(vs: seq<seq<Byte>>, j: nat)
    requires j < |vs|
    ensures Concat(vs[..j + 1]) == Concat(vs[..j]) + vs[j]
  {
    assert vs[..j + 1][..j] == vs[..j];
  }

  /** The bytes of the first `m` segments open the bytes of all of them. */
  lemma {:induction false} ConcatPrefix(vs: seq<seq<Byte>>, m: nat)
    requires m <= |vs|
    ensures |Concat(vs[..m])| <= |Concat(vs)|
    ensures Concat(vs)[..|Concat(vs[..m])|] == Concat(vs[..m])
  {
    if m < |vs| {
      var n := |vs| - 1;
      assert vs[..n][..m] == vs[..m];
      ConcatPrefix(vs[..n], m);
      assert vs[..|vs|] == vs;
      assert Concat(vs) == Concat(vs[..n]) + vs[n];
    } else {
      assert vs[..m] == vs;
    }
  }

  /** Total lengths depend only on segment lengths. */
  lemma {:induction false} ConcatLengths(vs: seq<seq<Byte>>, ws: seq<seq<Byte>>)
    requires |vs| == |ws| && forall j :: 0 <= j < |vs| ==> |vs[j]| == |ws[j]|
    ensures |Concat(vs)| == |Concat(ws)|
  {
    if vs != [] {
      var n := |vs| - 1;
      ConcatLengths(vs[..n], ws[..n]);
    }
  }

  /** Segment `j` ends inside a buffer of `cap` bytes when the transfer starts at `pos0`. */
  predicate Fits(pos0: nat, vs: seq<seq<Byte>>, cap: nat, j: nat)
    requires j < |vs|
  {
    pos0 + |Concat(vs[..j + 1])| <= cap
  }

  function AcceptedFrom(pos0: nat, vs: seq<seq<Byte>>, cap: nat, j: nat): (k: nat)
    requires j <= |vs|
    ensures j <= k <= |vs|
    ensures forall i :: j <= i < k ==> Fits(pos0, vs, cap, i)
    ensures k < |vs| ==> !Fits(pos0, vs, cap, k)
    decreases |vs| - j
  {
    if j == |vs| || !Fits(pos0, vs, cap, j) then j else AcceptedFrom(pos0, vs, cap, j + 1)
  }

  /**
   * How many segments are copied: all of them, or those before the first
   * segment that ends past the capacity.
   */
  function Accepted(pos0: nat, vs: seq<seq<Byte>>, cap: nat): (k: nat)
    ensures k <= |vs|
    ensures forall i :: 0 <= i < k ==> Fits(pos0, vs, cap, i)
    ensures k < |vs| ==> !Fits(pos0, vs, cap, k)
  {
    AcceptedFrom(pos0, vs, cap, 0)
  }

  /** Number of bytes a request moves. */
  function Transferred(pos0: nat, vs: seq<seq<Byte>>, cap: nat): nat
  {
    |Concat(vs[..Accepted(pos0, vs, cap)])|
  }

  /** The buffer `d` with `c` copied in at offset `p`, when it fits. */
  function Splice(d: seq<Byte>, p: nat, c: seq<Byte>): (r: seq<Byte>)
    ensures |r| == |d|
  {
    if p + |c| <= |d| then d[..p] + c + d[p + |c|..] else d
  }

  lemma SpliceEmpty(d: seq<Byte>, p: nat)
    ensures Splice(d, p, []) == d
  {
  }

  /** Copying `c` and then `s` right after it is copying `c + s`. */
  lemma SpliceExtend(d: seq<Byte>, p: nat, c: seq<Byte>, s: seq<Byte>)
    requires p + |c| + |s| <= |d|
    ensures Splice(Splice(d, p, c), p + |c|, s) == Splice(d, p, c + s)
  {
    var e := Splice(d, p, c);
    assert e[..p + |c|] == d[..p] + c;
    assert e[p + |c| + |s|..] == d[p + |c| + |s|..];
  }

  /**
   * The device buffer after a write request: the accepted segments' bytes
   * land contiguously from `pos0`, and every other byte is kept.
   */
  function Written(d: seq<Byte>, pos0: nat, vs: seq<seq<Byte>>): (r: seq<Byte>)
    ensures |r| == |d|
    ensures forall t :: 0 <= t < |d| && !(pos0 <= t < pos0 + Transferred(pos0, vs, |d|)) ==> r[t] == d[t]
    ensures var k := Accepted(pos0, vs, |d|);
            k > 0 ==> pos0 + Transferred(pos0, vs, |d|) <= |d|
                      && r[pos0..pos0 + Transferred(pos0, vs, |d|)] == Concat(vs[..k])
  {
    var k := Accepted(pos0, vs, |d|);
    assert k > 0 ==> Fits(pos0, vs, |d|, k - 1) && vs[..k - 1 + 1] == vs[..k];
    Splice(d, pos0, Concat(vs[..k]))
  }

  /** What a write loop ends with: the device bytes, whether it ran to the end, the bytes moved. */
  datatype WriteOutcome = WriteOutcome(data: seq<Byte>, ok: bool, nbytes: nat)

  /**
   * The rest of the write loop, entered at segment `i` and device offset `p`
   * with the device holding `d` and `nbytes` bytes moved so far: a segment
   * that fits is copied in at `p` and the loop goes on; the first one that
   * does not fit stops it.
   */
  function WriteLoop(d: seq<Byte>, p: nat, vs: seq<seq<Byte>>, i: nat, nbytes: nat): (r: WriteOutcome)
    requires i <= |vs|
    ensures |r.data| == |d|
    decreases |vs| - i
  {
    if i == |vs| then WriteOutcome(d, true, nbytes)
    else if p + |vs[i]| > |d| then WriteOutcome(d, false, nbytes)
    else WriteLoop(d[..p] + vs[i] + d[p + |vs[i]|..], p + |vs[i]|, vs, i + 1, nbytes + |vs[i]|)
  }

  /**
   * Entered at segment `j` with the earlier segments' bytes already in
   * place, the write loop splices in the segments up to `AcceptedFrom(j)`.
   */
  lemma {:induction false} WriteLoopFrom(d0: seq<Byte>, pos0: nat, vs: seq<seq<Byte>>, j: nat, n: nat, d: seq<Byte>, p: nat)
    requires j <= |vs| && p == pos0 + |Concat(vs[..j])| <= |d0|
    requires d == Splice(d0, pos0, Concat(vs[..j]))
    ensures WriteLoop(d, p, vs, j, n).data == Splice(d0, pos0, Concat(vs[..AcceptedFrom(pos0, vs, |d0|, j)]))
    decreases |vs| - j
  {
    if j < |vs| {
      ConcatStep(vs, j);
      if Fits(pos0, vs, |d0|, j) {
        SpliceNext(d0, pos0, vs, j, d, p);
        WriteLoopFrom(d0, pos0, vs, j + 1, n + |vs[j]|, d[..p] + vs[j] + d[p + |vs[j]|..], p + |vs[j]|);
      }
    }
  }

  /** One fitting segment copied in at `p` extends the bytes spliced in so far by that segment. */
  lemma SpliceNext(d0: seq<Byte>, pos0: nat, vs: seq<seq<Byte>>, j: nat, d: seq<Byte>, p: nat)
    requires j < |vs| && Fits(pos0, vs, |d0|, j)
    requires p == pos0 + |Concat(vs[..j])| && d == Splice(d0, pos0, Concat(vs[..j]))
    ensures p + |vs[j]| == pos0 + |Concat(vs[..j + 1])| <= |d0| == |d|
    ensures d[..p] + vs[j] + d[p + |vs[j]|..] == Splice(d0, pos0, Concat(vs[..j + 1]))
  {
    ConcatStep(vs, j);
    SpliceExtend(d0, pos0, Concat(vs[..j]), vs[j]);
  }

  /** Whether the write loop runs to the end, and how many bytes it moves, depend only on lengths. */
  lemma {:induction false} WriteLoopCount(d: seq<Byte>, pos0: nat, vs: seq<seq<Byte>>, j: nat, n: nat)
    requires j <= |vs|
    ensures var r := WriteLoop(d, pos0 + |Concat(vs[..j])|, vs, j, n);
            var k := AcceptedFrom(pos0, vs, |d|, j);
            && r.ok == (k == |vs|)
            && r.nbytes + |Concat(vs[..j])| == n + |Concat(vs[..k])|
    decreases |vs| - j
  {
    if j < |vs| {
      ConcatStep(vs, j);
      if Fits(pos0, vs, |d|, j) {
        var p := pos0 + |Concat(vs[..j])|;
        var d' := d[..p] + vs[j] + d[p + |vs[j]|..];
        assert |d'| == |d|;
        WriteLoopCount(d', pos0, vs, j + 1, n + |vs[j]|);
      }
    }
  }

  /**
   * The write loop as a whole: it runs to the end exactly when every
   * segment is accepted, moves the accepted segments' bytes, and leaves
   * `Written`.
   */
  lemma WriteLoopMeaning(d: seq<Byte>, pos0: nat, vs: seq<seq<Byte>>)
    ensures var r := WriteLoop(d, pos0, vs, 0, 0);
            && r.ok == (Accepted(pos0, vs, |d|) == |vs|)
            && r.nbytes == Transferred(pos0, vs, |d|)
            && r.data == Written(d, pos0, vs)
  {
    assert vs[..0] == [];
    SpliceEmpty(d, pos0);
    WriteLoopCount(d, pos0, vs, 0, 0);
    if pos0 <= |d| {
      WriteLoopFrom(d, pos0, vs, 0, 0, d, pos0);
    } else if vs != [] {
      ConcatStep(vs, 0);
      assert !Fits(pos0, vs, |d|, 0);
    }
  }

  /** Where segment `j` starts in the device buffer. */
  function Start(pos0: nat, vs: seq<seq<Byte>>, j: nat): nat
    requires j <= |vs|
  {
    pos0 + |Concat(vs[..j])|
  }

  /**
   * What segment `j` holds after a read request: the device bytes at its
   * offset when it fits, and otherwise its own unchanged bytes.
   */
  function ReadSegment(d: seq<Byte>, pos0: nat, vs: seq<seq<Byte>>, j: nat): (r: seq<Byte>)
    requires j < |vs|
    ensures |r| == |vs[j]|
  {
    var s := Start(pos0, vs, j);
    if s + |vs[j]| <= |d| then d[s..s + |vs[j]|] else vs[j]
  }

  /** A segment that does not fit at its offset is left as it was, and so is every later one. */
  lemma ReadSegmentCases(d: seq<Byte>, pos0: nat, vs: seq<seq<Byte>>, j: nat)
    requires j < |vs|
    ensures j < Accepted(pos0, vs, |d|) ==>
              Start(pos0, vs, j) + |vs[j]| <= |d|
              && ReadSegment(d, pos0, vs, j) == d[Start(pos0, vs, j)..Start(pos0, vs, j) + |vs[j]|]
    ensures j >= Accepted(pos0, vs, |d|) ==> ReadSegment(d, pos0, vs, j) == vs[j]
  {
    var k := Accepted(pos0, vs, |d|);
    ConcatStep(vs, j);
    if j < k {
      assert Fits(pos0, vs, |d|, j);
    } else if j > k {
      ConcatStep(vs, k);
      ConcatPrefix(vs[..j], k + 1);
      assert vs[..j][..k + 1] == vs[..k + 1];
    }
  }

  /** Earlier segments end no later than later ones. */
  lemma ConcatMonotone(vs: seq<seq<Byte>>, a: nat, b: nat)
    requires a <= b <= |vs|
    ensures |Concat(vs[..a])| <= |Concat(vs[..b])|
  {
    ConcatPrefix(vs[..b], a);
    assert vs[..b][..a] == vs[..a];
  }

  /** Once segment `j` does not fit, no later segment does either. */
  lemma ReadSegmentPast(d: seq<Byte>, pos0: nat, vs: seq<seq<Byte>>, j: nat, m: nat)
    requires j <= m < |vs| && Start(pos0, vs, j) + |vs[j]| > |d|
    ensures ReadSegment(d, pos0, vs, m) == vs[m]
  {
    ConcatStep(vs, j);
    ConcatMonotone(vs, j + 1, m + 1);
    ConcatStep(vs, m);
  }

  /** What a read loop ends with: the segment contents, whether it ran to the end, the bytes moved. */
  datatype ReadOutcome = ReadOutcome(segs: seq<seq<Byte>>, ok: bool, nbytes: nat)

  /**
   * The rest of the read loop, entered at segment `i` and device offset `p`
   * with the segments holding `outs` and `nbytes` bytes moved so far: a
   * segment that fits receives the device bytes at `p` and the loop goes
   * on; the first one that does not fit stops it.
   */
  function ReadLoop(d: seq<Byte>, p: nat, outs: seq<seq<Byte>>, i: nat, nbytes: nat): (r: ReadOutcome)
    requires i <= |outs|
    ensures |r.segs| == |outs|
    decreases |outs| - i
  {
    if i == |outs| then ReadOutcome(outs, true, nbytes)
    else if p + |outs[i]| > |d| then ReadOutcome(outs, false, nbytes)
    else ReadLoop(d, p + |outs[i]|, outs[i := d[p..p + |outs[i]|]], i + 1, nbytes + |outs[i]|)
  }

  /**
   * Entered at segment `j` of a request at `pos0`, the loop keeps what the
   * earlier segments hold and leaves `ReadSegment` in every later one.
   */
  lemma {:induction false} ReadLoopSegments(d: seq<Byte>, pos0: nat, vs: seq<seq<Byte>>, outs: seq<seq<Byte>>, j: nat, n: nat)
    requires j <= |vs| == |outs| && outs[j..] == vs[j..]
    ensures var r := ReadLoop(d, Start(pos0, vs, j), outs, j, n);
            && (forall m :: 0 <= m < j ==> r.segs[m] == outs[m])
            && (forall m :: j <= m < |vs| ==> r.segs[m] == ReadSegment(d, pos0, vs, m))
    decreases |vs| - j
  {
    if j < |vs| {
      var p := Start(pos0, vs, j);
      assert outs[j] == outs[j..][0] == vs[j];
      if p + |vs[j]| > |d| {
        forall m | j <= m < |vs|
          ensures outs[m] == ReadSegment(d, pos0, vs, m)
        {
          assert outs[m] == outs[j..][m - j];
          ReadSegmentPast(d, pos0, vs, j, m);
        }
      } else {
        ConcatStep(vs, j);
        assert Start(pos0, vs, j + 1) == p + |vs[j]|;
        var outs' := outs[j := d[p..p + |vs[j]|]];
        assert outs'[j + 1..] == outs[j + 1..] == vs[j + 1..] by {
          assert outs[j + 1..] == outs[j..][1..];
          assert vs[j + 1..] == vs[j..][1..];
        }
        ReadLoopSegments(d, pos0, vs, outs', j + 1, n + |vs[j]|);
        var r := ReadLoop(d, p + |vs[j]|, outs', j + 1, n + |vs[j]|);
        assert ReadLoop(d, p, outs, j, n) == r;
        assert r.segs[j] == outs'[j] == ReadSegment(d, pos0, vs, j);
      }
    }
  }

  /** Entered at segment `j`, the loop's status and byte count agree with `AcceptedFrom`. */
  lemma {:induction false} ReadLoopCount(d: seq<Byte>, pos0: nat, vs: seq<seq<Byte>>, outs: seq<seq<Byte>>, j: nat, n: nat)
    requires j <= |vs| == |outs| && forall m :: j <= m < |vs| ==> |outs[m]| == |vs[m]|
    ensures var r := ReadLoop(d, Start(pos0, vs, j), outs, j, n);
            var k := AcceptedFrom(pos0, vs, |d|, j);
            && r.ok == (k == |vs|)
            && r.nbytes + |Concat(vs[..j])| == n + |Concat(vs[..k])|
    decreases |vs| - j
  {
    if j < |vs| {
      ConcatStep(vs, j);
      if Fits(pos0, vs, |d|, j) {
        var p := Start(pos0, vs, j);
        ReadLoopCount(d, pos0, vs, outs[j := d[p..p + |vs[j]|]], j + 1, n + |vs[j]|);
      }
    }
  }

  /** The segment contents after a read request at `pos0`, as the loop leaves them. */
  function ReadResult(d: seq<Byte>, pos0: nat, vs: seq<seq<Byte>>): (r: seq<seq<Byte>>)
    ensures |r| == |vs|
    ensures forall j :: 0 <= j < |vs| ==> r[j] == ReadSegment(d, pos0, vs, j)
  {
    assert vs[..0] == [];
    ReadLoopSegments(d, pos0, vs, vs, 0, 0);
    ReadLoop(d, pos0, vs, 0, 0).segs
  }

  /**
   * The read loop as a whole: it runs to the end exactly when every segment
   * is accepted, moves the accepted segments' bytes, and leaves `ReadResult`.
   */
  lemma ReadLoopMeaning(d: seq<Byte>, pos0: nat, vs: seq<seq<Byte>>)
    ensures var r := ReadLoop(d, pos0, vs, 0, 0);
            && r.ok == (Accepted(pos0, vs, |d|) == |vs|)
            && r.nbytes == Transferred(pos0, vs, |d|)
            && r.segs == ReadResult(d, pos0, vs)
  {
    assert vs[..0] == [];
    ReadLoopCount(d, pos0, vs, vs, 0, 0);
  }

  /** Segments of the same lengths start at the same offsets. */
  lemma SameShape(ws: seq<seq<Byte>>, rs: seq<seq<Byte>>)
    requires |rs| == |ws| && forall j :: 0 <= j < |rs| ==> |rs[j]| == |ws[j]|
    ensures forall m :: 0 <= m <= |rs| ==> |Concat(rs[..m])| == |Concat(ws[..m])|
  {
    forall m | 0 <= m <= |rs|
      ensures |Concat(rs[..m])| == |Concat(ws[..m])|
    {
      ConcatLengths(rs[..m], ws[..m]);
    }
  }

  /** The bytes spliced in are read back at their offset. */
  lemma SpliceSlice(d: seq<Byte>, p: nat, c: seq<Byte>, a: nat, b: nat)
    requires p + |c| <= |d| && a <= b <= |c|
    ensures Splice(d, p, c)[p + a..p + b] == c[a..b]
  {
    var e := Splice(d, p, c);
    assert e[p..p + |c|] == c;
    assert e[p + a..p + b] == e[p..p + |c|][a..b];
  }

  /** Segment `j` sits in the concatenation right after the segments before it. */
  lemma ConcatSlice(ws: seq<seq<Byte>>, j: nat)
    requires j < |ws|
    ensures |Concat(ws[..j])| + |ws[j]| <= |Concat(ws)|
    ensures Concat(ws)[|Concat(ws[..j])|..|Concat(ws[..j])| + |ws[j]|] == ws[j]
  {
    var c := Concat(ws);
    ConcatStep(ws, j);
    ConcatPrefix(ws, j + 1);
    var a, b := |Concat(ws[..j])|, |Concat(ws[..j + 1])|;
    assert c[..b] == Concat(ws[..j]) + ws[j];
    assert c[a..b] == c[..b][a..];
  }

  /** A write whose every segment is accepted splices in all their bytes. */
  lemma WrittenAll(d: seq<Byte>, pos0: nat, ws: seq<seq<Byte>>)
    requires Accepted(pos0, ws, |d|) == |ws|
    ensures ws != [] ==> pos0 + |Concat(ws)| <= |d|
    ensures Written(d, pos0, ws) == Splice(d, pos0, Concat(ws))
  {
    assert ws[..|ws|] == ws;
    if ws != [] {
      var n := |ws| - 1;
      assert Fits(pos0, ws, |d|, n);
      assert ws[..n + 1] == ws;
      assert pos0 + |Concat(ws[..n + 1])| <= |d|;
    }
  }

  /** After a fully accepted write, segment `j`'s bytes sit at its offset. */
  lemma WrittenSegment(d: seq<Byte>, pos0: nat, ws: seq<seq<Byte>>, j: nat)
    requires Accepted(pos0, ws, |d|) == |ws| && j < |ws|
    ensures Start(pos0, ws, j) + |ws[j]| <= |d|
    ensures Written(d, pos0, ws)[Start(pos0, ws, j)..Start(pos0, ws, j) + |ws[j]|] == ws[j]
  {
    WrittenAll(d, pos0, ws);
    ConcatSlice(ws, j);
    var a := |Concat(ws[..j])|;
    SpliceSlice(d, pos0, Concat(ws), a, a + |ws[j]|);
  }

  /**
   * Round trip: after a write request that was fully accepted, a read request
   * at the same offset with segments of the same lengths is fully accepted
   * too and returns exactly the bytes written, segment by segment.
   */
  lemma WriteThenRead(d: seq<Byte>, pos0: nat, ws: seq<seq<Byte>>, rs: seq<seq<Byte>>)
    requires Accepted(pos0, ws, |d|) == |ws|
    requires |rs| == |ws| && forall j :: 0 <= j < |rs| ==> |rs[j]| == |ws[j]|
    ensures Accepted(pos0, rs, |Written(d, pos0, ws)|) == |rs|
    ensures ReadResult(Written(d, pos0, ws), pos0, rs) == ws
  {
    var w := Written(d, pos0, ws);
    SameShape(ws, rs);
    forall j | 0 <= j < |rs|
      ensures Fits(pos0, rs, |w|, j)
    {
      assert Fits(pos0, ws, |d|, j);
    }
    forall j | 0 <= j < |rs|
      ensures ReadSegment(w, pos0, rs, j) == ws[j]
    {
      WrittenSegment(d, pos0, ws, j);
    }
  }

  // ---- the request paths ----

  /** The contents of the segment buffers. */
  function SegData(segs: seq<array<Byte>>): (vs: seq<seq<Byte>>)
    reads segs
    ensures |vs| == |segs| && forall i :: 0 <= i < |segs| ==> vs[i] == segs[i][..]
  {
    seq(|segs|, i requires 0 <= i < |segs| reads segs => segs[i][..])
  }

  /** memcpy(dst + dOff, src + sOff, len) between two distinct buffers. */
  method Memcpy(dst: array<Byte>, dOff: nat, src: array<Byte>, sOff: nat, len: nat)
    requires dst != src
    requires dOff + len <= dst.Length && sOff + len <= src.Length
    modifies dst
    ensures dst[..] == old(dst[..dOff]) + src[sOff..sOff + len] + old(dst[dOff + len..])
  {
    forall t | 0 <= t < len {
      dst[dOff + t] := src[sOff + t];
    }
  }

  /** The segment loop of a write: copies from the segments into the device buffer. */
  method WriteSegments(data: array<Byte>, pos0: nat, segs: seq<array<Byte>>) returns (ok: bool, nbytes: nat)
    requires forall i :: 0 <= i < |segs| ==> segs[i] != data
    modifies data
    ensures SegData(segs) == old(SegData(segs))
    ensures WriteLoop(old(data[..]), pos0, SegData(segs), 0, 0) == WriteOutcome(data[..], ok, nbytes)
  {
    ghost var vs := SegData(segs);
    ghost var whole := WriteLoop(data[..], pos0, vs, 0, 0);
    var pos: nat := pos0;
    nbytes := 0;
    ok := true;
    var i := 0;
    while i < |segs|
      invariant i <= |segs| == |vs| && ok
      invariant SegData(segs) == vs
      invariant WriteLoop(data[..], pos, vs, i, nbytes) == whole
    {
      var len := segs[i].Length;
      var src := segs[i];
      assert src[..] == vs[i];
      if pos + len > data.Length {
        ok := false;
        break;
      }
      ghost var before := data[..];
      Memcpy(data, pos, src, 0, len);
      assert data[..] == before[..pos] + vs[i] + before[pos + len..];
      pos := pos + len;
      nbytes := nbytes + len;
      i := i + 1;
    }
  }

  /** memcpy(buf, bdev->data + pos, len) into segment `i`, which no other segment shares. */
  method CopyToSegment(data: array<Byte>, pos: nat, segs: seq<array<Byte>>, i: nat)
    requires forall j :: 0 <= j < |segs| ==> segs[j] != data
    requires forall j, l :: 0 <= j < l < |segs| ==> segs[j] != segs[l]
    requires i < |segs| && pos + segs[i].Length <= data.Length
    modifies segs[i]
    ensures SegData(segs) == old(SegData(segs))[i := data[pos..pos + segs[i].Length]]
  {
    var target := segs[i];
    ghost var after := old(SegData(segs))[i := data[pos..pos + target.Length]];
    forall t | 0 <= t < target.Length {
      target[t] := data[pos + t];
    }
    assert target[..] == data[pos..pos + target.Length];
    forall j | 0 <= j < |segs|
      ensures segs[j][..] == after[j]
    {
      if j != i {
        assert segs[j] != target;
        assert segs[j][..] == old(segs[j][..]);
      }
    }
  }

  /** The segment loop of a read: copies from the device buffer into the segments. */
  method ReadSegments(data: array<Byte>, pos0: nat, segs: seq<array<Byte>>) returns (ok: bool, nbytes: nat)
    requires forall i :: 0 <= i < |segs| ==> segs[i] != data
    requires forall i, j :: 0 <= i < j < |segs| ==> segs[i] != segs[j]
    modifies segs
    ensures ReadLoop(data[..], pos0, old(SegData(segs)), 0, 0) == ReadOutcome(SegData(segs), ok, nbytes)
  {
    ghost var d := data[..];
    ghost var outs := SegData(segs);
    ghost var whole := ReadLoop(d, pos0, outs, 0, 0);
    var pos: nat := pos0;
    nbytes := 0;
    ok := true;
    var i := 0;
    while i < |segs|
      invariant i <= |segs| == |outs| && ok
      invariant data[..] == d
      invariant SegData(segs) == outs
      invariant ReadLoop(d, pos, outs, i, nbytes) == whole
    {
      var len := segs[i].Length;
      assert len == |outs[i]|;
      if pos + len > data.Length {
        ok := false;
        break;
      }
      CopyToSegment(data, pos, segs, i);
      outs := outs[i := d[pos..pos + len]];
      pos := pos + len;
      nbytes := nbytes + len;
      i := i + 1;
    }
  }

  /**
   * mbdev_queue_rq: an operation other than read or write fails before any
   * copy; otherwise the segments are copied from sector * 512 on.
   */
  method QueueRq(dev: Dev, op: ReqOp, sector: nat, segs: seq<array<Byte>>) returns (rc: BlkStatus)
    requires dev.Valid()
    requires forall i :: 0 <= i < |segs| ==> segs[i] != dev.data
    requires op.OpRead? ==> forall i, j :: 0 <= i < j < |segs| ==> segs[i] != segs[j]
    modifies dev.data, segs
    ensures op.OpOther? ==> rc == StsIoErr
    ensures !op.OpWrite? ==> dev.data[..] == old(dev.data[..])
    ensures !op.OpRead? ==> SegData(segs) == old(SegData(segs))
    ensures op.OpWrite? ==>
              && dev.data[..] == Written(old(dev.data[..]), sector * SECTOR_SIZE, SegData(segs))
              && rc == (if Accepted(sector * SECTOR_SIZE, SegData(segs), dev.capacity) == |segs|
                        then StsOk else StsIoErr)
    ensures op.OpRead? ==>
              var vs := old(SegData(segs));
              var k := Accepted(sector * SECTOR_SIZE, vs, dev.capacity);
              && rc == (if k == |segs| then StsOk else StsIoErr)
              && SegData(segs) == ReadResult(dev.data[..], sector * SECTOR_SIZE, vs)
  {
    if op.OpOther? {
      return StsIoErr;
    }
    var pos := sector * SECTOR_SIZE;
    var ok, nbytes;
    if op == OpWrite {
      WriteLoopMeaning(dev.data[..], pos, SegData(segs));
      ok, nbytes := WriteSegments(dev.data, pos, segs);
    } else {
      ReadLoopMeaning(dev.data[..], pos, SegData(segs));
      ok, nbytes := ReadSegments(dev.data, pos, segs);
    }
    rc := if ok then StsOk else StsIoErr;
  }

  /**
   * mbdev_submit_bio: the direction bit selects write or read (there is no
   * third case), and the status is left in bi_status.
   */
  method SubmitBio(dev: Dev, isWrite: bool, sector: nat, segs: seq<array<Byte>>) returns (status: BlkStatus)
    requires dev.Valid()
    requires forall i :: 0 <= i < |segs| ==> segs[i] != dev.data
    requires !isWrite ==> forall i, j :: 0 <= i < j < |segs| ==> segs[i] != segs[j]
    modifies dev.data, segs
    ensures isWrite ==>
              && dev.data[..] == Written(old(dev.data[..]), sector * SECTOR_SIZE, SegData(segs))
              && SegData(segs) == old(SegData(segs))
              && status == (if Accepted(sector * SECTOR_SIZE, SegData(segs), dev.capacity) == |segs|
                            then StsOk else StsIoErr)
    ensures !isWrite ==>
              var vs := old(SegData(segs));
              var k := Accepted(sector * SECTOR_SIZE, vs, dev.capacity);
              && dev.data[..] == old(dev.data[..])
              && status == (if k == |segs| then StsOk else StsIoErr)
              && SegData(segs) == ReadResult(dev.data[..], sector * SECTOR_SIZE, vs)
  {
    var pos := sector * SECTOR_SIZE;
    var ok, nbytes;
    if isWrite {
      WriteLoopMeaning(dev.data[..], pos, SegData(segs));
      ok, nbytes := WriteSegments(dev.data, pos, segs);
    } else {
      ReadLoopMeaning(dev.data[..], pos, SegData(segs));
      ok, nbytes := ReadSegments(dev.data, pos, segs);
    }
    status := if ok then StsOk else StsIoErr;
  }
}
