/**
 * The command-line client of ctrl.c, restricted to what it computes: the
 * entry count it reads back from a List reply, the order it prints the
 * entries in, and the guard that keeps it from sending a Delete for the
 * unset minor.
 */
module Client {
  import opened Machine
  import opened Wrappers
  import opened Ctrl

  /** The client's reply buffer: a header and room for every possible device. */
  const CLIENT_BUF_SIZE: nat := LIST_HDR_SIZE + BDEV_MAX_SZ * INFO_SIZE

  /** A `size_t` reduced to `int` by the implicit conversion on assignment. */
  function EntryCount(size: U64): (n: I32)
    ensures LIST_HDR_SIZE <= size <= CLIENT_BUF_SIZE ==> n == (size - LIST_HDR_SIZE) / INFO_SIZE
  {
    WrapI32((size - LIST_HDR_SIZE) % U64_LIMIT / INFO_SIZE)
  }

  /** The client's count inverts the server's size computation. */
  lemma EntryCountInverts(k: nat)
    requires k <= BDEV_MAX_SZ
    ensures ListSize(k) <= CLIENT_BUF_SIZE
    ensures EntryCount(ListSize(k)) == k
  {
    assert (ListSize(k) - LIST_HDR_SIZE) / INFO_SIZE == k * INFO_SIZE / INFO_SIZE;
  }

  // ---- reading the reply buffer ----

  /** Record `i` of the reply buffer. */
  function EntryAt(buf: seq<Byte>, i: nat): BdevInfo
    requires LIST_HDR_SIZE + (i + 1) * INFO_SIZE <= |buf|
  {
    DecodeInfo(buf[LIST_HDR_SIZE + i * INFO_SIZE..LIST_HDR_SIZE + (i + 1) * INFO_SIZE])
  }

  /** The header and the first `n` records of the reply buffer, as `cmd->bdevs[0..n)` sees them. */
  function DecodeEntries(buf: seq<Byte>, n: nat): (es: seq<BdevInfo>)
    requires LIST_HDR_SIZE + n * INFO_SIZE <= |buf|
    ensures |es| == n && forall i :: 0 <= i < n ==> es[i] == EntryAt(buf, i)
  {
    seq(n, i requires 0 <= i < n => EntryAt(buf, i))
  }

  lemma {:induction false} EncodeInfosSlice(es: seq<BdevInfo>, i: nat)
    requires NamesWellFormed(es) && i < |es|
    ensures EncodeInfos(es)[i * INFO_SIZE..(i + 1) * INFO_SIZE] == EncodeInfo(es[i])
  {
    if i > 0 {
      EncodeInfosSlice(es[1..], i - 1);
      assert EncodeInfos(es) == EncodeInfo(es[0]) + EncodeInfos(es[1..]);
      assert (i - 1) * INFO_SIZE + INFO_SIZE == i * INFO_SIZE;
    }
  }

  /**
   * A server reply read through the client's buffer (whatever the malloc'd
   * bytes after it hold) gives back the size, the count and every record.
   */
  lemma ReplyRoundTrip(c: ListCmd, rest: seq<Byte>)
    requires |c.bdevs| <= BDEV_MAX_SZ && c.size == ListSize(|c.bdevs|) && NamesWellFormed(c.bdevs)
    requires |EncodeListReply(c)| + |rest| == CLIENT_BUF_SIZE
    ensures var buf := EncodeListReply(c) + rest;
            && DecodeLE(buf[..LIST_HDR_SIZE]) == c.size
            && EntryCount(c.size) == |c.bdevs|
            && DecodeEntries(buf, |c.bdevs|) == c.bdevs
  {
    var buf := EncodeListReply(c) + rest;
    var body := EncodeInfos(c.bdevs);
    assert buf[..LIST_HDR_SIZE] == EncodeLE(c.size, LIST_HDR_SIZE);
    assert Pow256(8) == U64_LIMIT;
    DecodeEncodeLE(c.size, LIST_HDR_SIZE);
    EntryCountInverts(|c.bdevs|);
    forall i | 0 <= i < |c.bdevs|
      ensures EntryAt(buf, i) == c.bdevs[i]
    {
      EncodeInfosSlice(c.bdevs, i);
      assert buf[LIST_HDR_SIZE + i * INFO_SIZE..LIST_HDR_SIZE + (i + 1) * INFO_SIZE]
          == body[i * INFO_SIZE..(i + 1) * INFO_SIZE];
      DecodeEncodeInfo(c.bdevs[i]);
    }
  }

  // ---- ordering ----

  /** _cmp: the difference of two `unsigned` minors, returned as `int`. */
  function Cmp(l: U32, r: U32): (c: I32)
    ensures l < 0x8000_0000 && r < 0x8000_0000 ==> (c < 0 <==> l < r) && (c == 0 <==> l == r)
  {
    I32FromBits((l - r) % U32_LIMIT)
  }

  /**
   * Minors more than 2^31 apart with l < r, or at least 2^31 apart with
   * l > r, make _cmp answer the wrong way round.
   */
  lemma CmpWrapsForDistantMinors(l: U32, r: U32)
    ensures l + 0x8000_0000 < r ==> Cmp(l, r) > 0
    ensures r + 0x8000_0000 <= l ==> Cmp(l, r) < 0
  {
  }

  predicate SortedByMinor(s: seq<BdevInfo>)
  {
    forall i, j :: 0 <= i < j < |s| ==> s[i].minor <= s[j].minor
  }

  predicate SmallMinors(s: seq<BdevInfo>)
  {
    forall i :: 0 <= i < |s| ==> s[i].minor < 0x8000_0000
  }

  /** Places `x` before the first entry that _cmp does not rank below it. */
  function Insert(x: BdevInfo, s: seq<BdevInfo>): (r: seq<BdevInfo>)
    ensures multiset(r) == multiset(s) + multiset{x}
  {
    if s == [] then [x]
    else if Cmp(x.minor, s[0].minor) <= 0 then [x] + s
    else
      assert s == [s[0]] + s[1..];
      [s[0]] + Insert(x, s[1..])
  }

  predicate AtLeast(s: seq<BdevInfo>, b: nat)
  {
    forall i :: 0 <= i < |s| ==> b <= s[i].minor
  }

  lemma {:induction false} InsertAtLeast(x: BdevInfo, s: seq<BdevInfo>, b: nat)
    requires AtLeast(s, b) && b <= x.minor
    ensures AtLeast(Insert(x, s), b)
  {
    if s != [] && Cmp(x.minor, s[0].minor) > 0 {
      InsertAtLeast(x, s[1..], b);
    }
  }

  lemma {:induction false} InsertSmall(x: BdevInfo, s: seq<BdevInfo>)
    requires SmallMinors(s) && x.minor < 0x8000_0000
    ensures SmallMinors(Insert(x, s))
  {
    if s != [] && Cmp(x.minor, s[0].minor) > 0 {
      InsertSmall(x, s[1..]);
    }
  }

  lemma {:induction false} InsertSorted(x: BdevInfo, s: seq<BdevInfo>)
    requires SortedByMinor(s) && SmallMinors(s) && x.minor < 0x8000_0000
    ensures SortedByMinor(Insert(x, s)) && SmallMinors(Insert(x, s))
  {
    InsertSmall(x, s);
    if s != [] {
      if Cmp(x.minor, s[0].minor) > 0 {
        InsertSorted(x, s[1..]);
        InsertAtLeast(x, s[1..], s[0].minor);
      } else {
        assert forall k :: 0 <= k < |s| ==> s[0].minor <= s[k].minor;
      }
    }
  }

  /**
   * qsort(cmd->bdevs, n, sizeof(*info), _cmp), as an insertion sort that
   * orders entries by _cmp.
   */
  function SortByMinor(s: seq<BdevInfo>): (r: seq<BdevInfo>)
    ensures multiset(r) == multiset(s) && |r| == |s|
  {
    if s == [] then []
    else
      assert s == [s[0]] + s[1..];
      Insert(s[0], SortByMinor(s[1..]))
  }

  /** With every minor below 2^31, the result is in ascending minor order. */
  lemma {:induction false} SortByMinorSorted(s: seq<BdevInfo>)
    requires SmallMinors(s)
    ensures SortedByMinor(SortByMinor(s)) && SmallMinors(SortByMinor(s))
  {
    if s != [] {
      SortByMinorSorted(s[1..]);
      InsertSorted(s[0], SortByMinor(s[1..]));
    }
  }

  // ---- handle_list ----

  /** One printed line: the name up to its NUL, the capacity and the open count. */
  datatype Line = Line(name: seq<Byte>, capacity: U64, refcnt: I32)

  function LineOf(i: BdevInfo): Line
  {
    Line(CString(i.name), i.capacity, i.refcnt)
  }

  /** The qsort call: the first `n` slots are replaced by their sorted order. */
  method SortEntries(bdevs: array<BdevInfo>, n: nat)
    requires n <= bdevs.Length
    modifies bdevs
    ensures bdevs[..n] == SortByMinor(old(bdevs[..n]))
    ensures bdevs[n..] == old(bdevs[n..])
  {
    var sorted := SortByMinor(bdevs[..n]);
    forall k | 0 <= k < n {
      bdevs[k] := sorted[k];
    }
    assert bdevs[..n] == sorted;
  }

  /** The printf loop: one line per entry, in slot order. */
  method PrintEntries(bdevs: array<BdevInfo>, n: nat) returns (lines: seq<Line>)
    requires n <= bdevs.Length
    ensures |lines| == n && forall i :: 0 <= i < n ==> lines[i] == LineOf(bdevs[i])
  {
    lines := [];
    var i := 0;
    while i < n
      invariant 0 <= i <= n
      invariant |lines| == i && forall k :: 0 <= k < i ==> lines[k] == LineOf(bdevs[k])
    {
      lines := lines + [LineOf(bdevs[i])];
      i := i + 1;
    }
  }

  /**
   * handle_list after the ioctl: `rc` is its result, `size` the reply's
   * header and `bdevs` the 256 record slots of the reply buffer. On success
   * the first n slots are sorted in place and printed, one line each.
   */
  method HandleList(rc: int, size: U64, bdevs: array<BdevInfo>) returns (lines: seq<Line>)
    requires bdevs.Length == BDEV_MAX_SZ
    requires rc == 0 ==> LIST_HDR_SIZE <= size <= CLIENT_BUF_SIZE
    modifies bdevs
    ensures rc != 0 ==> lines == [] && bdevs[..] == old(bdevs[..])
    ensures rc == 0 ==>
              var n := (size - LIST_HDR_SIZE) / INFO_SIZE;
              && n <= BDEV_MAX_SZ
              && bdevs[..n] == SortByMinor(old(bdevs[..n]))
              && bdevs[n..] == old(bdevs[n..])
              && |lines| == n
              && forall i :: 0 <= i < n ==> lines[i] == LineOf(bdevs[i])
  {
    if rc != 0 {
      return [];
    }
    var n := EntryCount(size);
    assert n == (size - LIST_HDR_SIZE) / INFO_SIZE <= BDEV_MAX_SZ;
    SortEntries(bdevs, n);
    lines := PrintEntries(bdevs, n);
  }

  // ---- handle_del ----

  /** `(unsigned)-1`, the client's "no minor given" value. */
  const UNSET_MINOR: U32 := (-1) % U32_LIMIT

  /**
   * handle_del: the Delete request the client sends for `minor`, or None
   * when it refuses to send one.
   */
  function DelRequest(minor: U32): (r: Option<seq<Byte>>)
    ensures r.None? <==> minor == U32_LIMIT - 1
    ensures r.Some? ==> |r.value| == DEL_CMD_SIZE && DecodeDel(r.value) == DelCmd(minor)
  {
    if minor == UNSET_MINOR then None
    else
      DecodeEncodeDel(DelCmd(minor));
      Some(EncodeDel(DelCmd(minor)))
  }
}
